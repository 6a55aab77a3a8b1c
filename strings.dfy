/** Python string helpers the core relies on: `sep.join(xs)`, `reversed(xs)`,
    `s.split(sep)` and the code-point ordering that `list.sort(key=name)` uses. */
module Strings {

  /** `sep.join(xs)` for a one-character separator. */
  function Join(sep: char, xs: seq<string>): string
  {
    if |xs| == 0 then ""
    else if |xs| == 1 then xs[0]
    else xs[0] + [sep] + Join(sep, xs[1..])
  }

  /** `list(reversed(xs))` */
  function Reverse<T>(xs: seq<T>): (r: seq<T>)
    ensures |r| == |xs|
    ensures forall i :: 0 <= i < |xs| ==> r[i] == xs[|xs| - 1 - i]
  {
    if |xs| == 0 then [] else Reverse(xs[1..]) + [xs[0]]
  }

  /** Joining a string in front of a non-empty list adds one separator. */
  lemma JoinCons(sep: char, x: string, xs: seq<string>)
    requires xs != []
    ensures Join(sep, [x] + xs) == x + [sep] + Join(sep, xs)
  {
    assert ([x] + xs)[1..] == xs;
  }

  /** The index of the first occurrence of `sep` in `s`, if any. */
  function Find(sep: char, s: string): (r: int)
    ensures -1 <= r < |s|
    ensures r >= 0 ==> s[r] == sep && sep !in s[..r]
    ensures r < 0 ==> sep !in s
  {
    if |s| == 0 then -1
    else if s[0] == sep then 0
    else
      var k := Find(sep, s[1..]);
      if k < 0 then -1 else k + 1
  }

  /** `s.split(sep)` for a one-character separator: never empty. */
  function Split(sep: char, s: string): (r: seq<string>)
    ensures |r| > 0
    decreases |s|
  {
    var k := Find(sep, s);
    if k < 0 then [s] else [s[..k]] + Split(sep, s[k + 1..])
  }

  /** No piece of `s.split(sep)` holds the separator. */
  lemma {:induction false} SplitPiecesFree(sep: char, s: string)
    ensures forall i :: 0 <= i < |Split(sep, s)| ==> sep !in Split(sep, s)[i]
    decreases |s|
  {
    var k := Find(sep, s);
    if k < 0 {
      assert Split(sep, s) == [s];
    } else {
      var rest := Split(sep, s[k + 1..]);
      SplitPiecesFree(sep, s[k + 1..]);
      var r := [s[..k]] + rest;
      assert Split(sep, s) == r;
      assert r[0] == s[..k];
      forall i | 1 <= i < |r|
        ensures sep !in r[i]
      {
        assert r[i] == rest[i - 1];
      }
    }
  }

  /** `sep.join(s.split(sep)) == s`: splitting loses nothing. */
  lemma {:induction false} JoinSplit(sep: char, s: string)
    ensures Join(sep, Split(sep, s)) == s
    decreases |s|
  {
    var k := Find(sep, s);
    if k >= 0 {
      JoinSplit(sep, s[k + 1..]);
      assert s == s[..k] + [sep] + s[k + 1..];
    }
  }

  /** Python's `a < b` on `str`: code-point lexicographic, a proper prefix
      coming first. */
  predicate Less(a: string, b: string)
  {
    |b| > 0 && (|a| == 0 || a[0] < b[0] || (a[0] == b[0] && Less(a[1..], b[1..])))
  }

  lemma {:induction false} LessIrreflexive(a: string)
    ensures !Less(a, a)
  {
    if |a| > 0 {
      LessIrreflexive(a[1..]);
    }
  }

  lemma {:induction false} LessTransitive(a: string, b: string, c: string)
    requires Less(a, b) && Less(b, c)
    ensures Less(a, c)
  {
    if |a| > 0 && a[0] == b[0] && b[0] == c[0] {
      LessTransitive(a[1..], b[1..], c[1..]);
    }
  }

  /** Any two different strings are ordered one way or the other. */
  lemma {:induction false} LessTotal(a: string, b: string)
    requires a != b
    ensures Less(a, b) || Less(b, a)
  {
    if |a| > 0 && |b| > 0 && a[0] == b[0] {
      assert a == [a[0]] + a[1..] && b == [b[0]] + b[1..];
      LessTotal(a[1..], b[1..]);
    }
  }

  lemma LessAsymmetric(a: string, b: string)
    requires Less(a, b)
    ensures !Less(b, a)
  {
    if Less(b, a) {
      LessTransitive(a, b, a);
      LessIrreflexive(a);
    }
  }
}
