/** `remove_unnecessary_slashes`: the path normaliser that turns every raw path
    into the key both inventories are indexed by. */
module Slashes {
  import opened Strings

  /** `s.replace("\\", "/")` */
  function ReplaceBackslashes(s: string): (r: string)
    ensures |r| == |s|
    ensures forall i :: 0 <= i < |s| ==> r[i] == if s[i] == '\\' then '/' else s[i]
  {
    if |s| == 0 then ""
    else [if s[0] == '\\' then '/' else s[0]] + ReplaceBackslashes(s[1..])
  }

  /** What the first `while` loop leaves: `s` without its leading slashes. */
  function StripLeadingSlashes(s: string): (r: string)
    ensures |r| <= |s| && r == s[|s| - |r|..]
    ensures forall i :: 0 <= i < |s| - |r| ==> s[i] == '/'
    ensures r == [] || r[0] != '/'
  {
    if |s| > 0 && s[0] == '/' then StripLeadingSlashes(s[1..]) else s
  }

  /** What the second `while` loop leaves: `s` without its trailing slashes. */
  function StripTrailingSlashes(s: string): (r: string)
    ensures |r| <= |s| && r == s[..|r|]
    ensures forall i :: |r| <= i < |s| ==> s[i] == '/'
    ensures r == [] || r[|r| - 1] != '/'
  {
    if |s| > 0 && s[|s| - 1] == '/' then StripTrailingSlashes(s[..|s| - 1]) else s
  }

  /** A `//` starts at index `i` of `s`. */
  predicate DoubleSlashAt(s: string, i: int)
  {
    0 <= i < |s| - 1 && s[i] == '/' && s[i + 1] == '/'
  }

  /** `"//" in s` */
  predicate HasDoubleSlash(s: string)
  {
    exists i :: 0 <= i < |s| && DoubleSlashAt(s, i)
  }

  /** A `//` that does not start a string lies in its tail. */
  lemma DoubleSlashInTail(s: string)
    requires |s| > 0 && !DoubleSlashAt(s, 0)
    ensures HasDoubleSlash(s) ==> HasDoubleSlash(s[1..])
  {
    if HasDoubleSlash(s) {
      var i :| 0 <= i < |s| && DoubleSlashAt(s, i);
      assert s[1..][i - 1] == s[i] && s[1..][i] == s[i + 1];
      assert DoubleSlashAt(s[1..], i - 1);
    }
  }

  /** One `s.replace("//", "/")`: scanning from the left, each
      non-overlapping `//` becomes `/`. It shortens any string that holds a
      `//`, which is what makes the third loop stop. */
  function ReplaceDoubleSlashes(s: string): (r: string)
    ensures |r| <= |s|
    ensures HasDoubleSlash(s) ==> |r| < |s|
    decreases |s|
  {
    if |s| >= 2 && s[0] == '/' && s[1] == '/' then
      "/" + ReplaceDoubleSlashes(s[2..])
    else if |s| == 0 then ""
    else
      DoubleSlashInTail(s);
      [s[0]] + ReplaceDoubleSlashes(s[1..])
  }

  /** One `replace("//", "/")` removes slashes and nothing else. */
  lemma {:induction false} ReplaceKeepsText(s: string)
    ensures forall c :: c != '/' ==> multiset(ReplaceDoubleSlashes(s))[c] == multiset(s)[c]
    decreases |s|
  {
    if |s| >= 2 && s[0] == '/' && s[1] == '/' {
      ReplaceKeepsText(s[2..]);
      assert s == "//" + s[2..];
    } else if |s| > 0 {
      ReplaceKeepsText(s[1..]);
      assert s == [s[0]] + s[1..];
    }
  }

  /** One `replace("//", "/")` keeps a last character that is not a slash
      (a first one is kept by definition). */
  lemma {:induction false} ReplaceKeepsLast(s: string)
    requires |s| > 0 && s[|s| - 1] != '/'
    ensures |ReplaceDoubleSlashes(s)| > 0
    ensures ReplaceDoubleSlashes(s)[|ReplaceDoubleSlashes(s)| - 1] == s[|s| - 1]
    decreases |s|
  {
    if |s| >= 2 && s[0] == '/' && s[1] == '/' {
      ReplaceKeepsLast(s[2..]);
    } else if |s| > 1 {
      ReplaceKeepsLast(s[1..]);
    }
  }

  /** What the third `while` loop leaves: `s.replace("//", "/")` repeated
      until no `//` is left. */
  function CollapseSlashes(s: string): (r: string)
    ensures !HasDoubleSlash(r)
    ensures forall c :: c != '/' ==> multiset(r)[c] == multiset(s)[c]
    ensures |s| > 0 && s[0] != '/' ==> |r| > 0 && r[0] == s[0]
    ensures |s| > 0 && s[|s| - 1] != '/' ==> |r| > 0 && r[|r| - 1] == s[|s| - 1]
    decreases |s|
  {
    if HasDoubleSlash(s) then
      ReplaceKeepsText(s);
      if |s| > 0 && s[|s| - 1] != '/' then ReplaceKeepsLast(s); CollapseSlashes(ReplaceDoubleSlashes(s))
      else CollapseSlashes(ReplaceDoubleSlashes(s))
    else s
  }

  /** A normalised key: no backslash, no slash at either end, no `//`. */
  predicate IsNormal(s: string)
  {
    && '\\' !in s
    && (s == [] || (s[0] != '/' && s[|s| - 1] != '/'))
    && !HasDoubleSlash(s)
  }

  /** The value `remove_unnecessary_slashes(path)` returns. */
  function Normalize(path: string): (r: string)
    ensures IsNormal(r)
  {
    var replaced := ReplaceBackslashes(path);
    var trimmed := StripTrailingSlashes(StripLeadingSlashes(replaced));
    assert '\\' !in replaced;
    assert '\\' !in trimmed by {
      assert forall i :: 0 <= i < |trimmed| ==> trimmed[i] in replaced;
    }
    var r := CollapseSlashes(trimmed);
    assert multiset(r)['\\'] == multiset(trimmed)['\\'] == 0;
    r
  }

  /** `remove_unnecessary_slashes`, loop for loop. */
  method RemoveUnnecessarySlashes(path: string) returns (r: string)
    ensures r == Normalize(path)
    ensures IsNormal(r)
  {
    r := ReplaceBackslashes(path);
    ghost var replaced := r;
    while |r| > 0 && r[0] == '/'
      invariant StripLeadingSlashes(r) == StripLeadingSlashes(replaced)
    {
      r := r[1..];
    }
    ghost var stripped := r;
    while |r| > 0 && r[|r| - 1] == '/'
      invariant StripTrailingSlashes(r) == StripTrailingSlashes(stripped)
    {
      r := r[..|r| - 1];
    }
    ghost var trimmed := r;
    while HasDoubleSlash(r)
      invariant CollapseSlashes(r) == CollapseSlashes(trimmed)
      decreases |r|
    {
      r := ReplaceDoubleSlashes(r);
    }
  }

  /** A key that is already normal is left alone. */
  lemma NormalIsFixpoint(s: string)
    requires IsNormal(s)
    ensures Normalize(s) == s
  {
    assert ReplaceBackslashes(s) == s;
  }

  /** Normalising twice is normalising once. */
  lemma NormalizeIdempotent(path: string)
    ensures Normalize(Normalize(path)) == Normalize(path)
  {
    NormalIsFixpoint(Normalize(path));
  }

  /** The empty path and a path made only of slashes and backslashes (the
      root) both normalise to the empty key. */
  lemma {:induction false} OnlySeparatorsNormalizeToEmpty(path: string)
    requires forall i :: 0 <= i < |path| ==> path[i] == '/' || path[i] == '\\'
    ensures Normalize(path) == ""
  {
    var replaced := ReplaceBackslashes(path);
    assert forall i :: 0 <= i < |replaced| ==> replaced[i] == '/';
    assert StripLeadingSlashes(replaced) == [];
  }

  // ---------------------------------------------------------------------
  // An independent description of the result: the non-empty pieces between
  // separators, joined with single slashes.

  /** The longest prefix of `s` that holds no slash. */
  function Run(s: string): (r: string)
    ensures |r| <= |s| && r == s[..|r|] && '/' !in r
    ensures |r| < |s| ==> s[|r|] == '/'
    ensures |s| > 0 && s[0] != '/' ==> |r| > 0
  {
    if |s| == 0 || s[0] == '/' then "" else [s[0]] + Run(s[1..])
  }

  /** The non-empty slash-free pieces of `s`, in order: what
      `[w for w in s.split("/") if w]` gives. */
  function Words(s: string): (ws: seq<string>)
    ensures forall i :: 0 <= i < |ws| ==> ws[i] != "" && '/' !in ws[i]
    ensures |s| > 0 && s[0] != '/' ==> |ws| > 0
    decreases |s|
  {
    if |s| == 0 then []
    else if s[0] == '/' then Words(s[1..])
    else
      var p := Run(s);
      [p] + Words(s[|p|..])
  }

  lemma {:induction false} RunAppend(p: string, w: string)
    requires '/' !in p && (w == [] || w[0] == '/')
    ensures Run(p + w) == p
  {
    if p != [] {
      assert (p + w)[1..] == p[1..] + w;
      RunAppend(p[1..], w);
    }
  }

  /** A slash-free piece in front of a separator (or of nothing) is one word. */
  lemma WordsPrefix(p: string, w: string)
    requires p != [] && '/' !in p && (w == [] || w[0] == '/')
    ensures Words(p + w) == [p] + Words(w)
  {
    RunAppend(p, w);
    assert (p + w)[|p|..] == w;
  }

  lemma WordsSlash(w: string)
    ensures Words("/" + w) == Words(w)
  {
    assert ("/" + w)[1..] == w;
  }

  lemma {:induction false} ReplacePlainPrefix(p: string, w: string)
    requires '/' !in p
    ensures ReplaceDoubleSlashes(p + w) == p + ReplaceDoubleSlashes(w)
  {
    if p != [] {
      var s := p + w;
      assert s[0] == p[0] && p[0] != '/';
      assert !DoubleSlashAt(s, 0);
      assert s[1..] == p[1..] + w;
      assert ReplaceDoubleSlashes(s) == [p[0]] + ReplaceDoubleSlashes(p[1..] + w);
      ReplacePlainPrefix(p[1..], w);
      assert [p[0]] + (p[1..] + ReplaceDoubleSlashes(w)) == p + ReplaceDoubleSlashes(w);
    } else {
      assert p + w == w;
    }
  }

  /** One `replace("//", "/")` keeps the words. */
  lemma {:induction false} WordsReplace(u: string)
    ensures Words(ReplaceDoubleSlashes(u)) == Words(u)
    decreases |u|
  {
    if |u| == 0 {
    } else if |u| >= 2 && u[0] == '/' && u[1] == '/' {
      WordsReplace(u[2..]);
      WordsSlash(ReplaceDoubleSlashes(u[2..]));
      assert u[1..][1..] == u[2..];
    } else if u[0] == '/' {
      WordsReplace(u[1..]);
      WordsSlash(ReplaceDoubleSlashes(u[1..]));
    } else {
      var p := Run(u);
      var w := u[|p|..];
      assert u == p + w;
      ReplacePlainPrefix(p, w);
      WordsReplace(w);
      WordsPrefix(p, ReplaceDoubleSlashes(w));
    }
  }

  lemma {:induction false} WordsCollapse(u: string)
    ensures Words(CollapseSlashes(u)) == Words(u)
    decreases |u|
  {
    if HasDoubleSlash(u) {
      WordsReplace(u);
      WordsCollapse(ReplaceDoubleSlashes(u));
    }
  }

  lemma {:induction false} WordsStripLeading(u: string)
    ensures Words(StripLeadingSlashes(u)) == Words(u)
  {
    if |u| > 0 && u[0] == '/' {
      WordsStripLeading(u[1..]);
    }
  }

  lemma {:induction false} WordsAppendSlash(v: string)
    ensures Words(v + "/") == Words(v)
    decreases |v|
  {
    if |v| == 0 {
      var slash := v + "/";
      assert |slash| == 1 && slash[0] == '/' && slash[1..] == v;
    } else if v[0] == '/' {
      assert (v + "/")[1..] == v[1..] + "/";
      WordsAppendSlash(v[1..]);
    } else {
      var p := Run(v);
      var w := v[|p|..];
      assert Words(v + "/") == [p] + Words(w + "/") by {
        assert v + "/" == p + (w + "/");
        WordsPrefix(p, w + "/");
      }
      assert Words(v) == [p] + Words(w) by {
        assert v == p + w;
        WordsPrefix(p, w);
      }
      WordsAppendSlash(w);
    }
  }

  lemma {:induction false} WordsStripTrailing(u: string)
    ensures Words(StripTrailingSlashes(u)) == Words(u)
    decreases |u|
  {
    if |u| > 0 && u[|u| - 1] == '/' {
      var v := u[..|u| - 1];
      assert u == v + "/";
      WordsAppendSlash(v);
      WordsStripTrailing(v);
    }
  }

  /** No slash at either end and no `//`: what is left once backslashes are
      gone. */
  predicate Tidy(v: string)
  {
    (v == [] || (v[0] != '/' && v[|v| - 1] != '/')) && !HasDoubleSlash(v)
  }

  /** What follows a separator inside a tidy string is tidy and not empty. */
  lemma TidyAfterSlash(v: string, k: nat)
    requires Tidy(v) && k < |v| && v[k] == '/'
    ensures k + 1 < |v| && Tidy(v[k + 1..])
  {
    var t := v[k + 1..];
    assert t != [] && t[|t| - 1] == v[|v| - 1];
    assert t[0] == v[k + 1];
    assert !DoubleSlashAt(v, k);
    forall i | 0 <= i < |t| - 1
      ensures !DoubleSlashAt(t, i)
    {
      assert !DoubleSlashAt(v, k + 1 + i);
    }
  }

  /** The first word of a string that starts with one, and the words after
      the separator that ends it. */
  lemma WordsSplitAtRun(v: string)
    requires |v| > 0 && v[0] != '/' && |Run(v)| < |v|
    ensures Words(v) == [Run(v)] + Words(v[|Run(v)| + 1..])
  {
    var p := Run(v);
    var rest := v[|p| + 1..];
    assert v == p + ("/" + rest);
    WordsPrefix(p, "/" + rest);
    WordsSlash(rest);
  }

  /** A string is what comes before one of its slashes, the slash, and what
      comes after it. */
  lemma SplitAtSlash(v: string, k: nat)
    requires k < |v| && v[k] == '/'
    ensures v == v[..k] + "/" + v[k + 1..]
  {
  }

  /** A tidy string is its words joined with `/`. */
  lemma {:induction false} JoinWords(v: string)
    requires Tidy(v)
    ensures Join('/', Words(v)) == v
    decreases |v|
  {
    if |v| > 0 {
      var p := Run(v);
      if |p| == |v| {
        assert v == p + [];
        WordsPrefix(p, []);
      } else {
        var rest := v[|p| + 1..];
        assert Tidy(rest) && rest != [] && rest[0] != '/' by {
          TidyAfterSlash(v, |p|);
        }
        assert Words(v) == [p] + Words(rest) by {
          WordsSplitAtRun(v);
        }
        JoinWords(rest);
        JoinCons('/', p, Words(rest));
        SplitAtSlash(v, |p|);
      }
    }
  }

  /** `remove_unnecessary_slashes(path)` is the non-empty pieces of `path`
      between separators (either slash), joined with single slashes. */
  lemma NormalizeJoinsWords(path: string)
    ensures Normalize(path) == Join('/', Words(ReplaceBackslashes(path)))
  {
    var replaced := ReplaceBackslashes(path);
    var stripped := StripLeadingSlashes(replaced);
    var trimmed := StripTrailingSlashes(stripped);
    WordsStripLeading(replaced);
    WordsStripTrailing(stripped);
    WordsCollapse(trimmed);
    JoinWords(Normalize(path));
  }

  lemma CollapseExample()
    ensures CollapseSlashes("a//b/c") == "a/b/c"
  {
    var t := "a//b/c";
    assert DoubleSlashAt(t, 1);
    var once := ReplaceDoubleSlashes(t);
    assert once == "a/b/c" by {
      ReplacePlainPrefix("a", "//b/c");
      assert t == "a" + "//b/c";
      assert "//b/c"[2..] == "b/c";
      ReplacePlainPrefix("b", "/c");
      assert "b/c" == "b" + "/c";
      assert ReplaceDoubleSlashes("/c") == "/c" by {
        assert "/c"[1..] == "c";
        ReplacePlainPrefix("c", "");
        assert "c" == "c" + "";
      }
    }
    assert !HasDoubleSlash(once) by {
      forall i | 0 <= i < |once|
        ensures !DoubleSlashAt(once, i)
      {
      }
    }
  }

  lemma TrimExample()
    ensures StripTrailingSlashes(StripLeadingSlashes("/a//b/c/")) == "a//b/c"
  {
    assert "/a//b/c/"[1..] == "a//b/c/";
    assert "a//b/c/"[..6] == "a//b/c";
  }

  /** `remove_unnecessary_slashes("\\a//b\\c/") == "a/b/c"` */
  lemma MixedSeparatorsExample()
    ensures Normalize("\\a//b\\c/") == "a/b/c"
  {
    BackslashExample();
    TrimExample();
    CollapseExample();
  }

  lemma BackslashExample()
    ensures ReplaceBackslashes("\\a//b\\c/") == "/a//b/c/"
  {
    var r := ReplaceBackslashes("\\a//b\\c/");
    forall i | 0 <= i < 8
      ensures r[i] == "/a//b/c/"[i]
    {
    }
  }
}
