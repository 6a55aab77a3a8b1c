/** `merge_local_and_mega_files`: one report row per key of either inventory,
    with the sides copied over, a synchronisation status, and the rows sorted
    by name. */
module Merge {
  import opened Wrappers
  import opened Strings
  import opened UploadedFiles

  const LocalOnly := "Local only"
  const MegaOnly := "Mega only"
  const Synced := "Synced"
  const DifferentSize := "Different size"
  const DifferentType := "Different type"

  /** The status of `key`, decided by asking one question after another: on
      which sides the key is, then whether the kinds agree, then whether the
      sizes agree. A difference of kind is reported before a difference of
      size. */
  function Classify(key: string, local: map<string, UploadedFile>, mega: map<string, UploadedFile>): string
  {
    if key in local && key in mega then
      if local[key].localPathType != mega[key].megaPathType then DifferentType
      else if local[key].localSize != mega[key].megaSize then DifferentSize
      else Synced
    else if key in local then LocalOnly
    else if key in mega then MegaOnly
    else ""
  }

  /** The report row for `key`: the local side of the local record when there
      is one, the Mega side of the Mega record when there is one, defaults
      elsewhere, and the status above. */
  function Expected(key: string, local: map<string, UploadedFile>, mega: map<string, UploadedFile>): UploadedFile
  {
    Assemble(key,
             if key in local then Some(LocalOf(local[key])) else None,
             if key in mega then Some(MegaOf(mega[key])) else None,
             Classify(key, local, mega))
  }

  /** The names of the rows, in row order. */
  function NamesOf(rows: seq<UploadedFile>): (r: seq<string>)
    ensures |r| == |rows|
    ensures forall i :: 0 <= i < |rows| ==> r[i] == rows[i].name
  {
    if |rows| == 0 then [] else [rows[0].name] + NamesOf(rows[1..])
  }

  /** The set of the names of the rows. */
  function NameSet(rows: seq<UploadedFile>): set<string>
  {
    set k | k in NamesOf(rows)
  }

  /** Each name strictly before the next: ascending and without repetition. */
  predicate StrictlyAscending(xs: seq<string>)
  {
    forall i, j :: 0 <= i < j < |xs| ==> Less(xs[i], xs[j])
  }

  /** What the function promises: one row per key of either inventory, each
      row the expected one for its key, in ascending order of name. */
  ghost predicate IsMergeOf(rows: seq<UploadedFile>, local: map<string, UploadedFile>, mega: map<string, UploadedFile>)
  {
    && (forall i :: 0 <= i < |rows| ==> rows[i] == Expected(rows[i].name, local, mega))
    && NameSet(rows) == local.Keys + mega.Keys
    && StrictlyAscending(NamesOf(rows))
  }

  /** The body of the `for` loop: a default record filled in field by field,
      each later status assignment overriding the earlier ones. */
  method BuildEntry(key: string, localFiles: map<string, UploadedFile>, megaFiles: map<string, UploadedFile>)
    returns (elem: UploadedFile)
    ensures elem == Expected(key, localFiles, megaFiles)
  {
    elem := Default();
    elem := elem.(name := key);
    if key in localFiles {
      var localFile := localFiles[key];
      elem := elem.(localLabel := localFile.localLabel);
      elem := elem.(localPathType := localFile.localPathType);
      elem := elem.(localFullPath := localFile.localFullPath);
      elem := elem.(localSize := localFile.localSize);
      elem := elem.(localDate := localFile.localDate);
      elem := elem.(status := LocalOnly);
    }
    if key in megaFiles {
      var megaFile := megaFiles[key];
      elem := elem.(megaAccount := megaFile.megaAccount);
      elem := elem.(megaPathType := megaFile.megaPathType);
      elem := elem.(megaFullPath := megaFile.megaFullPath);
      elem := elem.(megaSize := megaFile.megaSize);
      elem := elem.(megaDate := megaFile.megaDate);
      elem := elem.(megaLink := megaFile.megaLink);
      elem := elem.(megaShared := megaFile.megaShared);
      elem := elem.(status := MegaOnly);
    }
    if key in localFiles && key in megaFiles {
      elem := elem.(status := Synced);
      if elem.localSize != elem.megaSize {
        elem := elem.(status := DifferentSize);
      }
      if elem.localPathType != elem.megaPathType {
        elem := elem.(status := DifferentType);
      }
    }
  }

  /** `x` is no later than `y` in the order `list.sort(key=name)` uses. */
  predicate NameLe(x: UploadedFile, y: UploadedFile)
  {
    !Less(y.name, x.name)
  }

  predicate SortedByName(rows: seq<UploadedFile>)
  {
    forall i, j :: 0 <= i < j < |rows| ==> NameLe(rows[i], rows[j])
  }

  /** `x` placed before the first row that is not before it. */
  function Insert(x: UploadedFile, rows: seq<UploadedFile>): (r: seq<UploadedFile>)
    ensures multiset(r) == multiset(rows) + multiset{x}
    ensures SortedByName(rows) ==> SortedByName(r)
  {
    if |rows| == 0 then [x]
    else if NameLe(x, rows[0]) then
      InsertFront(x, rows);
      [x] + rows
    else
      var rest := Insert(x, rows[1..]);
      assert rows == [rows[0]] + rows[1..];
      InsertBehind(x, rows, rest);
      [rows[0]] + rest
  }

  lemma InsertFront(x: UploadedFile, rows: seq<UploadedFile>)
    requires |rows| > 0 && NameLe(x, rows[0])
    ensures SortedByName(rows) ==> SortedByName([x] + rows)
  {
    if SortedByName(rows) {
      forall j | 0 <= j < |rows|
        ensures NameLe(x, rows[j])
      {
        if j > 0 && x.name != rows[0].name {
          assert NameLe(rows[0], rows[j]);
          LessTotal(x.name, rows[0].name);
          if Less(rows[j].name, x.name) {
            LessTransitive(rows[j].name, x.name, rows[0].name);
          }
        }
      }
      var r := [x] + rows;
      forall i, j | 0 <= i < j < |r|
        ensures NameLe(r[i], r[j])
      {
        if i > 0 {
          assert r[i] == rows[i - 1] && r[j] == rows[j - 1];
        } else {
          assert r[j] == rows[j - 1];
        }
      }
    }
  }

  lemma InsertBehind(x: UploadedFile, rows: seq<UploadedFile>, rest: seq<UploadedFile>)
    requires |rows| > 0 && !NameLe(x, rows[0])
    requires multiset(rest) == multiset(rows[1..]) + multiset{x}
    requires SortedByName(rows[1..]) ==> SortedByName(rest)
    ensures SortedByName(rows) ==> SortedByName([rows[0]] + rest)
  {
    if SortedByName(rows) {
      assert SortedByName(rows[1..]) by {
        forall i, j | 0 <= i < j < |rows| - 1
          ensures NameLe(rows[1..][i], rows[1..][j])
        {
          assert rows[1..][i] == rows[i + 1] && rows[1..][j] == rows[j + 1];
        }
      }
      forall k | 0 <= k < |rest|
        ensures NameLe(rows[0], rest[k])
      {
        assert rest[k] in multiset(rest);
        if rest[k] == x {
          LessAsymmetric(rows[0].name, x.name);
        } else {
          assert rest[k] in multiset(rows[1..]);
          var m :| 0 <= m < |rows[1..]| && rows[1..][m] == rest[k];
          assert rows[m + 1] == rest[k];
        }
      }
      var r := [rows[0]] + rest;
      forall i, j | 0 <= i < j < |r|
        ensures NameLe(r[i], r[j])
      {
        if i > 0 {
          assert r[i] == rest[i - 1] && r[j] == rest[j - 1];
        } else {
          assert r[j] == rest[j - 1];
        }
      }
    }
  }

  /** `list.sort(key=lambda x: x.name)`: the same rows, ordered by name. */
  function SortByName(rows: seq<UploadedFile>): (r: seq<UploadedFile>)
    ensures multiset(r) == multiset(rows)
    ensures SortedByName(r)
  {
    if |rows| == 0 then []
    else
      assert rows == [rows[0]] + rows[1..];
      Insert(rows[0], SortByName(rows[1..]))
  }

  /** A value found twice in a sequence is counted twice by its multiset. */
  lemma RepeatCountsTwice<T>(s: seq<T>, i: int, j: int)
    requires 0 <= i < j < |s| && s[i] == s[j]
    ensures multiset(s)[s[i]] >= 2
  {
    assert s == s[..j] + s[j..];
    assert s[i] in s[..j];
    assert s[j] in s[j..];
    assert multiset(s) == multiset(s[..j]) + multiset(s[j..]);
  }

  /** A value counted twice by the multiset of a sequence sits at two indices. */
  lemma CountTwiceRepeats<T>(s: seq<T>, x: T) returns (i: int, j: int)
    requires multiset(s)[x] >= 2
    ensures 0 <= i < j < |s| && s[i] == x && s[j] == x
  {
    assert x in multiset(s);
    var k :| 0 <= k < |s| && s[k] == x;
    assert s == s[..k] + [s[k]] + s[k + 1..];
    assert multiset(s) == multiset(s[..k]) + multiset{x} + multiset(s[k + 1..]);
    if x in s[..k] {
      var m :| 0 <= m < k && s[..k][m] == x;
      i, j := m, k;
    } else {
      assert x in multiset(s[k + 1..]);
      var m :| 0 <= m < |s| - k - 1 && s[k + 1..][m] == x;
      i, j := k, k + 1 + m;
    }
  }

  /** Sorting keeps every row the expected one for its name. */
  lemma SortedRowsExpected(rows: seq<UploadedFile>, sorted: seq<UploadedFile>,
                           local: map<string, UploadedFile>, mega: map<string, UploadedFile>)
    requires forall i :: 0 <= i < |rows| ==> rows[i] == Expected(rows[i].name, local, mega)
    requires multiset(sorted) == multiset(rows)
    ensures forall i :: 0 <= i < |sorted| ==> sorted[i] == Expected(sorted[i].name, local, mega)
  {
    forall i | 0 <= i < |sorted|
      ensures sorted[i] == Expected(sorted[i].name, local, mega)
    {
      assert sorted[i] in multiset(rows);
    }
  }

  /** Sorting keeps the set of names. */
  lemma SortedRowsNames(rows: seq<UploadedFile>, sorted: seq<UploadedFile>, k: string)
    requires multiset(sorted) == multiset(rows)
    ensures k in NamesOf(sorted) <==> k in NamesOf(rows)
  {
    var names := NamesOf(sorted);
    if k in names {
      var i :| 0 <= i < |sorted| && names[i] == k;
      assert sorted[i] in multiset(rows);
      var j :| 0 <= j < |rows| && rows[j] == sorted[i];
    }
    if k in NamesOf(rows) {
      var j :| 0 <= j < |rows| && NamesOf(rows)[j] == k;
      assert rows[j] in multiset(sorted);
      var i :| 0 <= i < |sorted| && sorted[i] == rows[j];
      assert names[i] == k;
    }
  }

  /** A permutation of a sequence without repetitions has none either. */
  lemma NoRepeats<T>(s: seq<T>, t: seq<T>)
    requires forall i, j :: 0 <= i < j < |s| ==> s[i] != s[j]
    requires multiset(t) == multiset(s)
    ensures forall i, j :: 0 <= i < j < |t| ==> t[i] != t[j]
  {
    forall i, j | 0 <= i < j < |t|
      ensures t[i] != t[j]
    {
      if t[i] == t[j] {
        RepeatCountsTwice(t, i, j);
        var a, b := CountTwiceRepeats(s, t[i]);
      }
    }
  }

  /** Rows that are each the expected row for their name are equal when
      their names are. */
  lemma RowsDeterminedByName(sorted: seq<UploadedFile>, local: map<string, UploadedFile>, mega: map<string, UploadedFile>)
    requires forall i :: 0 <= i < |sorted| ==> sorted[i] == Expected(sorted[i].name, local, mega)
    ensures forall i, j :: 0 <= i < j < |sorted| && sorted[i].name == sorted[j].name ==> sorted[i] == sorted[j]
  {
  }

  /** Rows sorted by name, no two of them equal and each determined by its
      name, are strictly ascending. */
  lemma SortedRowsAscending(sorted: seq<UploadedFile>)
    requires forall i, j :: 0 <= i < j < |sorted| ==> sorted[i] != sorted[j]
    requires forall i, j :: 0 <= i < j < |sorted| && sorted[i].name == sorted[j].name ==> sorted[i] == sorted[j]
    requires SortedByName(sorted)
    ensures StrictlyAscending(NamesOf(sorted))
  {
    var names := NamesOf(sorted);
    forall i, j | 0 <= i < j < |sorted|
      ensures Less(names[i], names[j])
    {
      if names[i] != names[j] {
        LessTotal(names[i], names[j]);
      }
    }
  }

  /** Sorting keeps one row for each key of either inventory. */
  lemma SortedRowsKeys(rows: seq<UploadedFile>, sorted: seq<UploadedFile>,
                       local: map<string, UploadedFile>, mega: map<string, UploadedFile>)
    requires NameSet(rows) == local.Keys + mega.Keys
    requires multiset(sorted) == multiset(rows)
    ensures NameSet(sorted) == local.Keys + mega.Keys
  {
    forall k
      ensures k in NamesOf(sorted) <==> k in NamesOf(rows)
    {
      SortedRowsNames(rows, sorted, k);
    }
  }

  /** Sorting rows that have distinct names orders the names strictly. */
  lemma SortedRowsStrict(rows: seq<UploadedFile>, sorted: seq<UploadedFile>,
                         local: map<string, UploadedFile>, mega: map<string, UploadedFile>)
    requires forall i :: 0 <= i < |rows| ==> rows[i] == Expected(rows[i].name, local, mega)
    requires forall i, j :: 0 <= i < j < |rows| ==> rows[i].name != rows[j].name
    requires multiset(sorted) == multiset(rows) && SortedByName(sorted)
    ensures StrictlyAscending(NamesOf(sorted))
  {
    NoRepeats(rows, sorted);
    SortedRowsExpected(rows, sorted, local, mega);
    RowsDeterminedByName(sorted, local, mega);
    SortedRowsAscending(sorted);
  }

  /** The three parts of the promise make it whole. */
  lemma MergeOfParts(rows: seq<UploadedFile>, local: map<string, UploadedFile>, mega: map<string, UploadedFile>)
    requires forall i :: 0 <= i < |rows| ==> rows[i] == Expected(rows[i].name, local, mega)
    requires NameSet(rows) == local.Keys + mega.Keys
    requires StrictlyAscending(NamesOf(rows))
    ensures IsMergeOf(rows, local, mega)
  {
  }

  /** Sorting the collected rows gives what the function promises, provided
      the rows are the expected ones for exactly the keys of both inventories,
      one row per key. */
  lemma SortedRowsAreMerge(rows: seq<UploadedFile>, sorted: seq<UploadedFile>,
                           local: map<string, UploadedFile>, mega: map<string, UploadedFile>)
    requires forall i :: 0 <= i < |rows| ==> rows[i] == Expected(rows[i].name, local, mega)
    requires forall i, j :: 0 <= i < j < |rows| ==> rows[i].name != rows[j].name
    requires NameSet(rows) == local.Keys + mega.Keys
    requires multiset(sorted) == multiset(rows) && SortedByName(sorted)
    ensures forall i :: 0 <= i < |sorted| ==> sorted[i] == Expected(sorted[i].name, local, mega)
    ensures NameSet(sorted) == local.Keys + mega.Keys
    ensures StrictlyAscending(NamesOf(sorted))
  {
    SortedRowsExpected(rows, sorted, local, mega);
    SortedRowsKeys(rows, sorted, local, mega);
    SortedRowsStrict(rows, sorted, local, mega);

  }

  /** Appending a row adds its name to the names. */
  lemma NamesAfterAppend(rows: seq<UploadedFile>, x: UploadedFile)
    ensures NamesOf(rows + [x]) == NamesOf(rows) + [x.name]
    ensures NameSet(rows + [x]) == NameSet(rows) + {x.name}
  {
    assert NamesOf(rows + [x]) == NamesOf(rows) + [x.name];
  }

  /** What the loop has built once it has visited the keys in `done`: the
      expected row for each of them, one row per key. */
  ghost predicate Collected(rows: seq<UploadedFile>, done: set<string>,
                            local: map<string, UploadedFile>, mega: map<string, UploadedFile>)
  {
    && (forall i :: 0 <= i < |rows| ==> rows[i] == Expected(rows[i].name, local, mega))
    && NameSet(rows) == done
    && (forall i, j :: 0 <= i < j < |rows| ==> rows[i].name != rows[j].name)
  }

  /** Appending the expected row of a key keeps every row the expected one. */
  lemma AppendExpected(rows: seq<UploadedFile>, key: string,
                       local: map<string, UploadedFile>, mega: map<string, UploadedFile>)
    requires forall i :: 0 <= i < |rows| ==> rows[i] == Expected(rows[i].name, local, mega)
    ensures var rows' := rows + [Expected(key, local, mega)];
      forall i :: 0 <= i < |rows'| ==> rows'[i] == Expected(rows'[i].name, local, mega)
  {
    var rows' := rows + [Expected(key, local, mega)];
    forall i | 0 <= i < |rows'|
      ensures rows'[i] == Expected(rows'[i].name, local, mega)
    {
      if i < |rows| {
        assert rows'[i] == rows[i];
      }
    }
  }

  /** Appending a row under a new name keeps the names distinct. */
  lemma AppendDistinct(rows: seq<UploadedFile>, x: UploadedFile)
    requires forall i, j :: 0 <= i < j < |rows| ==> rows[i].name != rows[j].name
    requires x.name !in NameSet(rows)
    ensures var rows' := rows + [x];
      forall i, j :: 0 <= i < j < |rows'| ==> rows'[i].name != rows'[j].name
  {
    var rows' := rows + [x];
    forall i, j | 0 <= i < j < |rows'|
      ensures rows'[i].name != rows'[j].name
    {
      if j == |rows| {
        assert rows'[i].name == NamesOf(rows)[i];
      } else {
        assert rows'[i] == rows[i] && rows'[j] == rows[j];
      }
    }
  }

  /** One more visited key, one more row. */
  lemma CollectOne(rows: seq<UploadedFile>, allKeys: set<string>, remaining: set<string>, key: string,
                   local: map<string, UploadedFile>, mega: map<string, UploadedFile>)
    requires Collected(rows, allKeys - remaining, local, mega) && key in remaining && remaining <= allKeys
    ensures Collected(rows + [Expected(key, local, mega)], allKeys - (remaining - {key}), local, mega)
  {
    var x := Expected(key, local, mega);
    assert x.name == key;
    AppendExpected(rows, key, local, mega);
    AppendDistinct(rows, x);
    assert NameSet(rows + [x]) == allKeys - (remaining - {key}) by {
      NamesAfterAppend(rows, x);
      assert allKeys - remaining + {key} == allKeys - (remaining - {key});
    }
  }

  /** Rows with distinct names are as many as their names. */
  lemma {:induction false} DistinctNamesCount(rows: seq<UploadedFile>)
    requires forall i, j :: 0 <= i < j < |rows| ==> rows[i].name != rows[j].name
    ensures |NameSet(rows)| == |rows|
  {
    if |rows| > 0 {
      var init := rows[..|rows| - 1];
      var last := rows[|rows| - 1];
      assert rows == init + [last];
      DistinctNamesCount(init);
      NamesAfterAppend(init, last);
      assert last.name !in NameSet(init);
    }
  }

  /** The report has exactly one row per key. */
  lemma RowCount(rows: seq<UploadedFile>, sorted: seq<UploadedFile>, keys: set<string>)
    requires forall i, j :: 0 <= i < j < |rows| ==> rows[i].name != rows[j].name
    requires NameSet(rows) == keys
    requires multiset(sorted) == multiset(rows)
    ensures |sorted| == |keys|
  {
    DistinctNamesCount(rows);
    assert |sorted| == |multiset(sorted)| == |multiset(rows)| == |rows|;
  }

  /** Sorting what the loop collected for every key gives what the function
      promises. */
  lemma SortedCollectionIsMerge(rows: seq<UploadedFile>, sorted: seq<UploadedFile>,
                                local: map<string, UploadedFile>, mega: map<string, UploadedFile>)
    requires Collected(rows, local.Keys + mega.Keys, local, mega)
    requires multiset(sorted) == multiset(rows) && SortedByName(sorted)
    ensures IsMergeOf(sorted, local, mega)
    ensures |sorted| == |local.Keys + mega.Keys|
  {
    SortedRowsAreMerge(rows, sorted, local, mega);
    RowCount(rows, sorted, local.Keys + mega.Keys);
    MergeOfParts(sorted, local, mega);
  }

  /** `merge_local_and_mega_files`. The keys are visited in whatever order
      the set yields them. */
  method MergeLocalAndMegaFiles(localFiles: map<string, UploadedFile>, megaFiles: map<string, UploadedFile>)
    returns (merged: seq<UploadedFile>)
    ensures IsMergeOf(merged, localFiles, megaFiles)
    ensures |merged| == |localFiles.Keys + megaFiles.Keys|
  {
    var allKeys := localFiles.Keys + megaFiles.Keys;
    var mergedFiles: seq<UploadedFile> := [];
    var remaining := allKeys;
    while remaining != {}
      invariant remaining <= allKeys
      invariant Collected(mergedFiles, allKeys - remaining, localFiles, megaFiles)
      decreases remaining
    {
      var key :| key in remaining;
      var elem := BuildEntry(key, localFiles, megaFiles);
      CollectOne(mergedFiles, allKeys, remaining, key, localFiles, megaFiles);
      mergedFiles := mergedFiles + [elem];
      remaining := remaining - {key};
    }
    assert allKeys - remaining == allKeys;
    merged := SortByName(mergedFiles);
    SortedCollectionIsMerge(mergedFiles, merged, localFiles, megaFiles);
  }

  /** Two strictly ascending lists of the same names are the same list. */
  lemma {:induction false} AscendingUnique(xs: seq<string>, ys: seq<string>)
    requires StrictlyAscending(xs) && StrictlyAscending(ys)
    requires forall k :: k in xs <==> k in ys
    ensures xs == ys
  {
    if |xs| > 0 {
      assert xs[0] in xs;
      assert |ys| > 0;
      assert ys[0] in ys;
      var i :| 0 <= i < |xs| && xs[i] == ys[0];
      var j :| 0 <= j < |ys| && ys[j] == xs[0];
      if j > 0 {
        if i > 0 {
          LessAsymmetric(xs[0], xs[i]);
        } else {
          LessIrreflexive(ys[0]);
        }
      }
      assert xs[0] == ys[0];
      var xt, yt := xs[1..], ys[1..];
      forall k
        ensures k in xt <==> k in yt
      {
        if k in xt {
          var m :| 0 <= m < |xt| && xt[m] == k;
          assert Less(xs[0], xs[m + 1]);
          LessIrreflexive(xs[0]);
          assert k in ys && k != ys[0];
        }
        if k in yt {
          var m :| 0 <= m < |yt| && yt[m] == k;
          assert Less(ys[0], ys[m + 1]);
          LessIrreflexive(ys[0]);
          assert k in xs && k != xs[0];
        }
      }
      assert StrictlyAscending(xt) by {
        forall a, b | 0 <= a < b < |xt|
          ensures Less(xt[a], xt[b])
        {
          assert xt[a] == xs[a + 1] && xt[b] == xs[b + 1];
        }
      }
      assert StrictlyAscending(yt) by {
        forall a, b | 0 <= a < b < |yt|
          ensures Less(yt[a], yt[b])
        {
          assert yt[a] == ys[a + 1] && yt[b] == ys[b + 1];
        }
      }
      AscendingUnique(xt, yt);
      assert xs == [xs[0]] + xt && ys == [ys[0]] + yt;
    } else {
      FirstIsMember(ys);
    }
  }

  /** The first name of a non-empty list is one of its names. */
  lemma FirstIsMember(ys: seq<string>)
    ensures |ys| > 0 ==> ys[0] in ys
  {
  }

  /** Two lists whose names make up the same set hold the same names. */
  lemma SameNameSet(a: seq<UploadedFile>, b: seq<UploadedFile>, keys: set<string>)
    requires NameSet(a) == keys && NameSet(b) == keys
    ensures forall k :: k in NamesOf(a) <==> k in NamesOf(b)
  {
    forall x
      ensures x in NamesOf(a) <==> x in NamesOf(b)
    {
      assert x in NamesOf(a) <==> x in NameSet(a);
      assert x in NamesOf(b) <==> x in NameSet(b);
    }
  }

  /** The result does not depend on the order in which the set of keys is
      visited: there is only one list that keeps the promise. */
  lemma MergeIsUnique(a: seq<UploadedFile>, b: seq<UploadedFile>,
                      local: map<string, UploadedFile>, mega: map<string, UploadedFile>)
    requires IsMergeOf(a, local, mega) && IsMergeOf(b, local, mega)
    ensures a == b
  {
    SameNameSet(a, b, local.Keys + mega.Keys);
    AscendingUnique(NamesOf(a), NamesOf(b));
    assert |a| == |b|;
    forall i | 0 <= i < |a|
      ensures a[i] == b[i]
    {
      assert a[i].name == NamesOf(a)[i] == NamesOf(b)[i] == b[i].name;
    }
  }

  /** A key on one side only keeps the defaults on the other side; a key on
      both sides carries both. */
  lemma ExpectedSides(key: string, local: map<string, UploadedFile>, mega: map<string, UploadedFile>)
    ensures var r := Expected(key, local, mega);
      && r.name == key
      && LocalOf(r) == (if key in local then LocalOf(local[key]) else LocalOf(Default()))
      && MegaOf(r) == (if key in mega then MegaOf(mega[key]) else MegaOf(Default()))
  {
  }

  /** The status is one of the five for every key of either inventory. */
  lemma StatusValues(key: string, local: map<string, UploadedFile>, mega: map<string, UploadedFile>)
    ensures (key in local || key in mega) <==>
      Classify(key, local, mega) in {LocalOnly, MegaOnly, Synced, DifferentSize, DifferentType}
  {
  }

  /** "Synced" exactly when the key is on both sides with the same kind and
      the same size. */
  lemma SyncedIff(key: string, local: map<string, UploadedFile>, mega: map<string, UploadedFile>)
    ensures Classify(key, local, mega) == Synced <==>
      && key in local && key in mega
      && local[key].localPathType == mega[key].megaPathType
      && local[key].localSize == mega[key].megaSize
  {
  }

  /** A difference of kind is reported as such whatever the sizes are: the
      assignment of "Different type" comes after that of "Different size". */
  lemma KindDifferenceWins(key: string, local: map<string, UploadedFile>, mega: map<string, UploadedFile>)
    requires key in local && key in mega
    requires local[key].localPathType != mega[key].megaPathType
    ensures Classify(key, local, mega) == DifferentType
  {
  }

  /** "Different size" exactly when the kinds agree and the sizes do not. */
  lemma DifferentSizeIff(key: string, local: map<string, UploadedFile>, mega: map<string, UploadedFile>)
    ensures Classify(key, local, mega) == DifferentSize <==>
      && key in local && key in mega
      && local[key].localPathType == mega[key].megaPathType
      && local[key].localSize != mega[key].megaSize
  {
  }

  /** Only presence, kind and size decide the status: dates, labels, paths,
      accounts, links and sharing do not. */
  lemma StatusIgnoresOtherFields(key: string, local: map<string, UploadedFile>, mega: map<string, UploadedFile>,
                                 local': map<string, UploadedFile>, mega': map<string, UploadedFile>)
    requires (key in local <==> key in local') && (key in mega <==> key in mega')
    requires key in local ==> local[key].localPathType == local'[key].localPathType && local[key].localSize == local'[key].localSize
    requires key in mega ==> mega[key].megaPathType == mega'[key].megaPathType && mega[key].megaSize == mega'[key].megaSize
    ensures Classify(key, local, mega) == Classify(key, local', mega')
  {
  }

  /** A single key, on one side only, gives a one-row report with that side
      copied and the status of that side. */
  lemma {:induction false} SingleKey(rows: seq<UploadedFile>, key: string,
                                     local: map<string, UploadedFile>, mega: map<string, UploadedFile>)
    requires local.Keys + mega.Keys == {key}
    requires IsMergeOf(rows, local, mega)
    ensures |rows| == 1 && rows[0] == Expected(key, local, mega)
    ensures key in local && key !in mega ==> rows[0].status == LocalOnly && LocalOf(rows[0]) == LocalOf(local[key])
    ensures key in mega && key !in local ==> rows[0].status == MegaOnly && MegaOf(rows[0]) == MegaOf(mega[key])
  {
    assert key in NameSet(rows);
    assert |rows| > 0;
    if |rows| > 1 {
      assert NamesOf(rows)[1] in NameSet(rows);
      assert NamesOf(rows)[0] in NameSet(rows);
      assert Less(NamesOf(rows)[0], NamesOf(rows)[1]);
      LessIrreflexive(key);
    }
    assert rows[0].name in NameSet(rows);
  }

  /** The first example of the promise: a lone local file `a/b.txt` of ten
      bytes is reported as "Local only" with its size. */
  lemma LocalOnlyExample(rows: seq<UploadedFile>, f: UploadedFile)
    requires f.localSize == Some(10)
    requires IsMergeOf(rows, map["a/b.txt" := f], map[])
    ensures |rows| == 1 && rows[0].name == "a/b.txt"
    ensures rows[0].status == LocalOnly && rows[0].localSize == Some(10)
  {
    SingleKey(rows, "a/b.txt", map["a/b.txt" := f], map[]);
  }

  /** A folder of size 0 locally and a file of size 0 on Mega differ in kind. */
  lemma KindExample(l: UploadedFile, m: UploadedFile)
    requires l.localPathType == Folder && l.localSize == Some(0)
    requires m.megaPathType == File && m.megaSize == Some(0)
    ensures Classify("x", map["x" := l], map["x" := m]) == DifferentType
  {
  }

  /** A folder of size 0 locally and a file of seven bytes on Mega: the kind
      wins over the size. */
  lemma KindOverSizeExample(l: UploadedFile, m: UploadedFile)
    requires l.localPathType == Folder && l.localSize == Some(0)
    requires m.megaPathType == File && m.megaSize == Some(7)
    ensures Classify("x", map["x" := l], map["x" := m]) == DifferentType
  {
  }
}
