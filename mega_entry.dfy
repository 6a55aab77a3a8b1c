/** The per-node rule of `list_mega_files_and_directories`: which Mega nodes
    become entries of the Mega inventory, under which key, with which fields. */
module MegaEntries {
  import opened Wrappers
  import opened Strings
  import opened Slashes
  import opened UploadedFiles

  /** A character `list_mega_files_and_directories` strips from the front of
      the configured subtree. */
  predicate IsSeparator(c: char)
  {
    c == '/' || c == '\\'
  }

  /** The configured subtree without its leading separators. */
  function TrimSubtree(path: string): (r: string)
    ensures |r| <= |path| && r == path[|path| - |r|..]
    ensures forall i :: 0 <= i < |path| - |r| ==> IsSeparator(path[i])
    ensures r == [] || !IsSeparator(r[0])
  {
    if |path| > 0 && IsSeparator(path[0]) then
      var r := TrimSubtree(path[1..]);
      assert forall i :: 1 <= i < |path| - |r| ==> path[i] == path[1..][i - 1];
      r
    else path
  }

  /** The loop at the head of `list_mega_files_and_directories`. */
  method StripSubtree(path: string) returns (r: string)
    ensures r == TrimSubtree(path)
  {
    r := path;
    while |r| > 0 && (r[0] == '/' || r[0] == '\\')
      invariant TrimSubtree(r) == TrimSubtree(path)
    {
      r := r[1..];
    }
  }

  /** `s.startswith(prefix)` */
  predicate StartsWith(s: string, prefix: string)
  {
    |prefix| <= |s| && s[..|prefix|] == prefix
  }

  /** `"/".join(full_path.split("/")[2:])`: the full path without its leading
      `/` and its first segment (the top-level node, such as the cloud drive). */
  function BelowTop(fullPath: string): string
  {
    var parts := Split('/', fullPath);
    Join('/', if |parts| >= 2 then parts[2..] else [])
  }

  /** `name[len(path):]`, which is empty when `path` is the longer. */
  function DropPrefix(name: string, path: string): (r: string)
    ensures |path| <= |name| ==> name == name[..|path|] + r
    ensures |path| > |name| ==> r == ""
  {
    if |path| <= |name| then name[|path|..] else ""
  }

  /** One node of `m.get_files()` (my_tools.py, lines 104-136). `fullPath`
      is what `get_path` returned for it, `subtree` the configured path as
      `StripSubtree` leaves it, `lower` is `str.lower`, `shared` says whether
      the node carries the `h`, `k` and `shared` entries, and `fileLink` is
      the public link built from them. The result is the inventory key and
      its record, or `None` for a node that is skipped. */
  function MegaEntry(account: string, t: int, size: int, ts: int, shared: bool, fileLink: string,
                     fullPath: string, subtree: string, lower: string -> string): (r: Option<(string, UploadedFile)>)
    ensures r.Some? <==>
      && t <= 1 && fullPath != ""
      && StartsWith(lower(BelowTop(fullPath)), lower(subtree))
      && Normalize(DropPrefix(BelowTop(fullPath), subtree)) != ""
    ensures r.Some? ==> var (key, e) := r.value;
      && key == Normalize(DropPrefix(BelowTop(fullPath), subtree))
      && key != "" && IsNormal(key) && e.name == key
      && LocalOf(e) == LocalOf(Default()) && e.status == ""
      && e.megaAccount == account && e.megaFullPath == fullPath
      && e.megaPathType == (if t == 0 then File else Folder)
      && e.megaSize == Some(if t == 0 then size else 0)
      && e.megaDate == Some(Timestamp(ts))
      && e.megaShared == (if shared then SharedStatus.Shared else NotShared)
      && e.megaLink == (if shared && t == 0 then fileLink else "")
  {
    if t > 1 || fullPath == "" then None
    else
      var pathType := if t == 0 then File else Folder;
      var name := BelowTop(fullPath);
      if !StartsWith(lower(name), lower(subtree)) then None
      else
        var key := Normalize(DropPrefix(name, subtree));
        if key == "" then None
        else
          var megaSize := if pathType == File then size else 0;
          var link := if shared && pathType == File then fileLink else "";
          var status := if shared then SharedStatus.Shared else NotShared;
          Some((key, UploadedFile(key, "", PathType.Unknown, "", None, None,
                                  account, pathType, fullPath, Some(megaSize), Some(Timestamp(ts)),
                                  status, link, "")))
  }

  /** A piece without a separator splits off as one element. */
  lemma SplitAfterPiece(x: string, y: string)
    requires '/' !in x
    ensures Split('/', x + "/" + y) == [x] + Split('/', y)
  {
    var s := x + "/" + y;
    var k := Find('/', s);
    assert s[|x|] == '/';
    assert '/' !in s[..|x|] by {
      assert s[..|x|] == x;
    }
    assert k == |x|;
    assert s[..k] == x && s[k + 1..] == y;
  }

  /** For a node under a top-level node `top`, dropping the first two
      pieces of its full path leaves the rest of the path. */
  lemma KeyOfNodeUnderTop(top: string, rest: string)
    requires '/' !in top
    ensures BelowTop("/" + top + "/" + rest) == rest
  {
    var fullPath := "/" + top + "/" + rest;
    assert fullPath == "" + "/" + (top + "/" + rest);
    SplitAfterPiece("", top + "/" + rest);
    SplitAfterPiece(top, rest);
    var parts := Split('/', fullPath);
    assert parts == ["", top] + Split('/', rest);
    assert parts[2..] == Split('/', rest);
    JoinSplit('/', rest);
  }

  /** With no subtree configured and `lower` the identity, a file
      `/top/rest` (`rest` not a root) is kept under `remove_unnecessary_slashes(rest)`. */
  lemma FileUnderTopKept(account: string, size: int, ts: int, top: string, rest: string)
    requires '/' !in top && Normalize(rest) != ""
    ensures var r := MegaEntry(account, 0, size, ts, false, "", "/" + top + "/" + rest, "", s => s);
      r.Some? && r.value.0 == Normalize(rest) && r.value.1.megaSize == Some(size)
  {
    KeyOfNodeUnderTop(top, rest);
    assert BelowTop("/" + top + "/" + rest)[0..] == rest;
  }

  /** The subtree is matched as a string prefix, not path segment by path
      segment: with the subtree `Photos`, a file `x` in the sibling folder
      `PhotosOld` is listed too, under the key `Old/x` (here `sub` is
      `Photos` and `tail` is `Old/x`). */
  lemma SubtreeIsStringPrefix(account: string, size: int, ts: int, top: string, sub: string, tail: string)
    requires '/' !in top
    requires tail != "" && IsNormal(tail)
    ensures var r := MegaEntry(account, 0, size, ts, false, "", "/" + top + "/" + (sub + tail), sub, s => s);
      r.Some? && r.value.0 == tail
  {
    var fullPath := "/" + top + "/" + (sub + tail);
    var name := sub + tail;
    assert fullPath != "" && BelowTop(fullPath) == name by {
      KeyOfNodeUnderTop(top, name);
    }
    assert StartsWith(name, sub) by {
      assert name[..|sub|] == sub;
    }
    assert DropPrefix(name, sub) == tail by {
      assert name[|sub|..] == tail;
    }
    assert Normalize(tail) == tail by {
      NormalIsFixpoint(tail);
    }
  }
}
