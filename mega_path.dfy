/** `get_path`: the full path of a Mega node, found by walking its parent
    links through the table of all nodes. */
module MegaPaths {
  import opened Wrappers
  import opened Strings

  /** What `get_path` reads of one node of `m.get_files()`: its type `t`, its
      name `a.n` and the id of its parent `p`. */
  datatype Node = Node(t: int, name: string, parent: string)

  /** The node type of Mega's rubbish bin. */
  const RubbishBin: int := 4

  /** The segment written, twice, where a parent id is missing from the table. */
  const Unresolved: string := "???"

  /** The walk from `id` stops within `steps` moves: at the empty id, at an id
      missing from the table, or at the rubbish bin. `get_path` has no guard
      against a cycle of parent links; on such a chain it never stops. */
  predicate StopsWithin(nodes: map<string, Node>, id: string, steps: nat)
    decreases steps
  {
    || id == ""
    || id !in nodes
    || nodes[id].t == RubbishBin
    || (steps > 0 && StopsWithin(nodes, nodes[id].parent, steps - 1))
  }

  /** The parent chain from `id` reaches an end: it has no cycle. */
  ghost predicate ChainIsFinite(nodes: map<string, Node>, id: string)
  {
    exists steps: nat :: StopsWithin(nodes, id, steps)
  }

  /** Where the walk ends: inside the rubbish bin, or elsewhere with the names
      collected on the way, leaf first (`path_elems`). */
  datatype Walk = InBin | Reached(names: seq<string>)

  /** The walk `get_path` makes from `id`. */
  function WalkFrom(nodes: map<string, Node>, id: string, steps: nat): Walk
    requires StopsWithin(nodes, id, steps)
    decreases steps
  {
    if id == "" then Reached([])
    else if id !in nodes then Reached([Unresolved, Unresolved])
    else if nodes[id].t == RubbishBin then InBin
    else
      match WalkFrom(nodes, nodes[id].parent, steps - 1)
      case InBin => InBin
      case Reached(names) => Reached([nodes[id].name] + names)
  }

  /** The walk does not depend on the bound it was given. */
  lemma {:induction false} WalkBoundIrrelevant(nodes: map<string, Node>, id: string, a: nat, b: nat)
    requires StopsWithin(nodes, id, a) && StopsWithin(nodes, id, b)
    ensures WalkFrom(nodes, id, a) == WalkFrom(nodes, id, b)
    decreases a
  {
    if id != "" && id in nodes && nodes[id].t != RubbishBin {
      WalkBoundIrrelevant(nodes, nodes[id].parent, a - 1, b - 1);
    }
  }

  /** The walk from `id`, on a chain with no cycle. */
  ghost function Resolve(nodes: map<string, Node>, id: string): Walk
    requires ChainIsFinite(nodes, id)
  {
    var steps: nat :| StopsWithin(nodes, id, steps);
    WalkFrom(nodes, id, steps)
  }

  lemma ResolveIsWalk(nodes: map<string, Node>, id: string, steps: nat)
    requires StopsWithin(nodes, id, steps)
    ensures ChainIsFinite(nodes, id)
    ensures Resolve(nodes, id) == WalkFrom(nodes, id, steps)
  {
    forall k: nat | StopsWithin(nodes, id, k)
      ensures WalkFrom(nodes, id, k) == WalkFrom(nodes, id, steps)
    {
      WalkBoundIrrelevant(nodes, id, k, steps);
    }
  }

  /** The string `get_path` returns for a walk: `""` from the rubbish bin,
      otherwise `"/"` and the names root first, joined by `/`. */
  function Render(w: Walk): string
  {
    match w
    case InBin => ""
    case Reached(names) => "/" + Join('/', Reverse(names))
  }

  /** `get_path(file_id, mega_files)`, loop for loop. */
  method GetPath(fileId: string, nodes: map<string, Node>) returns (r: string)
    requires ChainIsFinite(nodes, fileId)
    ensures r == Render(Resolve(nodes, fileId))
  {
    ghost var bound: nat :| StopsWithin(nodes, fileId, bound);
    ResolveIsWalk(nodes, fileId, bound);
    var pathElems: seq<string> := [];
    var elemId := fileId;
    ghost var left := bound;
    while elemId != ""
      invariant StopsWithin(nodes, elemId, left)
      invariant WalkFrom(nodes, fileId, bound) ==
        match WalkFrom(nodes, elemId, left)
        case InBin => InBin
        case Reached(names) => Reached(pathElems + names)
      decreases left
    {
      if elemId !in nodes {
        pathElems := pathElems + [Unresolved, Unresolved];
        assert WalkFrom(nodes, fileId, bound) == Reached(pathElems);
        break;
      }
      if nodes[elemId].t == RubbishBin {
        return "";
      }
      pathElems := pathElems + [nodes[elemId].name];
      elemId := nodes[elemId].parent;
      left := left - 1;
    }
    assert WalkFrom(nodes, fileId, bound) == Reached(pathElems) by {
      if elemId == "" {
        assert pathElems + [] == pathElems;
      }
    }
    r := "/" + Join('/', Reverse(pathElems));
  }

  // ---------------------------------------------------------------------
  // The walk described by ancestors instead of by the loop.

  /** The id the walk visits after `k` moves up the parent links; the walk
      moves on only from a non-empty id that is in the table and is not the
      rubbish bin. */
  function Ancestor(nodes: map<string, Node>, id: string, k: nat): Option<string>
    decreases k
  {
    if k == 0 then Some(id)
    else if id != "" && id in nodes && nodes[id].t != RubbishBin then Ancestor(nodes, nodes[id].parent, k - 1)
    else None
  }

  /** The `k`-th ancestor is the rubbish bin. */
  predicate IsBinAt(nodes: map<string, Node>, id: string, k: nat)
  {
    var a := Ancestor(nodes, id, k);
    a.Some? && a.value != "" && a.value in nodes && nodes[a.value].t == RubbishBin
  }

  /** The `k`-th ancestor is a dangling id: non-empty but not in the table. */
  predicate IsMissingAt(nodes: map<string, Node>, id: string, k: nat)
  {
    var a := Ancestor(nodes, id, k);
    a.Some? && a.value != "" && a.value !in nodes
  }

  /** What `path_elems[k]` holds: the name of the `k`-th ancestor, or the
      placeholder past a dangling id. */
  function NameAt(nodes: map<string, Node>, id: string, k: nat): string
  {
    var a := Ancestor(nodes, id, k);
    if a.Some? && a.value != "" && a.value in nodes then nodes[a.value].name else Unresolved
  }

  /** The walk ends in the rubbish bin exactly when some ancestor is the bin. */
  lemma {:induction false} WalkInBinIff(nodes: map<string, Node>, id: string, steps: nat)
    requires StopsWithin(nodes, id, steps)
    ensures WalkFrom(nodes, id, steps).InBin? <==> exists k: nat :: IsBinAt(nodes, id, k)
    decreases steps
  {
    if id == "" || id !in nodes {
      forall k: nat ensures !IsBinAt(nodes, id, k) {
        if k > 0 {
          assert Ancestor(nodes, id, k) == None;
        }
      }
    } else if nodes[id].t == RubbishBin {
      assert IsBinAt(nodes, id, 0);
    } else {
      var parent := nodes[id].parent;
      WalkInBinIff(nodes, parent, steps - 1);
      forall k: nat ensures IsBinAt(nodes, id, k) <==> k > 0 && IsBinAt(nodes, parent, k - 1) {
      }
      if exists k: nat :: IsBinAt(nodes, parent, k) {
        var k: nat :| IsBinAt(nodes, parent, k);
        assert IsBinAt(nodes, id, k + 1);
      }
    }
  }

  /** Outside the bin, the collected names are the ancestors' names, leaf
      first, and the walk stops either at the empty id (the root's parent)
      or two placeholders past a dangling id. */
  lemma {:induction false} WalkNames(nodes: map<string, Node>, id: string, steps: nat)
    requires StopsWithin(nodes, id, steps) && WalkFrom(nodes, id, steps).Reached?
    ensures var names := WalkFrom(nodes, id, steps).names;
      && (forall k :: 0 <= k < |names| ==> names[k] == NameAt(nodes, id, k))
      && (Ancestor(nodes, id, |names|) == Some("") || (|names| >= 2 && IsMissingAt(nodes, id, |names| - 2)))
    decreases steps
  {
    var names := WalkFrom(nodes, id, steps).names;
    if id == "" {
    } else if id !in nodes {
      assert Ancestor(nodes, id, 1) == None;
    } else {
      var parent := nodes[id].parent;
      WalkNames(nodes, parent, steps - 1);
      var rest := WalkFrom(nodes, parent, steps - 1).names;
      assert names == [nodes[id].name] + rest;
      forall k | 0 <= k < |names|
        ensures names[k] == NameAt(nodes, id, k)
      {
        if k > 0 {
          assert Ancestor(nodes, id, k) == Ancestor(nodes, parent, k - 1);
        }
      }
      assert Ancestor(nodes, id, |names|) == Ancestor(nodes, parent, |rest|);
      if |rest| >= 2 && IsMissingAt(nodes, parent, |rest| - 2) {
        assert Ancestor(nodes, id, |names| - 2) == Ancestor(nodes, parent, |rest| - 2);
      }
    }
  }

  /** `get_path` returns `""` exactly when the parent walk reaches the
      rubbish bin. */
  lemma PathEmptyIffInBin(nodes: map<string, Node>, id: string)
    requires ChainIsFinite(nodes, id)
    ensures Render(Resolve(nodes, id)) == "" <==> exists k: nat :: IsBinAt(nodes, id, k)
  {
    var steps: nat :| StopsWithin(nodes, id, steps);
    ResolveIsWalk(nodes, id, steps);
    WalkInBinIff(nodes, id, steps);
  }

  /** Outside the bin, `get_path` returns `"/"` followed by the collected
      names root first: `names[k]` is the name of the `k`-th ancestor, or the
      placeholder past a dangling id. */
  lemma PathOutsideBin(nodes: map<string, Node>, id: string)
    requires ChainIsFinite(nodes, id)
    requires forall k: nat :: !IsBinAt(nodes, id, k)
    ensures Resolve(nodes, id).Reached?
    ensures var names := Resolve(nodes, id).names;
      && Render(Resolve(nodes, id)) == "/" + Join('/', Reverse(names))
      && (forall k :: 0 <= k < |names| ==> names[k] == NameAt(nodes, id, k))
      && (Ancestor(nodes, id, |names|) == Some("") || (|names| >= 2 && IsMissingAt(nodes, id, |names| - 2)))
  {
    var steps: nat :| StopsWithin(nodes, id, steps);
    ResolveIsWalk(nodes, id, steps);
    WalkInBinIff(nodes, id, steps);
    WalkNames(nodes, id, steps);
  }

  /** A walk that meets a dangling id puts `???/???` right after the
      leading `/`, before every collected name. */
  lemma PathDangling(nodes: map<string, Node>, id: string, k: nat)
    requires ChainIsFinite(nodes, id)
    requires IsMissingAt(nodes, id, k)
    ensures var r := Render(Resolve(nodes, id));
      |r| >= 8 && r[..8] == "/???/???"
  {
    var steps: nat :| StopsWithin(nodes, id, steps);
    ResolveIsWalk(nodes, id, steps);
    DanglingNames(nodes, id, k, steps);
    RenderDangling(WalkFrom(nodes, id, steps).names);
  }

  /** A walk that meets a dangling id ends its names with `???`, `???`. */
  lemma DanglingNames(nodes: map<string, Node>, id: string, k: nat, steps: nat)
    requires StopsWithin(nodes, id, steps)
    requires IsMissingAt(nodes, id, k)
    ensures WalkFrom(nodes, id, steps).Reached?
    ensures var names := WalkFrom(nodes, id, steps).names;
      |names| >= 2 && names[|names| - 1] == Unresolved && names[|names| - 2] == Unresolved
  {
    MissingMeansNoBin(nodes, id, k);
    WalkInBinIff(nodes, id, steps);
    WalkNames(nodes, id, steps);
    var names := WalkFrom(nodes, id, steps).names;
    assert |names| >= 2 && IsMissingAt(nodes, id, |names| - 2) by {
      NeverRootAfterMissing(nodes, id, k, |names|);
    }
    MissingUnique(nodes, id, k, |names| - 2);
    AncestorAfterMissing(nodes, id, |names| - 2);
  }

  /** Names ending with `???`, `???` render as a path that starts `/???/???`. */
  lemma RenderDangling(names: seq<string>)
    requires |names| >= 2 && names[|names| - 1] == Unresolved && names[|names| - 2] == Unresolved
    ensures var r := Render(Reached(names));
      |r| >= 8 && r[..8] == "/???/???"
  {
    var rev := Reverse(names);
    assert rev[0] == Unresolved && rev[1] == Unresolved;
    if |rev| == 2 {
      assert rev == [Unresolved, Unresolved];
      assert Join('/', rev) == "???/???";
    } else {
      assert rev == [rev[0]] + [rev[1]] + rev[2..];
      JoinCons('/', rev[0], [rev[1]] + rev[2..]);
      JoinCons('/', rev[1], rev[2..]);
    }
  }

  /** A chain with a dangling id never reaches the empty id: the walk stops
      at the dangling id and goes no further. */
  lemma {:induction false} NeverRootAfterMissing(nodes: map<string, Node>, id: string, k: nat, j: nat)
    requires IsMissingAt(nodes, id, k)
    ensures Ancestor(nodes, id, j) != Some("")
    decreases k
  {
    if k > 0 && j > 0 {
      NeverRootAfterMissing(nodes, nodes[id].parent, k - 1, j - 1);
    }
  }

  /** The walk goes nowhere past a dangling id. */
  lemma {:induction false} AncestorAfterMissing(nodes: map<string, Node>, id: string, k: nat)
    requires IsMissingAt(nodes, id, k)
    ensures Ancestor(nodes, id, k + 1) == None
    decreases k
  {
    if k > 0 {
      AncestorAfterMissing(nodes, nodes[id].parent, k - 1);
    }
  }

  /** A chain has at most one dangling id. */
  lemma {:induction false} MissingUnique(nodes: map<string, Node>, id: string, k: nat, j: nat)
    requires IsMissingAt(nodes, id, k) && IsMissingAt(nodes, id, j)
    ensures k == j
    decreases k
  {
    if k > 0 && j > 0 {
      MissingUnique(nodes, nodes[id].parent, k - 1, j - 1);
    }
  }

  /** A chain with a dangling id never reaches the bin. */
  lemma {:induction false} MissingMeansNoBin(nodes: map<string, Node>, id: string, k: nat)
    requires IsMissingAt(nodes, id, k)
    ensures forall j: nat :: !IsBinAt(nodes, id, j)
  {
    forall j: nat ensures !IsBinAt(nodes, id, j) {
      MissingBeforeBin(nodes, id, k, j);
    }
  }

  lemma {:induction false} MissingBeforeBin(nodes: map<string, Node>, id: string, k: nat, j: nat)
    requires IsMissingAt(nodes, id, k)
    ensures !IsBinAt(nodes, id, j)
    decreases k
  {
    if k > 0 && j > 0 {
      MissingBeforeBin(nodes, nodes[id].parent, k - 1, j - 1);
    } else if j > 0 {
      assert Ancestor(nodes, id, j) == None;
    }
  }

  /** `get_path("", …)` is `"/"`. */
  lemma PathOfEmptyId(nodes: map<string, Node>)
    ensures ChainIsFinite(nodes, "")
    ensures Render(Resolve(nodes, "")) == "/"
  {
    ResolveIsWalk(nodes, "", 0);
  }
}
