/** fileNodesStore.getKeptKeys in webdav mode: the remote paths the database vouches for. */
module KeptKeys {
  import opened Common
  import opened Numerals
  import opened Tree
  import opened Paths

  // ---------------------------------------------------------------- the pointer walk

  /** Names along parent pointers, topmost first, cut at a missing parent or at a row seen before. */
  ghost function WalkNames(t: Nodes, n: NodeId, seen: set<NodeId>): seq<string>
    requires seen <= t.Keys
    decreases t.Keys - seen
  {
    if n !in t || n in seen then []
    else (match t[n].parent case None => [] case Some(p) => WalkNames(t, p, seen + {n})) + [t[n].name]
  }

  /** On an acyclic table the guarded walk spells the same names as the walk to the root. */
  lemma {:induction false} WalkNamesIsNamesUp(t: Nodes, n: NodeId, seen: set<NodeId>, k: nat)
    requires Acyclic(t) && seen <= t.Keys && IsRootWalk(t, n, k)
    requires forall b :: b in seen ==> !InSubtree(t, b, n)
    ensures WalkNames(t, n, seen) == NamesUp(t, n, k)
    decreases k
  {
    UpInTable(t, Up(t, n, k).value, n, k);
    assert IsUp(t, n, n, 0);
    if k > 0 {
      var p := t[n].parent.value;
      forall b | b in seen + {n} ensures !InSubtree(t, b, p) {
        if InSubtree(t, b, p) {
          var j: nat :| IsUp(t, b, p, j);
          assert IsUp(t, b, n, j + 1);
          assert false;
        }
      }
      WalkNamesIsNamesUp(t, p, seen + {n}, k - 1);
    }
  }

  method DisplayPathOf(t: Nodes, row: NodeId) returns (path: string)
    requires row in t
    ensures path == DisplayPath(WalkNames(t, row, {}))
  {
    var segments: seq<string> := [];
    var cur: Option<NodeId> := Some(row);
    var seen: set<NodeId> := {};
    while cur.Some? && cur.value in t && cur.value !in seen
      invariant seen <= t.Keys
      invariant WalkNames(t, row, {}) ==
        (if cur.Some? then WalkNames(t, cur.value, seen) else []) + segments
      decreases t.Keys - seen
    {
      seen := seen + {cur.value};
      segments := [t[cur.value].name] + segments;
      cur := t[cur.value].parent;
    }
    assert [] + segments == segments;
    path := DisplayPath(segments);
  }

  // ---------------------------------------------------------------- directory prefixes

  /** `d` is a directory prefix of `path`: it ends at one of its slashes after the first character. */
  ghost predicate IsDirPrefix(d: string, path: string) {
    exists i :: 1 <= i < |path| && path[i] == '/' && d == path[..i + 1]
  }

  /** First index of a slash at or after `from`, or -1. */
  function IndexOfSlash(s: string, from: nat): (r: int)
    ensures r == -1 || from <= r < |s|
    ensures r >= 0 ==> s[r] == '/' && forall j :: from <= j < r ==> s[j] != '/'
    ensures r == -1 ==> forall j :: from <= j < |s| ==> s[j] != '/'
    decreases |s| - from
  {
    if from >= |s| then -1
    else if s[from] == '/' then from
    else IndexOfSlash(s, from + 1)
  }

  method AddDirPrefixes(path: string, kept: set<string>) returns (r: set<string>)
    ensures forall k :: k in r <==> k in kept || IsDirPrefix(k, path)
  {
    r := kept;
    var idx := IndexOfSlash(path, 1);
    while idx != -1
      invariant idx == -1 || (1 <= idx < |path| && path[idx] == '/')
      invariant forall k :: k in r ==> k in kept || IsDirPrefix(k, path)
      invariant kept <= r
      invariant forall i :: 1 <= i < (if idx == -1 then |path| else idx) && path[i] == '/' ==> path[..i + 1] in r
      decreases if idx == -1 then 0 else |path| - idx
    {
      r := r + {path[..idx + 1]};
      idx := IndexOfSlash(path, idx + 1);
    }
  }

  // ---------------------------------------------------------------- the kept set

  predicate IsStructural(key: string) {
    key == "/" || key == "/.wea-trash/" || key == "/.wea-tmp/"
  }

  function TrashKey(id: NodeId): string {
    "/.wea-trash/" + Decimal(id)
  }

  function TmpKey(id: NodeId): string {
    "/.wea-tmp/" + Decimal(id)
  }

  /** The keys one row vouches for; `orphaned` holds the ids in sync_status orphaned_node. */
  ghost predicate RowKeeps(t: Nodes, orphaned: set<NodeId>, id: NodeId, key: string)
    requires id in t
  {
    var path := DisplayPath(WalkNames(t, id, {}));
    || (t[id].Live() && (key == (if t[id].kind == Directory then path + "/" else path) || IsDirPrefix(key, path)))
    || (!t[id].Live() && (key == TrashKey(id) || key == TrashKey(id) + "/"))
    || ((!t[id].Live() || id in orphaned) && (key == TmpKey(id) || key == TmpKey(id) + "/"))
  }

  ghost predicate IsKept(t: Nodes, orphaned: set<NodeId>, key: string) {
    IsStructural(key) || exists id :: id in t && RowKeeps(t, orphaned, id, key)
  }

  method AddRowKeys(t: Nodes, orphaned: set<NodeId>, row: NodeId, before: set<string>) returns (kept: set<string>)
    requires row in t
    ensures forall key :: key in kept <==> key in before || RowKeeps(t, orphaned, row, key)
  {
    kept := before;
    var trashed := !t[row].Live();
    if !trashed {
      var path := DisplayPathOf(t, row);
      kept := kept + {if t[row].kind == Directory then path + "/" else path};
      kept := AddDirPrefixes(path, kept);
    } else {
      kept := kept + {TrashKey(row), TrashKey(row) + "/"};
    }
    if trashed || row in orphaned {
      kept := kept + {TmpKey(row), TmpKey(row) + "/"};
    }
  }

  method GetKeptKeys(t: Nodes, orphaned: set<NodeId>) returns (kept: set<string>)
    ensures forall key :: key in kept <==> IsKept(t, orphaned, key)
  {
    kept := {"/", "/.wea-trash/", "/.wea-tmp/"};
    var rows := Enumerate(t.Keys);
    var i := 0;
    while i < |rows|
      invariant 0 <= i <= |rows|
      invariant forall key :: key in kept <==> IsStructural(key) || KeptBySome(t, orphaned, rows[..i], key)
    {
      assert rows[i] in rows;
      ghost var before := kept;
      kept := AddRowKeys(t, orphaned, rows[i], kept);
      forall key ensures KeptBySome(t, orphaned, rows[..i + 1], key) <==>
        KeptBySome(t, orphaned, rows[..i], key) || RowKeeps(t, orphaned, rows[i], key)
      {
        assert rows[..i + 1] == rows[..i] + [rows[i]];
      }
      i := i + 1;
    }
    assert rows[..i] == rows;
    forall key ensures key in kept <==> IsKept(t, orphaned, key) {
      assert KeptBySome(t, orphaned, rows, key) <==> exists id :: id in t && RowKeeps(t, orphaned, id, key);
    }
  }

  ghost predicate KeptBySome(t: Nodes, orphaned: set<NodeId>, rows: seq<NodeId>, key: string) {
    exists id :: id in rows && id in t && RowKeeps(t, orphaned, id, key)
  }

  // ---------------------------------------------------------------- closed under ancestors

  /** Whatever directory a kept key lies in is kept as well. */
  ghost predicate AncestorClosed(kept: set<string>) {
    "/" in kept && forall key, d :: key in kept && IsDirPrefix(d, key) ==> d in kept
  }

  lemma PrefixOfPrefix(d: string, e: string, path: string)
    requires IsDirPrefix(d, e) && IsDirPrefix(e, path)
    ensures IsDirPrefix(d, path)
  {
  }

  /** The only directory prefixes of `base` + digits, with or without a final slash, are `base` and the key itself. */
  lemma PrefixOfNumbered(base: string, id: nat, d: string)
    requires base == "/.wea-trash/" || base == "/.wea-tmp/"
    ensures IsDirPrefix(d, base + Decimal(id)) ==> d == base
    ensures IsDirPrefix(d, base + Decimal(id) + "/") ==> d == base || d == base + Decimal(id) + "/"
  {
    DecimalHasNoSlash(id);
    assert forall i :: 1 <= i < |base| - 1 ==> base[i] != '/';
  }

  lemma RowAncestorsKept(t: Nodes, orphaned: set<NodeId>, id: NodeId, key: string, d: string)
    requires id in t && RowKeeps(t, orphaned, id, key) && IsDirPrefix(d, key)
    ensures IsKept(t, orphaned, d)
  {
    var path := DisplayPath(WalkNames(t, id, {}));
    if t[id].Live() && IsDirPrefix(key, path) {
      PrefixOfPrefix(d, key, path);
      assert RowKeeps(t, orphaned, id, d);
    } else if t[id].Live() && key == path + "/" {
      var i :| 1 <= i < |key| && key[i] == '/' && d == key[..i + 1];
      if i < |path| {
        assert path[i] == '/' && d == path[..i + 1];
      } else {
        assert d == key;
      }
      assert RowKeeps(t, orphaned, id, d);
    } else if t[id].Live() && key == path {
      assert RowKeeps(t, orphaned, id, d);
    } else {
      PrefixOfNumbered("/.wea-trash/", id, d);
      PrefixOfNumbered("/.wea-tmp/", id, d);
      assert d == key ==> RowKeeps(t, orphaned, id, d);
    }
  }

  /** The kept set is closed under ancestor directories, for any table, cyclic or not, and any names. */
  lemma KeptAncestorClosed(t: Nodes, orphaned: set<NodeId>, kept: set<string>)
    requires forall key :: key in kept <==> IsKept(t, orphaned, key)
    ensures AncestorClosed(kept)
  {
    forall key, d | key in kept && IsDirPrefix(d, key) ensures d in kept {
      if IsStructural(key) {
        assert d == key;
      } else {
        var id :| id in t && RowKeeps(t, orphaned, id, key);
        RowAncestorsKept(t, orphaned, id, key, d);
      }
    }
  }
}
