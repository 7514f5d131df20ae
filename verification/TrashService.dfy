/** The imperative trash channel over the node store. */
module TrashServices {
  import opened Common
  import opened Tree
  import opened Paths
  import opened Ancestry
  import opened TreeSteps
  import opened FileNodes
  import opened RestoreName
  import opened Trash
  import ObjectMap
  import UploadStates

  type Key = ObjectMap.Key

  type Rows = ObjectMap.Rows

  /** One day in milliseconds. */
  const DAY: nat := 24 * 60 * 60 * 1000

  // ---------------------------------------------------------------- breadth-first listing

  ghost predicate BelowTarget(t: Nodes, id: NodeId, x: NodeId) {
    exists k: nat :: TrashedWalk(t, id, x, k)
  }

  /** The queue holds new rows below `id`; every trashed child of a visited row is visited or queued. */
  ghost predicate BelowInv(t: Nodes, id: NodeId, visited: set<NodeId>, queue: seq<NodeId>, rows: seq<NodeId>) {
    && NoDup(queue)
    && visited <= t.Keys
    && (id in visited || id in queue)
    && (forall x :: x in queue ==> x in t && x !in visited)
    && (forall x :: x in visited || x in queue ==> BelowTarget(t, id, x))
    && (forall x :: (x in visited || x in queue) && x != id ==>
      x in t && t[x].parent.Some? && t[x].parent.value in visited)
    && (forall x :: x in t && !t[x].Live() && t[x].parent.Some? && t[x].parent.value in visited ==>
      x in visited || x in queue)
    && (forall x :: x in rows <==> (x in visited || x in queue) && x != id)
  }

  lemma BelowStep(t: Nodes, id: NodeId, visited: set<NodeId>, queue: seq<NodeId>, rows: seq<NodeId>,
      children: seq<NodeId>)
    requires !OnTrashedLoop(t, id) && queue != [] && BelowInv(t, id, visited, queue, rows)
    requires NoDup(children) && forall x :: x in children <==> x in t && t[x].parent == Some(queue[0]) && !t[x].Live()
    ensures BelowInv(t, id, visited + {queue[0]}, queue[1..] + children, rows + children)
  {
    var d := queue[0];
    assert d in queue;
    assert forall x :: x in queue <==> x == d || x in queue[1..];
    assert d !in queue[1..];
    var k: nat :| TrashedWalk(t, id, d, k);
    forall x | x in children ensures BelowTarget(t, id, x) && x != id && x != d && x !in visited && x !in queue {
      assert TrashedWalk(t, id, x, k + 1);
      assert x != id by {
        assert OnTrashedLoop(t, id) <== TrashedWalk(t, id, id, k + 1);
      }
    }
    NoDupAppend(queue[1..], children);
  }

  lemma {:induction false} BelowAll(t: Nodes, id: NodeId, visited: set<NodeId>, rows: seq<NodeId>, x: NodeId, k: nat)
    requires BelowInv(t, id, visited, [], rows) && TrashedWalk(t, id, x, k)
    ensures x in visited
    decreases k
  {
    if k > 0 {
      BelowAll(t, id, visited, rows, t[x].parent.value, k - 1);
    }
  }

  function Reverse(s: seq<NodeId>): (r: seq<NodeId>)
    ensures |r| == |s|
    ensures forall x :: x in r <==> x in s
  {
    if s == [] then [] else [s[|s| - 1]] + Reverse(s[..|s| - 1])
  }

  ghost predicate LiveSiblingNamed(t: Nodes, x: NodeId, name: string)
    requires x in t
  {
    exists y :: y in t && t[y].deletedAt.None? && t[y].parent == t[x].parent && t[y].name == name
  }

  lemma SiblingNames(t: Nodes)
    ensures forall x, name :: x in t ==> (name in LiveNames(t, t[x].parent) <==> LiveSiblingNamed(t, x, name))
  {
  }

  /** The names after the renames, those not renamed included. */
  function NameAfter(t: Nodes, renames: map<NodeId, string>, x: NodeId): string
    requires x in t
  {
    if x in renames then renames[x] else t[x].name
  }

  lemma RestoredTable(s: TreeState, u: TreeState, id: NodeId, ids: set<NodeId>, renames: map<NodeId, string>,
      renamed: Nodes)
    requires forall x :: x in ids <==> InRestoreSet(s.nodes, id, x)
    requires ids <= s.nodes.Keys && renames.Keys <= ids
    requires forall x :: x in ids ==> NameAfter(s.nodes, renames, x) == FinalName(s.nodes, x)
    requires renamed.Keys == s.nodes.Keys
      && forall x :: x in s.nodes ==> renamed[x] == s.nodes[x].(name := NameAfter(s.nodes, renames, x))
    requires u == TreeState(Stamped(renamed, ids, None), s.closure)
    ensures RestoreStep(s, u, id)
  {
  }

  // ---------------------------------------------------------------- blobs along a purge

  /** The keys getObjectMapBySubtree gives: those of the rows of nodes the closure lists under `id`. */
  function ListedKeys(objects: Rows, c: Closure, id: NodeId): set<Key> {
    set o | o in objects && (id, objects[o].node) in c :: objects[o].key
  }

  lemma ListedAsRows(objects: Rows, c: Closure, id: NodeId, rows: seq<ObjectMap.RowId>)
    requires forall o :: o in rows <==> o in objects && (id, objects[o].node) in c
    ensures (set o | o in rows :: objects[o].key) == ListedKeys(objects, c, id)
  {
  }

  /** The object rows that stay when their nodes stay. */
  function RowsOf(objects: Rows, nodes: Nodes): Rows {
    map o | o in objects && objects[o].node in nodes :: objects[o]
  }

  lemma AllRowsStay(objects: Rows, nodes: Nodes)
    requires forall o :: o in objects ==> objects[o].node in nodes
    ensures RowsOf(objects, nodes) == objects
  {
  }

  ghost predicate ListedUnder(c: Closure, roots: set<NodeId>, d: NodeId) {
    exists r :: r in roots && (r, d) in c
  }

  /** A key is gone only if a root lists a row of it. */
  ghost predicate OnlyListedGone(c: Closure, objects: Rows, blobs: set<Key>, after: set<Key>, roots: set<NodeId>,
                                 blobFails: set<Key>)
  {
    forall key :: key in blobs && key !in after ==> key !in blobFails && KeyListed(c, objects, roots, key)
  }

  ghost predicate KeyListed(c: Closure, objects: Rows, roots: set<NodeId>, key: Key) {
    exists o :: o in objects && objects[o].key == key && ListedUnder(c, roots, objects[o].node)
  }

  /**
   * Of a row that is still there the blob is gone exactly when a root lists the row and the delete of the blob did not
   * fail. Such a root failed, since the row is there.
   */
  ghost predicate LeftRowsHit(c: Closure, left: Rows, blobs: set<Key>, after: set<Key>, roots: set<NodeId>,
                              blobFails: set<Key>)
  {
    forall o :: o in left && left[o].key in blobs ==>
      (left[o].key !in after <==> left[o].key !in blobFails && ListedUnder(c, roots, left[o].node))
  }

  ghost predicate BlobsPurged(c: Closure, objects: Rows, blobs: set<Key>, left: Rows, after: set<Key>,
                              roots: set<NodeId>, blobFails: set<Key>)
  {
    && after <= blobs
    && OnlyListedGone(c, objects, blobs, after, roots, blobFails)
    && LeftRowsHit(c, left, blobs, after, roots, blobFails)
  }

  /** The blob deletes of one root: all its listed keys but those whose delete fails, or none when it is gone. */
  ghost predicate BlobTurn(t: Nodes, c: Closure, rows: Rows, blobs: set<Key>, after: set<Key>, r: NodeId,
                           blobFails: set<Key>)
  {
    after == if r in t then blobs - (ListedKeys(rows, c, r) - blobFails) else blobs
  }

  /** Of the nodes that stay a root lists in `mid` those it listed at the start, and none when it is gone. */
  ghost predicate ListsAsBefore(c: Closure, mid: TreeState, r: NodeId) {
    forall d: NodeId :: d in mid.nodes ==> ((r, d) in c <==> r in mid.nodes && (r, d) in mid.closure)
  }

  lemma BlobsTurn(c: Closure, mid: TreeState, u: Nodes, r: NodeId, objects: Rows, blobs: set<Key>,
                  midBlobs: set<Key>, after: set<Key>, tried: set<NodeId>, blobFails: set<Key>)
    requires ListsAsBefore(c, mid, r) && u.Keys <= mid.nodes.Keys && UploadStates.KeysUnique(objects)
    requires BlobsPurged(c, objects, blobs, RowsOf(objects, mid.nodes), midBlobs, tried, blobFails)
    requires BlobTurn(mid.nodes, mid.closure, RowsOf(objects, mid.nodes), midBlobs, after, r, blobFails)
    ensures BlobsPurged(c, objects, blobs, RowsOf(objects, u), after, tried + {r}, blobFails)
  {
    var rows := RowsOf(objects, mid.nodes);
    TurnKeys(c, mid, r, objects, midBlobs, after, tried, blobFails);
    KeysTurn(c, objects, blobs, midBlobs, after, tried, r, blobFails);
    TurnRows(c, mid, r, rows, midBlobs, after, blobFails);
    RowsTurn(c, rows, RowsOf(objects, u), blobs, midBlobs, after, tried, r, blobFails);
  }

  lemma TurnKeys(c: Closure, mid: TreeState, r: NodeId, objects: Rows, midBlobs: set<Key>, after: set<Key>,
                 tried: set<NodeId>, blobFails: set<Key>)
    requires ListsAsBefore(c, mid, r)
    requires BlobTurn(mid.nodes, mid.closure, RowsOf(objects, mid.nodes), midBlobs, after, r, blobFails)
    ensures forall key :: key in midBlobs && key !in after ==>
      key !in blobFails && KeyListed(c, objects, tried + {r}, key)
  {
    var rows := RowsOf(objects, mid.nodes);
    ListedWith(c, tried, r);
    forall key | key in midBlobs && key !in after
      ensures key !in blobFails && KeyListed(c, objects, tried + {r}, key)
    {
      var o :| o in rows && (r, rows[o].node) in mid.closure && rows[o].key == key;
      assert o in objects && ListedUnder(c, tried + {r}, objects[o].node);
    }
  }

  lemma TurnRows(c: Closure, mid: TreeState, r: NodeId, rows: Rows, midBlobs: set<Key>, after: set<Key>,
                 blobFails: set<Key>)
    requires ListsAsBefore(c, mid, r) && UploadStates.KeysUnique(rows)
    requires forall o :: o in rows ==> rows[o].node in mid.nodes
    requires BlobTurn(mid.nodes, mid.closure, rows, midBlobs, after, r, blobFails)
    ensures forall o :: o in rows ==> (rows[o].key !in after
      <==> rows[o].key !in midBlobs || (rows[o].key !in blobFails && (r, rows[o].node) in c))
  {
    forall o | o in rows ensures rows[o].key !in after
      <==> rows[o].key !in midBlobs || (rows[o].key !in blobFails && (r, rows[o].node) in c)
    {
      RowKeyListed(rows, mid.closure, r, o);
    }
  }

  lemma ListedWith(c: Closure, tried: set<NodeId>, r: NodeId)
    ensures forall d: NodeId :: ListedUnder(c, tried + {r}, d) <==> ListedUnder(c, tried, d) || (r, d) in c
  {
    forall d: NodeId ensures ListedUnder(c, tried + {r}, d) <==> ListedUnder(c, tried, d) || (r, d) in c {
      assert r in tried + {r};
    }
  }

  lemma KeysTurn(c: Closure, objects: Rows, blobs: set<Key>, midBlobs: set<Key>, after: set<Key>, tried: set<NodeId>,
                 r: NodeId, blobFails: set<Key>)
    requires OnlyListedGone(c, objects, blobs, midBlobs, tried, blobFails)
    requires forall key :: key in midBlobs && key !in after ==>
      key !in blobFails && KeyListed(c, objects, tried + {r}, key)
    ensures OnlyListedGone(c, objects, blobs, after, tried + {r}, blobFails)
  {
    ListedWith(c, tried, r);
    forall key | KeyListed(c, objects, tried, key) ensures KeyListed(c, objects, tried + {r}, key) {
      var o :| o in objects && objects[o].key == key && ListedUnder(c, tried, objects[o].node);
      assert ListedUnder(c, tried + {r}, objects[o].node);
    }
  }

  lemma RowsTurn(c: Closure, rows: Rows, left: Rows, blobs: set<Key>, midBlobs: set<Key>, after: set<Key>,
                 tried: set<NodeId>, r: NodeId, blobFails: set<Key>)
    requires LeftRowsHit(c, rows, blobs, midBlobs, tried, blobFails) && midBlobs <= blobs
    requires forall o :: o in left ==> o in rows && rows[o] == left[o]
    requires forall o :: o in rows ==> (rows[o].key !in after
      <==> rows[o].key !in midBlobs || (rows[o].key !in blobFails && (r, rows[o].node) in c))
    ensures LeftRowsHit(c, left, blobs, after, tried + {r}, blobFails)
  {
    ListedWith(c, tried, r);
  }

  /** With one row a key, the key is listed exactly when its row is. */
  lemma RowKeyListed(rows: Rows, c: Closure, r: NodeId, o: ObjectMap.RowId)
    requires UploadStates.KeysUnique(rows) && o in rows
    ensures rows[o].key in ListedKeys(rows, c, r) <==> (r, rows[o].node) in c
  {
  }

  /** Between nodes that stay the closure stays; and what a root lists goes with the root. */
  lemma ListedStays(s: TreeState, mid: TreeState, done: set<NodeId>, r: NodeId)
    requires StoreInv(s) && PurgeStep(s, mid, done) && r in s.nodes
    ensures ListsAsBefore(s.closure, mid, r)
  {
    forall d: NodeId | d in mid.nodes ensures (r, d) in s.closure <==> r in mid.nodes && (r, d) in mid.closure {
      if (r, d) in s.closure {
        var k := s.closure[(r, d)];
        assert HasRow(s.closure, r, d, k) && IsUp(s.nodes, r, d, k);
        if Gone(s, done, r) {
          GoneBelow(s, done, r, d, k);
        }
        assert HasRow(mid.closure, r, d, k);
      }
      if (r, d) in mid.closure {
        assert HasRow(mid.closure, r, d, mid.closure[(r, d)]);
        assert HasRow(s.closure, r, d, mid.closure[(r, d)]);
        RowEndsStay(s, mid, done, r, d, mid.closure[(r, d)]);
      }
    }
  }

  /** The nodes, with the object rows and the blobs of the s3 mode beside them. */
  class TrashService {
    const store: FileNodeService
    var objects: Rows
    var blobs: set<Key>

    /** The constraints of the tables; object rows have their node, and no key is in two rows. */
    ghost predicate Valid()
      reads this, store
    {
      store.Valid() && UploadStates.KeysUnique(objects) && forall o :: o in objects ==> objects[o].node in store.nodes
    }

    constructor (store: FileNodeService)
      requires store.Valid()
      ensures this.store == store && Valid() && objects == map[] && blobs == {}
    {
      this.store, objects, blobs := store, map[], {};
    }

    /** fileService.deleteNode: a live node and the descendants its closure rows name go to the trash. */
    method TrashNode(id: NodeId, now: nat) returns (ok: bool)
      requires Valid()
      modifies store
      ensures ok <==> id in old(store.nodes) && old(store.nodes)[id].Live()
      ensures ok ==> TrashStep(old(store.State()), store.State(), id, now)
      ensures ok && Exact(old(store.nodes), old(store.closure)) ==> forall x :: x in old(store.nodes) ==>
        x in store.nodes && store.nodes[x] == old(store.nodes)[x].(deletedAt :=
          if InSubtree(old(store.nodes), id, x) then Some(now) else old(store.nodes)[x].deletedAt)
      ensures !ok ==> store.State() == old(store.State())
      ensures Valid()
    {
      if id !in store.nodes || !store.nodes[id].Live() {
        return false;
      }
      var descendantIds := store.GetDescendantIds(id);
      store.MarkSubtreeDeleted({id} + descendantIds, now);
      TrashKeepsStore(old(store.State()), store.State(), id, now);
      if Exact(old(store.nodes), old(store.closure)) {
        StampedOnExact(old(store.State()), store.State(), id, now);
      }
      ok := true;
    }

    /** [target, parent, ...] up to the last trashed ancestor in a row. */
    method TrashedChain(id: NodeId) returns (chain: seq<NodeId>)
      requires id in store.nodes && !store.nodes[id].Live() && ChainEnds(store.nodes, id)
      ensures forall x :: x in chain <==> exists k: nat :: TrashedWalk(store.nodes, x, id, k)
    {
      var t := store.nodes;
      ghost var r: NodeId, depth: nat :| TrashedWalk(t, r, id, depth) && IsTrashRoot(t, r);
      chain := [id];
      var cursor := id;
      assert TrashedWalk(t, id, id, 0);
      while t[cursor].parent.Some?
        invariant 0 < |chain| <= depth + 1 && cursor == chain[|chain| - 1] && cursor in t
        invariant forall i: nat :: i < |chain| ==> TrashedWalk(t, chain[i], id, i)
        decreases depth + 1 - |chain|
      {
        var parent := t[cursor].parent.value;
        if parent !in t || t[parent].Live() {
          break;
        }
        TrashedWalkOn(t, cursor, id, |chain| - 1);
        if |chain| == depth + 1 {
          TrashedWalkIsUp(t, r, id, depth);
          TrashedWalkIsUp(t, cursor, id, depth);
          assert false;
        }
        chain := chain + [parent];
        cursor := parent;
      }
      forall x | exists k: nat :: TrashedWalk(t, x, id, k) ensures x in chain {
        var k: nat :| TrashedWalk(t, x, id, k);
        ChainComplete(t, id, chain, x, k);
      }
    }

    /** The rows trashed without interruption below the target, breadth first. */
    method TrashedDescendants(id: NodeId) returns (rows: seq<NodeId>)
      requires id in store.nodes && !store.nodes[id].Live() && !OnTrashedLoop(store.nodes, id)
      ensures forall x :: x in rows <==> BelowTarget(store.nodes, id, x) && x != id
    {
      var t := store.nodes;
      rows := [];
      var queue := [id];
      ghost var visited: set<NodeId> := {};
      assert TrashedWalk(t, id, id, 0);
      while queue != []
        invariant BelowInv(t, id, visited, queue, rows)
        decreases t.Keys - visited
      {
        var node := queue[0];
        assert node in queue;
        var trashedChildren := store.GetTrashChildren(node);
        BelowStep(t, id, visited, queue, rows, trashedChildren);
        rows := rows + trashedChildren;
        queue := queue[1..] + trashedChildren;
        visited := visited + {node};
      }
      forall x | BelowTarget(t, id, x) ensures x in visited {
        var k: nat :| TrashedWalk(t, id, x, k);
        BelowAll(t, id, visited, rows, x, k);
      }
    }

    /** Picks final names row by row. The claimed names travel as a Set, which resolveRestoreName ignores. */
    method PlanRenames(orderedRows: seq<NodeId>) returns (renames: map<NodeId, string>)
      requires forall x :: x in orderedRows ==> x in store.nodes
      ensures forall x :: x in renames ==> x in orderedRows
      ensures forall x :: x in orderedRows ==> NameAfter(store.nodes, renames, x) == FinalName(store.nodes, x)
    {
      var t := store.nodes;
      renames := map[];
      var claimedByParent: map<Option<NodeId>, set<string>> := map[];
      var i := 0;
      while i < |orderedRows|
        invariant 0 <= i <= |orderedRows|
        invariant forall x :: x in renames ==> x in orderedRows[..i] && renames[x] == FinalName(t, x)
        invariant forall x :: x in orderedRows[..i] ==> x in t && NameAfter(t, renames, x) == FinalName(t, x)
      {
        var row := orderedRows[i];
        assert row in orderedRows && orderedRows[..i + 1] == orderedRows[..i] + [row];
        var claimed := if t[row].parent in claimedByParent then claimedByParent[t[row].parent] else {};
        var finalName := ResolveRestoreName(LiveNames(t, t[row].parent), t[row].name, AsSet(claimed));
        FirstFreeUnique(LiveNames(t, t[row].parent), t[row].name, finalName, FinalName(t, row));
        claimedByParent := claimedByParent[t[row].parent := claimed + {finalName}];
        if finalName != t[row].name {
          renames := renames[row := finalName];
        }
        i := i + 1;
      }
      assert orderedRows[..i] == orderedRows;
    }

    /** Renames the planned rows; they are still trashed, so no index refuses. */
    method ApplyRenames(renames: map<NodeId, string>)
      requires forall x :: x in renames ==> x in store.nodes && !store.nodes[x].Live()
      requires LiveSiblingsDistinct(store.nodes)
      modifies store`nodes
      ensures store.nodes.Keys == old(store.nodes).Keys
      ensures forall x :: x in store.nodes ==>
        store.nodes[x] == old(store.nodes)[x].(name := NameAfter(old(store.nodes), renames, x))
    {
      var todo := Enumerate(renames.Keys);
      var i := 0;
      while i < |todo|
        invariant 0 <= i <= |todo|
        invariant store.nodes.Keys == old(store.nodes).Keys
        invariant forall x :: x in store.nodes ==>
          (store.nodes[x] == if x in todo[..i] then old(store.nodes)[x].(name := renames[x]) else old(store.nodes)[x])
      {
        assert todo[i] in todo && todo[i] !in todo[..i];
        TrashedNamesFree(old(store.nodes), store.nodes, todo[i], renames[todo[i]]);
        var renamed := store.RenameNode(todo[i], renames[todo[i]]);
        assert todo[..i + 1] == todo[..i] + [todo[i]];
        i := i + 1;
      }
      assert todo[..i] == todo;
    }

    /** The restore transaction: renames, then one untrash; a refused untrash rolls everything back. */
    method CommitRestore(id: NodeId, ids: set<NodeId>, renames: map<NodeId, string>) returns (ok: bool)
      requires Valid() && (forall x :: x in ids <==> InRestoreSet(store.nodes, id, x))
      requires ids <= store.nodes.Keys && renames.Keys <= ids && forall x :: x in ids ==> !store.nodes[x].Live()
      requires forall x :: x in ids ==> NameAfter(store.nodes, renames, x) == FinalName(store.nodes, x)
      modifies store`nodes
      ensures ok <==> !SiblingClash(old(store.nodes), id)
      ensures ok ==> RestoreStep(old(store.State()), store.State(), id)
      ensures !ok ==> store.nodes == old(store.nodes)
      ensures Valid()
    {
      ghost var before := store.State();
      var saved := store.nodes;
      ApplyRenames(renames);
      ghost var after := TreeState(Stamped(store.nodes, ids, None), store.closure);
      RestoredTable(before, after, id, ids, renames, store.nodes);
      RestoreVerdict(before, after, id);
      ok := store.UntrashSubtree(ids);
      if !ok {
        store.nodes := saved;
      } else {
        RestoreKeepsStore(before, after, id);
      }
    }

    /** Restores a trashed node with the trashed rows above and below it, in one transaction. */
    method RestoreNode(id: NodeId) returns (r: RestoreOutcome)
      requires Valid() && (id in store.nodes && !store.nodes[id].Live() ==> ChainEnds(store.nodes, id))
      modifies store`nodes
      ensures r == if id !in old(store.nodes) then NotFound
                   else if old(store.nodes)[id].Live() then NotTrashed
                   else if SiblingClash(old(store.nodes), id) then NameClash else Restored
      ensures r == Restored ==> RestoreStep(old(store.State()), store.State(), id)
      ensures r == Restored ==> forall x :: x in store.nodes && store.nodes[x] != old(store.nodes)[x] ==>
        && x in old(store.nodes)
        && store.nodes[x] == old(store.nodes)[x].(deletedAt := None, name := store.nodes[x].name)
        && FirstFree(LiveNames(old(store.nodes), old(store.nodes)[x].parent), old(store.nodes)[x].name,
                     store.nodes[x].name)
        && !LiveSiblingNamed(old(store.nodes), x, store.nodes[x].name)
        && (store.nodes[x].name != old(store.nodes)[x].name ==>
              LiveSiblingNamed(old(store.nodes), x, old(store.nodes)[x].name))
      ensures r == Restored && TrashClosed(old(store.nodes)) ==> forall x :: x in old(store.nodes) ==>
        && x in store.nodes
        && (store.nodes[x].Live() <==>
              old(store.nodes)[x].Live() || InSubtree(old(store.nodes), id, x) || InSubtree(old(store.nodes), x, id))
      ensures r != Restored ==> store.State() == old(store.State())
      ensures Valid()
    {
      if id !in store.nodes {
        return NotFound;
      }
      if store.nodes[id].Live() {
        return NotTrashed;
      }
      NotBelowItself(store.nodes, id);
      var chain := TrashedChain(id);
      var below := TrashedDescendants(id);
      var orderedRows := Reverse(chain) + below;
      assert TrashedWalk(store.nodes, id, id, 0);
      forall x ensures x in orderedRows <==> InRestoreSet(store.nodes, id, x) {
        assert x in orderedRows <==> x in chain || x in below;
      }
      forall x | InRestoreSet(store.nodes, id, x) ensures x in store.nodes && !store.nodes[x].Live() {
        RestoreSetTrashed(store.nodes, id, x);
      }
      var renames := PlanRenames(orderedRows);
      SiblingNames(store.nodes);
      var ok := CommitRestore(id, Elements(orderedRows), renames);
      if ok && TrashClosed(old(store.nodes)) {
        RestoredOnClosed(old(store.State()), store.State(), id);
      }
      r := if ok then Restored else NameClash;
    }

    /** Blob by blob; a failing delete is only reported. */
    method DeleteBlobs(rows: seq<ObjectMap.RowId>, fails: set<Key>)
      requires forall o :: o in rows ==> o in objects
      modifies this`blobs
      ensures blobs == old(blobs) - ((set o | o in rows :: objects[o].key) - fails)
    {
      var i := 0;
      while i < |rows|
        invariant 0 <= i <= |rows|
        invariant blobs == old(blobs) - ((set o | o in rows[..i] :: objects[o].key) - fails)
      {
        assert rows[i] in rows && rows[..i + 1] == rows[..i] + [rows[i]];
        var key := objects[rows[i]].key;
        if key !in fails {
          blobs := blobs - {key};
        }
        i := i + 1;
      }
      assert rows[..i] == rows;
    }

    /**
     * The purge core of the s3 mode: first the blobs of all rows the closure lists, then the delete transaction, which
     * `dbFails` makes throw. By then the blobs are gone.
     */
    method PurgeNode(id: NodeId, blobFails: set<Key>, dbFails: bool) returns (ok: bool)
      requires Valid()
      modifies store, this`objects, this`blobs
      ensures ok <==> id in old(store.nodes) && !dbFails
      ensures ok ==> DeleteStep(old(store.State()), store.State(), id)
      ensures !ok ==> store.State() == old(store.State())
      ensures blobs == if id in old(store.nodes)
        then old(blobs) - (ListedKeys(old(objects), old(store.closure), id) - blobFails) else old(blobs)
      ensures objects == RowsOf(old(objects), store.nodes)
      ensures Valid()
    {
      if id !in store.nodes {
        AllRowsStay(objects, store.nodes);
        return false;
      }
      var subtree := store.GetDescendantIds(id);
      var objectRows := Enumerate(set o | o in objects && objects[o].node in subtree);
      DeleteBlobs(objectRows, blobFails);
      ListedAsRows(objects, store.closure, id, objectRows);
      if dbFails {
        AllRowsStay(objects, store.nodes);
        return false;
      }
      store.DeleteNode(id);
      objects := RowsOf(objects, store.nodes);
      ok := true;
    }

    /** Topmost trashed rows, optionally only those stamped before the cutoff. */
    method GetTopmostTrashedNodes(cutoff: Option<int>) returns (roots: seq<NodeId>)
      ensures Elements(roots) == TrashRoots(store.nodes, cutoff)
    {
      var t := store.nodes;
      roots := Enumerate(set r: NodeId | r in t && !t[r].Live()
        && (t[r].parent.Some? ==> t[r].parent.value !in t || t[t[r].parent.value].Live())
        && (cutoff.Some? ==> t[r].deletedAt.value < cutoff.value));
    }

    /** Purges the listed roots one by one; a failing root is skipped, its blobs gone, and the loop goes on. */
    method PurgeRoots(roots: seq<NodeId>, blobFails: set<Key>, fails: set<NodeId>)
      requires Valid() && forall r :: r in roots ==> r in store.nodes
      modifies store, this`objects, this`blobs
      ensures Valid()
      ensures PurgeStep(old(store.State()), store.State(), Elements(roots) - fails)
      ensures objects == RowsOf(old(objects), store.nodes)
      ensures BlobsPurged(old(store.closure), old(objects), old(blobs), objects, blobs, Elements(roots), blobFails)
    {
      ghost var before, rows, bucket := store.State(), objects, blobs;
      StartOfLoop(before, rows, bucket, fails, blobFails);
      var i := 0;
      while i < |roots|
        invariant 0 <= i <= |roots|
        invariant PurgedSoFar(before, rows, bucket, store.State(), objects, blobs, Elements(roots[..i]), fails,
                              blobFails)
        invariant Valid()
      {
        ghost var mid, left, midBlobs := store.State(), objects, blobs;
        var node := roots[i];
        assert node in roots;
        var ok := PurgeNode(node, blobFails, node in fails);
        LoopTurn(before, rows, bucket, mid, left, midBlobs, store.State(), blobs, Elements(roots[..i]), node, fails,
          blobFails);
        ElementsOfPrefix(roots, i);
        i := i + 1;
      }
      assert roots[..i] == roots;
    }

    /** Lists the topmost trashed rows, all or those stamped before the cutoff, and purges them. */
    method PurgeTopmost(cutoff: Option<int>, blobFails: set<Key>, fails: set<NodeId>)
      requires Valid()
      modifies store, this`objects, this`blobs
      ensures Valid()
      ensures PurgeStep(old(store.State()), store.State(), TrashRoots(old(store.nodes), cutoff) - fails)
      ensures objects == RowsOf(old(objects), store.nodes)
      ensures BlobsPurged(old(store.closure), old(objects), old(blobs), objects, blobs,
                          TrashRoots(old(store.nodes), cutoff), blobFails)
      ensures TreeInv(old(store.State())) && fails == {} ==>
        store.nodes.Keys == old(store.nodes).Keys - ExpiredRows(old(store.nodes), cutoff)
    {
      var topmost := GetTopmostTrashedNodes(cutoff);
      PurgeRoots(topmost, blobFails, fails);
      if TreeInv(old(store.State())) && fails == {} {
        NoneFails(TrashRoots(old(store.nodes), cutoff));
        PurgedOnClosed(old(store.State()), store.State(), cutoff);
      }
    }

    /** Takes what the deletes of the trash roots that do not fail take, and nothing else. */
    method EmptyTrash(blobFails: set<Key>, fails: set<NodeId>)
      requires Valid()
      modifies store, this`objects, this`blobs
      ensures Valid()
      ensures PurgeStep(old(store.State()), store.State(), TrashRoots(old(store.nodes), None) - fails)
      ensures objects == RowsOf(old(objects), store.nodes)
      ensures BlobsPurged(old(store.closure), old(objects), old(blobs), objects, blobs,
                          TrashRoots(old(store.nodes), None), blobFails)
      ensures TreeInv(old(store.State())) && fails == {} ==> forall x :: x in old(store.nodes) ==>
        (x in store.nodes <==> old(store.nodes)[x].deletedAt.None?)
    {
      PurgeTopmost(None, blobFails, fails);
      ExpiredAre(old(store.nodes), None);
    }

    /** GC Tier 3: the same for the roots trashed before the retention window. */
    method RunTier3(retentionDays: nat, now: nat, blobFails: set<Key>, fails: set<NodeId>)
      returns (skipped: bool, cutoff: int)
      requires Valid()
      modifies store, this`objects, this`blobs
      ensures Valid()
      ensures skipped <==> retentionDays == 0
      ensures cutoff == now - retentionDays * DAY
      ensures skipped ==> store.State() == old(store.State()) && objects == old(objects) && blobs == old(blobs)
      ensures !skipped ==>
        PurgeStep(old(store.State()), store.State(), TrashRoots(old(store.nodes), Some(cutoff)) - fails)
      ensures !skipped ==> objects == RowsOf(old(objects), store.nodes)
      ensures !skipped ==> BlobsPurged(old(store.closure), old(objects), old(blobs), objects, blobs,
                                       TrashRoots(old(store.nodes), Some(cutoff)), blobFails)
      ensures !skipped && TreeInv(old(store.State())) && fails == {} ==> forall x :: x in old(store.nodes) ==>
        (x !in store.nodes <==>
          old(store.nodes)[x].deletedAt.Some? && old(store.nodes)[x].deletedAt.value < cutoff)
    {
      cutoff := now - retentionDays * DAY;
      if retentionDays == 0 {
        return true, cutoff;
      }
      PurgeTopmost(Some(cutoff), blobFails, fails);
      ExpiredBefore(old(store.nodes), cutoff);
      skipped := false;
    }
  }

  /** What the purge loop has done after some roots. */
  ghost predicate PurgedSoFar(s: TreeState, objects: Rows, blobs: set<Key>, u: TreeState, left: Rows, after: set<Key>,
                              tried: set<NodeId>, fails: set<NodeId>, blobFails: set<Key>)
  {
    && PurgeStep(s, u, tried - fails)
    && left == RowsOf(objects, u.nodes)
    && BlobsPurged(s.closure, objects, blobs, left, after, tried, blobFails)
  }

  lemma LoopTurn(s: TreeState, objects: Rows, blobs: set<Key>, mid: TreeState, left: Rows, midBlobs: set<Key>,
                 u: TreeState, after: set<Key>, tried: set<NodeId>, r: NodeId, fails: set<NodeId>,
                 blobFails: set<Key>)
    requires StoreInv(s) && r in s.nodes && UploadStates.KeysUnique(objects)
    requires PurgedSoFar(s, objects, blobs, mid, left, midBlobs, tried, fails, blobFails)
    requires if r in mid.nodes && r !in fails then DeleteStep(mid, u, r) else u == mid
    requires BlobTurn(mid.nodes, mid.closure, left, midBlobs, after, r, blobFails)
    ensures PurgedSoFar(s, objects, blobs, u, RowsOf(left, u.nodes), after, tried + {r}, fails, blobFails)
  {
    TriedTurn(s, mid, u, tried, r, fails);
    ListedStays(s, mid, tried - fails, r);
    TurnShrinks(mid, u, r);
    RowsOfRows(objects, mid.nodes, u.nodes);
    BlobsTurn(s.closure, mid, u.nodes, r, objects, blobs, midBlobs, after, tried, blobFails);
  }

  lemma RowsOfRows(objects: Rows, more: Nodes, fewer: Nodes)
    requires fewer.Keys <= more.Keys
    ensures RowsOf(RowsOf(objects, more), fewer) == RowsOf(objects, fewer)
  {
  }

  lemma TurnShrinks(mid: TreeState, u: TreeState, r: NodeId)
    requires DeleteStep(mid, u, r) || u == mid
    ensures u.nodes.Keys <= mid.nodes.Keys
  {
  }

  lemma ExpiredAre(t: Nodes, cutoff: Option<int>)
    ensures forall x :: x in t ==> (x in ExpiredRows(t, cutoff)
      <==> t[x].deletedAt.Some? && (cutoff.Some? ==> t[x].deletedAt.value < cutoff.value))
  {
  }

  lemma ExpiredBefore(t: Nodes, cutoff: int)
    ensures forall x :: x in t ==>
      (x in ExpiredRows(t, Some(cutoff)) <==> t[x].deletedAt.Some? && t[x].deletedAt.value < cutoff)
  {
  }

  lemma NoneFails(roots: set<NodeId>)
    ensures roots - {} == roots
  {
  }

  /** Renames of trashed rows never meet the live-only indexes. */
  lemma TrashedNamesFree(t: Nodes, u: Nodes, id: NodeId, name: string)
    requires LiveSiblingsDistinct(t) && t.Keys == u.Keys && id in t && !t[id].Live()
    requires forall x :: x in t ==> u[x] == t[x] || (!t[x].Live() && u[x] == t[x].(name := u[x].name))
    ensures LiveSiblingsDistinct(u) && LiveSiblingsDistinct(u[id := u[id].(name := name)])
  {
  }

  /** One turn of the purge loop: a delete, or nothing for a root that fails or went with an earlier one. */
  lemma TriedTurn(s: TreeState, mid: TreeState, u: TreeState, tried: set<NodeId>, r: NodeId, fails: set<NodeId>)
    requires StoreInv(s) && r in s.nodes && PurgeStep(s, mid, tried - fails)
    requires if r in mid.nodes && r !in fails then DeleteStep(mid, u, r) else u == mid
    ensures PurgeStep(s, u, tried + {r} - fails)
  {
    TriedSets(tried, r, fails);
    if r in fails {
    } else if r in mid.nodes {
      PurgeAnother(s, mid, u, tried - fails, r);
    } else {
      AlreadyGone(s, mid, tried - fails, r);
    }
  }

  lemma TriedSets(tried: set<NodeId>, r: NodeId, fails: set<NodeId>)
    ensures tried + {r} - fails == if r in fails then tried - fails else tried - fails + {r}
  {
  }

  lemma StartOfLoop(s: TreeState, objects: Rows, blobs: set<Key>, fails: set<NodeId>, blobFails: set<Key>)
    requires forall o :: o in objects ==> objects[o].node in s.nodes
    ensures PurgedSoFar(s, objects, blobs, s, objects, blobs, {}, fails, blobFails)
  {
  }

  /** Where the chain stops, no trashed row in a row above the target is missed. */
  lemma ChainComplete(t: Nodes, id: NodeId, chain: seq<NodeId>, x: NodeId, k: nat)
    requires chain != [] && TrashedWalk(t, x, id, k)
    requires forall i: nat :: i < |chain| ==> TrashedWalk(t, chain[i], id, i)
    requires var top := chain[|chain| - 1];
      top in t && (t[top].parent.Some? ==> t[top].parent.value !in t || t[t[top].parent.value].Live())
    ensures x in chain
  {
    if k < |chain| {
      TrashedWalkIsUp(t, x, id, k);
      TrashedWalkIsUp(t, chain[k], id, k);
    } else {
      TrashedWalkRest(t, chain[|chain| - 1], x, id, |chain| - 1, k);
    }
  }

  lemma RestoreSetTrashed(t: Nodes, id: NodeId, x: NodeId)
    requires InRestoreSet(t, id, x)
    ensures x in t && !t[x].Live()
  {
    if k: nat :| TrashedWalk(t, x, id, k) {
      TrashedWalkIsUp(t, x, id, k);
    } else {
      var k: nat :| TrashedWalk(t, id, x, k);
      TrashedWalkIsUp(t, id, x, k);
    }
  }
}
