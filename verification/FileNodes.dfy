/** fileNodeService and the ancestry helper: creates, moves, deletes and paths over the closure table. */
module FileNodes {
  import opened Common
  import opened Tree
  import opened Paths
  import opened Ancestry
  import opened TreeSteps

  datatype Outcome = Done | CycleRefused | MissingRow | NameTaken | RowsCollide

  /** The table after one UPDATE of deleted_at on the given ids. */
  function Stamped(t: Nodes, ids: set<NodeId>, stamp: Option<nat>): (u: Nodes)
    ensures SameParents(t, u)
  {
    map x | x in t :: if x in ids then t[x].(deletedAt := stamp) else t[x]
  }

  function EntriesOf(c: Closure, d: NodeId): (all: set<Entry>)
    ensures forall a: NodeId, k: nat :: Entry(a, k) in all <==> HasRow(c, a, d, k)
  {
    var all := set p | p in c && p.1 == d :: Entry(p.0, c[p]);
    assert forall a: NodeId, k: nat :: HasRow(c, a, d, k) ==> (a, d) in c && Entry(a, k) in all;
    all
  }

  /** The queue of a move drains, or the move is refused before there is one. */
  ghost predicate Drains(s: TreeState, n: NodeId, p: Option<NodeId>) {
    n in s.nodes && !(p.Some? && (n, p.value) in s.closure) ==> LoopFree(Reparent(s.nodes, n, p), n)
  }

  /** How many rows the closure has for `n`, when they are true and without gap. */
  ghost predicate KnownDepth(c: Closure, n: NodeId, depth: nat) {
    forall i: nat :: KnownAt(c, n, i) <==> i < depth
  }

  // ---------------------------------------------------------------- the service

  class FileNodeService {
    var nodes: Nodes
    var closure: Closure
    var nextId: NodeId

    ghost function State(): TreeState
      reads this
    {
      TreeState(nodes, closure)
    }

    /** The database constraints, and closure rows that are true though perhaps too few. */
    ghost predicate Valid()
      reads this
    {
      StoreInv(State()) && forall n :: n in nodes ==> n < nextId
    }

    constructor ()
      ensures Valid() && nodes == map[] && closure == map[]
    {
      nodes, closure, nextId := map[], map[], 1;
    }

    // ------------------------------------------------------------ store reads

    method GetChildren(parent: Option<NodeId>) returns (r: seq<NodeId>)
      ensures NoDup(r)
      ensures forall x :: x in r <==> x in nodes && nodes[x].parent == parent && nodes[x].Live()
    {
      r := Enumerate(set x | x in nodes && nodes[x].parent == parent && nodes[x].Live());
    }

    method GetTrashChildren(parent: NodeId) returns (r: seq<NodeId>)
      ensures NoDup(r)
      ensures forall x :: x in r <==> x in nodes && nodes[x].parent == Some(parent) && !nodes[x].Live()
    {
      r := Enumerate(set x | x in nodes && nodes[x].parent == Some(parent) && !nodes[x].Live());
    }

    function GetDescendantIds(n: NodeId): (r: set<NodeId>)
      reads this
      ensures forall d :: d in r <==> (n, d) in closure
    {
      set p | p in closure && p.0 == n :: p.1
    }

    /** Root first: greatest depth first, the node itself last. */
    method GetAncestorChain(d: NodeId) returns (chain: seq<Entry>)
      ensures NoDup(chain)
      ensures forall a: NodeId, k: nat :: Entry(a, k) in chain <==> HasRow(closure, a, d, k)
      ensures forall i, j :: 0 <= i < j < |chain| ==> chain[i].k >= chain[j].k
    {
      var all := EntriesOf(closure, d);
      chain := [];
      var rest := all;
      while rest != {}
        invariant rest <= all && NoDup(chain)
        invariant forall e :: e in chain <==> e in all && e !in rest
        invariant forall i, j :: 0 <= i < j < |chain| ==> chain[i].k >= chain[j].k
        invariant forall e, f :: e in chain && f in rest ==> e.k >= f.k
        decreases rest
      {
        DeepestExists(rest);
        var e :| e in rest && forall f :: f in rest ==> f.k <= e.k;
        chain := chain + [e];
        rest := rest - {e};
      }
    }

    // ------------------------------------------------------------ closure writes

    method DeleteAncestorByDescendant(ids: set<NodeId>)
      modifies this`closure
      ensures closure == map p | p in old(closure) && p.1 !in ids :: old(closure)[p]
    {
      closure := map p | p in closure && p.1 !in ids :: closure[p];
    }

    /** Row by row in the caller's transaction: a missing foreign key or a taken primary key rolls the batch back. */
    method InsertAncestorRows(rows: seq<Row>) returns (ok: bool)
      modifies this`closure
      ensures ok <==> Insertable(nodes, old(closure), rows)
      ensures ok ==> forall a: NodeId, d: NodeId, k: nat ::
        HasRow(closure, a, d, k) <==> HasRow(old(closure), a, d, k) || Row(a, d, k) in rows
      ensures !ok ==> closure == old(closure)
    {
      var saved := closure;
      var i := 0;
      while i < |rows|
        invariant 0 <= i <= |rows|
        invariant Insertable(nodes, old(closure), rows[..i])
        invariant forall p ::
          p in closure <==> p in old(closure) || exists j :: 0 <= j < i && p == (rows[j].a, rows[j].d)
        invariant forall a: NodeId, d: NodeId, k: nat ::
          HasRow(closure, a, d, k) <==> HasRow(old(closure), a, d, k) || Row(a, d, k) in rows[..i]
      {
        var r := rows[i];
        if r.a !in nodes || r.d !in nodes || (r.a, r.d) in closure {
          assert rows[i] in rows;
          closure := saved;
          return false;
        }
        closure := closure[(r.a, r.d) := r.k];
        assert rows[..i + 1] == rows[..i] + [r];
        i := i + 1;
      }
      assert rows[..i] == rows;
      ok := true;
    }

    method BuildAncestorsForNode(id: NodeId, parent: Option<NodeId>) returns (ok: bool)
      requires id in nodes && ClosureKeys(nodes, closure) && forall p :: p in closure ==> p.0 != id && p.1 != id
      modifies this`closure
      ensures ok
      ensures forall a: NodeId, d: NodeId, k: nat :: HasRow(closure, a, d, k) <==>
        if d == id then (if k == 0 then a == id else Onward(old(closure), parent, a, k - 1))
          else HasRow(old(closure), a, d, k)
    {
      var parentChain: seq<Entry> := [];
      if parent.Some? {
        parentChain := GetAncestorChain(parent.value);
      }
      var rows := [Row(id, id, 0)];
      var i := 0;
      while i < |parentChain|
        invariant 0 <= i <= |parentChain|
        invariant rows == [Row(id, id, 0)] + RowsFor(id, Shift(parentChain))[..i]
      {
        rows := rows + [Row(parentChain[i].a, id, parentChain[i].k + 1)];
        i := i + 1;
      }
      assert rows == RowsFor(id, SelfChain(id, parentChain));
      LeafRows(nodes, closure, id, parent, parentChain);
      RowsForMember(id, SelfChain(id, parentChain));
      forall a: NodeId, k: nat
        ensures Entry(a, k) in SelfChain(id, parentChain)
          <==> if k == 0 then a == id else Onward(closure, parent, a, k - 1)
      {
        SelfChainMember(id, parentChain, a, k);
      }
      ok := InsertAncestorRows(rows);
    }

    // ------------------------------------------------------------ services

    method CreateNode(parent: Option<NodeId>, name: string, kind: Kind) returns (r: Outcome, id: NodeId)
      requires Valid()
      modifies this
      ensures Valid()
      ensures r == if parent.Some? && parent.value !in old(nodes) then MissingRow
                   else if !LiveSiblingsDistinct(old(nodes)[old(nextId) := Node(parent, name, kind, None)])
                     then NameTaken else Done
      ensures r == Done ==> CreateStep(old(State()), State(), id, parent, name, kind)
      ensures r == Done ==> nodes == old(nodes)[id := Node(parent, name, kind, None)] && id == old(nextId) < nextId
      ensures r == Done && Exact(old(nodes), old(closure)) ==> Exact(nodes, closure)
      ensures r != Done ==> State() == old(State()) && nextId == old(nextId)
    {
      id := nextId;
      if parent.Some? && parent.value !in nodes {
        return MissingRow, id;
      }
      CreateNameTakenIff(nodes, id, parent, name, kind);
      if NameInUse(nodes, id, parent, name) {
        return NameTaken, id;
      }
      ghost var before := State();
      nodes := nodes[id := Node(parent, name, kind, None)];
      nextId := nextId + 1;
      var ok := BuildAncestorsForNode(id, parent);
      CreateKeepsTable(before, State(), id, parent, name, kind);
      CreateKeepsTruth(before, State(), id, parent, name, kind);
      if Exact(before.nodes, before.closure) {
        CreateKeepsExact(before, State(), id, parent, name, kind);
      }
      r := Done;
    }

    /** Queue rebuild of the closure under `n`, run after its parent pointer changed. */
    method RebuildAncestorsAfterMove(n: NodeId, newParent: Option<NodeId>) returns (ok: bool)
      requires n in nodes && ClosureKeys(nodes, closure) && LoopFree(nodes, n)
      requires newParent.Some? ==> (n, newParent.value) !in closure
      modifies this`closure
      ensures ok <==> !RowsTaken(nodes, Cut(old(closure), n), n, newParent)
      ensures ok ==> forall a: NodeId, d: NodeId, k: nat :: HasRow(closure, a, d, k) <==>
        HasRow(Cut(old(closure), n), a, d, k) || Way(nodes, Cut(old(closure), n), n, newParent, a, d, k)
    {
      var descendantIds := GetDescendantIds(n);
      DeleteAncestorByDescendant(descendantIds);
      assert closure == Cut(old(closure), n);
      var newParentChain: seq<Entry> := [];
      if newParent.Some? {
        newParentChain := GetAncestorChain(newParent.value);
      }
      ghost var cut := closure;
      StartChain(nodes, cut, n, newParent, newParentChain);
      var allRows := BuildRows(n, newParent, newParentChain);
      ok := InsertAncestorRows(allRows);
    }

    /** The queue loop: one turn a node, breadth first along live children. */
    method BuildRows(n: NodeId, ghost newParent: Option<NodeId>, newParentChain: seq<Entry>) returns (allRows: seq<Row>)
      requires n in nodes && ClosureKeys(nodes, closure) && LoopFree(nodes, n)
      requires Reached(nodes, n, n) && ChainFor(nodes, closure, n, newParent, n, newParentChain)
      ensures forall a: NodeId, d: NodeId, k: nat ::
        Row(a, d, k) in allRows <==> Way(nodes, closure, n, newParent, a, d, k)
      ensures Insertable(nodes, closure, allRows) <==> !RowsTaken(nodes, closure, n, newParent)
    {
      allRows := [];
      var queue := [(n, newParentChain)];
      ghost var visited: set<NodeId> := {};
      while queue != []
        invariant QueueInv(nodes, closure, n, newParent, visited, queue)
        invariant RowsInv(nodes, closure, n, newParent, visited, allRows)
        decreases nodes.Keys - visited
      {
        var (nodeId, chain) := queue[0];
        assert queue[0] in queue;
        var item := [Row(nodeId, nodeId, 0)] + RowsFor(nodeId, Shift(chain));
        assert item == RowsFor(nodeId, SelfChain(nodeId, chain));
        var children := GetChildren(Some(nodeId));
        var childChain := SelfChain(nodeId, chain);
        var queued := seq(|children|, i requires 0 <= i < |children| => (children[i], childChain));
        QueueIteration(nodes, closure, n, newParent, visited, queue, children, queued);
        RowsIteration(nodes, closure, n, newParent, visited, allRows, nodeId, chain);
        queue := queue[1..] + queued;
        allRows := allRows + item;
        visited := visited + {nodeId};
      }
      AllReachedVisited(nodes, n, visited);
      RebuildInsertable(nodes, closure, n, newParent, visited, allRows);
      forall a: NodeId, d: NodeId, k: nat | Way(nodes, closure, n, newParent, a, d, k) ensures d in visited {
        assert Reached(nodes, n, d);
      }
    }

    /** One transaction: a batch that collides takes the pointer change back as well. */
    method MoveNode(n: NodeId, newParent: Option<NodeId>) returns (r: Outcome)
      requires Valid() && Drains(State(), n, newParent)
      modifies this`nodes, this`closure
      ensures Valid()
      ensures r == if newParent.Some? && (n, newParent.value) in old(closure) then CycleRefused
                   else if n !in old(nodes) || (newParent.Some? && newParent.value !in old(nodes)) then MissingRow
                   else if !LiveSiblingsDistinct(Reparent(old(nodes), n, newParent)) then NameTaken
                   else if RowsTaken(Reparent(old(nodes), n, newParent), Cut(old(closure), n), n, newParent)
                     then RowsCollide
                   else Done
      ensures r != Done ==> State() == old(State())
      ensures r == Done ==> MoveStep(old(State()), State(), n, newParent)
      ensures r == Done ==> nodes == old(nodes)[n := old(nodes)[n].(parent := newParent)]
      ensures r == Done && Exact(old(nodes), old(closure)) ==>
        (Exact(nodes, closure) <==> CleanBelow(old(nodes), n))
    {
      var descendants := GetDescendantIds(n);
      if newParent.Some? && newParent.value in descendants {
        return CycleRefused;
      }
      // A missing row fails the foreign key of the rebuild's self row, a missing parent that of the update.
      if n !in nodes || (newParent.Some? && newParent.value !in nodes) {
        return MissingRow;
      }
      UpdateNameTakenIff(nodes, n, nodes[n].(parent := newParent));
      if nodes[n].Live() && NameInUse(nodes, n, newParent, nodes[n].name) {
        return NameTaken;
      }
      var savedNodes, savedClosure := nodes, closure;
      nodes := nodes[n := nodes[n].(parent := newParent)];
      var ok := RebuildAncestorsAfterMove(n, newParent);
      if !ok {
        nodes, closure := savedNodes, savedClosure;
        return RowsCollide;
      }
      MoveKept(old(State()), State(), n, newParent);
      r := Done;
    }

    /** Deletes the rows and, by the cascade on parent_id, everything below them. */
    method DeleteNodeTree(ids: set<NodeId>)
      requires ParentsExist(nodes)
      modifies this`nodes, this`closure
      ensures forall x :: x in nodes <==> x in old(nodes) && !Below(old(nodes), ids, x)
      ensures forall x :: x in nodes ==> nodes[x] == old(nodes)[x]
      ensures closure == map p | p in old(closure) && p.0 !in old(nodes).Keys - nodes.Keys
        && p.1 !in old(nodes).Keys - nodes.Keys
        :: old(closure)[p]
    {
      var t := nodes;
      var gone := set x | x in t && x in ids;
      forall x | x in gone ensures InSubtree(t, x, x) {
        assert IsUp(t, x, x, 0);
      }
      while exists x :: x in t && x !in gone && t[x].parent.Some? && t[x].parent.value in gone
        invariant gone <= t.Keys && (forall x :: x in t && x in ids ==> x in gone)
        invariant forall x :: x in gone ==> Below(t, ids, x)
        decreases t.Keys - gone
      {
        var x :| x in t && x !in gone && t[x].parent.Some? && t[x].parent.value in gone;
        ghost var d :| d in ids && InSubtree(t, d, t[x].parent.value);
        ghost var k: nat :| IsUp(t, d, t[x].parent.value, k);
        assert IsUp(t, d, x, k + 1);
        gone := gone + {x};
      }
      CascadeReachesAll(t, ids, gone);
      nodes := map x | x in t && x !in gone :: t[x];
      assert t.Keys - nodes.Keys == gone;
      closure := map p | p in closure && p.0 !in gone && p.1 !in gone :: closure[p];
    }

    method DeleteNode(n: NodeId)
      requires Valid()
      modifies this`nodes, this`closure
      ensures DeleteStep(old(State()), State(), n)
      ensures Exact(old(nodes), old(closure)) ==>
        Exact(nodes, closure) && forall x :: x in nodes <==> x in old(nodes) && !InSubtree(old(nodes), n, x)
      ensures Valid()
    {
      var descendantIds := GetDescendantIds(n);
      DeleteAncestorByDescendant(descendantIds);
      ghost var cut := closure;
      DeleteNodeTree(descendantIds);
      DeletedTables(old(State()), State(), n, descendantIds, cut);
      DeleteKeepsTable(old(State()), State(), n);
      DeleteKeepsTruth(old(State()), State(), n);
      if Exact(old(nodes), old(closure)) {
        DeleteKeepsExact(old(State()), State(), n);
      }
    }

    // ------------------------------------------------------------ soft delete

    method MarkSubtreeDeleted(ids: set<NodeId>, now: nat)
      modifies this`nodes
      ensures nodes == Stamped(old(nodes), ids, Some(now))
    {
      nodes := Stamped(nodes, ids, Some(now));
    }

    /** Clears deleted_at; the live-only unique indexes refuse the whole statement on a clash. */
    method UntrashSubtree(ids: set<NodeId>) returns (ok: bool)
      modifies this`nodes
      ensures ok <==> LiveSiblingsDistinct(Stamped(old(nodes), ids, None))
      ensures nodes == if ok then Stamped(old(nodes), ids, None) else old(nodes)
    {
      var t := Stamped(nodes, ids, None);
      ok := forall x, y | x in t && y in t && x != y && t[x].Live() && t[y].Live() && t[x].parent == t[y].parent
        :: t[x].name != t[y].name;
      if ok {
        nodes := t;
      }
    }

    /** The indexes cover live rows only, so a trashed row takes any name. */
    method RenameNode(id: NodeId, newName: string) returns (ok: bool)
      requires LiveSiblingsDistinct(nodes)
      modifies this`nodes
      ensures ok
        <==> (id in old(nodes) ==> LiveSiblingsDistinct(old(nodes)[id := old(nodes)[id].(name := newName)]))
      ensures nodes == if ok && id in old(nodes) then old(nodes)[id := old(nodes)[id].(name := newName)] else old(nodes)
    {
      if id in nodes {
        UpdateNameTakenIff(nodes, id, nodes[id].(name := newName));
      }
      ok := id !in nodes || !nodes[id].Live() || !NameInUse(nodes, id, nodes[id].parent, newName);
      if ok && id in nodes {
        nodes := nodes[id := nodes[id].(name := newName)];
      }
    }

    // ------------------------------------------------------------ paths

    /** The chain spells the names of as much of the parent walk as the closure knows; trashed rows keep their path. */
    method GetNodePath(n: NodeId) returns (path: string)
      requires Truthful(nodes, closure)
      ensures forall k: nat :: KnownDepth(closure, n, k + 1) ==>
        Up(nodes, n, k).Some? && path == DisplayPath(NamesUp(nodes, n, k))
      ensures KnownDepth(closure, n, 0) ==> path == "/"
      ensures Exact(nodes, closure) ==> forall k: nat :: IsRootWalk(nodes, n, k) ==>
        path == DisplayPath(NamesUp(nodes, n, k))
    {
      var chain := GetAncestorChain(n);
      ChainShape(nodes, closure, n, chain);
      var pathParts: seq<string> := [];
      var i := 0;
      while i < |chain|
        invariant 0 <= i <= |chain|
        invariant |pathParts| == i && forall j :: 0 <= j < i ==>
          chain[j].a in nodes && pathParts[j] == nodes[chain[j].a].name
      {
        assert Up(nodes, n, |chain| - 1 - i) == Some(chain[i].a);
        UpInTable(nodes, chain[i].a, n, |chain| - 1 - i);
        if chain[i].a in nodes {
          pathParts := pathParts + [nodes[chain[i].a].name];
        }
        i := i + 1;
      }
      path := DisplayPath(pathParts);
      ChainNames(nodes, closure, n, chain, pathParts);
      if Exact(nodes, closure) {
        forall k: nat | IsRootWalk(nodes, n, k) ensures KnownDepth(closure, n, k + 1) {
          RootWalkKnown(nodes, closure, n, k);
        }
      }
    }

    method ResolvePathSegment(parent: Option<NodeId>, name: string) returns (r: Option<NodeId>)
      ensures r.Some? ==>
        r.value in nodes && nodes[r.value].Live() && nodes[r.value].parent == parent && nodes[r.value].name == name
      ensures r.None? ==> forall x :: x in nodes && nodes[x].Live() && nodes[x].parent == parent ==>
        nodes[x].name != name
    {
      var hits := set x | x in nodes && nodes[x].Live() && nodes[x].parent == parent && nodes[x].name == name;
      if hits == {} {
        assert forall x :: x in nodes && nodes[x].Live() && nodes[x].parent == parent && nodes[x].name == name ==>
          x in hits;
        return None;
      }
      var x :| x in hits;
      r := Some(x);
    }

    /** Finds a node exactly when it is live under live ancestors and the segments are its names. */
    method ResolvePath(path: string) returns (r: Option<NodeId>)
      requires LiveSiblingsDistinct(nodes)
      ensures forall x: NodeId :: r == Some(x) <==> LiveNamed(nodes, x, Segments(path))
    {
      var segments := Segments(path);
      var currentParentId: Option<NodeId> := None;
      var i := 0;
      while i < |segments|
        invariant 0 <= i <= |segments|
        invariant i == 0 <==> currentParentId.None?
        invariant i > 0 ==> LiveNamed(nodes, currentParentId.value, segments[..i])
      {
        var result := ResolvePathSegment(currentParentId, segments[i]);
        assert segments[..i + 1][..i] == segments[..i];
        forall y: NodeId {:trigger LiveNamed(nodes, y, segments[..i + 1])} | LiveNamed(nodes, y, segments[..i + 1])
          ensures result == Some(y)
        {
          if i > 0 {
            LiveNamedUnique(nodes, nodes[y].parent.value, currentParentId.value, segments[..i]);
          }
        }
        if result.None? {
          forall x: NodeId ensures !LiveNamed(nodes, x, segments) {
            if LiveNamed(nodes, x, segments) {
              var y := LiveNamedPrefix(nodes, x, segments, i + 1);
            }
          }
          return None;
        }
        currentParentId := result;
        i := i + 1;
      }
      assert segments[..i] == segments;
      r := currentParentId;
      forall x: NodeId | LiveNamed(nodes, x, segments) ensures r == Some(x) {
        LiveNamedUnique(nodes, x, r.value, segments);
      }
    }
  }

  // ---------------------------------------------------------------- deletes

  /** When no child of a collected row is left, everything below the listed rows is collected. */
  lemma CascadeReachesAll(t: Nodes, ids: set<NodeId>, gone: set<NodeId>)
    requires forall x :: x in t && x in ids ==> x in gone
    requires forall x :: x in t && t[x].parent.Some? && t[x].parent.value in gone ==> x in gone
    ensures forall x :: Below(t, ids, x) ==> x in gone
  {
    forall x | Below(t, ids, x) ensures x in gone {
      var d :| d in ids && InSubtree(t, d, x);
      var k: nat :| IsUp(t, d, x, k);
      CascadeReaches(t, ids, gone, d, x, k);
    }
  }

  lemma {:induction false} CascadeReaches(t: Nodes, ids: set<NodeId>, gone: set<NodeId>, d: NodeId, x: NodeId, k: nat)
    requires forall x :: x in t && x in ids ==> x in gone
    requires forall x :: x in t && t[x].parent.Some? && t[x].parent.value in gone ==> x in gone
    requires d in ids && IsUp(t, d, x, k)
    ensures x in gone
    decreases k
  {
    if k > 0 {
      CascadeReaches(t, ids, gone, d, t[x].parent.value, k - 1);
    }
  }

  lemma MoveKept(s: TreeState, u: TreeState, n: NodeId, p: Option<NodeId>)
    requires StoreInv(s) && MoveStep(s, u, n, p) && (p.Some? ==> p.value in s.nodes && (n, p.value) !in s.closure)
    requires LiveSiblingsDistinct(u.nodes)
    ensures StoreInv(u)
    ensures Exact(s.nodes, s.closure) ==> (Exact(u.nodes, u.closure) <==> CleanBelow(s.nodes, n))
  {
    MoveKeepsTable(s, u, n, p);
    MoveKeepsTruth(s, u, n, p);
    if Exact(s.nodes, s.closure) {
      MoveExactIff(s, u, n, p);
    }
  }

  lemma DeletedTables(s: TreeState, u: TreeState, n: NodeId, ids: set<NodeId>, cut: Closure)
    requires ClosureKeys(s.nodes, s.closure) && forall d :: d in ids <==> (n, d) in s.closure
    requires forall x :: x in u.nodes <==> x in s.nodes && !Below(s.nodes, ids, x)
    requires forall x :: x in u.nodes ==> u.nodes[x] == s.nodes[x]
    requires cut == map p | p in s.closure && p.1 !in ids :: s.closure[p]
    requires u.closure == map p | p in cut && p.0 !in s.nodes.Keys - u.nodes.Keys
      && p.1 !in s.nodes.Keys - u.nodes.Keys :: cut[p]
    ensures DeleteStep(s, u, n)
  {
    KnownAreRemoved(s, n);
    forall x ensures Removed(s, n, x) <==> Below(s.nodes, ids, x) {
      RemovedIsBelow(s, n, ids, x);
    }
    DeletedRows(s, u, n, ids, cut);
  }

  lemma RemovedIsBelow(s: TreeState, n: NodeId, ids: set<NodeId>, x: NodeId)
    requires forall d :: d in ids <==> (n, d) in s.closure
    ensures Removed(s, n, x) <==> Below(s.nodes, ids, x)
  {
    if Removed(s, n, x) {
      var d :| (n, d) in s.closure && InSubtree(s.nodes, d, x);
      assert d in ids;
    }
    if Below(s.nodes, ids, x) {
      var d :| d in ids && InSubtree(s.nodes, d, x);
      assert (n, d) in s.closure;
    }
  }

  lemma DeletedRows(s: TreeState, u: TreeState, n: NodeId, ids: set<NodeId>, cut: Closure)
    requires ClosureKeys(s.nodes, s.closure) && forall d :: d in ids ==> Removed(s, n, d)
    requires forall x :: x in u.nodes <==> x in s.nodes && !Removed(s, n, x)
    requires cut == map p | p in s.closure && p.1 !in ids :: s.closure[p]
    requires u.closure == map p | p in cut && p.0 !in s.nodes.Keys - u.nodes.Keys
      && p.1 !in s.nodes.Keys - u.nodes.Keys :: cut[p]
    ensures forall a: NodeId, d: NodeId, k: nat :: HasRow(u.closure, a, d, k) <==>
      HasRow(s.closure, a, d, k) && !Removed(s, n, a) && !Removed(s, n, d)
  {
    forall a: NodeId, d: NodeId ensures (a, d) in u.closure
      <==> (a, d) in s.closure && !Removed(s, n, a) && !Removed(s, n, d) {
      if (a, d) in s.closure {
        assert (a, d).0 in s.nodes && (a, d).1 in s.nodes;
      }
    }
  }

  lemma KnownAreRemoved(s: TreeState, n: NodeId)
    requires ClosureKeys(s.nodes, s.closure)
    ensures forall d :: (n, d) in s.closure ==> Removed(s, n, d)
  {
    forall d | (n, d) in s.closure ensures Removed(s, n, d) {
      assert IsUp(s.nodes, d, d, 0);
    }
  }

  // ---------------------------------------------------------------- chains and paths

  /** A chain of true rows runs down without a gap, one entry a depth, the node itself last. */
  lemma ChainShape(t: Nodes, c: Closure, n: NodeId, chain: seq<Entry>)
    requires Truthful(t, c) && NoDup(chain)
    requires forall a: NodeId, k: nat :: Entry(a, k) in chain <==> HasRow(c, a, n, k)
    requires forall i, j :: 0 <= i < j < |chain| ==> chain[i].k >= chain[j].k
    ensures forall i :: 0 <= i < |chain| ==>
      Up(t, n, |chain| - 1 - i) == Some(chain[i].a) && chain[i].k == |chain| - 1 - i
    ensures KnownDepth(c, n, |chain|)
  {
    forall i | 0 <= i < |chain|
      ensures Up(t, n, |chain| - 1 - i) == Some(chain[i].a) && chain[i].k == |chain| - 1 - i
    {
      ChainDepth(t, c, n, chain, i);
      assert Entry(chain[i].a, chain[i].k) in chain;
      assert IsUp(t, chain[i].a, n, chain[i].k);
    }
    forall k: nat ensures KnownAt(c, n, k) <==> k < |chain| {
      if KnownAt(c, n, k) {
        var b :| HasRow(c, b, n, k);
        assert Entry(b, k) in chain;
        var i :| 0 <= i < |chain| && chain[i] == Entry(b, k);
      }
      if k < |chain| {
        var i := |chain| - 1 - k;
        assert chain[i] in chain && Entry(chain[i].a, k) in chain;
        assert HasRow(c, chain[i].a, n, k);
      }
    }
  }

  lemma {:induction false} ChainDepth(t: Nodes, c: Closure, n: NodeId, chain: seq<Entry>, i: nat)
    requires Truthful(t, c) && NoDup(chain) && i < |chain|
    requires forall a: NodeId, k: nat :: Entry(a, k) in chain <==> HasRow(c, a, n, k)
    requires forall i, j :: 0 <= i < j < |chain| ==> chain[i].k >= chain[j].k
    ensures chain[i].k == |chain| - 1 - i
    decreases |chain| - i
  {
    ChainEntry(t, c, n, chain, i);
    if i == |chain| - 1 {
      if chain[i].k > 0 {
        var j := NearerEntry(t, c, n, chain, i, 0);
      }
    } else {
      ChainDepth(t, c, n, chain, i + 1);
      ChainEntry(t, c, n, chain, i + 1);
      var q := chain[i + 1].k;
      assert chain[i] != chain[i + 1];
      if chain[i].k > q + 1 {
        var j := NearerEntry(t, c, n, chain, i, q + 1);
      }
    }
  }

  lemma ChainEntry(t: Nodes, c: Closure, n: NodeId, chain: seq<Entry>, i: nat)
    requires Truthful(t, c) && i < |chain|
    requires forall a: NodeId, k: nat :: Entry(a, k) in chain <==> HasRow(c, a, n, k)
    ensures HasRow(c, chain[i].a, n, chain[i].k) && IsUp(t, chain[i].a, n, chain[i].k)
  {
    assert Entry(chain[i].a, chain[i].k) in chain;
  }

  /** Below an entry the chain has one for every smaller depth, further on. */
  lemma NearerEntry(t: Nodes, c: Closure, n: NodeId, chain: seq<Entry>, i: nat, k: nat) returns (j: nat)
    requires Truthful(t, c) && i < |chain| && k < chain[i].k
    requires forall a: NodeId, k: nat :: Entry(a, k) in chain <==> HasRow(c, a, n, k)
    requires forall i, j :: 0 <= i < j < |chain| ==> chain[i].k >= chain[j].k
    ensures i < j < |chain| && chain[j].k == k
  {
    ChainEntry(t, c, n, chain, i);
    var b := NearerKnown(t, c, chain[i].a, n, chain[i].k, k);
    assert Entry(b, k) in chain;
    j :| 0 <= j < |chain| && chain[j] == Entry(b, k);
  }

  lemma ChainNames(t: Nodes, c: Closure, n: NodeId, chain: seq<Entry>, names: seq<string>)
    requires KnownDepth(c, n, |chain|)
    requires forall i :: 0 <= i < |chain| ==> Up(t, n, |chain| - 1 - i) == Some(chain[i].a)
    requires |names| == |chain| && forall i :: 0 <= i < |chain| ==> chain[i].a in t && names[i] == t[chain[i].a].name
    ensures forall k: nat :: KnownDepth(c, n, k) ==> k == |chain|
    ensures |chain| > 0 ==> Up(t, n, |chain| - 1).Some? && names == NamesUp(t, n, |chain| - 1)
    ensures |chain| == 0 ==> names == []
  {
    forall k: nat | KnownDepth(c, n, k) ensures k == |chain| {
      assert KnownAt(c, n, k) <==> k < |chain|;
      assert KnownAt(c, n, |chain|) <==> |chain| < k;
    }
    if |chain| > 0 {
      assert Up(t, n, |chain| - 1 - 0) == Some(chain[0].a);
      NamesUpAt(t, n, |chain| - 1);
      forall j | 0 <= j < |chain| ensures names[j] == NamesUp(t, n, |chain| - 1)[j] {
        assert Up(t, n, |chain| - 1 - j) == Some(chain[j].a);
        assert NameAt(t, n, |chain| - 1, j);
      }
    }
  }

  lemma RootWalkKnown(t: Nodes, c: Closure, n: NodeId, k: nat)
    requires Exact(t, c) && IsRootWalk(t, n, k)
    ensures KnownDepth(c, n, k + 1)
  {
    forall i: nat ensures KnownAt(c, n, i) <==> i < k + 1 {
      if i <= k {
        UpAdd(t, n, i, k - i);
        assert IsUp(t, Up(t, n, i).value, n, i);
        assert HasRow(c, Up(t, n, i).value, n, i);
      } else {
        UpAdd(t, n, k, i - k);
        forall b: NodeId ensures !HasRow(c, b, n, i) {
          assert HasRow(c, b, n, i) <==> IsUp(t, b, n, i);
        }
      }
    }
  }

  lemma DeepestExists(s: set<Entry>)
    requires s != {}
    ensures exists e :: e in s && forall f :: f in s ==> f.k <= e.k
  {
    var e :| e in s;
    if s == {e} {
      assert forall f :: f in s ==> f.k <= e.k;
    } else {
      var rest := s - {e};
      DeepestExists(rest);
      var g :| g in rest && forall f :: f in rest ==> f.k <= g.k;
      var top := if e.k >= g.k then e else g;
      assert top in s && forall f :: f in s ==> f.k <= top.k;
    }
  }

  /** Everything on the walk up from `n` is live. */
  ghost predicate LiveUp(t: Nodes, n: NodeId) {
    forall a: NodeId, j: nat :: IsUp(t, a, n, j) ==> a in t && t[a].Live()
  }

  /** Resolving a node's display path finds the node exactly when it and its ancestors are live, and then no other. */
  lemma PathRoundTripIff(t: Nodes, n: NodeId, k: nat)
    requires LiveSiblingsDistinct(t) && IsRootWalk(t, n, k)
    requires forall a: NodeId, j: nat :: IsUp(t, a, n, j) ==> a in t && PlainName(t[a].name)
    ensures LiveNamed(t, n, Segments(DisplayPath(NamesUp(t, n, k)))) <==> LiveUp(t, n)
    ensures LiveUp(t, n) ==> forall x :: LiveNamed(t, x, Segments(DisplayPath(NamesUp(t, n, k)))) ==> x == n
  {
    var segs := NamesUp(t, n, k);
    NamesUpAt(t, n, k);
    forall i: nat | i < |segs| ensures PlainName(segs[i]) {
      assert NameAt(t, n, k, i);
      assert IsUp(t, Up(t, n, k - i).value, n, k - i);
    }
    SegmentsOfDisplayPath(segs);
    WalkIsLiveNamed(t, n, k);
    if LiveUp(t, n) {
      forall x | LiveNamed(t, x, segs) ensures x == n {
        LiveNamedUnique(t, x, n, segs);
      }
    }
  }

  lemma {:induction false} WalkIsLiveNamed(t: Nodes, n: NodeId, k: nat)
    requires IsRootWalk(t, n, k)
    ensures LiveNamed(t, n, NamesUp(t, n, k)) <==> LiveUp(t, n)
    decreases k
  {
    NamesUpAt(t, n, k);
    assert IsUp(t, n, n, 0);
    if k > 0 {
      var p := t[n].parent.value;
      WalkIsLiveNamed(t, p, k - 1);
      NamesUpAt(t, p, k - 1);
      assert NamesUp(t, n, k)[..k] == NamesUp(t, p, k - 1);
      LiveUpStep(t, n);
    }
  }

  lemma LiveUpStep(t: Nodes, n: NodeId)
    requires n in t && t[n].parent.Some?
    ensures LiveUp(t, n) <==> t[n].Live() && LiveUp(t, t[n].parent.value)
  {
    var p := t[n].parent.value;
    assert IsUp(t, n, n, 0);
    if LiveUp(t, n) {
      forall a: NodeId, j: nat | IsUp(t, a, p, j) ensures a in t && t[a].Live() {
        assert IsUp(t, a, n, j + 1);
      }
    } else if LiveUp(t, p) {
      var a: NodeId, j: nat :| IsUp(t, a, n, j) && !(a in t && t[a].Live());
      assert j > 0 ==> IsUp(t, a, p, j - 1);
    }
  }
}
