/** trashService: soft delete, restore, and the purges of emptyTrash and GC Tier 3. */
module Trash {
  import opened Common
  import opened Tree
  import opened Paths
  import opened Ancestry
  import opened TreeSteps
  import opened RestoreName

  datatype RestoreOutcome = Restored | NotFound | NotTrashed | NameClash

  // ---------------------------------------------------------------- what the steps do

  /** The node and the descendants the closure knows get the stamp, rows trashed earlier included. */
  ghost predicate TrashStep(s: TreeState, u: TreeState, id: NodeId, now: nat) {
    && u.closure == s.closure
    && u.nodes.Keys == s.nodes.Keys
    && forall x :: x in s.nodes ==>
         u.nodes[x] == if x == id || (id, x) in s.closure then s.nodes[x].(deletedAt := Some(now)) else s.nodes[x]
  }

  /** `a` lies `k` steps above `d`, and everything from `d` to `a` is trashed. */
  ghost predicate TrashedWalk(t: Nodes, a: NodeId, d: NodeId, k: nat)
    decreases k
  {
    d in t && !t[d].Live() &&
    if k == 0 then a == d else t[d].parent.Some? && TrashedWalk(t, a, t[d].parent.value, k - 1)
  }

  /** The trashed ancestors in a row above `id`, `id`, and what is trashed without interruption below it. */
  ghost predicate InRestoreSet(t: Nodes, id: NodeId, x: NodeId) {
    (exists k: nat :: TrashedWalk(t, x, id, k)) || (exists k: nat :: TrashedWalk(t, id, x, k))
  }

  /** A topmost trashed row: its parent is live or missing. */
  ghost predicate IsTrashRoot(t: Nodes, r: NodeId) {
    r in t && !t[r].Live() && (t[r].parent.Some? ==> t[r].parent.value !in t || t[t[r].parent.value].Live())
  }

  ghost predicate OnTrashedLoop(t: Nodes, x: NodeId) {
    exists j: nat :: j > 0 && TrashedWalk(t, x, x, j)
  }

  /** Some trashed row in a row above the target lies above itself. */
  ghost predicate LoopAbove(t: Nodes, id: NodeId) {
    exists x: NodeId, k: nat :: TrashedWalk(t, x, id, k) && OnTrashedLoop(t, x)
  }

  /** The cursor walk of a restore reaches a topmost trashed row and stops there. */
  ghost predicate ChainEnds(t: Nodes, id: NodeId) {
    exists r: NodeId, k: nat :: TrashedWalk(t, r, id, k) && IsTrashRoot(t, r)
  }

  function LiveNames(t: Nodes, parent: Option<NodeId>): set<string> {
    set x | x in t && t[x].Live() && t[x].parent == parent :: t[x].name
  }

  /** The name a restored row gets: the first one no live sibling has. */
  ghost function FinalName(t: Nodes, x: NodeId): string
    requires x in t
  {
    FreeName(LiveNames(t, t[x].parent), t[x].name)
  }

  /** Exactly the restore set becomes live, each row under its final name. */
  ghost predicate RestoreStep(s: TreeState, u: TreeState, id: NodeId) {
    && u.closure == s.closure
    && u.nodes.Keys == s.nodes.Keys
    && forall x :: x in s.nodes ==>
         u.nodes[x] == if InRestoreSet(s.nodes, id, x)
           then s.nodes[x].(deletedAt := None, name := FinalName(s.nodes, x))
                       else s.nodes[x]
  }

  /** Two restored rows of one parent get the same final name. */
  ghost predicate SiblingClash(t: Nodes, id: NodeId) {
    exists x, y :: x in t && y in t && x != y && InRestoreSet(t, id, x) && InRestoreSet(t, id, y)
      && t[x].parent == t[y].parent && FinalName(t, x) == FinalName(t, y)
  }

  // ---------------------------------------------------------------- trashed walks

  lemma {:induction false} TrashedWalkIsUp(t: Nodes, a: NodeId, d: NodeId, k: nat)
    requires TrashedWalk(t, a, d, k)
    ensures IsUp(t, a, d, k) && a in t && d in t && !t[a].Live() && !t[d].Live()
    decreases k
  {
    if k > 0 {
      TrashedWalkIsUp(t, a, t[d].parent.value, k - 1);
    }
  }

  lemma {:induction false} TrashedWalkRest(t: Nodes, a: NodeId, b: NodeId, d: NodeId, j: nat, k: nat)
    requires TrashedWalk(t, a, d, j) && TrashedWalk(t, b, d, k) && j <= k
    ensures TrashedWalk(t, b, a, k - j)
    decreases j
  {
    if j > 0 {
      TrashedWalkRest(t, a, b, t[d].parent.value, j - 1, k - 1);
    }
  }

  lemma {:induction false} TrashedWalkOn(t: Nodes, a: NodeId, d: NodeId, k: nat)
    requires TrashedWalk(t, a, d, k) && a in t && t[a].parent.Some? && t[a].parent.value in t
      && !t[t[a].parent.value].Live()
    ensures TrashedWalk(t, t[a].parent.value, d, k + 1)
    decreases k
  {
    if k > 0 {
      TrashedWalkOn(t, a, t[d].parent.value, k - 1);
    } else {
      assert TrashedWalk(t, t[a].parent.value, t[a].parent.value, 0);
    }
  }

  // ---------------------------------------------------------------- which restores end

  ghost predicate WalkedBy(t: Nodes, x: NodeId, id: NodeId, k: nat) {
    exists i: nat :: i <= k && TrashedWalk(t, x, id, i)
  }

  /** Above every trashed row there is a topmost trashed row, or a loop. */
  lemma RootOrLoopAbove(t: Nodes, id: NodeId) returns (r: NodeId, k: nat)
    requires id in t && !t[id].Live()
    ensures TrashedWalk(t, r, id, k) && (IsTrashRoot(t, r) || OnTrashedLoop(t, r))
  {
    r, k := id, 0;
    var seen := {id};
    assert TrashedWalk(t, id, id, 0) && WalkedBy(t, id, id, 0);
    while !IsTrashRoot(t, r)
      invariant TrashedWalk(t, r, id, k) && r in t && !t[r].Live() && seen <= t.Keys
      invariant forall x :: x in seen ==> WalkedBy(t, x, id, k)
      decreases t.Keys - seen
    {
      var p := t[r].parent.value;
      TrashedWalkOn(t, r, id, k);
      if p in seen {
        var i: nat :| i <= k && TrashedWalk(t, p, id, i);
        TrashedWalkRest(t, p, p, id, i, k + 1);
        assert OnTrashedLoop(t, p);
        return p, k + 1;
      }
      forall x | x in seen ensures WalkedBy(t, x, id, k + 1) {
        assert WalkedBy(t, x, id, k);
      }
      r, k := p, k + 1;
      seen := seen + {p};
      assert WalkedBy(t, p, id, k);
    }
  }

  lemma {:induction false} NoRootOverLoop(t: Nodes, x: NodeId, r: NodeId, j: nat, m: nat)
    requires j > 0 && TrashedWalk(t, x, x, j) && TrashedWalk(t, r, x, m)
    ensures !IsTrashRoot(t, r)
    decreases m
  {
    TrashedWalkIsUp(t, x, x, j);
    TrashedWalkIsUp(t, x, t[x].parent.value, j - 1);
    if m > 0 {
      var y := t[x].parent.value;
      TrashedWalkOn(t, x, y, j - 1);
      NoRootOverLoop(t, y, r, j, m - 1);
    }
  }

  /** The cursor walk of a restore ends if and only if there is no loop of trashed rows above the target. */
  lemma ChainEndsIff(t: Nodes, id: NodeId)
    requires id in t && !t[id].Live()
    ensures ChainEnds(t, id) <==> !LoopAbove(t, id)
  {
    var r, k := RootOrLoopAbove(t, id);
    forall q: NodeId, m: nat, x: NodeId, i: nat
      | TrashedWalk(t, q, id, m) && TrashedWalk(t, x, id, i) && OnTrashedLoop(t, x)
      ensures !IsTrashRoot(t, q)
    {
      var j: nat :| j > 0 && TrashedWalk(t, x, x, j);
      if i <= m {
        TrashedWalkRest(t, x, q, id, i, m);
        NoRootOverLoop(t, x, q, j, m - i);
      } else {
        TrashedWalkRest(t, q, x, id, m, i);
        TrashedWalkIsUp(t, x, t[q].parent.value, i - m - 1);
      }
    }
  }

  /** Where the cursor walk ends, the queue below the target ends as well: the target is not below itself. */
  lemma NotBelowItself(t: Nodes, id: NodeId)
    requires ChainEnds(t, id) && id in t && !t[id].Live()
    ensures !OnTrashedLoop(t, id)
  {
    ChainEndsIff(t, id);
    assert TrashedWalk(t, id, id, 0);
  }

  lemma AcyclicChainEnds(t: Nodes, id: NodeId)
    requires Acyclic(t) && id in t && !t[id].Live()
    ensures ChainEnds(t, id)
  {
    var r, k := RootOrLoopAbove(t, id);
    if OnTrashedLoop(t, r) {
      var j: nat :| j > 0 && TrashedWalk(t, r, r, j);
      TrashedWalkIsUp(t, r, r, j);
      assert false;
    }
  }

  // ---------------------------------------------------------------- restore

  /** The live-name indexes accept a restore if and only if no two restored siblings get the same final name. */
  lemma RestoreVerdict(s: TreeState, u: TreeState, id: NodeId)
    requires LiveSiblingsDistinct(s.nodes) && RestoreStep(s, u, id)
    ensures LiveSiblingsDistinct(u.nodes) <==> !SiblingClash(s.nodes, id)
  {
    var t := s.nodes;
    if SiblingClash(t, id) {
      var x, y :| x in t && y in t && x != y && InRestoreSet(t, id, x) && InRestoreSet(t, id, y)
        && t[x].parent == t[y].parent && FinalName(t, x) == FinalName(t, y);
      assert u.nodes[x].Live() && u.nodes[y].Live() && u.nodes[x].name == u.nodes[y].name;
    } else {
      forall x, y | x in u.nodes && y in u.nodes && x != y && u.nodes[x].Live() && u.nodes[y].Live()
                    && u.nodes[x].parent == u.nodes[y].parent
        ensures u.nodes[x].name != u.nodes[y].name
      {
        if !InRestoreSet(t, id, y) {
          RestoredNameFree(t, x, y);
        } else if !InRestoreSet(t, id, x) {
          RestoredNameFree(t, y, x);
        }
      }
    }
  }

  lemma RestoredNameFree(t: Nodes, x: NodeId, y: NodeId)
    requires x in t && y in t && t[y].Live() && t[x].parent == t[y].parent
    ensures FinalName(t, x) != t[y].name
  {
    assert t[y].name in LiveNames(t, t[x].parent);
  }

  lemma RestoreKeepsStore(s: TreeState, u: TreeState, id: NodeId)
    requires StoreInv(s) && RestoreStep(s, u, id) && !SiblingClash(s.nodes, id)
    ensures StoreInv(u)
  {
    RestoreVerdict(s, u, id);
    SameParentsKeepTruth(s, u);
  }

  lemma SameParentsKeepTruth(s: TreeState, u: TreeState)
    requires Truthful(s.nodes, s.closure) && SameParents(s.nodes, u.nodes) && u.closure == s.closure
    ensures Truthful(u.nodes, u.closure)
  {
    forall a: NodeId, d: NodeId, k: nat | HasRow(u.closure, a, d, k) ensures IsUp(u.nodes, a, d, k) {
      assert IsUp(s.nodes, a, d, k);
      UpSameParents(s.nodes, u.nodes, d, k);
    }
    forall d: NodeId ensures NoGap(u.closure, d) {
      assert NoGap(s.closure, d);
    }
  }

  lemma TrashKeepsStore(s: TreeState, u: TreeState, id: NodeId, now: nat)
    requires StoreInv(s) && TrashStep(s, u, id, now)
    ensures StoreInv(u)
  {
    SameParentsKeepTruth(s, u);
  }

  // ---------------------------------------------------------------- trash closed below

  /** Everything below a trashed row carries that row's stamp. */
  lemma {:induction false} StampBelow(t: Nodes, r: NodeId, x: NodeId, k: nat)
    requires TrashClosed(t) && IsUp(t, r, x, k) && r in t && !t[r].Live()
    ensures x in t && t[x].deletedAt == t[r].deletedAt && TrashedWalk(t, r, x, k)
    decreases k
  {
    if k > 0 {
      StampBelow(t, r, t[x].parent.value, k - 1);
    }
  }

  lemma TrashKeepsInv(s: TreeState, u: TreeState, id: NodeId, now: nat)
    requires TreeInv(s) && TrashStep(s, u, id, now) && id in s.nodes && s.nodes[id].Live()
    ensures TreeInv(u)
  {
    ExactSameParents(s.nodes, u.nodes, s.closure);
    forall x: NodeId ensures (id, x) in s.closure <==> InSubtree(s.nodes, id, x) {
      ExactMember(s.nodes, s.closure, id, x);
    }
    assert IsUp(s.nodes, id, id, 0);
    StampKeepsClosed(s.nodes, u.nodes, id, now);
  }

  /** With a complete closure exactly the subtree gets the stamp. */
  lemma StampedOnExact(s: TreeState, u: TreeState, id: NodeId, now: nat)
    requires Exact(s.nodes, s.closure) && TrashStep(s, u, id, now) && id in s.nodes
    ensures u.nodes.Keys == s.nodes.Keys
    ensures forall x :: x in s.nodes ==>
      u.nodes[x] == s.nodes[x].(deletedAt := if InSubtree(s.nodes, id, x) then Some(now) else s.nodes[x].deletedAt)
  {
    forall x: NodeId ensures (id, x) in s.closure <==> InSubtree(s.nodes, id, x) {
      ExactMember(s.nodes, s.closure, id, x);
    }
    assert IsUp(s.nodes, id, id, 0);
  }

  lemma StampKeepsClosed(t: Nodes, u: Nodes, id: NodeId, now: nat)
    requires TrashClosed(t) && id in t && t[id].Live() && u.Keys == t.Keys
    requires forall x :: x in t ==> u[x] == if InSubtree(t, id, x) then t[x].(deletedAt := Some(now)) else t[x]
    ensures TrashClosed(u)
  {
    forall x | x in u && u[x].parent.Some? && u[x].parent.value in u && !u[u[x].parent.value].Live()
      ensures u[x].deletedAt == u[u[x].parent.value].deletedAt
    {
      var p := t[x].parent.value;
      if InSubtree(t, id, p) {
        var k: nat :| IsUp(t, id, p, k);
        assert IsUp(t, id, x, k + 1);
      } else if x != id && InSubtree(t, id, x) {
        ParentOf(t, id, x);
      }
    }
  }

  lemma ParentOf(t: Nodes, id: NodeId, x: NodeId)
    requires InSubtree(t, id, x) && x != id && x in t
    ensures t[x].parent.Some? && InSubtree(t, id, t[x].parent.value)
  {
    var k: nat :| IsUp(t, id, x, k);
    assert IsUp(t, id, t[x].parent.value, k - 1);
  }

  /** On a closed table a restore takes the trashed ancestors and the whole subtree. */
  lemma RestoreSetOnClosed(t: Nodes, id: NodeId, x: NodeId)
    requires TrashClosed(t) && ParentsExist(t) && id in t && !t[id].Live() && x in t
    ensures InRestoreSet(t, id, x) <==> InSubtree(t, id, x) || (InSubtree(t, x, id) && !t[x].Live())
  {
    if InSubtree(t, id, x) {
      var k: nat :| IsUp(t, id, x, k);
      StampBelow(t, id, x, k);
    }
    if InSubtree(t, x, id) && !t[x].Live() {
      var k: nat :| IsUp(t, x, id, k);
      StampBelow(t, x, id, k);
    }
    if k: nat :| TrashedWalk(t, x, id, k) {
      TrashedWalkIsUp(t, x, id, k);
    }
    if k: nat :| TrashedWalk(t, id, x, k) {
      TrashedWalkIsUp(t, id, x, k);
    }
  }

  /** On a closed table exactly the subtree of the target and its ancestors are live afterwards, besides what was. */
  lemma RestoredOnClosed(s: TreeState, u: TreeState, id: NodeId)
    requires TrashClosed(s.nodes) && ParentsExist(s.nodes) && id in s.nodes && !s.nodes[id].Live()
    requires RestoreStep(s, u, id)
    ensures forall x :: x in s.nodes ==>
      (u.nodes[x].Live() <==> s.nodes[x].Live() || InSubtree(s.nodes, id, x) || InSubtree(s.nodes, x, id))
  {
    forall x | x in s.nodes
      ensures u.nodes[x].Live() <==> s.nodes[x].Live() || InSubtree(s.nodes, id, x) || InSubtree(s.nodes, x, id)
    {
      RestoreSetOnClosed(s.nodes, id, x);
    }
  }

  /** Two rows strictly below `id` share parent and name. */
  ghost predicate SameNameBelow(t: Nodes, id: NodeId) {
    exists x, y :: x in t && y in t && x != y && x != id && y != id && InSubtree(t, id, x) && InSubtree(t, id, y)
      && t[x].parent == t[y].parent && t[x].name == t[y].name
  }

  /** Two rows on one parent, one of them an ancestor-or-self of the other, are the same row. */
  lemma ComparableSiblings(t: Nodes, x: NodeId, y: NodeId)
    requires Acyclic(t) && x in t && y in t && InSubtree(t, x, y) && t[x].parent == t[y].parent
    ensures x == y
  {
    var k: nat :| IsUp(t, x, y, k);
    if k > 0 {
      var p := t[y].parent.value;
      assert IsUp(t, x, p, k - 1);
      UpInTable(t, x, p, k - 1);
      assert Up(t, p, 0) == Some(p);
      assert IsUp(t, p, x, 1);
      UpTrans(t, x, p, x, 1, k - 1);
      assert false;
    }
  }

  /** Restored rows that share a parent all lie strictly below the target. */
  lemma CoRestoredSiblings(t: Nodes, id: NodeId, x: NodeId, y: NodeId)
    requires Acyclic(t) && InRestoreSet(t, id, x) && InRestoreSet(t, id, y) && x in t && y in t
    requires x != y && t[x].parent == t[y].parent
    ensures x != id && InSubtree(t, id, x) && t[x].parent.Some? && t[x].parent.value in t
      && !t[t[x].parent.value].Live()
  {
    if j: nat :| TrashedWalk(t, x, id, j) {
      TrashedWalkIsUp(t, x, id, j);
      if k: nat :| TrashedWalk(t, id, y, k) {
        TrashedWalkIsUp(t, id, y, k);
        UpTrans(t, x, id, y, k, j);
        ComparableSiblings(t, x, y);
      } else {
        var k: nat :| TrashedWalk(t, y, id, k);
        TrashedWalkIsUp(t, y, id, k);
        if j <= k {
          UpBetween(t, x, y, id, j, k);
          ComparableSiblings(t, y, x);
        } else {
          UpBetween(t, y, x, id, k, j);
          ComparableSiblings(t, x, y);
        }
      }
    } else {
      var k: nat :| TrashedWalk(t, id, x, k);
      TrashedWalkIsUp(t, id, x, k);
      assert TrashedWalk(t, x, x, 0);
      TrashedWalkIsUp(t, id, t[x].parent.value, k - 1);
    }
  }

  /** On a closed table a restore clashes exactly when two rows strictly below the target share parent and name. */
  lemma ClashOnClosed(t: Nodes, id: NodeId)
    requires Acyclic(t) && TrashClosed(t) && ParentsExist(t) && id in t && !t[id].Live()
    ensures SiblingClash(t, id) <==> SameNameBelow(t, id)
  {
    forall x, y | x in t && y in t && x != y && t[x].parent == t[y].parent && InRestoreSet(t, id, x)
      && InRestoreSet(t, id, y)
      ensures x != id && InSubtree(t, id, x) && FinalName(t, x) == t[x].name
    {
      CoRestoredSiblings(t, id, x, y);
      assert LiveNames(t, t[x].parent) == {};
    }
    if SameNameBelow(t, id) {
      var x, y :| x in t && y in t && x != y && x != id && y != id && InSubtree(t, id, x) && InSubtree(t, id, y)
        && t[x].parent == t[y].parent && t[x].name == t[y].name;
      RestoreSetOnClosed(t, id, x);
      RestoreSetOnClosed(t, id, y);
    }
  }

  lemma RestoreKeepsInv(s: TreeState, u: TreeState, id: NodeId)
    requires TreeInv(s) && RestoreStep(s, u, id) && !SiblingClash(s.nodes, id)
    ensures TreeInv(u)
  {
    RestoreVerdict(s, u, id);
    ExactSameParents(s.nodes, u.nodes, s.closure);
    var t := s.nodes;
    forall x | x in u.nodes && u.nodes[x].parent.Some? && u.nodes[x].parent.value in u.nodes
               && !u.nodes[u.nodes[x].parent.value].Live()
      ensures u.nodes[x].deletedAt == u.nodes[u.nodes[x].parent.value].deletedAt
    {
      if InRestoreSet(t, id, x) {
        ParentRestored(t, id, x);
      }
    }
  }

  /** With a restored row its parent is restored, if that is trashed. */
  lemma ParentRestored(t: Nodes, id: NodeId, x: NodeId)
    requires InRestoreSet(t, id, x) && x in t && t[x].parent.Some? && t[x].parent.value in t
      && !t[t[x].parent.value].Live()
    ensures InRestoreSet(t, id, t[x].parent.value)
  {
    if k: nat :| TrashedWalk(t, x, id, k) {
      TrashedWalkIsUp(t, x, id, k);
      TrashedWalkOn(t, x, id, k);
    } else {
      var k: nat :| TrashedWalk(t, id, x, k);
      TrashedWalkIsUp(t, id, x, k);
      assert TrashedWalk(t, x, x, 0);
      assert TrashedWalk(t, id, t[x].parent.value, k - 1);
    }
  }

  // ---------------------------------------------------------------- purges

  /** `x` is taken by the delete of one of the roots. */
  ghost predicate Gone(s: TreeState, roots: set<NodeId>, x: NodeId) {
    exists r :: r in roots && Removed(s, r, x)
  }

  /** Exactly what the deletes of the roots take is gone, with every closure row that mentions it. */
  ghost predicate PurgeStep(s: TreeState, u: TreeState, roots: set<NodeId>) {
    && (forall x :: x in u.nodes <==> x in s.nodes && !Gone(s, roots, x))
    && (forall x :: x in u.nodes ==> u.nodes[x] == s.nodes[x])
    && (forall a: NodeId, d: NodeId, k: nat :: HasRow(u.closure, a, d, k) <==>
          HasRow(s.closure, a, d, k) && !Gone(s, roots, a) && !Gone(s, roots, d))
  }

  lemma GoneBelow(s: TreeState, roots: set<NodeId>, a: NodeId, x: NodeId, k: nat)
    requires Gone(s, roots, a) && IsUp(s.nodes, a, x, k)
    ensures Gone(s, roots, x)
  {
    var r :| r in roots && Removed(s, r, a);
    var d :| (r, d) in s.closure && InSubtree(s.nodes, d, a);
    var j: nat :| IsUp(s.nodes, d, a, j);
    UpTrans(s.nodes, d, a, x, k, j);
    assert Removed(s, r, x);
  }

  lemma ParentStays(s: TreeState, u: TreeState, roots: set<NodeId>, x: NodeId)
    requires PurgeStep(s, u, roots) && x in u.nodes && s.nodes[x].parent.Some? && s.nodes[x].parent.value in s.nodes
    ensures s.nodes[x].parent.value in u.nodes
  {
    var p := s.nodes[x].parent.value;
    if Gone(s, roots, p) {
      assert Up(s.nodes, p, 0) == Some(p);
      GoneBelow(s, roots, p, x, 1);
    }
  }

  lemma PurgedUp(s: TreeState, u: TreeState, roots: set<NodeId>)
    requires PurgeStep(s, u, roots)
    ensures forall d: NodeId, k: nat :: d in u.nodes ==> Up(u.nodes, d, k) == Up(s.nodes, d, k)
  {
    forall x | x in u.nodes && s.nodes[x].parent.Some? && s.nodes[x].parent.value in s.nodes
      ensures s.nodes[x].parent.value in u.nodes
    {
      ParentStays(s, u, roots, x);
    }
    forall d: NodeId, k: nat | d in u.nodes ensures Up(u.nodes, d, k) == Up(s.nodes, d, k) {
      KeptUp(s, u.nodes, d, k);
    }
  }

  lemma PurgeKeepsStore(s: TreeState, u: TreeState, roots: set<NodeId>)
    requires StoreInv(s) && PurgeStep(s, u, roots)
    ensures StoreInv(u)
  {
    PurgedUp(s, u, roots);
    forall x | x in u.nodes && u.nodes[x].parent.Some? ensures u.nodes[x].parent.value in u.nodes {
      ParentStays(s, u, roots, x);
    }
    forall p | p in u.closure ensures p.0 in u.nodes && p.1 in u.nodes {
      assert HasRow(u.closure, p.0, p.1, u.closure[p]);
    }
    PurgeKeepsTruth(s, u, roots);
  }

  lemma PurgeKeepsTruth(s: TreeState, u: TreeState, roots: set<NodeId>)
    requires Truthful(s.nodes, s.closure) && PurgeStep(s, u, roots)
    requires forall p :: p in u.closure ==> p.0 in u.nodes && p.1 in u.nodes
    ensures Truthful(u.nodes, u.closure)
  {
    forall a: NodeId, d: NodeId, k: nat | HasRow(u.closure, a, d, k) ensures IsUp(u.nodes, a, d, k) {
      PurgedRow(s, u, roots, a, d, k);
    }
    forall d: NodeId ensures NoGap(u.closure, d) {
      forall a: NodeId, k: nat, i: nat | HasRow(u.closure, a, d, k) && i < k ensures KnownAt(u.closure, d, i) {
        PurgedRow(s, u, roots, a, d, k);
        var b := NearerKnown(s.nodes, s.closure, a, d, k, i);
        PurgedUp(s, u, roots);
        UpInTable(u.nodes, b, d, i);
        assert HasRow(u.closure, b, d, i);
      }
    }
  }

  lemma PurgedRow(s: TreeState, u: TreeState, roots: set<NodeId>, a: NodeId, d: NodeId, k: nat)
    requires Truthful(s.nodes, s.closure) && PurgeStep(s, u, roots) && HasRow(u.closure, a, d, k)
    requires forall p :: p in u.closure ==> p.0 in u.nodes && p.1 in u.nodes
    ensures d in u.nodes && HasRow(s.closure, a, d, k) && IsUp(u.nodes, a, d, k)
  {
    assert (a, d) in u.closure;
    PurgedUp(s, u, roots);
    assert IsUp(s.nodes, a, d, k);
  }

  /**
   * Over true rows, what one more delete takes is what it would have taken at the start, but for what is gone
   * already.
   */
  lemma RemovedAfter(s: TreeState, u: TreeState, roots: set<NodeId>, r: NodeId, x: NodeId)
    requires StoreInv(s) && PurgeStep(s, u, roots) && x in u.nodes
    ensures Removed(u, r, x) <==> Removed(s, r, x)
  {
    PurgedUp(s, u, roots);
    if Removed(u, r, x) {
      var d :| (r, d) in u.closure && InSubtree(u.nodes, d, x);
      assert HasRow(u.closure, r, d, u.closure[(r, d)]);
      var k: nat :| IsUp(u.nodes, d, x, k);
      assert IsUp(s.nodes, d, x, k);
    }
    if Removed(s, r, x) {
      var d :| (r, d) in s.closure && InSubtree(s.nodes, d, x);
      var k: nat :| IsUp(s.nodes, d, x, k);
      assert HasRow(s.closure, r, d, s.closure[(r, d)]) && IsUp(s.nodes, r, d, s.closure[(r, d)]);
      if Gone(s, roots, r) {
        GoneBelow(s, roots, r, d, s.closure[(r, d)]);
      }
      if Gone(s, roots, d) {
        GoneBelow(s, roots, d, x, k);
      }
      assert HasRow(u.closure, r, d, s.closure[(r, d)]);
      assert IsUp(u.nodes, d, x, k);
    }
  }

  /** Purging one more root on top of earlier purges equals purging them all at once. */
  lemma PurgeAnother(s: TreeState, u: TreeState, v: TreeState, roots: set<NodeId>, r: NodeId)
    requires StoreInv(s) && PurgeStep(s, u, roots) && DeleteStep(u, v, r)
    ensures PurgeStep(s, v, roots + {r})
  {
    SameRemovedAfter(s, u, roots, r);
    PurgedOnTop(s, u, v, roots, r);
  }

  /** The delete of `r` takes the same of what is left as it would have taken at the start. */
  ghost predicate SameRemoved(s: TreeState, u: TreeState, r: NodeId) {
    forall x :: x in u.nodes ==> (Removed(u, r, x) <==> Removed(s, r, x))
  }

  lemma SameRemovedAfter(s: TreeState, u: TreeState, roots: set<NodeId>, r: NodeId)
    requires StoreInv(s) && PurgeStep(s, u, roots)
    ensures SameRemoved(s, u, r)
  {
    forall x | x in u.nodes ensures Removed(u, r, x) <==> Removed(s, r, x) {
      RemovedAfter(s, u, roots, r, x);
    }
  }

  lemma PurgedOnTop(s: TreeState, u: TreeState, v: TreeState, roots: set<NodeId>, r: NodeId)
    requires ClosureKeys(s.nodes, s.closure) && PurgeStep(s, u, roots) && DeleteStep(u, v, r) && SameRemoved(s, u, r)
    ensures PurgeStep(s, v, roots + {r})
  {
    GoneWith(s, roots, r);
    forall a: NodeId, d: NodeId, k: nat
      ensures HasRow(v.closure, a, d, k)
        <==> HasRow(s.closure, a, d, k) && !Gone(s, roots + {r}, a) && !Gone(s, roots + {r}, d)
    {
      if HasRow(u.closure, a, d, k) {
        RowEndsStay(s, u, roots, a, d, k);
      }
    }
  }

  lemma RowEndsStay(s: TreeState, u: TreeState, roots: set<NodeId>, a: NodeId, d: NodeId, k: nat)
    requires ClosureKeys(s.nodes, s.closure) && PurgeStep(s, u, roots) && HasRow(u.closure, a, d, k)
    ensures a in u.nodes && d in u.nodes
  {
    assert HasRow(s.closure, a, d, k) && (a, d) in s.closure;
    assert (a, d).0 in s.nodes && (a, d).1 in s.nodes;
  }

  lemma GoneWith(s: TreeState, roots: set<NodeId>, r: NodeId)
    ensures forall x :: Gone(s, roots + {r}, x) <==> Gone(s, roots, x) || Removed(s, r, x)
  {
    forall x ensures Gone(s, roots + {r}, x) <==> Gone(s, roots, x) || Removed(s, r, x) {
      if Removed(s, r, x) {
        assert r in roots + {r};
      }
    }
  }

  lemma RemovedByGone(s: TreeState, roots: set<NodeId>, r: NodeId, x: NodeId)
    requires Truthful(s.nodes, s.closure) && Gone(s, roots, r) && Removed(s, r, x)
    ensures Gone(s, roots, x)
  {
    var d :| (r, d) in s.closure && InSubtree(s.nodes, d, x);
    var k: nat :| IsUp(s.nodes, d, x, k);
    assert HasRow(s.closure, r, d, s.closure[(r, d)]) && IsUp(s.nodes, r, d, s.closure[(r, d)]);
    GoneBelow(s, roots, r, d, s.closure[(r, d)]);
    GoneBelow(s, roots, d, x, k);
  }

  /** Deleting a root that is gone already would take nothing more. */
  lemma AlreadyGone(s: TreeState, u: TreeState, roots: set<NodeId>, r: NodeId)
    requires Truthful(s.nodes, s.closure) && PurgeStep(s, u, roots) && r in s.nodes && r !in u.nodes
    ensures PurgeStep(s, u, roots + {r})
  {
    assert Gone(s, roots, r);
    GoneWith(s, roots, r);
    forall x | Removed(s, r, x) ensures Gone(s, roots, x) {
      RemovedByGone(s, roots, r, x);
    }
    SameGone(s, u, roots, roots + {r});
  }

  lemma SameGone(s: TreeState, u: TreeState, roots: set<NodeId>, more: set<NodeId>)
    requires PurgeStep(s, u, roots) && forall x :: Gone(s, more, x) <==> Gone(s, roots, x)
    ensures PurgeStep(s, u, more)
  {
  }

  ghost predicate Expired(t: Nodes, x: NodeId, cutoff: Option<int>) {
    x in t && t[x].deletedAt.Some? && (cutoff.Some? ==> t[x].deletedAt.value < cutoff.value)
  }

  /** Topmost trashed rows, those stamped before the cutoff when there is one. */
  ghost function TrashRoots(t: Nodes, cutoff: Option<int>): set<NodeId> {
    set r | r in t && IsTrashRoot(t, r) && Expired(t, r, cutoff)
  }

  /** On a complete closure a purge takes exactly the subtrees of its roots. */
  lemma GoneOnExact(s: TreeState, roots: set<NodeId>)
    requires Exact(s.nodes, s.closure)
    ensures forall x :: Gone(s, roots, x) <==> Below(s.nodes, roots, x)
  {
    forall x ensures Gone(s, roots, x) <==> Below(s.nodes, roots, x) {
      if Gone(s, roots, x) {
        var r :| r in roots && Removed(s, r, x);
        RemovedIsSubtree(s, r);
      }
      if Below(s.nodes, roots, x) {
        var r :| r in roots && InSubtree(s.nodes, r, x);
        RemovedIsSubtree(s, r);
      }
    }
  }

  lemma StaysIff(s: TreeState, u: TreeState, roots: set<NodeId>)
    requires Exact(s.nodes, s.closure) && PurgeStep(s, u, roots)
    ensures Acyclic(s.nodes) && LeavesAllBut(s.nodes, u.nodes, roots)
  {
    ExactIsAcyclic(s.nodes, s.closure);
    GoneOnExact(s, roots);
  }

  /** Of the rows of `t` exactly those not below the roots are in `u`. */
  ghost predicate LeavesAllBut(t: Nodes, u: Nodes, roots: set<NodeId>) {
    forall x :: x in t ==> (x in u <==> !Below(t, roots, x))
  }

  /** A purge of a complete closure leaves a complete closure. */
  lemma PurgeKeepsExact(s: TreeState, u: TreeState, roots: set<NodeId>)
    requires ParentsExist(s.nodes) && Exact(s.nodes, s.closure) && PurgeStep(s, u, roots)
    ensures Exact(u.nodes, u.closure)
  {
    PurgedUp(s, u, roots);
    forall a: NodeId, d: NodeId, k: nat ensures HasRow(u.closure, a, d, k) <==> IsUp(u.nodes, a, d, k) {
      assert HasRow(s.closure, a, d, k) <==> IsUp(s.nodes, a, d, k);
      if IsUp(s.nodes, a, d, k) {
        UpInTable(s.nodes, a, d, k);
      }
      if IsUp(u.nodes, a, d, k) {
        UpInTable(u.nodes, a, d, k);
      }
    }
  }

  lemma TrashedBelowRoot(t: Nodes, x: NodeId)
    requires Acyclic(t) && x in t && !t[x].Live()
    ensures Below(t, TrashRoots(t, None), x)
  {
    AcyclicChainEnds(t, x);
    var r: NodeId, k: nat :| TrashedWalk(t, r, x, k) && IsTrashRoot(t, r);
    TrashedWalkIsUp(t, r, x, k);
    assert r in TrashRoots(t, None);
  }

  /** Every topmost trashed row and every loop of trashed rows lies below a row the closure lists under a trash root. */
  ghost predicate TrashKnown(s: TreeState) {
    forall r :: IsTrashRoot(s.nodes, r) || OnTrashedLoop(s.nodes, r) ==> Gone(s, TrashRoots(s.nodes, None), r)
  }

  /** Emptying the trash leaves no trashed row if and only if the closure still knows all its tops and loops. */
  lemma EmptiedTrashIff(s: TreeState, u: TreeState)
    requires PurgeStep(s, u, TrashRoots(s.nodes, None))
    ensures (forall x :: x in u.nodes ==> u.nodes[x].Live()) <==> TrashKnown(s)
    ensures Exact(s.nodes, s.closure) ==> TrashKnown(s)
  {
    var roots := TrashRoots(s.nodes, None);
    forall x | TrashKnown(s) && x in s.nodes && !s.nodes[x].Live() ensures x !in u.nodes {
      var r, k := RootOrLoopAbove(s.nodes, x);
      TrashedWalkIsUp(s.nodes, r, x, k);
      GoneBelow(s, roots, r, x, k);
    }
    forall r | IsTrashRoot(s.nodes, r) || OnTrashedLoop(s.nodes, r) ensures r in s.nodes && !s.nodes[r].Live() {
    }
    if Exact(s.nodes, s.closure) {
      ExactIsAcyclic(s.nodes, s.closure);
      GoneOnExact(s, roots);
      forall r | IsTrashRoot(s.nodes, r) || OnTrashedLoop(s.nodes, r) ensures Gone(s, roots, r) {
        TrashedBelowRoot(s.nodes, r);
      }
    }
  }

  /**
   * With a complete closure and the trash closed below, purging the trash roots past a cutoff takes exactly the rows
   * trashed before it; without a cutoff, exactly the trashed rows.
   */
  lemma PurgedOnClosed(s: TreeState, u: TreeState, cutoff: Option<int>)
    requires TreeInv(s) && PurgeStep(s, u, TrashRoots(s.nodes, cutoff))
    ensures forall x :: x in s.nodes ==> (x !in u.nodes
      <==> s.nodes[x].deletedAt.Some? && (cutoff.Some? ==> s.nodes[x].deletedAt.value < cutoff.value))
  {
    StaysIff(s, u, TrashRoots(s.nodes, cutoff));
    forall x | x in s.nodes ensures Below(s.nodes, TrashRoots(s.nodes, cutoff), x) <==> Expired(s.nodes, x, cutoff) {
      BelowRootsOnClosed(s.nodes, x, cutoff);
    }
  }

  lemma BelowRootsOnClosed(t: Nodes, x: NodeId, cutoff: Option<int>)
    requires Acyclic(t) && TrashClosed(t) && x in t
    ensures Below(t, TrashRoots(t, cutoff), x) <==> Expired(t, x, cutoff)
  {
    var roots := TrashRoots(t, cutoff);
    if Below(t, roots, x) {
      var r :| r in roots && InSubtree(t, r, x);
      var k: nat :| IsUp(t, r, x, k);
      StampBelow(t, r, x, k);
    }
    if Expired(t, x, cutoff) {
      AcyclicChainEnds(t, x);
      var r: NodeId, k: nat :| TrashedWalk(t, r, x, k) && IsTrashRoot(t, r);
      TrashedWalkIsUp(t, r, x, k);
      StampBelow(t, r, x, k);
      assert r in roots && InSubtree(t, r, x);
    }
  }

  // ---------------------------------------------------------------- which rows a purge may take

  /** Every row the closure lists under a root is one of `among`, and so is every child of a row taken. */
  ghost predicate TakesOnly(s: TreeState, roots: set<NodeId>, among: set<NodeId>) {
    && (forall r, d :: r in roots && (r, d) in s.closure ==> d in among)
    && forall x :: x in s.nodes && s.nodes[x].parent.Some? && s.nodes[x].parent.value in among
         && Gone(s, roots, s.nodes[x].parent.value)
         ==> x in among
  }

  /** Over any closure: all that a purge takes is in a set of rows if and only if that holds locally. */
  lemma TakenIff(s: TreeState, roots: set<NodeId>, among: set<NodeId>)
    requires ClosureKeys(s.nodes, s.closure)
    ensures (forall x :: x in s.nodes && Gone(s, roots, x) ==> x in among) <==> TakesOnly(s, roots, among)
  {
    if TakesOnly(s, roots, among) {
      forall x | x in s.nodes && Gone(s, roots, x) ensures x in among {
        var r :| r in roots && Removed(s, r, x);
        var d :| (r, d) in s.closure && InSubtree(s.nodes, d, x);
        var k: nat :| IsUp(s.nodes, d, x, k);
        TakenBelow(s, roots, among, r, d, x, k);
      }
    } else {
      forall r, d | r in roots && (r, d) in s.closure ensures d in s.nodes && Gone(s, roots, d) {
        assert (r, d).1 in s.nodes;
        assert IsUp(s.nodes, d, d, 0);
        assert Removed(s, r, d);
      }
      forall x | x in s.nodes && s.nodes[x].parent.Some? && Gone(s, roots, s.nodes[x].parent.value)
        ensures Gone(s, roots, x)
      {
        GoneChild(s, roots, x);
      }
    }
  }

  lemma TakenIsGone(s: TreeState, u: TreeState, roots: set<NodeId>, among: set<NodeId>)
    requires ClosureKeys(s.nodes, s.closure) && PurgeStep(s, u, roots)
    ensures (forall x :: x in s.nodes && x !in u.nodes ==> x in among) <==> TakesOnly(s, roots, among)
  {
    TakenIff(s, roots, among);
  }

  lemma GoneChild(s: TreeState, roots: set<NodeId>, x: NodeId)
    requires x in s.nodes && s.nodes[x].parent.Some? && Gone(s, roots, s.nodes[x].parent.value)
    ensures Gone(s, roots, x)
  {
    var r :| r in roots && Removed(s, r, s.nodes[x].parent.value);
    RemovedBelow(s, r, x);
  }

  lemma {:induction false} TakenBelow(s: TreeState, roots: set<NodeId>, among: set<NodeId>, r: NodeId, d: NodeId,
                                      x: NodeId, k: nat)
    requires TakesOnly(s, roots, among) && r in roots && (r, d) in s.closure && IsUp(s.nodes, d, x, k)
    ensures x in among && Gone(s, roots, x)
    decreases k
  {
    assert InSubtree(s.nodes, d, x);
    assert Removed(s, r, x);
    if k > 0 {
      TakenBelow(s, roots, among, r, d, s.nodes[x].parent.value, k - 1);
    }
  }

  /** No live row sits directly under a trashed one. */
  ghost predicate NoLiveUnderTrash(t: Nodes) {
    forall x :: x in t && t[x].Live() && t[x].parent.Some? && t[x].parent.value in t ==> t[t[x].parent.value].Live()
  }

  /** Below the roots, no live row sits directly under a trashed one. */
  ghost predicate NoLiveUnder(t: Nodes, roots: set<NodeId>) {
    forall x ::
      x in t && t[x].Live() && t[x].parent.Some? && t[x].parent.value in t && Below(t, roots, t[x].parent.value)
      ==> t[t[x].parent.value].Live()
  }

  lemma {:induction false} LiveAbove(t: Nodes, roots: set<NodeId>, a: NodeId, x: NodeId, k: nat)
    requires NoLiveUnder(t, roots) && a in roots && IsUp(t, a, x, k) && x in t && t[x].Live()
    ensures a in t && t[a].Live()
    decreases k
  {
    if k > 0 {
      var p := t[x].parent.value;
      UpInTable(t, a, p, k - 1);
      assert IsUp(t, a, p, k - 1) && InSubtree(t, a, p);
      assert Below(t, roots, p);
      LiveAbove(t, roots, a, p, k - 1);
    }
  }

  ghost predicate LiveKept(t: Nodes, u: Nodes) {
    forall x :: x in t && t[x].Live() ==> x in u
  }

  ghost function TrashedRows(t: Nodes): set<NodeId> {
    set x | x in t && !t[x].Live()
  }

  /** No live row is listed under a root, and none sits directly under a trashed row that goes. */
  ghost predicate LiveSpared(s: TreeState, roots: set<NodeId>) {
    && (forall r, d :: r in roots && (r, d) in s.closure && d in s.nodes ==> !s.nodes[d].Live())
    && forall x :: x in s.nodes && s.nodes[x].Live() && s.nodes[x].parent.Some? && s.nodes[x].parent.value in s.nodes
         && Gone(s, roots, s.nodes[x].parent.value)
         ==> s.nodes[s.nodes[x].parent.value].Live()
  }

  /**
   * A purge of any rows, over any closure, loses no live row if and only if the closure lists none under a root and
   * none sits directly under a trashed row that goes. With a complete closure and trashed roots that says: below
   * the roots, no live row sits directly under a trashed one.
   */
  lemma PurgeSafeIff(s: TreeState, u: TreeState, roots: set<NodeId>)
    requires ClosureKeys(s.nodes, s.closure) && PurgeStep(s, u, roots)
    ensures LiveKept(s.nodes, u.nodes) <==> LiveSpared(s, roots)
    ensures Exact(s.nodes, s.closure) && (forall r :: r in roots ==> r in s.nodes && !s.nodes[r].Live()) ==>
      (LiveKept(s.nodes, u.nodes) <==> NoLiveUnder(s.nodes, roots))
  {
    TakenIsGone(s, u, roots, TrashedRows(s.nodes));
    SparedIsTakesOnly(s, roots);
    if Exact(s.nodes, s.closure) && (forall r :: r in roots ==> r in s.nodes && !s.nodes[r].Live()) {
      SafeOnExact(s, u, roots);
    }
  }

  lemma SparedIsTakesOnly(s: TreeState, roots: set<NodeId>)
    requires ClosureKeys(s.nodes, s.closure)
    ensures LiveSpared(s, roots) <==> TakesOnly(s, roots, TrashedRows(s.nodes))
  {
    forall r, d | r in roots && (r, d) in s.closure ensures d in s.nodes {
      assert (r, d).1 in s.nodes;
    }
  }

  lemma SafeOnExact(s: TreeState, u: TreeState, roots: set<NodeId>)
    requires Exact(s.nodes, s.closure) && PurgeStep(s, u, roots)
    requires forall r :: r in roots ==> r in s.nodes && !s.nodes[r].Live()
    ensures LiveKept(s.nodes, u.nodes) <==> NoLiveUnder(s.nodes, roots)
  {
    StaysIff(s, u, roots);
    SafeWhereLeft(s.nodes, u.nodes, roots);
  }

  lemma SafeWhereLeft(t: Nodes, u: Nodes, roots: set<NodeId>)
    requires LeavesAllBut(t, u, roots) && forall r :: r in roots ==> r in t && !t[r].Live()
    ensures LiveKept(t, u) <==> NoLiveUnder(t, roots)
  {
    if NoLiveUnder(t, roots) {
      forall x | x in t && t[x].Live() ensures x in u {
        LiveNotBelow(t, roots, x);
      }
    } else {
      LiveLost(t, u, roots);
    }
  }

  lemma LiveNotBelow(t: Nodes, roots: set<NodeId>, x: NodeId)
    requires NoLiveUnder(t, roots) && (forall r :: r in roots ==> r in t && !t[r].Live()) && x in t && t[x].Live()
    ensures !Below(t, roots, x)
  {
    if Below(t, roots, x) {
      var r :| r in roots && InSubtree(t, r, x);
      var k: nat :| IsUp(t, r, x, k);
      LiveAbove(t, roots, r, x, k);
    }
  }

  lemma LiveLost(t: Nodes, u: Nodes, roots: set<NodeId>)
    requires !NoLiveUnder(t, roots) && LeavesAllBut(t, u, roots)
    ensures !LiveKept(t, u)
  {
    var x :| x in t && t[x].Live() && t[x].parent.Some? && t[x].parent.value in t && Below(t, roots, t[x].parent.value)
      && !t[t[x].parent.value].Live();
    BelowChild(t, roots, x);
  }

  /**
   * The same for emptying the trash; with a complete closure it loses no live row if and only if no live row has a
   * trashed parent.
   */
  lemma EmptyTrashSafeIff(s: TreeState, u: TreeState)
    requires TableInv(s) && PurgeStep(s, u, TrashRoots(s.nodes, None))
    ensures LiveKept(s.nodes, u.nodes) <==> LiveSpared(s, TrashRoots(s.nodes, None))
    ensures Exact(s.nodes, s.closure) ==> (LiveKept(s.nodes, u.nodes) <==> NoLiveUnderTrash(s.nodes))
  {
    PurgeSafeIff(s, u, TrashRoots(s.nodes, None));
    if Exact(s.nodes, s.closure) {
      ExactIsAcyclic(s.nodes, s.closure);
      UnderTrashIsUnderRoot(s.nodes);
    }
  }

  lemma UnderTrashIsUnderRoot(t: Nodes)
    requires Acyclic(t)
    ensures NoLiveUnder(t, TrashRoots(t, None)) <==> NoLiveUnderTrash(t)
  {
    forall p | p in t && !t[p].Live() ensures Below(t, TrashRoots(t, None), p) {
      TrashedBelowRoot(t, p);
    }
  }

  /** Below the roots, every child of an expired row is expired. */
  ghost predicate ExpiryClosed(t: Nodes, roots: set<NodeId>, cutoff: Option<int>) {
    forall x ::
      x in t && t[x].parent.Some? && Below(t, roots, t[x].parent.value) && Expired(t, t[x].parent.value, cutoff)
      ==> Expired(t, x, cutoff)
  }

  lemma {:induction false} ExpiredBelow(t: Nodes, roots: set<NodeId>, cutoff: Option<int>, r: NodeId, x: NodeId, k: nat)
    requires ExpiryClosed(t, roots, cutoff) && r in roots && Expired(t, r, cutoff) && IsUp(t, r, x, k)
    ensures Expired(t, x, cutoff)
    decreases k
  {
    if k > 0 {
      var p := t[x].parent.value;
      ExpiredBelow(t, roots, cutoff, r, p, k - 1);
      assert IsUp(t, r, p, k - 1);
      assert Below(t, roots, p);
    }
  }

  lemma BelowChild(t: Nodes, roots: set<NodeId>, x: NodeId)
    requires x in t && t[x].parent.Some? && Below(t, roots, t[x].parent.value)
    ensures Below(t, roots, x)
  {
    var r :| r in roots && InSubtree(t, r, t[x].parent.value);
    var k: nat :| IsUp(t, r, t[x].parent.value, k);
    assert IsUp(t, r, x, k + 1);
  }

  ghost predicate OnlyExpiredTaken(t: Nodes, u: Nodes, cutoff: Option<int>) {
    forall x :: x in t && x !in u ==> Expired(t, x, cutoff)
  }

  ghost function ExpiredRows(t: Nodes, cutoff: Option<int>): set<NodeId> {
    set x | x in t && Expired(t, x, cutoff)
  }

  /**
   * A purge, over any closure, takes only expired rows if and only if the closure lists only expired rows under
   * the roots and every child of an expired row that goes is expired. With a complete closure and expired roots
   * that says: below the roots, every child of an expired row is expired.
   */
  lemma PurgeInsideWindowIff(s: TreeState, u: TreeState, roots: set<NodeId>, cutoff: Option<int>)
    requires ClosureKeys(s.nodes, s.closure) && PurgeStep(s, u, roots)
    ensures OnlyExpiredTaken(s.nodes, u.nodes, cutoff) <==> TakesOnly(s, roots, ExpiredRows(s.nodes, cutoff))
    ensures Exact(s.nodes, s.closure) && (forall r :: r in roots ==> Expired(s.nodes, r, cutoff)) ==>
      (OnlyExpiredTaken(s.nodes, u.nodes, cutoff) <==> ExpiryClosed(s.nodes, roots, cutoff))
  {
    TakenIsGone(s, u, roots, ExpiredRows(s.nodes, cutoff));
    ExpiryAsSet(s.nodes, u.nodes, cutoff);
    if Exact(s.nodes, s.closure) && (forall r :: r in roots ==> Expired(s.nodes, r, cutoff)) {
      WindowOnExact(s, u, roots, cutoff);
    }
  }

  lemma ExpiryAsSet(t: Nodes, u: Nodes, cutoff: Option<int>)
    ensures OnlyExpiredTaken(t, u, cutoff) <==> forall x :: x in t && x !in u ==> x in ExpiredRows(t, cutoff)
  {
  }

  lemma WindowOnExact(s: TreeState, u: TreeState, roots: set<NodeId>, cutoff: Option<int>)
    requires Exact(s.nodes, s.closure) && PurgeStep(s, u, roots) && forall r :: r in roots ==>
      Expired(s.nodes, r, cutoff)
    ensures OnlyExpiredTaken(s.nodes, u.nodes, cutoff) <==> ExpiryClosed(s.nodes, roots, cutoff)
  {
    StaysIff(s, u, roots);
    ExpiredBelowIff(s.nodes, roots, cutoff);
  }

  lemma ExpiredBelowIff(t: Nodes, roots: set<NodeId>, cutoff: Option<int>)
    requires forall r :: r in roots ==> Expired(t, r, cutoff)
    ensures (forall x :: x in t && Below(t, roots, x) ==> Expired(t, x, cutoff)) <==> ExpiryClosed(t, roots, cutoff)
  {
    if ExpiryClosed(t, roots, cutoff) {
      forall x | x in t && Below(t, roots, x) ensures Expired(t, x, cutoff) {
        var r :| r in roots && InSubtree(t, r, x);
        var k: nat :| IsUp(t, r, x, k);
        ExpiredBelow(t, roots, cutoff, r, x, k);
      }
    } else {
      var x :| x in t && t[x].parent.Some? && Below(t, roots, t[x].parent.value)
        && Expired(t, t[x].parent.value, cutoff) && !Expired(t, x, cutoff);
      BelowChild(t, roots, x);
    }
  }

  /** On a closed table both conditions hold: purges take only trashed rows, each with its root's stamp. */
  lemma ClosedTrashIsSafe(t: Nodes, roots: set<NodeId>, cutoff: Option<int>)
    requires TrashClosed(t)
    ensures NoLiveUnderTrash(t) && NoLiveUnder(t, roots) && ExpiryClosed(t, roots, cutoff)
  {
    forall x | x in t && t[x].parent.Some? && Below(t, roots, t[x].parent.value)
      && Expired(t, t[x].parent.value, cutoff)
      ensures Expired(t, x, cutoff)
    {
      assert t[x].deletedAt == t[t[x].parent.value].deletedAt;
    }
  }

  /** A trashed row the closure knows nothing of stays, whatever is purged, while the rows above it stay. */
  lemma UnknownRowStays(s: TreeState, u: TreeState, roots: set<NodeId>, x: NodeId)
    requires PurgeStep(s, u, roots) && x in s.nodes && forall a :: (a, x) !in s.closure
    requires s.nodes[x].parent.Some? ==> s.nodes[x].parent.value in u.nodes
    ensures x in u.nodes
  {
    forall r | r in roots ensures !Removed(s, r, x) {
      forall d | (r, d) in s.closure ensures !InSubtree(s.nodes, d, x) {
        assert d != x;
        if InSubtree(s.nodes, d, x) {
          ParentOf(s.nodes, d, x);
        }
      }
    }
  }
}
