/** One committed tree operation each, and what it keeps of the closure table. */
module TreeSteps {
  import opened Common
  import opened Tree
  import opened Ancestry

  // ---------------------------------------------------------------- steps

  /** A live leaf is added, with its own closure row and its parent's rows one step further. */
  ghost predicate CreateStep(s: TreeState, u: TreeState, id: NodeId, parent: Option<NodeId>, name: string, kind: Kind) {
    && id !in s.nodes && (parent.Some? ==> parent.value in s.nodes)
    && u.nodes == s.nodes[id := Node(parent, name, kind, None)]
    && forall a: NodeId, d: NodeId, k: nat :: HasRow(u.closure, a, d, k) <==>
         if d == id then (if k == 0 then a == id else Onward(s.closure, parent, a, k - 1))
           else HasRow(s.closure, a, d, k)
  }

  /** One pointer changes; rows of known descendants go, rows of everything reached through live children come. */
  ghost predicate MoveStep(s: TreeState, u: TreeState, n: NodeId, p: Option<NodeId>) {
    && n in s.nodes && u.nodes == Reparent(s.nodes, n, p)
    && forall a: NodeId, d: NodeId, k: nat :: HasRow(u.closure, a, d, k) <==>
         HasRow(Cut(s.closure, n), a, d, k) || Way(u.nodes, Cut(s.closure, n), n, p, a, d, k)
  }

  /** `x` is one of the rows or lies below one. */
  ghost predicate Below(t: Nodes, ids: set<NodeId>, x: NodeId) {
    exists d :: d in ids && InSubtree(t, d, x)
  }

  /** The rows a delete of `n` takes: the descendants the closure knows, and by cascade all below them. */
  ghost predicate Removed(s: TreeState, n: NodeId, x: NodeId) {
    exists d :: (n, d) in s.closure && InSubtree(s.nodes, d, x)
  }

  ghost predicate DeleteStep(s: TreeState, u: TreeState, n: NodeId) {
    && (forall x :: x in u.nodes <==> x in s.nodes && !Removed(s, n, x))
    && (forall x :: x in u.nodes ==> u.nodes[x] == s.nodes[x])
    && (forall a: NodeId, d: NodeId, k: nat :: HasRow(u.closure, a, d, k) <==>
          HasRow(s.closure, a, d, k) && !Removed(s, n, a) && !Removed(s, n, d))
  }

  // ---------------------------------------------------------------- constraints

  lemma CreateKeepsTable(s: TreeState, u: TreeState, id: NodeId, parent: Option<NodeId>, name: string, kind: Kind)
    requires TableInv(s) && CreateStep(s, u, id, parent, name, kind) && LiveSiblingsDistinct(u.nodes)
    ensures TableInv(u)
  {
    forall p | p in u.closure ensures p.0 in u.nodes && p.1 in u.nodes {
      assert HasRow(u.closure, p.0, p.1, u.closure[p]);
    }
  }

  lemma MoveKeepsTable(s: TreeState, u: TreeState, n: NodeId, p: Option<NodeId>)
    requires TableInv(s) && MoveStep(s, u, n, p) && (p.Some? ==> p.value in s.nodes)
    requires LiveSiblingsDistinct(u.nodes)
    ensures TableInv(u)
  {
    forall q | q in u.closure ensures q.0 in u.nodes && q.1 in u.nodes {
      assert HasRow(u.closure, q.0, q.1, u.closure[q]);
      if Way(u.nodes, Cut(s.closure, n), n, p, q.0, q.1, u.closure[q]) {
        WayInTable(u.nodes, Cut(s.closure, n), n, p, q.0, q.1, u.closure[q]);
      }
    }
  }

  lemma RemovedBelow(s: TreeState, n: NodeId, x: NodeId)
    requires x in s.nodes && s.nodes[x].parent.Some? && Removed(s, n, s.nodes[x].parent.value)
    ensures Removed(s, n, x)
  {
    var d :| (n, d) in s.closure && InSubtree(s.nodes, d, s.nodes[x].parent.value);
    var k: nat :| IsUp(s.nodes, d, s.nodes[x].parent.value, k);
    assert IsUp(s.nodes, d, x, k + 1);
  }

  lemma DeleteKeepsTable(s: TreeState, u: TreeState, n: NodeId)
    requires TableInv(s) && DeleteStep(s, u, n)
    ensures TableInv(u)
  {
    forall x | x in u.nodes && u.nodes[x].parent.Some? ensures u.nodes[x].parent.value in u.nodes {
      if Removed(s, n, s.nodes[x].parent.value) {
        RemovedBelow(s, n, x);
      }
    }
    forall p | p in u.closure ensures p.0 in u.nodes && p.1 in u.nodes {
      assert HasRow(u.closure, p.0, p.1, u.closure[p]);
    }
  }

  // ---------------------------------------------------------------- rows never lie

  /**
   * Rows are true walks, and with a row all nearer ones: a node may have lost rows, but never has a wrong
   * one nor a gap.
   */
  ghost predicate Truthful(t: Nodes, c: Closure) {
    && (forall a: NodeId, d: NodeId, k: nat :: HasRow(c, a, d, k) ==> IsUp(t, a, d, k))
    && forall d: NodeId :: NoGap(c, d)
  }

  ghost predicate NoGap(c: Closure, d: NodeId) {
    forall a: NodeId, k: nat, i: nat :: HasRow(c, a, d, k) && i < k ==> KnownAt(c, d, i)
  }

  lemma NearerKnown(t: Nodes, c: Closure, a: NodeId, d: NodeId, k: nat, i: nat) returns (b: NodeId)
    requires Truthful(t, c) && HasRow(c, a, d, k) && i < k
    ensures HasRow(c, b, d, i) && IsUp(t, b, d, i)
  {
    assert NoGap(c, d) && KnownAt(c, d, i);
    b :| HasRow(c, b, d, i);
  }

  ghost predicate KnownAt(c: Closure, d: NodeId, i: nat) {
    exists b: NodeId :: HasRow(c, b, d, i)
  }

  lemma ExactIsTruthful(t: Nodes, c: Closure)
    requires Exact(t, c)
    ensures Truthful(t, c)
  {
    forall d: NodeId ensures NoGap(c, d) {
      forall a: NodeId, k: nat, i: nat | HasRow(c, a, d, k) && i < k ensures KnownAt(c, d, i) {
        assert IsUp(t, a, d, k);
        UpAdd(t, d, i, k - i);
        assert HasRow(c, Up(t, d, i).value, d, i);
      }
    }
  }

  /** A walk that rows vouch for does not pass `n` unless the closure knows the node as a descendant of `n`. */
  lemma KnownAvoids(t: Nodes, c: Closure, n: NodeId, a: NodeId, d: NodeId, k: nat)
    requires Truthful(t, c) && HasRow(c, a, d, k) && (n, d) !in c
    ensures forall i: nat :: i <= k ==> !IsUp(t, n, d, i)
  {
    forall i: nat | i <= k ensures !IsUp(t, n, d, i) {
      if i < k {
        var b := NearerKnown(t, c, a, d, k, i);
      }
    }
  }

  lemma {:induction false} LeafUp(t: Nodes, u: Nodes, id: NodeId, d: NodeId, k: nat)
    requires ParentsExist(t) && id !in t && d != id
    requires u.Keys == t.Keys + {id} && forall n :: n in t ==> u[n] == t[n]
    ensures Up(u, d, k) == Up(t, d, k)
    decreases k
  {
    if d in t && k > 0 && t[d].parent.Some? {
      LeafUp(t, u, id, t[d].parent.value, k - 1);
    }
  }

  lemma CreateKeepsTruth(s: TreeState, u: TreeState, id: NodeId, parent: Option<NodeId>, name: string, kind: Kind)
    requires TableInv(s) && Truthful(s.nodes, s.closure) && CreateStep(s, u, id, parent, name, kind)
    ensures Truthful(u.nodes, u.closure)
  {
    forall a: NodeId, d: NodeId, k: nat | HasRow(u.closure, a, d, k) ensures IsUp(u.nodes, a, d, k) {
      CreateTrue(s, u, id, parent, name, kind, a, d, k);
    }
    forall d: NodeId ensures NoGap(u.closure, d) {
      forall a: NodeId, k: nat, i: nat | HasRow(u.closure, a, d, k) && i < k ensures KnownAt(u.closure, d, i) {
        CreateNoGap(s, u, id, parent, name, kind, a, d, k, i);
      }
    }
  }

  lemma CreateTrue(s: TreeState, u: TreeState, id: NodeId, parent: Option<NodeId>, name: string, kind: Kind,
                   a: NodeId, d: NodeId, k: nat)
    requires ParentsExist(s.nodes) && Truthful(s.nodes, s.closure) && CreateStep(s, u, id, parent, name, kind)
    requires HasRow(u.closure, a, d, k)
    ensures IsUp(u.nodes, a, d, k)
  {
    if d != id {
      LeafUp(s.nodes, u.nodes, id, d, k);
    } else if k > 0 {
      LeafUp(s.nodes, u.nodes, id, parent.value, k - 1);
      assert IsUp(s.nodes, a, parent.value, k - 1);
    }
  }

  lemma CreateNoGap(s: TreeState, u: TreeState, id: NodeId, parent: Option<NodeId>, name: string, kind: Kind,
                    a: NodeId, d: NodeId, k: nat, i: nat)
    requires Truthful(s.nodes, s.closure) && CreateStep(s, u, id, parent, name, kind)
    requires HasRow(u.closure, a, d, k) && i < k
    ensures KnownAt(u.closure, d, i)
  {
    if d != id {
      var b := NearerKnown(s.nodes, s.closure, a, d, k, i);
      assert HasRow(u.closure, b, d, i);
    } else if i == 0 {
      assert HasRow(u.closure, id, id, 0);
    } else {
      assert HasRow(s.closure, a, parent.value, k - 1);
      var b := NearerKnown(s.nodes, s.closure, a, parent.value, k - 1, i - 1);
      assert HasRow(u.closure, b, id, i);
    }
  }

  /** A row of the rebuild is a walk of the new table. */
  lemma WayIsUp(s: TreeState, n: NodeId, p: Option<NodeId>, a: NodeId, d: NodeId, k: nat)
    requires Truthful(s.nodes, s.closure) && n in s.nodes && (p.Some? ==> (n, p.value) !in s.closure)
    requires Way(Reparent(s.nodes, n, p), Cut(s.closure, n), n, p, a, d, k)
    ensures IsUp(Reparent(s.nodes, n, p), a, d, k)
  {
    var u := Reparent(s.nodes, n, p);
    var j: nat :| LiveDown(u, n, d, j) && WayAt(u, Cut(s.closure, n), p, a, d, k, j);
    if k > j {
      LiveDownIsUp(u, n, d, j);
      KnownAvoids(s.nodes, s.closure, n, a, p.value, k - j - 1);
      ReparentAvoids(s.nodes, n, p, p.value, k - j - 1);
      assert IsUp(s.nodes, a, p.value, k - j - 1);
      assert Up(u, n, k - j) == Up(u, p.value, k - j - 1);
      UpAdd(u, d, j, k - j);
      assert j + (k - j) == k;
    }
  }

  lemma MoveKeepsTruth(s: TreeState, u: TreeState, n: NodeId, p: Option<NodeId>)
    requires Truthful(s.nodes, s.closure) && MoveStep(s, u, n, p) && (p.Some? ==> (n, p.value) !in s.closure)
    ensures Truthful(u.nodes, u.closure)
  {
    var c := Cut(s.closure, n);
    forall a: NodeId, d: NodeId, k: nat | HasRow(u.closure, a, d, k) ensures IsUp(u.nodes, a, d, k) {
      if HasRow(c, a, d, k) {
        assert HasRow(s.closure, a, d, k);
        KnownAvoids(s.nodes, s.closure, n, a, d, k);
        ReparentAvoids(s.nodes, n, p, d, k);
      } else {
        WayIsUp(s, n, p, a, d, k);
      }
    }
    forall d: NodeId ensures NoGap(u.closure, d) {
      forall a: NodeId, k: nat, i: nat | HasRow(u.closure, a, d, k) && i < k ensures KnownAt(u.closure, d, i) {
        if HasRow(c, a, d, k) {
          var b := NearerKnown(s.nodes, s.closure, a, d, k, i);
          assert HasRow(c, b, d, i) && HasRow(u.closure, b, d, i);
        } else {
          WayNoGap(s, u, n, p, a, d, k, i);
        }
      }
    }
  }

  lemma WayNoGap(s: TreeState, u: TreeState, n: NodeId, p: Option<NodeId>, a: NodeId, d: NodeId, k: nat, i: nat)
    requires Truthful(s.nodes, s.closure) && MoveStep(s, u, n, p) && (p.Some? ==> (n, p.value) !in s.closure)
    requires Way(u.nodes, Cut(s.closure, n), n, p, a, d, k) && i < k
    ensures KnownAt(u.closure, d, i)
  {
    var c := Cut(s.closure, n);
    var j: nat :| LiveDown(u.nodes, n, d, j) && WayAt(u.nodes, c, p, a, d, k, j);
    if i <= j {
      LiveDownIsUp(u.nodes, n, d, j);
      UpAdd(u.nodes, d, i, j - i);
      var b := Up(u.nodes, d, i).value;
      assert WayAt(u.nodes, c, p, b, d, i, j);
      assert HasRow(u.closure, b, d, i);
    } else {
      var b := NearerKnown(s.nodes, s.closure, a, p.value, k - j - 1, i - j - 1);
      assert HasRow(c, b, p.value, i - j - 1);
      assert WayAt(u.nodes, c, p, b, d, i, j);
      assert HasRow(u.closure, b, d, i);
    }
  }

  lemma {:induction false} KeptUp(s: TreeState, u: Nodes, d: NodeId, k: nat)
    requires (forall x :: x in u ==> x in s.nodes && u[x] == s.nodes[x]) && d in u
    requires forall x :: x in u && s.nodes[x].parent.Some? && s.nodes[x].parent.value in s.nodes ==>
      s.nodes[x].parent.value in u
    ensures Up(u, d, k) == Up(s.nodes, d, k)
    decreases k
  {
    if k > 0 && s.nodes[d].parent.Some? && s.nodes[d].parent.value in s.nodes {
      KeptUp(s, u, s.nodes[d].parent.value, k - 1);
    }
  }

  /** Taking out whole subtrees leaves the remaining walks as they were. */
  lemma DeleteKeepsTruth(s: TreeState, u: TreeState, n: NodeId)
    requires TableInv(s) && Truthful(s.nodes, s.closure) && DeleteStep(s, u, n)
    ensures Truthful(u.nodes, u.closure)
  {
    DeleteKeepsTable(s, u, n);
    forall a: NodeId, d: NodeId, k: nat | HasRow(u.closure, a, d, k) ensures IsUp(u.nodes, a, d, k) {
      assert d in u.nodes && IsUp(s.nodes, a, d, k);
      KeptUp(s, u.nodes, d, k);
    }
    forall d: NodeId ensures NoGap(u.closure, d) {
      forall a: NodeId, k: nat, i: nat | HasRow(u.closure, a, d, k) && i < k ensures KnownAt(u.closure, d, i) {
        assert HasRow(s.closure, a, d, k) && d in u.nodes;
        var b := NearerKnown(s.nodes, s.closure, a, d, k, i);
        KeptUp(s, u.nodes, d, i);
        UpInTable(u.nodes, b, d, i);
        assert HasRow(u.closure, b, d, i);
      }
    }
  }

  /** What holds in every state of every run. */
  ghost predicate StoreInv(s: TreeState) {
    TableInv(s) && Truthful(s.nodes, s.closure)
  }

  // ---------------------------------------------------------------- exact closures

  /** Every child of a trashed row is trashed, with the same stamp. */
  ghost predicate TrashClosed(t: Nodes) {
    forall n :: n in t && t[n].parent.Some? && t[n].parent.value in t && !t[t[n].parent.value].Live()
      ==> t[n].deletedAt == t[t[n].parent.value].deletedAt
  }

  /** What careful callers keep up: a complete closure, and trash closed below. */
  ghost predicate TreeInv(s: TreeState) {
    && ParentsExist(s.nodes)
    && Exact(s.nodes, s.closure)
    && LiveSiblingsDistinct(s.nodes)
    && TrashClosed(s.nodes)
  }

  lemma ExactKeys(t: Nodes, c: Closure)
    requires Exact(t, c)
    ensures ClosureKeys(t, c)
  {
    forall p | p in c ensures p.0 in t && p.1 in t {
      assert HasRow(c, p.0, p.1, c[p]) && IsUp(t, p.0, p.1, c[p]);
      UpInTable(t, p.0, p.1, c[p]);
    }
  }

  lemma CreateKeepsExact(s: TreeState, u: TreeState, id: NodeId, parent: Option<NodeId>, name: string, kind: Kind)
    requires ParentsExist(s.nodes) && Exact(s.nodes, s.closure) && CreateStep(s, u, id, parent, name, kind)
    ensures Exact(u.nodes, u.closure)
  {
    forall a: NodeId, d: NodeId, k: nat ensures HasRow(u.closure, a, d, k) <==> IsUp(u.nodes, a, d, k) {
      if d != id {
        LeafUp(s.nodes, u.nodes, id, d, k);
        assert HasRow(s.closure, a, d, k) <==> IsUp(s.nodes, a, d, k);
      } else if k > 0 && parent.Some? {
        LeafUp(s.nodes, u.nodes, id, parent.value, k - 1);
        assert HasRow(s.closure, a, parent.value, k - 1) <==> IsUp(s.nodes, a, parent.value, k - 1);
      }
    }
  }

  lemma RemovedIsSubtree(s: TreeState, n: NodeId)
    requires Exact(s.nodes, s.closure)
    ensures forall x :: Removed(s, n, x) <==> InSubtree(s.nodes, n, x)
  {
    forall x ensures Removed(s, n, x) <==> InSubtree(s.nodes, n, x) {
      if Removed(s, n, x) {
        var d :| (n, d) in s.closure && InSubtree(s.nodes, d, x);
        ExactMember(s.nodes, s.closure, n, d);
        var j: nat :| IsUp(s.nodes, n, d, j);
        var k: nat :| IsUp(s.nodes, d, x, k);
        UpTrans(s.nodes, n, d, x, k, j);
      }
      if InSubtree(s.nodes, n, x) {
        var k: nat :| IsUp(s.nodes, n, x, k);
        UpInTable(s.nodes, n, x, k);
        assert IsUp(s.nodes, n, n, 0) && HasRow(s.closure, n, n, 0);
      }
    }
  }

  /** On a complete closure a delete takes exactly the subtree and leaves a complete closure. */
  lemma DeleteKeepsExact(s: TreeState, u: TreeState, n: NodeId)
    requires TableInv(s) && Exact(s.nodes, s.closure) && DeleteStep(s, u, n)
    ensures Exact(u.nodes, u.closure)
    ensures forall x :: x in u.nodes <==> x in s.nodes && !InSubtree(s.nodes, n, x)
  {
    RemovedIsSubtree(s, n);
    DeleteKeepsTable(s, u, n);
    ExactIsTruthful(s.nodes, s.closure);
    DeleteKeepsTruth(s, u, n);
    forall a: NodeId, d: NodeId, k: nat | IsUp(u.nodes, a, d, k) ensures HasRow(u.closure, a, d, k) {
      UpInTable(u.nodes, a, d, k);
      KeptUp(s, u.nodes, d, k);
      assert HasRow(s.closure, a, d, k);
    }
  }

  // ---------------------------------------------------------------- moves over a complete closure

  /** No trashed row strictly below `n`. */
  ghost predicate CleanBelow(t: Nodes, n: NodeId) {
    forall d: NodeId, k: nat :: k > 0 && IsUp(t, n, d, k) ==> d in t && t[d].Live()
  }

  lemma {:induction false} CleanIsReached(t: Nodes, n: NodeId, d: NodeId, k: nat)
    requires CleanBelow(t, n) && IsUp(t, n, d, k)
    ensures LiveDown(t, n, d, k)
    decreases k
  {
    if k > 0 {
      CleanIsReached(t, n, t[d].parent.value, k - 1);
    }
  }

  /** The closure a move leaves behind a complete one: exact but for what the queue did not reach. */
  ghost predicate RebuiltClosure(before: TreeState, after: TreeState, n: NodeId) {
    forall a: NodeId, d: NodeId, k: nat :: HasRow(after.closure, a, d, k) <==>
      IsUp(after.nodes, a, d, k) && (InSubtree(before.nodes, n, d) ==> Reached(after.nodes, n, d))
  }

  /** On a complete closure the rebuild writes every walk of what it reaches. */
  lemma WayOnExact(s: TreeState, n: NodeId, p: Option<NodeId>, a: NodeId, d: NodeId, k: nat)
    requires Exact(s.nodes, s.closure) && n in s.nodes && (p.Some? ==> p.value in s.nodes && (n, p.value) !in s.closure)
    ensures Way(Reparent(s.nodes, n, p), Cut(s.closure, n), n, p, a, d, k)
      <==> Reached(Reparent(s.nodes, n, p), n, d) && IsUp(Reparent(s.nodes, n, p), a, d, k)
  {
    var u := Reparent(s.nodes, n, p);
    var c := Cut(s.closure, n);
    ExactIsTruthful(s.nodes, s.closure);
    if Way(u, c, n, p, a, d, k) {
      WayIsUp(s, n, p, a, d, k);
    }
    if Reached(u, n, d) && IsUp(u, a, d, k) {
      var j: nat :| LiveDown(u, n, d, j);
      if k > j {
        LiveDownIsUp(u, n, d, j);
        UpAdd(u, d, j, k - j);
        assert IsUp(u, a, n, k - j) && p.Some? && IsUp(u, a, p.value, k - j - 1);
        ExactMember(s.nodes, s.closure, n, p.value);
        ReparentOutside(s.nodes, n, p, p.value, k - j - 1);
        assert HasRow(s.closure, a, p.value, k - j - 1);
        assert Onward(c, p, a, k - j - 1);
      }
      assert WayAt(u, c, p, a, d, k, j);
    }
  }

  lemma ReachedWasBelow(t: Nodes, n: NodeId, p: Option<NodeId>, d: NodeId)
    requires n in t && Reached(Reparent(t, n, p), n, d)
    ensures InSubtree(t, n, d)
  {
    var j: nat :| LiveDown(Reparent(t, n, p), n, d, j);
    LiveDownBefore(t, n, p, d, j);
    var i: nat :| LiveDown(t, n, d, i);
    LiveDownIsUp(t, n, d, i);
  }

  /** Over a complete closure the batch never collides, the queue always drains and the pointers stay acyclic. */
  lemma MoveOnExact(s: TreeState, n: NodeId, p: Option<NodeId>)
    requires Exact(s.nodes, s.closure) && n in s.nodes && (p.Some? ==> p.value in s.nodes && (n, p.value) !in s.closure)
    ensures Acyclic(Reparent(s.nodes, n, p)) && !NeverEnds(s.nodes, n, p)
    ensures !RowsTaken(Reparent(s.nodes, n, p), Cut(s.closure, n), n, p)
  {
    var u := Reparent(s.nodes, n, p);
    ExactIsAcyclic(s.nodes, s.closure);
    if p.Some? {
      ExactMember(s.nodes, s.closure, n, p.value);
      if Reached(s.nodes, n, p.value) {
        var j: nat :| LiveDown(s.nodes, n, p.value, j);
        LiveDownIsUp(s.nodes, n, p.value, j);
      }
    }
    ReparentAcyclic(s.nodes, n, p);
    forall a: NodeId, d: NodeId, k: nat | Way(u, Cut(s.closure, n), n, p, a, d, k)
      ensures (a, d) !in Cut(s.closure, n)
      ensures forall i: nat :: Way(u, Cut(s.closure, n), n, p, a, d, i) ==> i == k
    {
      WayOnExact(s, n, p, a, d, k);
      ReachedWasBelow(s.nodes, n, p, d);
      ExactMember(s.nodes, s.closure, n, d);
      forall i: nat | Way(u, Cut(s.closure, n), n, p, a, d, i) ensures i == k {
        WayOnExact(s, n, p, a, d, i);
        UpUnique(u, a, d, i, k);
      }
    }
  }

  lemma MoveRebuilds(s: TreeState, u: TreeState, n: NodeId, p: Option<NodeId>)
    requires Exact(s.nodes, s.closure) && MoveStep(s, u, n, p)
      && (p.Some? ==> p.value in s.nodes && (n, p.value) !in s.closure)
    ensures RebuiltClosure(s, u, n) && Acyclic(u.nodes)
  {
    MoveOnExact(s, n, p);
    forall a: NodeId, d: NodeId, k: nat
      ensures HasRow(u.closure, a, d, k)
        <==> IsUp(u.nodes, a, d, k) && (InSubtree(s.nodes, n, d) ==> Reached(u.nodes, n, d))
    {
      WayOnExact(s, n, p, a, d, k);
      ExactMember(s.nodes, s.closure, n, d);
      if !InSubtree(s.nodes, n, d) {
        ReparentOutside(s.nodes, n, p, d, k);
        assert HasRow(s.closure, a, d, k) <==> IsUp(s.nodes, a, d, k);
        if Reached(u.nodes, n, d) {
          ReachedWasBelow(s.nodes, n, p, d);
        }
      }
    }
  }

  /** A move keeps a complete closure complete if and only if no trashed row lies strictly below the moved node. */
  lemma MoveExactIff(s: TreeState, u: TreeState, n: NodeId, p: Option<NodeId>)
    requires Exact(s.nodes, s.closure) && MoveStep(s, u, n, p)
      && (p.Some? ==> p.value in s.nodes && (n, p.value) !in s.closure)
    ensures Exact(u.nodes, u.closure) <==> CleanBelow(s.nodes, n)
    ensures Acyclic(u.nodes)
  {
    ExactIsAcyclic(s.nodes, s.closure);
    MoveRebuilds(s, u, n, p);
    if CleanBelow(s.nodes, n) {
      forall a: NodeId, d: NodeId, k: nat ensures HasRow(u.closure, a, d, k) <==> IsUp(u.nodes, a, d, k) {
        if InSubtree(s.nodes, n, d) {
          var j: nat :| IsUp(s.nodes, n, d, j);
          CleanIsReached(s.nodes, n, d, j);
          assert Reached(s.nodes, n, d);
          var i := LeastDown(s.nodes, n, d);
          LiveDownMoved(s.nodes, n, p, d, i);
          assert Reached(u.nodes, n, d);
        }
      }
    } else {
      var d: NodeId, k: nat :| k > 0 && IsUp(s.nodes, n, d, k) && !(d in s.nodes && s.nodes[d].Live());
      UpInTable(s.nodes, n, d, k);
      assert InSubtree(s.nodes, n, d);
      assert d != n;
      assert !Reached(u.nodes, n, d);
      assert IsUp(u.nodes, d, d, 0);
      assert !HasRow(u.closure, d, d, 0);
    }
  }
}
