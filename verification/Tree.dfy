/** The file_nodes table as parent pointers, and the closure table that mirrors it. */
module Tree {
  import opened Common

  type NodeId = nat

  datatype Kind = File | Directory

  /** One file_nodes row; `deletedAt` is the soft-delete stamp. */
  datatype Node = Node(parent: Option<NodeId>, name: string, kind: Kind, deletedAt: Option<nat>) {
    predicate Live() {
      deletedAt.None?
    }
  }

  type Nodes = map<NodeId, Node>

  /** node_ancestors: primary key (ancestor, descendant), value depth. */
  type Closure = map<(NodeId, NodeId), nat>

  // ---------------------------------------------------------------- parent walks

  /** The node reached from `n` by exactly `k` parent steps, if the walk stays in the table. */
  ghost function Up(t: Nodes, n: NodeId, k: nat): Option<NodeId>
    decreases k
  {
    if n !in t then None
    else if k == 0 then Some(n)
    else match t[n].parent
      case None => None
      case Some(p) => Up(t, p, k - 1)
  }

  ghost predicate IsUp(t: Nodes, a: NodeId, d: NodeId, k: nat) {
    Up(t, d, k) == Some(a)
  }

  /** `d` is `n` or lies somewhere below it. */
  ghost predicate InSubtree(t: Nodes, n: NodeId, d: NodeId) {
    exists k: nat :: IsUp(t, n, d, k)
  }

  ghost predicate Acyclic(t: Nodes) {
    forall n: NodeId, k: nat :: k > 0 ==> !IsUp(t, n, n, k)
  }

  ghost predicate ParentsExist(t: Nodes) {
    forall n :: n in t && t[n].parent.Some? ==> t[n].parent.value in t
  }

  lemma {:induction false} UpAdd(t: Nodes, n: NodeId, j: nat, k: nat)
    ensures Up(t, n, j).None? ==> Up(t, n, j + k).None?
    ensures Up(t, n, j).Some? ==> Up(t, n, j + k) == Up(t, Up(t, n, j).value, k)
    decreases j
  {
    if n in t && j > 0 && t[n].parent.Some? {
      UpAdd(t, t[n].parent.value, j - 1, k);
    }
  }

  lemma UpInTable(t: Nodes, a: NodeId, d: NodeId, k: nat)
    requires IsUp(t, a, d, k)
    ensures a in t && d in t
    decreases k
  {
    if k > 0 {
      UpInTable(t, a, t[d].parent.value, k - 1);
    }
  }

  lemma UpTrans(t: Nodes, a: NodeId, b: NodeId, c: NodeId, j: nat, k: nat)
    requires IsUp(t, a, b, k) && IsUp(t, b, c, j)
    ensures IsUp(t, a, c, j + k)
  {
    UpAdd(t, c, j, k);
  }

  /** Ancestors of one node lie on one walk, so two of them are comparable. */
  lemma UpBetween(t: Nodes, a: NodeId, b: NodeId, d: NodeId, j: nat, k: nat)
    requires IsUp(t, a, d, j) && IsUp(t, b, d, k) && j <= k
    ensures IsUp(t, b, a, k - j)
  {
    UpAdd(t, d, j, k - j);
  }

  lemma UpUnique(t: Nodes, a: NodeId, d: NodeId, j: nat, k: nat)
    requires Acyclic(t) && IsUp(t, a, d, j) && IsUp(t, a, d, k)
    ensures j == k
  {
    if j < k {
      UpBetween(t, a, a, d, j, k);
      assert false;
    } else if k < j {
      UpBetween(t, a, a, d, k, j);
      assert false;
    }
  }

  /** Walks depend on parent pointers only. */
  ghost predicate SameParents(t: Nodes, u: Nodes) {
    t.Keys == u.Keys && forall n :: n in t ==> t[n].parent == u[n].parent
  }

  lemma {:induction false} UpSameParents(t: Nodes, u: Nodes, n: NodeId, k: nat)
    requires SameParents(t, u)
    ensures Up(t, n, k) == Up(u, n, k)
    decreases k
  {
    if n in t && k > 0 && t[n].parent.Some? {
      UpSameParents(t, u, t[n].parent.value, k - 1);
    }
  }

  // ---------------------------------------------------------------- the closure table

  ghost predicate HasRow(c: Closure, a: NodeId, d: NodeId, k: nat) {
    (a, d) in c && c[(a, d)] == k
  }

  /** One row (a, d, k) for every walk of k parent steps from d to a, and no other row. */
  ghost predicate Exact(t: Nodes, c: Closure) {
    forall a: NodeId, d: NodeId, k: nat :: HasRow(c, a, d, k) <==> IsUp(t, a, d, k)
  }

  /** The primary key alone rules out cycles: a cycle would need two depths in one row. */
  lemma ExactIsAcyclic(t: Nodes, c: Closure)
    requires Exact(t, c)
    ensures Acyclic(t)
  {
    forall n: NodeId, k: nat | k > 0 ensures !IsUp(t, n, n, k) {
      if n in t {
        assert IsUp(t, n, n, 0);
      }
      if IsUp(t, n, n, k) {
        UpInTable(t, n, n, k);
        assert false;
      }
    }
  }

  lemma ExactMember(t: Nodes, c: Closure, a: NodeId, d: NodeId)
    requires Exact(t, c)
    ensures (a, d) in c <==> InSubtree(t, a, d)
  {
    if (a, d) in c {
      assert HasRow(c, a, d, c[(a, d)]);
      assert IsUp(t, a, d, c[(a, d)]);
    }
    if InSubtree(t, a, d) {
      var k: nat :| IsUp(t, a, d, k);
      assert HasRow(c, a, d, k);
    }
  }

  lemma ExactSameParents(t: Nodes, u: Nodes, c: Closure)
    requires Exact(t, c) && SameParents(t, u)
    ensures Exact(u, c)
  {
    forall a: NodeId, d: NodeId, k: nat ensures HasRow(c, a, d, k) <==> IsUp(u, a, d, k) {
      UpSameParents(t, u, d, k);
      assert HasRow(c, a, d, k) <==> IsUp(t, a, d, k);
    }
  }

  // ---------------------------------------------------------------- re-parenting

  ghost function Reparent(t: Nodes, n: NodeId, p: Option<NodeId>): Nodes
    requires n in t
  {
    t[n := t[n].(parent := p)]
  }

  /** A walk that does not leave `n` upward is the same before and after. */
  lemma {:induction false} ReparentAvoids(t: Nodes, n: NodeId, p: Option<NodeId>, d: NodeId, k: nat)
    requires n in t
    requires forall j: nat :: j < k ==> !IsUp(t, n, d, j)
    ensures Up(Reparent(t, n, p), d, k) == Up(t, d, k)
    decreases k
  {
    if k > 0 && d in t {
      assert !IsUp(t, n, d, 0);
      if t[d].parent.Some? {
        var q := t[d].parent.value;
        forall j: nat | j < k - 1 ensures !IsUp(t, n, q, j) {
          assert !IsUp(t, n, d, j + 1);
        }
        ReparentAvoids(t, n, p, q, k - 1);
      }
    }
  }

  /** Inside the moved subtree walks run to `n`, then on from the new parent. */
  lemma ReparentInside(t: Nodes, n: NodeId, p: Option<NodeId>, d: NodeId, i: nat, k: nat)
    requires n in t && Acyclic(t) && IsUp(t, n, d, i)
    requires p.Some? ==> p.value in t && !InSubtree(t, n, p.value)
    ensures k <= i ==> Up(Reparent(t, n, p), d, k) == Up(t, d, k)
    ensures k > i ==> Up(Reparent(t, n, p), d, k) == if p.None? then None else Up(t, p.value, k - i - 1)
  {
    var u := Reparent(t, n, p);
    forall j: nat | j < i ensures !IsUp(t, n, d, j) {
      if IsUp(t, n, d, j) {
        UpUnique(t, n, d, i, j);
        assert false;
      }
    }
    if k <= i {
      ReparentAvoids(t, n, p, d, k);
    } else {
      ReparentAvoids(t, n, p, d, i);
      UpAdd(u, d, i, k - i);
      if p.Some? {
        forall j: nat | j < k - i - 1 ensures !IsUp(t, n, p.value, j) {
        }
        ReparentAvoids(t, n, p, p.value, k - i - 1);
      }
    }
  }

  /** Outside the moved subtree nothing changes. */
  lemma ReparentOutside(t: Nodes, n: NodeId, p: Option<NodeId>, d: NodeId, k: nat)
    requires n in t && !InSubtree(t, n, d)
    ensures Up(Reparent(t, n, p), d, k) == Up(t, d, k)
  {
    ReparentAvoids(t, n, p, d, k);
  }

  /** Refusing a destination below the moved node is exactly what keeps the pointers acyclic. */
  lemma ReparentAcyclic(t: Nodes, n: NodeId, p: Option<NodeId>)
    requires n in t && Acyclic(t) && (p.Some? ==> p.value in t)
    ensures Acyclic(Reparent(t, n, p)) <==> !(p.Some? && InSubtree(t, n, p.value))
  {
    var u := Reparent(t, n, p);
    if p.Some? && InSubtree(t, n, p.value) {
      var k: nat :| IsUp(t, n, p.value, k) && forall j: nat :: j < k ==> !IsUp(t, n, p.value, j)
        by { LeastWalk(t, n, p.value); }
      ReparentAvoids(t, n, p, p.value, k);
      assert IsUp(u, n, n, k + 1);
    } else {
      forall a: NodeId, k: nat | k > 0 ensures !IsUp(u, a, a, k) {
        if InSubtree(t, n, a) {
          var i: nat :| IsUp(t, n, a, i);
          ReparentInside(t, n, p, a, i, k);
          if k > i && p.Some? && IsUp(t, a, p.value, k - i - 1) {
            UpTrans(t, n, a, p.value, k - i - 1, i);
            assert false;
          }
          assert !IsUp(t, a, a, k);
        } else {
          ReparentOutside(t, n, p, a, k);
          assert !IsUp(t, a, a, k);
        }
      }
    }
  }

  lemma LeastWalk(t: Nodes, a: NodeId, d: NodeId)
    requires InSubtree(t, a, d)
    ensures exists k: nat :: IsUp(t, a, d, k) && forall j: nat :: j < k ==> !IsUp(t, a, d, j)
  {
    var k: nat :| IsUp(t, a, d, k);
    while exists j: nat :: j < k && IsUp(t, a, d, j)
      invariant IsUp(t, a, d, k)
      decreases k
    {
      var j: nat :| j < k && IsUp(t, a, d, j);
      k := j;
    }
  }
}
