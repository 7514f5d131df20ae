/** _ancestryHelper: the rows a new or moved node gets, over any closure table, complete or not. */
module Ancestry {
  import opened Common
  import opened Tree
  import opened Paths

  /** A node_ancestors row to insert. */
  datatype Row = Row(a: NodeId, d: NodeId, k: nat)

  /** One entry of an ancestor chain. */
  datatype Entry = Entry(a: NodeId, k: nat)

  datatype TreeState = TreeState(nodes: Nodes, closure: Closure)

  // ---------------------------------------------------------------- what the database enforces

  /** The two live-only unique indexes: one name per parent, roots included. */
  ghost predicate LiveSiblingsDistinct(t: Nodes) {
    forall x, y :: x in t && y in t && x != y && t[x].Live() && t[y].Live() && t[x].parent == t[y].parent
      ==> t[x].name != t[y].name
  }

  /** The foreign keys of node_ancestors. */
  ghost predicate ClosureKeys(t: Nodes, c: Closure) {
    forall p :: p in c ==> p.0 in t && p.1 in t
  }

  /** Every state of the tables satisfies the constraints, whatever operations ran. */
  ghost predicate TableInv(s: TreeState) {
    ParentsExist(s.nodes) && ClosureKeys(s.nodes, s.closure) && LiveSiblingsDistinct(s.nodes)
  }

  /** A live row other than `id` already uses this name under this parent. */
  predicate NameInUse(t: Nodes, id: NodeId, parent: Option<NodeId>, name: string) {
    exists x :: x in t && x != id && t[x].Live() && t[x].parent == parent && t[x].name == name
  }

  /** A create is refused for its name exactly when the unique indexes would refuse the row. */
  lemma CreateNameTakenIff(t: Nodes, id: NodeId, parent: Option<NodeId>, name: string, kind: Kind)
    requires LiveSiblingsDistinct(t) && id !in t
    ensures NameInUse(t, id, parent, name) <==> !LiveSiblingsDistinct(t[id := Node(parent, name, kind, None)])
  {
    var u := t[id := Node(parent, name, kind, None)];
    if x :| x in t && x != id && t[x].Live() && t[x].parent == parent && t[x].name == name {
      assert u[x] == t[x] && u[id].Live();
    }
  }

  /** A move or a rename is refused for a name exactly when the unique indexes would refuse the updated row. */
  lemma UpdateNameTakenIff(t: Nodes, id: NodeId, row: Node)
    requires LiveSiblingsDistinct(t) && id in t && row.deletedAt == t[id].deletedAt
    ensures row.Live() && NameInUse(t, id, row.parent, row.name) <==> !LiveSiblingsDistinct(t[id := row])
  {
    var u := t[id := row];
    if row.Live() && NameInUse(t, id, row.parent, row.name) {
      var x :| x in t && x != id && t[x].Live() && t[x].parent == row.parent && t[x].name == row.name;
      assert u[x] == t[x] && u[id].Live();
    } else {
      forall x, y | x in u && y in u && x != y && u[x].Live() && u[y].Live() && u[x].parent == u[y].parent
        ensures u[x].name != u[y].name
      {
        assert x != id && y != id ==> t[x].parent == t[y].parent;
      }
    }
  }

  /** What a batch insert needs: the foreign keys hold and no primary key is taken or repeated. */
  ghost predicate Insertable(t: Nodes, c: Closure, rows: seq<Row>) {
    && (forall r :: r in rows ==> r.a in t && r.d in t && (r.a, r.d) !in c)
    && (forall i, j :: 0 <= i < j < |rows| ==> (rows[i].a, rows[i].d) != (rows[j].a, rows[j].d))
  }

  // ---------------------------------------------------------------- chains and rows

  function Shift(chain: seq<Entry>): (r: seq<Entry>)
    ensures |r| == |chain|
    ensures forall i :: 0 <= i < |r| ==> r[i] == Entry(chain[i].a, chain[i].k + 1)
  {
    seq(|chain|, i requires 0 <= i < |chain| => Entry(chain[i].a, chain[i].k + 1))
  }

  function RowsFor(d: NodeId, chain: seq<Entry>): (r: seq<Row>)
    ensures |r| == |chain|
    ensures forall i :: 0 <= i < |r| ==> r[i] == Row(chain[i].a, d, chain[i].k)
  {
    seq(|chain|, i requires 0 <= i < |chain| => Row(chain[i].a, d, chain[i].k))
  }

  function SelfChain(d: NodeId, chain: seq<Entry>): seq<Entry> {
    [Entry(d, 0)] + Shift(chain)
  }

  lemma SelfChainDistinct(d: NodeId, chain: seq<Entry>)
    requires NoDup(chain)
    ensures NoDup(SelfChain(d, chain))
  {
  }

  lemma SelfChainMember(d: NodeId, chain: seq<Entry>, a: NodeId, k: nat)
    ensures Entry(a, k) in SelfChain(d, chain) <==> if k == 0 then a == d else Entry(a, k - 1) in chain
  {
  }

  lemma RowsForMember(d: NodeId, chain: seq<Entry>)
    ensures NoDup(chain) ==> NoDup(RowsFor(d, chain))
    ensures forall a: NodeId, x: NodeId, k: nat :: Row(a, x, k) in RowsFor(d, chain) <==> x == d && Entry(a, k) in chain
  {
    forall a: NodeId, x: NodeId, k: nat ensures Row(a, x, k) in RowsFor(d, chain) <==> x == d && Entry(a, k) in chain {
      if x == d && Entry(a, k) in chain {
        var i :| 0 <= i < |chain| && chain[i] == Entry(a, k);
        assert RowsFor(d, chain)[i] == Row(a, x, k);
      }
    }
  }

  /** A row of the parent, when there is one. */
  ghost predicate Onward(c: Closure, p: Option<NodeId>, a: NodeId, k: nat) {
    p.Some? && HasRow(c, a, p.value, k)
  }

  /** A new node gets its own row and its parent's rows one step further; they never collide. */
  lemma LeafRows(t: Nodes, c: Closure, id: NodeId, parent: Option<NodeId>, chain: seq<Entry>)
    requires id in t && ClosureKeys(t, c) && NoDup(chain)
    requires forall p :: p in c ==> p.0 != id && p.1 != id
    requires forall a: NodeId, k: nat :: Entry(a, k) in chain <==> Onward(c, parent, a, k)
    ensures Insertable(t, c, RowsFor(id, SelfChain(id, chain)))
  {
    var full := SelfChain(id, chain);
    var rows := RowsFor(id, full);
    forall i | 0 < i < |full| ensures full[i].a != id && full[i].a in t && Onward(c, parent, full[i].a, full[i].k - 1) {
      assert full[i] == Shift(chain)[i - 1] && chain[i - 1] in chain;
      assert Entry(chain[i - 1].a, chain[i - 1].k) in chain;
    }
    forall i, j | 0 <= i < j < |rows| ensures (rows[i].a, rows[i].d) != (rows[j].a, rows[j].d) {
      assert i > 0 ==> chain[i - 1] != chain[j - 1];
    }
  }

  // ---------------------------------------------------------------- what a rebuild reaches

  /** `d` is reached from `n` through rows that getChildren lists, that is, live ones. */
  ghost predicate LiveDown(t: Nodes, n: NodeId, d: NodeId, j: nat)
    decreases j
  {
    d in t &&
    if j == 0 then d == n
    else t[d].Live() && t[d].parent.Some? && LiveDown(t, n, t[d].parent.value, j - 1)
  }

  ghost predicate Reached(t: Nodes, n: NodeId, d: NodeId) {
    exists j: nat :: LiveDown(t, n, d, j)
  }

  lemma LiveDownIsUp(t: Nodes, n: NodeId, d: NodeId, j: nat)
    requires LiveDown(t, n, d, j)
    ensures IsUp(t, n, d, j)
    decreases j
  {
    if j > 0 {
      LiveDownIsUp(t, n, t[d].parent.value, j - 1);
    }
  }

  /** The node does not reach itself, so a queue that starts there drains. */
  ghost predicate LoopFree(t: Nodes, n: NodeId) {
    forall j: nat :: j > 0 ==> !LiveDown(t, n, n, j)
  }

  lemma {:induction false} DepthUnique(t: Nodes, n: NodeId, d: NodeId, i: nat, j: nat)
    requires LoopFree(t, n) && LiveDown(t, n, d, i) && LiveDown(t, n, d, j)
    ensures i == j
    decreases i + j
  {
    if i > 0 && j > 0 {
      DepthUnique(t, n, t[d].parent.value, i - 1, j - 1);
    }
  }

  // ---------------------------------------------------------------- the rows of a rebuild

  /** The table after the rows of the known descendants of `n` are deleted. */
  ghost function Cut(c: Closure, n: NodeId): Closure {
    map p | p in c && (n, p.1) !in c :: c[p]
  }

  /**
   * Seen from `d`, `j` live steps below `n`, the rebuild walks up to `n` and then follows the rows of the new parent.
   */
  ghost predicate WayAt(t: Nodes, c: Closure, p: Option<NodeId>, a: NodeId, d: NodeId, k: nat, j: nat) {
    if k <= j then IsUp(t, a, d, k) else Onward(c, p, a, k - j - 1)
  }

  /** The rebuild writes a row (a, d, k). */
  ghost predicate Way(t: Nodes, c: Closure, n: NodeId, p: Option<NodeId>, a: NodeId, d: NodeId, k: nat) {
    exists j: nat :: LiveDown(t, n, d, j) && WayAt(t, c, p, a, d, k, j)
  }

  /** The chain the queue carries for `d`: its rows but the first, one step nearer. */
  ghost predicate ChainFor(t: Nodes, c: Closure, n: NodeId, p: Option<NodeId>, d: NodeId, chain: seq<Entry>) {
    && NoDup(chain)
    && forall a: NodeId, k: nat :: Entry(a, k) in chain <==> Way(t, c, n, p, a, d, k + 1)
  }

  lemma SelfChainWay(t: Nodes, c: Closure, n: NodeId, p: Option<NodeId>, d: NodeId, chain: seq<Entry>)
    requires Reached(t, n, d) && ChainFor(t, c, n, p, d, chain)
    ensures NoDup(SelfChain(d, chain))
    ensures forall a: NodeId, k: nat :: Entry(a, k) in SelfChain(d, chain) <==> Way(t, c, n, p, a, d, k)
  {
    SelfChainDistinct(d, chain);
    var j: nat :| LiveDown(t, n, d, j);
    forall a: NodeId, k: nat ensures Entry(a, k) in SelfChain(d, chain) <==> Way(t, c, n, p, a, d, k) {
      SelfChainMember(d, chain, a, k);
      if k == 0 {
        assert WayAt(t, c, p, a, d, 0, j) <==> a == d;
        assert Way(t, c, n, p, a, d, 0) <==> a == d;
      } else {
        assert Way(t, c, n, p, a, d, (k - 1) + 1) <==> Entry(a, k - 1) in chain;
      }
    }
  }

  /** A live child sees what its parent sees, one step further. */
  lemma ChildWay(t: Nodes, c: Closure, n: NodeId, p: Option<NodeId>, d: NodeId, x: NodeId, a: NodeId, k: nat)
    requires LoopFree(t, n) && Reached(t, n, d) && x in t && t[x].Live() && t[x].parent == Some(d)
    ensures Way(t, c, n, p, a, x, k + 1) <==> Way(t, c, n, p, a, d, k)
  {
    var j: nat :| LiveDown(t, n, d, j);
    assert LiveDown(t, n, x, j + 1);
    assert WayAt(t, c, p, a, x, k + 1, j + 1) <==> WayAt(t, c, p, a, d, k, j);
    forall i: nat | LiveDown(t, n, x, i) ensures i == j + 1 {
      DepthUnique(t, n, x, i, j + 1);
    }
    forall i: nat | LiveDown(t, n, d, i) ensures i == j {
      DepthUnique(t, n, d, i, j);
    }
  }

  /** The moved node starts with the rows of its new parent. */
  lemma StartChain(t: Nodes, c: Closure, n: NodeId, p: Option<NodeId>, chain: seq<Entry>)
    requires n in t && LoopFree(t, n) && NoDup(chain)
    requires forall a: NodeId, k: nat :: Entry(a, k) in chain <==> Onward(c, p, a, k)
    ensures Reached(t, n, n) && ChainFor(t, c, n, p, n, chain)
  {
    assert LiveDown(t, n, n, 0);
    forall a: NodeId, k: nat ensures Onward(c, p, a, k) <==> Way(t, c, n, p, a, n, k + 1) {
      assert WayAt(t, c, p, a, n, k + 1, 0) <==> Onward(c, p, a, k);
    }
  }

  /** Two rows of the rebuild share a primary key, or one of them is still in the table. */
  ghost predicate RowsTaken(t: Nodes, c: Closure, n: NodeId, p: Option<NodeId>) {
    exists a: NodeId, d: NodeId, k: nat :: Way(t, c, n, p, a, d, k)
      && ((a, d) in c || exists i: nat :: i != k && Way(t, c, n, p, a, d, i))
  }

  // ---------------------------------------------------------------- the queue, step by step

  /** Every live child of a visited node is visited or queued, and every listed node but `n` has a visited parent. */
  ghost predicate Listed(t: Nodes, n: NodeId, visited: set<NodeId>, queue: seq<(NodeId, seq<Entry>)>) {
    && (n in visited || exists q :: q in queue && q.0 == n)
    && (forall x :: x in t && t[x].Live() && t[x].parent.Some? && t[x].parent.value in visited
          ==> x in visited || exists q :: q in queue && q.0 == x)
    && (forall x :: x in visited && x != n ==> x in t && t[x].parent.Some? && t[x].parent.value in visited)
    && (forall q :: q in queue && q.0 != n ==> q.0 in t && t[q.0].parent.Some? && t[q.0].parent.value in visited)
  }

  ghost predicate Waiting(t: Nodes, c: Closure, n: NodeId, p: Option<NodeId>, visited: set<NodeId>,
      q: (NodeId, seq<Entry>))
  {
    q.0 in t && q.0 !in visited && Reached(t, n, q.0) && ChainFor(t, c, n, p, q.0, q.1)
  }

  /** The queue of the rebuild loop: everything waiting is new, reachable and carries its chain. */
  ghost predicate QueueInv(t: Nodes, c: Closure, n: NodeId, p: Option<NodeId>, visited: set<NodeId>,
      queue: seq<(NodeId, seq<Entry>)>)
  {
    && (forall q :: q in queue ==> Waiting(t, c, n, p, visited, q))
    && (forall i, j :: 0 <= i < j < |queue| ==> queue[i].0 != queue[j].0)
    && Listed(t, n, visited, queue)
    && visited <= t.Keys
    && (forall v :: v in visited ==> Reached(t, n, v))
  }

  /** The collected rows are those of the visited nodes. */
  ghost predicate RowsInv(t: Nodes, c: Closure, n: NodeId, p: Option<NodeId>, visited: set<NodeId>, rows: seq<Row>) {
    && NoDup(rows)
    && forall a: NodeId, d: NodeId, k: nat :: Row(a, d, k) in rows <==> d in visited && Way(t, c, n, p, a, d, k)
  }

  lemma RowsIteration(t: Nodes, c: Closure, n: NodeId, p: Option<NodeId>, visited: set<NodeId>, rows: seq<Row>,
                      d: NodeId, chain: seq<Entry>)
    requires RowsInv(t, c, n, p, visited, rows) && d !in visited && Reached(t, n, d) && ChainFor(t, c, n, p, d, chain)
    ensures RowsInv(t, c, n, p, visited + {d}, rows + RowsFor(d, SelfChain(d, chain)))
  {
    var item := RowsFor(d, SelfChain(d, chain));
    SelfChainWay(t, c, n, p, d, chain);
    RowsForMember(d, SelfChain(d, chain));
    forall r | r in item ensures r !in rows {
      assert Row(r.a, r.d, r.k) in item;
    }
    NoDupAppend(rows, item);
  }

  lemma QueueIteration(t: Nodes, c: Closure, n: NodeId, p: Option<NodeId>, visited: set<NodeId>,
                       queue: seq<(NodeId, seq<Entry>)>, children: seq<NodeId>, queued: seq<(NodeId, seq<Entry>)>)
    requires LoopFree(t, n) && QueueInv(t, c, n, p, visited, queue) && queue != []
    requires NoDup(children) && forall x :: x in children <==> x in t && t[x].parent == Some(queue[0].0) && t[x].Live()
    requires queued
      == seq(|children|, i requires 0 <= i < |children| => (children[i], SelfChain(queue[0].0, queue[0].1)))
    ensures QueueInv(t, c, n, p, visited + {queue[0].0}, queue[1..] + queued)
  {
    assert queue[0] in queue;
    var (d, chain) := queue[0];
    assert Waiting(t, c, n, p, visited, queue[0]);
    var full := SelfChain(d, chain);
    SelfChainWay(t, c, n, p, d, chain);
    ChildrenOf(t, c, n, p, d, visited, queue, children, full);
    assert visited + {d} - {d} == visited;
    QueueStep(t, n, d, visited + {d}, queue, children, full, queue[1..] + queued);
    forall q | q in queue[1..] + queued ensures Waiting(t, c, n, p, visited + {d}, q) {
      if q in queue[1..] {
        var i :| 0 <= i < |queue| - 1 && queue[1..][i] == q;
        assert queue[i + 1] == q && q in queue;
        assert Waiting(t, c, n, p, visited, q);
      }
    }
  }

  /** The children of the node just taken off the queue are new, and their chains are right. */
  lemma ChildrenOf(t: Nodes, c: Closure, n: NodeId, p: Option<NodeId>, d: NodeId, visited: set<NodeId>,
                   waiting: seq<(NodeId, seq<Entry>)>, children: seq<NodeId>, chain: seq<Entry>)
    requires LoopFree(t, n) && Reached(t, n, d) && d !in visited
    requires Listed(t, n, visited, waiting)
    requires forall x :: x in children <==> x in t && t[x].parent == Some(d) && t[x].Live()
    requires NoDup(chain) && forall a: NodeId, k: nat :: Entry(a, k) in chain <==> Way(t, c, n, p, a, d, k)
    ensures forall x :: x in children ==>
      Reached(t, n, x) && ChainFor(t, c, n, p, x, chain) && x !in visited && x != d && x != n
    ensures forall x, q :: x in children && q in waiting ==> q.0 != x
  {
    var j: nat :| LiveDown(t, n, d, j);
    forall x | x in children
      ensures Reached(t, n, x) && ChainFor(t, c, n, p, x, chain) && x !in visited && x != d && x != n
      ensures forall q :: q in waiting ==> q.0 != x
    {
      assert LiveDown(t, n, x, j + 1);
      assert x != n;
      if x == d {
        DepthUnique(t, n, d, j, j + 1);
      }
      forall a: NodeId, k: nat ensures Entry(a, k) in chain <==> Way(t, c, n, p, a, x, k + 1) {
        ChildWay(t, c, n, p, d, x, a, k);
      }
    }
  }

  lemma QueueStep(t: Nodes, n: NodeId, d: NodeId, visited: set<NodeId>, waiting: seq<(NodeId, seq<Entry>)>,
                  children: seq<NodeId>, chain: seq<Entry>, queue: seq<(NodeId, seq<Entry>)>)
    requires waiting != [] && waiting[0].0 == d && d in visited && Reached(t, n, d)
    requires Listed(t, n, visited - {d}, waiting)
    requires NoDup(children) && forall x :: x in children <==> x in t && t[x].parent == Some(d) && t[x].Live()
    requires queue == waiting[1..] + seq(|children|, i requires 0 <= i < |children| => (children[i], chain))
    requires forall i, j :: 0 <= i < j < |waiting| ==> waiting[i].0 != waiting[j].0
    requires forall x, q :: x in children && q in waiting ==> q.0 != x
    ensures Listed(t, n, visited, queue)
    ensures forall i, j :: 0 <= i < j < |queue| ==> queue[i].0 != queue[j].0
    ensures forall q :: q in queue ==> q in waiting[1..] || (q.0 in children && q.1 == chain)
  {
    var added := seq(|children|, i requires 0 <= i < |children| => (children[i], chain));
    assert forall q :: q in added ==> q.0 in children && q.1 == chain;
    QueueOrder(waiting, children, chain, added);
    forall x | x in children ensures exists q :: q in queue && q.0 == x {
      var i :| 0 <= i < |children| && children[i] == x;
      assert added[i] in added && added[i] in queue;
    }
    forall q | q in waiting ensures q in queue || q.0 == d {
      if q != waiting[0] {
        assert q in waiting[1..];
      }
    }
    forall q | q in queue && q.0 != n ensures q.0 in t && t[q.0].parent.Some? && t[q.0].parent.value in visited {
      if q in waiting[1..] {
        assert q in waiting;
      }
    }
  }

  lemma QueueOrder(waiting: seq<(NodeId, seq<Entry>)>, children: seq<NodeId>, chain: seq<Entry>,
      added: seq<(NodeId, seq<Entry>)>)
    requires waiting != [] && NoDup(children)
    requires added == seq(|children|, i requires 0 <= i < |children| => (children[i], chain))
    requires forall i, j :: 0 <= i < j < |waiting| ==> waiting[i].0 != waiting[j].0
    requires forall x, q :: x in children && q in waiting ==> q.0 != x
    ensures var queue := waiting[1..] + added; forall i, j :: 0 <= i < j < |queue| ==> queue[i].0 != queue[j].0
  {
    var queue := waiting[1..] + added;
    forall i, j | 0 <= i < j < |queue| ensures queue[i].0 != queue[j].0 {
      var m := |waiting| - 1;
      if i < m {
        assert queue[i] == waiting[i + 1] && waiting[i + 1] in waiting;
      }
      if j >= m {
        assert queue[j] == added[j - m] && children[j - m] in children;
      }
    }
  }

  lemma AllReachedVisited(t: Nodes, n: NodeId, visited: set<NodeId>)
    requires Listed(t, n, visited, [])
    ensures forall d :: Reached(t, n, d) ==> d in visited
  {
    forall d | Reached(t, n, d) ensures d in visited {
      var j: nat :| LiveDown(t, n, d, j);
      ReachedVisited(t, n, visited, d, j);
    }
  }

  lemma {:induction false} ReachedVisited(t: Nodes, n: NodeId, visited: set<NodeId>, d: NodeId, j: nat)
    requires Listed(t, n, visited, []) && LiveDown(t, n, d, j)
    ensures d in visited
    decreases j
  {
    if j > 0 {
      ReachedVisited(t, n, visited, t[d].parent.value, j - 1);
    }
  }

  /** The batch goes in exactly when no primary key is taken. */
  lemma RebuildInsertable(t: Nodes, c: Closure, n: NodeId, p: Option<NodeId>, visited: set<NodeId>, rows: seq<Row>)
    requires ClosureKeys(t, c) && RowsInv(t, c, n, p, visited, rows) && forall d :: d in visited <==> Reached(t, n, d)
    ensures Insertable(t, c, rows) <==> !RowsTaken(t, c, n, p)
  {
    forall r | r in rows ensures r.a in t && r.d in t && Way(t, c, n, p, r.a, r.d, r.k) {
      assert Row(r.a, r.d, r.k) in rows;
      WayInTable(t, c, n, p, r.a, r.d, r.k);
    }
    if RowsTaken(t, c, n, p) {
      TakenNotInsertable(t, c, n, p, visited, rows);
    } else {
      forall i, j | 0 <= i < j < |rows| ensures (rows[i].a, rows[i].d) != (rows[j].a, rows[j].d) {
        assert rows[i] in rows && rows[j] in rows && rows[i] != rows[j];
      }
    }
  }

  lemma TakenNotInsertable(t: Nodes, c: Closure, n: NodeId, p: Option<NodeId>, visited: set<NodeId>, rows: seq<Row>)
    requires RowsInv(t, c, n, p, visited, rows) && (forall d :: d in visited <==> Reached(t, n, d))
      && RowsTaken(t, c, n, p)
    ensures !Insertable(t, c, rows)
  {
    var a: NodeId, d: NodeId, k: nat :| Way(t, c, n, p, a, d, k)
      && ((a, d) in c || exists i: nat :: i != k && Way(t, c, n, p, a, d, i));
    assert Row(a, d, k) in rows;
    if (a, d) !in c {
      var i: nat :| i != k && Way(t, c, n, p, a, d, i);
      assert Row(a, d, i) in rows;
      var x :| 0 <= x < |rows| && rows[x] == Row(a, d, k);
      var y :| 0 <= y < |rows| && rows[y] == Row(a, d, i);
      assert x < y || y < x;
    }
  }

  lemma WayInTable(t: Nodes, c: Closure, n: NodeId, p: Option<NodeId>, a: NodeId, d: NodeId, k: nat)
    requires ClosureKeys(t, c) && Way(t, c, n, p, a, d, k)
    ensures a in t && d in t
  {
    var j: nat :| LiveDown(t, n, d, j) && WayAt(t, c, p, a, d, k, j);
    if k <= j {
      UpInTable(t, a, d, k);
    }
  }

  // ---------------------------------------------------------------- when the queue never drains

  /** The move hangs the live node below itself along live rows. */
  ghost predicate NeverEnds(t: Nodes, n: NodeId, p: Option<NodeId>) {
    n in t && t[n].Live() && p.Some? && Reached(t, n, p.value)
  }

  /**
   * After the pointer change the moved node reaches itself exactly in those cases; only then does the queue not
   * drain. Nothing is asked of the table: it may hold pointer cycles already, and the guard may have passed on an
   * incomplete closure or an earlier state.
   */
  lemma LoopFreeIff(t: Nodes, n: NodeId, p: Option<NodeId>)
    requires n in t
    ensures LoopFree(Reparent(t, n, p), n) <==> !NeverEnds(t, n, p)
  {
    var u := Reparent(t, n, p);
    if NeverEnds(t, n, p) {
      var j := LeastDown(t, n, p.value);
      LiveDownMoved(t, n, p, p.value, j);
      assert LiveDown(u, n, n, j + 1);
    } else {
      forall j: nat | j > 0 ensures !LiveDown(u, n, n, j) {
        if LiveDown(u, n, n, j) {
          LiveDownBefore(t, n, p, p.value, j - 1);
        }
      }
    }
  }

  lemma LeastDown(t: Nodes, n: NodeId, d: NodeId) returns (j: nat)
    requires Reached(t, n, d)
    ensures LiveDown(t, n, d, j) && forall i: nat :: i < j ==> !LiveDown(t, n, d, i)
  {
    j :| LiveDown(t, n, d, j);
    while exists i: nat :: i < j && LiveDown(t, n, d, i)
      invariant LiveDown(t, n, d, j)
      decreases j
    {
      var i: nat :| i < j && LiveDown(t, n, d, i);
      j := i;
    }
  }

  /** A shortest live walk down from `n` does not come back to `n`, so the pointer change leaves it alone. */
  lemma {:induction false} LiveDownMoved(t: Nodes, n: NodeId, p: Option<NodeId>, d: NodeId, j: nat)
    requires n in t && LiveDown(t, n, d, j) && forall i: nat :: i < j ==> !LiveDown(t, n, d, i)
    ensures LiveDown(Reparent(t, n, p), n, d, j)
    decreases j
  {
    if j > 0 {
      assert !LiveDown(t, n, d, 0);
      var q := t[d].parent.value;
      forall i: nat | i < j - 1 ensures !LiveDown(t, n, q, i) {
        assert !LiveDown(t, n, d, i + 1);
      }
      LiveDownMoved(t, n, p, q, j - 1);
    }
  }

  /** What the queue reaches was reached from `n` before the move too. */
  lemma {:induction false} LiveDownBefore(t: Nodes, n: NodeId, p: Option<NodeId>, d: NodeId, j: nat)
    requires n in t && LiveDown(Reparent(t, n, p), n, d, j)
    ensures Reached(t, n, d)
    decreases j
  {
    if d == n {
      assert LiveDown(t, n, n, 0);
    } else {
      LiveDownBefore(t, n, p, t[d].parent.value, j - 1);
      var i: nat :| LiveDown(t, n, t[d].parent.value, i);
      assert LiveDown(t, n, d, i + 1);
    }
  }
}
