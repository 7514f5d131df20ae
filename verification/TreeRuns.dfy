/** Whole runs of the namespace operations, and the operation orders that lose rows of either table. */
module TreeRuns {
  import opened Common
  import opened Tree
  import opened Ancestry
  import opened TreeSteps
  import opened Trash

  datatype TreeOp =
    | OpCreate(id: NodeId, parent: Option<NodeId>, name: string, kind: Kind)
    | OpRename(id: NodeId, name: string)
    | OpMove(id: NodeId, dest: Option<NodeId>)
    | OpDelete(id: NodeId)
    | OpTrash(id: NodeId, now: nat)
    | OpRestore(id: NodeId)
    | OpPurge(roots: set<NodeId>)

  /**
   * One committed operation: what the service and the constraints let through, and nothing they do not check. The
   * unique indexes are checked on the table after the statement.
   */
  ghost predicate TreeNext(s: TreeState, u: TreeState, op: TreeOp) {
    match op
    case OpCreate(id, parent, name, kind) =>
      CreateStep(s, u, id, parent, name, kind) && LiveSiblingsDistinct(u.nodes)
    case OpRename(id, name) =>
      id in s.nodes && u == s.(nodes := s.nodes[id := s.nodes[id].(name := name)]) && LiveSiblingsDistinct(u.nodes)
    case OpMove(n, p) => MoveAccepted(s, n, p) && MoveStep(s, u, n, p)
    case OpDelete(n) => DeleteStep(s, u, n)
    case OpTrash(id, now) => id in s.nodes && s.nodes[id].Live() && TrashStep(s, u, id, now)
    case OpRestore(id) =>
      id in s.nodes && !s.nodes[id].Live() && ChainEnds(s.nodes, id) && !SiblingClash(s.nodes, id)
      && RestoreStep(s, u, id)
    case OpPurge(roots) => PurgeStep(s, u, roots)
  }

  ghost predicate MoveAccepted(s: TreeState, n: NodeId, p: Option<NodeId>) {
    && n in s.nodes
    && (p.Some? ==> p.value in s.nodes && (n, p.value) !in s.closure)
    && LiveSiblingsDistinct(Reparent(s.nodes, n, p))
    && LoopFree(Reparent(s.nodes, n, p), n)
    && !RowsTaken(Reparent(s.nodes, n, p), Cut(s.closure, n), n, p)
  }

  // ---------------------------------------------------------------- every run

  lemma RenameKeepsStore(s: TreeState, u: TreeState, id: NodeId, name: string)
    requires StoreInv(s) && TreeNext(s, u, OpRename(id, name))
    ensures StoreInv(u)
  {
    SameParentsKeepTruth(s, u);
  }

  lemma StepKeepsStore(s: TreeState, u: TreeState, op: TreeOp)
    requires StoreInv(s) && TreeNext(s, u, op)
    ensures StoreInv(u)
  {
    match op
    case OpCreate(id, parent, name, kind) =>
      CreateKeepsTable(s, u, id, parent, name, kind);
      CreateKeepsTruth(s, u, id, parent, name, kind);
    case OpRename(id, name) => RenameKeepsStore(s, u, id, name);
    case OpMove(n, p) =>
      MoveKeepsTable(s, u, n, p);
      MoveKeepsTruth(s, u, n, p);
    case OpDelete(n) =>
      DeleteKeepsTable(s, u, n);
      DeleteKeepsTruth(s, u, n);
    case OpTrash(id, now) => TrashKeepsStore(s, u, id, now);
    case OpRestore(id) => RestoreKeepsStore(s, u, id);
    case OpPurge(roots) => PurgeKeepsStore(s, u, roots);
  }

  ghost predicate StepAt(states: seq<TreeState>, ops: seq<TreeOp>, i: nat)
    requires i < |ops| && i + 1 < |states|
  {
    TreeNext(states[i], states[i + 1], ops[i])
  }

  ghost predicate IsRun(states: seq<TreeState>, ops: seq<TreeOp>) {
    && |states| == |ops| + 1
    && states[0] == TreeState(map[], map[])
    && forall i: nat :: i < |ops| ==> StepAt(states, ops, i)
  }

  /** In every state of every run the constraints hold, and closure rows are true walks without gaps. */
  lemma {:induction false} RunsKeepStore(states: seq<TreeState>, ops: seq<TreeOp>, i: nat)
    requires IsRun(states, ops) && i < |states|
    ensures StoreInv(states[i])
    decreases i
  {
    if i == 0 {
      assert forall a: NodeId, d: NodeId, k: nat :: !HasRow(states[0].closure, a, d, k);
      assert forall d: NodeId :: NoGap(states[0].closure, d);
    } else {
      RunsKeepStore(states, ops, i - 1);
      assert StepAt(states, ops, i - 1);
      StepKeepsStore(states[i - 1], states[i], ops[i - 1]);
    }
  }

  // ---------------------------------------------------------------- careful runs

  ghost predicate LiveOrRoot(t: Nodes, p: Option<NodeId>) {
    p.Some? ==> p.value in t && t[p.value].Live()
  }

  /** New rows go under live parents; a moved subtree holds no trashed row and goes where its stamp fits. */
  ghost predicate Careful(s: TreeState, op: TreeOp) {
    match op
    case OpCreate(_, parent, _, _) => LiveOrRoot(s.nodes, parent)
    case OpMove(n, p) => CleanBelow(s.nodes, n) && StampFits(s.nodes, n, p)
    case _ => true
  }

  ghost predicate StampFits(t: Nodes, n: NodeId, p: Option<NodeId>) {
    p.Some? && p.value in t && !t[p.value].Live() ==> n in t && t[n].deletedAt == t[p.value].deletedAt
  }

  lemma ReparentClosedIff(t: Nodes, n: NodeId, p: Option<NodeId>)
    requires TrashClosed(t) && n in t && (p.Some? ==> p.value in t && p.value != n)
    ensures TrashClosed(Reparent(t, n, p)) <==> StampFits(t, n, p)
  {
    var u := Reparent(t, n, p);
    assert u[n].parent == p && u[n].deletedAt == t[n].deletedAt;
  }

  /** A move keeps all invariants exactly when nothing below is trashed and a trashed destination has the same stamp. */
  lemma MoveInvIff(s: TreeState, u: TreeState, n: NodeId, p: Option<NodeId>)
    requires TreeInv(s) && MoveAccepted(s, n, p) && MoveStep(s, u, n, p)
    ensures TreeInv(u) <==> CleanBelow(s.nodes, n) && StampFits(s.nodes, n, p)
  {
    MoveExactIff(s, u, n, p);
    ExactKeys(s.nodes, s.closure);
    MoveKeepsTable(s, u, n, p);
    ExactMember(s.nodes, s.closure, n, n);
    assert IsUp(s.nodes, n, n, 0);
    ReparentClosedIff(s.nodes, n, p);
  }

  lemma CreateInvIff(s: TreeState, u: TreeState, id: NodeId, parent: Option<NodeId>, name: string, kind: Kind)
    requires TreeInv(s) && CreateStep(s, u, id, parent, name, kind) && LiveSiblingsDistinct(u.nodes)
    ensures TreeInv(u) <==> LiveOrRoot(s.nodes, parent)
  {
    ExactKeys(s.nodes, s.closure);
    CreateKeepsTable(s, u, id, parent, name, kind);
    CreateKeepsExact(s, u, id, parent, name, kind);
    assert u.nodes[id].parent == parent && u.nodes[id].Live();
  }

  lemma DeleteKeepsInv(s: TreeState, u: TreeState, n: NodeId)
    requires TreeInv(s) && DeleteStep(s, u, n)
    ensures TreeInv(u)
  {
    ExactKeys(s.nodes, s.closure);
    DeleteKeepsTable(s, u, n);
    DeleteKeepsExact(s, u, n);
    FewerStayClosed(s.nodes, u.nodes);
  }

  lemma RenameKeepsInv(s: TreeState, u: TreeState, id: NodeId, name: string)
    requires TreeInv(s) && TreeNext(s, u, OpRename(id, name))
    ensures TreeInv(u)
  {
    ExactSameParents(s.nodes, u.nodes, s.closure);
  }

  lemma FewerStayClosed(t: Nodes, u: Nodes)
    requires TrashClosed(t) && forall x :: x in u ==> x in t && u[x] == t[x]
    ensures TrashClosed(u)
  {
  }

  lemma PurgeKeepsInv(s: TreeState, u: TreeState, roots: set<NodeId>)
    requires TreeInv(s) && PurgeStep(s, u, roots)
    ensures TreeInv(u)
  {
    PurgeKeepsExact(s, u, roots);
    FewerStayClosed(s.nodes, u.nodes);
    forall x | x in u.nodes && u.nodes[x].parent.Some? ensures u.nodes[x].parent.value in u.nodes {
      ParentStays(s, u, roots, x);
    }
  }

  /** From a complete closure and a closed trash, exactly the careful operations lead to such a state again. */
  lemma StepKeepsInvIff(s: TreeState, u: TreeState, op: TreeOp)
    requires TreeInv(s) && TreeNext(s, u, op)
    ensures TreeInv(u) <==> Careful(s, op)
  {
    match op
    case OpCreate(id, parent, name, kind) => CreateInvIff(s, u, id, parent, name, kind);
    case OpRename(id, name) => RenameKeepsInv(s, u, id, name);
    case OpMove(n, p) => MoveInvIff(s, u, n, p);
    case OpDelete(n) => DeleteKeepsInv(s, u, n);
    case OpTrash(id, now) => TrashKeepsInv(s, u, id, now);
    case OpRestore(id) => RestoreKeepsInv(s, u, id);
    case OpPurge(roots) => PurgeKeepsInv(s, u, roots);
  }

  ghost predicate CarefulAt(states: seq<TreeState>, ops: seq<TreeOp>, i: nat)
    requires i < |ops| && i < |states|
  {
    Careful(states[i], ops[i])
  }

  /** As long as every operation was careful the closure is exact, the pointers acyclic and the trash closed. */
  lemma {:induction false} RunsKeepTreeInv(states: seq<TreeState>, ops: seq<TreeOp>, i: nat)
    requires IsRun(states, ops) && i < |states| && forall j: nat :: j < i ==> CarefulAt(states, ops, j)
    ensures TreeInv(states[i]) && Acyclic(states[i].nodes)
    decreases i
  {
    if i == 0 {
      assert Exact(states[0].nodes, states[0].closure);
    } else {
      RunsKeepTreeInv(states, ops, i - 1);
      assert StepAt(states, ops, i - 1) && CarefulAt(states, ops, i - 1);
      StepKeepsInvIff(states[i - 1], states[i], ops[i - 1]);
    }
    ExactIsAcyclic(states[i].nodes, states[i].closure);
  }

  // ---------------------------------------------------------------- moves over a trashed row

  ghost function Dir(parent: Option<NodeId>, name: string, stamp: Option<nat>): Node {
    Node(parent, name, Directory, stamp)
  }

  /** /a at `up`, b under /a with the given stamp, and /c. */
  ghost function Small(up: Option<NodeId>, stamp: Option<nat>): Nodes {
    map[1 := Dir(up, "a", None), 2 := Dir(Some(1), "b", stamp), 3 := Dir(None, "c", None)]
  }

  ghost function SmallClosure(): Closure {
    map[(1, 1) := 0, (2, 2) := 0, (1, 2) := 1, (3, 3) := 0]
  }

  /** What the rebuild leaves after /a moved under /c while b was trashed: no row for b as descendant. */
  ghost function LostClosure(): Closure {
    map[(1, 1) := 0, (3, 1) := 1, (3, 3) := 0]
  }

  ghost function CycleClosure(): Closure {
    map[(1, 1) := 0, (3, 3) := 0]
  }

  /**
   * Trash /a/b and move /a under /c: the rebuild drops b's closure rows and nothing puts them back. The guard
   * then lets a move into the trashed b, which commits a pointer cycle; emptying the trash does not remove b.
   * If b is restored instead, the guard lets a move into b as well, and the queue of that rebuild never drains.
   */
  lemma DirtyMoveDefeatsTheGuard()
    returns (s0: TreeState, s1: TreeState, s2: TreeState, cycle: TreeState, s3: TreeState)
    ensures TreeInv(s0)
    ensures TreeNext(s0, s1, OpTrash(2, 7)) && TreeNext(s1, s2, OpMove(1, Some(3)))
    ensures TreeNext(s2, cycle, OpMove(1, Some(2))) && !Acyclic(cycle.nodes)
    ensures 2 in TrashRoots(s2.nodes, None)
         && forall u :: PurgeStep(s2, u, TrashRoots(s2.nodes, None)) ==> 2 in u.nodes
    ensures TreeNext(s2, s3, OpRestore(2)) && (1, 2) !in s3.closure && NeverEnds(s3.nodes, 1, Some(2))
  {
    s0 := TreeState(Small(None, None), SmallClosure());
    s1 := TreeState(Small(None, Some(7)), SmallClosure());
    s2 := TreeState(Small(Some(3), Some(7)), LostClosure());
    s3 := TreeState(Small(Some(3), None), LostClosure());
    cycle := TreeState(Small(Some(2), Some(7)), CycleClosure());
    SmallInv(s0);
    SmallTrash(s0, s1);
    SmallMove(s1, s2);
    SmallCycle(s2, cycle);
    SmallRestore(s2, s3);
    SmallStays(s2);
    SmallLoop(s3);
  }

  lemma SmallWalks(t: Nodes, up: Option<NodeId>)
    requires t.Keys == {1, 2, 3} && t[1].parent == up && up in {None, Some(3)}
    requires t[2].parent == Some(1) && t[3].parent == None
    ensures forall k: nat :: Up(t, 1, k) == if k == 0 then Some(1) else if k == 1 then up else None
    ensures forall k: nat :: Up(t, 2, k) == if k == 0 then Some(2) else Up(t, 1, k - 1)
    ensures forall k: nat :: Up(t, 3, k) == if k == 0 then Some(3) else None
    ensures forall n: NodeId, k: nat :: n !in t ==> Up(t, n, k) == None
  {
  }

  lemma SmallInv(s: TreeState)
    requires s == TreeState(Small(None, None), SmallClosure())
    ensures TreeInv(s)
  {
    SmallExact(s.nodes);
  }

  lemma SmallTrash(s: TreeState, u: TreeState)
    requires s == TreeState(Small(None, None), SmallClosure()) && u == TreeState(Small(None, Some(7)), SmallClosure())
    ensures TreeNext(s, u, OpTrash(2, 7))
  {
    var t := s.nodes;
    assert (2, 1) !in s.closure && (2, 3) !in s.closure && t[2].Live();
    assert u.nodes.Keys == t.Keys && u.nodes[1] == t[1] && u.nodes[3] == t[3];
    assert u.nodes[2] == t[2].(deletedAt := Some(7));
    assert TrashStep(s, u, 2, 7);
  }

  lemma SmallExact(t: Nodes)
    requires t.Keys == {1, 2, 3} && t[1].parent == None && t[2].parent == Some(1) && t[3].parent == None
    ensures Exact(t, SmallClosure())
  {
    forall a: NodeId, d: NodeId, k: nat ensures HasRow(SmallClosure(), a, d, k) <==> IsUp(t, a, d, k) {
      SmallUps(t, a, d, k);
      SmallRows(a, d, k);
    }
  }

  lemma SmallRows(a: NodeId, d: NodeId, k: nat)
    ensures HasRow(SmallClosure(), a, d, k) <==> d in {1, 2, 3} && if k == 0 then a == d else d == 2 && k == 1 && a == 1
  {
  }

  lemma SmallUps(t: Nodes, a: NodeId, d: NodeId, k: nat)
    requires t.Keys == {1, 2, 3} && t[1].parent == None && t[2].parent == Some(1) && t[3].parent == None
    ensures IsUp(t, a, d, k) <==> d in t && if k == 0 then a == d else d == 2 && k == 1 && a == 1
  {
    SmallWalks(t, None);
  }

  /** What the queue reaches from /a while b is trashed is /a alone. */
  lemma SmallReach(t: Nodes)
    requires t.Keys == {1, 2, 3} && !t[2].Live() && t[2].parent == Some(1) && t[3].parent == None
    ensures LiveDown(t, 1, 1, 0) && forall d: NodeId, j: nat :: LiveDown(t, 1, d, j) ==>
      d == 1 && (t[1].parent != Some(1) ==> j == 0)
  {
    forall d: NodeId, j: nat | LiveDown(t, 1, d, j) ensures d == 1 && (t[1].parent != Some(1) ==> j == 0) {
      SmallReachAt(t, d, j);
    }
  }

  lemma {:induction false} SmallReachAt(t: Nodes, d: NodeId, j: nat)
    requires t.Keys == {1, 2, 3} && !t[2].Live() && t[2].parent == Some(1) && t[3].parent == None
    requires LiveDown(t, 1, d, j)
    ensures d == 1 && (t[1].parent != Some(1) ==> j == 0)
    decreases j
  {
    if j > 0 {
      SmallReachAt(t, t[d].parent.value, j - 1);
    }
  }

  lemma SmallMove(s: TreeState, u: TreeState)
    requires s == TreeState(Small(None, Some(7)), SmallClosure())
    requires u == TreeState(Small(Some(3), Some(7)), LostClosure())
    ensures TreeNext(s, u, OpMove(1, Some(3)))
  {
    assert s.nodes[3].name != "a" && u.nodes == Reparent(s.nodes, 1, Some(3));
    SmallCut(s.closure);
    SmallRebuild(s, u, 3);
  }

  lemma SmallCycle(s: TreeState, u: TreeState)
    requires s == TreeState(Small(Some(3), Some(7)), LostClosure())
    requires u == TreeState(Small(Some(2), Some(7)), CycleClosure())
    ensures TreeNext(s, u, OpMove(1, Some(2))) && !Acyclic(u.nodes)
  {
    assert s.nodes[3].name != "a" && u.nodes == Reparent(s.nodes, 1, Some(2));
    SmallCut(s.closure);
    SmallRebuild(s, u, 2);
    assert Up(u.nodes, 1, 2) == Up(u.nodes, 2, 1) == Up(u.nodes, 1, 0);
    assert IsUp(u.nodes, 1, 1, 2);
  }

  lemma SmallCut(c: Closure)
    requires c == SmallClosure() || c == LostClosure()
    ensures Cut(c, 1) == map[(3, 3) := 0]
  {
  }

  /** A move of /a over the trashed b writes the own row of /a and one row for each row of its new parent. */
  lemma SmallRebuild(s: TreeState, u: TreeState, p: NodeId)
    requires s.nodes.Keys == {1, 2, 3} && p in {2, 3} && (1, p) !in s.closure && s.nodes[1].name == "a"
    requires u.nodes == Reparent(s.nodes, 1, Some(p)) && s.nodes[3].name != "a"
    requires !s.nodes[2].Live() && s.nodes[2].parent == Some(1) && s.nodes[3].parent == None && s.nodes[1].Live()
    requires Cut(s.closure, 1) == map[(3, 3) := 0]
    requires u.closure == if p == 3 then LostClosure() else CycleClosure()
    ensures TreeNext(s, u, OpMove(1, Some(p)))
  {
    var cut := Cut(s.closure, 1);
    SmallReach(u.nodes);
    forall a: NodeId, d: NodeId, k: nat
      ensures Way(u.nodes, cut, 1, Some(p), a, d, k)
        <==> d == 1 && if k == 0 then a == 1 else p == 3 && a == 3 && k == 1
    {
      assert WayAt(u.nodes, cut, Some(p), a, 1, k, 0) <==> if k == 0 then a == 1 else p == 3 && a == 3 && k == 1;
    }
  }

  lemma SmallRestore(s: TreeState, u: TreeState)
    requires s == TreeState(Small(Some(3), Some(7)), LostClosure())
    requires u == TreeState(Small(Some(3), None), LostClosure())
    ensures TreeNext(s, u, OpRestore(2))
  {
    assert TrashedWalk(s.nodes, 2, 2, 0) && IsTrashRoot(s.nodes, 2);
    forall x: NodeId, y: NodeId, k: nat | TrashedWalk(s.nodes, y, x, k) ensures x == 2 && y == 2 {
      assert k > 0 ==> !TrashedWalk(s.nodes, y, 1, k - 1);
    }
    assert LiveNames(s.nodes, Some(1)) == {};
    assert FinalName(s.nodes, 2) == "b";
  }

  lemma SmallStays(s: TreeState)
    requires s == TreeState(Small(Some(3), Some(7)), LostClosure())
    ensures 2 in TrashRoots(s.nodes, None)
    ensures forall u :: PurgeStep(s, u, TrashRoots(s.nodes, None)) ==> 2 in u.nodes
  {
    SmallRoots(s.nodes);
    forall u | PurgeStep(s, u, {2}) ensures 2 in u.nodes {
      SmallPurge(s, u);
    }
  }

  lemma SmallRoots(t: Nodes)
    requires t.Keys == {1, 2, 3} && t[1].Live() && t[3].Live() && t[2].deletedAt == Some(7) && t[2].parent == Some(1)
    ensures TrashRoots(t, None) == {2}
  {
  }

  lemma SmallPurge(s: TreeState, u: TreeState)
    requires PurgeStep(s, u, {2}) && 2 in s.nodes && forall d :: (2, d) !in s.closure
    ensures 2 in u.nodes
  {
  }

  lemma SmallLoop(s: TreeState)
    requires s == TreeState(Small(Some(3), None), LostClosure())
    ensures NeverEnds(s.nodes, 1, Some(2)) && (1, 2) !in s.closure
  {
    assert LiveDown(s.nodes, 1, 1, 0) && LiveDown(s.nodes, 1, 2, 1);
  }

  /**
   * Trash /a after the guard let it into the trashed b: now both are trashed, each below the other. The cursor walk of
   * a restore ends for neither, and emptying the trash finds no topmost trashed row.
   */
  lemma TrashedCycleIsStuck() returns (s: TreeState, cycle: TreeState, u: TreeState)
    ensures s == TreeState(Small(Some(3), Some(7)), LostClosure())
    ensures TreeNext(s, cycle, OpMove(1, Some(2))) && TreeNext(cycle, u, OpTrash(1, 9))
    ensures 1 in u.nodes && !u.nodes[1].Live() && !ChainEnds(u.nodes, 1)
    ensures 2 in u.nodes && !u.nodes[2].Live() && !ChainEnds(u.nodes, 2)
    ensures TrashRoots(u.nodes, None) == {}
  {
    s := TreeState(Small(Some(3), Some(7)), LostClosure());
    cycle := TreeState(Small(Some(2), Some(7)), CycleClosure());
    u := TreeState(cycle.nodes[1 := Dir(Some(2), "a", Some(9))], CycleClosure());
    SmallCycle(s, cycle);
    CycleTrashed(cycle, u);
    var t := u.nodes;
    assert TrashedWalk(t, 1, 1, 0) && TrashedWalk(t, 1, 2, 1) && TrashedWalk(t, 1, 1, 2);
    assert OnTrashedLoop(t, 1) && LoopAbove(t, 1) && LoopAbove(t, 2);
    ChainEndsIff(t, 1);
    ChainEndsIff(t, 2);
    CycleHasNoTop(t);
  }

  lemma CycleTrashed(s: TreeState, u: TreeState)
    requires s == TreeState(Small(Some(2), Some(7)), CycleClosure())
    requires u == TreeState(s.nodes[1 := Dir(Some(2), "a", Some(9))], CycleClosure())
    ensures TreeNext(s, u, OpTrash(1, 9))
  {
  }

  lemma CycleHasNoTop(t: Nodes)
    requires t.Keys == {1, 2, 3} && t[3].Live() && !t[1].Live() && !t[2].Live()
    requires t[1].parent == Some(2) && t[2].parent == Some(1)
    ensures TrashRoots(t, None) == {}
  {
  }

  // ---------------------------------------------------------------- a guard read too early

  /** /a at `up`, its rows, and /c. */
  ghost function Two(up: Option<NodeId>): Nodes {
    map[1 := Dir(up, "a", None), 3 := Dir(None, "c", None)]
  }

  /**
   * The guard of a move is read before the transaction. Two moves at once, /a under /c and /c under /a, both pass it in
   * a state where everything is in order; when one has committed, the rebuild of the other never ends.
   */
  lemma RacingMovesNeverEnd() returns (s: TreeState, u: TreeState)
    ensures TreeInv(s) && (1, 3) !in s.closure && (3, 1) !in s.closure
    ensures TreeNext(s, u, OpMove(1, Some(3))) && TreeInv(u)
    ensures NeverEnds(u.nodes, 3, Some(1)) && !LoopFree(Reparent(u.nodes, 3, Some(1)), 3)
  {
    s := TreeState(Two(None), map[(1, 1) := 0, (3, 3) := 0]);
    u := TreeState(Two(Some(3)), LostClosure());
    TwoInv(s);
    TwoMoved(s, u);
    MoveInvIff(s, u, 1, Some(3));
    TwoClean(s.nodes);
    assert LiveDown(u.nodes, 3, 3, 0) && LiveDown(u.nodes, 3, 1, 1);
    LoopFreeIff(u.nodes, 3, Some(1));
  }

  lemma TwoInv(s: TreeState)
    requires s == TreeState(Two(None), map[(1, 1) := 0, (3, 3) := 0])
    ensures TreeInv(s)
  {
    forall a: NodeId, d: NodeId, k: nat ensures HasRow(s.closure, a, d, k) <==> IsUp(s.nodes, a, d, k) {
      assert Up(s.nodes, d, k) == if k == 0 && d in {1, 3} then Some(d) else None;
    }
  }

  lemma TwoClean(t: Nodes)
    requires t == Two(None)
    ensures CleanBelow(t, 1) && StampFits(t, 1, Some(3))
  {
  }

  lemma TwoMoved(s: TreeState, u: TreeState)
    requires s == TreeState(Two(None), map[(1, 1) := 0, (3, 3) := 0])
    requires u == TreeState(Two(Some(3)), LostClosure())
    ensures TreeNext(s, u, OpMove(1, Some(3)))
  {
    assert u.nodes == Reparent(s.nodes, 1, Some(3));
    TwoCut(s.closure);
    TwoReach(u.nodes);
    TwoWay(u.nodes, Cut(s.closure, 1));
    assert !RowsTaken(u.nodes, Cut(s.closure, 1), 1, Some(3));
    assert MoveStep(s, u, 1, Some(3));
  }

  lemma TwoCut(c: Closure)
    requires c == map[(1, 1) := 0, (3, 3) := 0]
    ensures Cut(c, 1) == map[(3, 3) := 0]
  {
  }

  lemma TwoWay(t: Nodes, cut: Closure)
    requires cut == map[(3, 3) := 0] && 1 in t
    requires LiveDown(t, 1, 1, 0) && forall d: NodeId, j: nat :: LiveDown(t, 1, d, j) ==> d == 1 && j == 0
    ensures forall a: NodeId, d: NodeId, k: nat ::
      Way(t, cut, 1, Some(3), a, d, k) <==> d == 1 && if k == 0 then a == 1 else a == 3 && k == 1
  {
    forall a: NodeId, d: NodeId, k: nat
      ensures Way(t, cut, 1, Some(3), a, d, k) <==> d == 1 && if k == 0 then a == 1 else a == 3 && k == 1
    {
      assert WayAt(t, cut, Some(3), a, 1, k, 0) <==> if k == 0 then a == 1 else a == 3 && k == 1;
    }
  }

  lemma TwoReach(t: Nodes)
    requires t == Two(Some(3))
    ensures LiveDown(t, 1, 1, 0) && forall d: NodeId, j: nat :: LiveDown(t, 1, d, j) ==> d == 1 && j == 0
  {
  }

  // ---------------------------------------------------------------- rows put under a trashed one

  /** /a with the given stamp, x below it. */
  ghost function Pair(stamp: Option<nat>, below: Option<nat>): TreeState {
    TreeState(map[1 := Dir(None, "a", stamp), 2 := Node(Some(1), "x", File, below)],
      map[(1, 1) := 0, (2, 2) := 0, (1, 2) := 1])
  }

  /**
   * Trash /a and create x under it, which nothing refuses: emptying the trash takes the live x. If x goes to the
   * trash later than /a, a purge of what was trashed before day 8 takes x, which was trashed on day 9.
   */
  lemma CreatedUnderTrashIsLost()
    returns (s0: TreeState, s1: TreeState, s2: TreeState, s3: TreeState, empty: TreeState)
    ensures TreeInv(s0) && TreeNext(s0, s1, OpTrash(1, 7)) && TreeNext(s1, s2, OpCreate(2, Some(1), "x", File))
    ensures 2 in s2.nodes && s2.nodes[2].Live() && 2 !in empty.nodes
    ensures TreeNext(s2, empty, OpPurge(TrashRoots(s2.nodes, None)))
    ensures TreeNext(s2, s3, OpTrash(2, 9)) && !Expired(s3.nodes, 2, Some(8))
    ensures TreeNext(s3, empty, OpPurge(TrashRoots(s3.nodes, Some(8))))
  {
    s0 := TreeState(map[1 := Dir(None, "a", None)], map[(1, 1) := 0]);
    s1 := TreeState(map[1 := Dir(None, "a", Some(7))], map[(1, 1) := 0]);
    s2 := Pair(Some(7), None);
    s3 := Pair(Some(7), Some(9));
    empty := TreeState(map[], map[]);
    OneInv(s0, s1);
    PairCreated(s1, s2);
    PairTrashed(s2, s3);
    PairPurged(s2, empty, None);
    PairPurged(s3, empty, Some(8));
  }

  lemma OneInv(s: TreeState, u: TreeState)
    requires s == TreeState(map[1 := Dir(None, "a", None)], map[(1, 1) := 0])
    requires u == TreeState(map[1 := Dir(None, "a", Some(7))], map[(1, 1) := 0])
    ensures TreeInv(s) && TreeNext(s, u, OpTrash(1, 7))
  {
    assert forall k: nat :: Up(s.nodes, 1, k) == if k == 0 then Some(1) else None;
    assert Exact(s.nodes, s.closure);
  }

  lemma PairCreated(s: TreeState, u: TreeState)
    requires s == TreeState(map[1 := Dir(None, "a", Some(7))], map[(1, 1) := 0]) && u == Pair(Some(7), None)
    ensures TreeNext(s, u, OpCreate(2, Some(1), "x", File))
  {
  }

  lemma PairTrashed(s: TreeState, u: TreeState)
    requires s == Pair(Some(7), None) && u == Pair(Some(7), Some(9))
    ensures TreeNext(s, u, OpTrash(2, 9))
  {
  }

  lemma PairPurged(s: TreeState, u: TreeState, cutoff: Option<int>)
    requires s.nodes.Keys == {1, 2} && s.closure == map[(1, 1) := 0, (2, 2) := 0, (1, 2) := 1]
    requires s.nodes[1].parent == None && s.nodes[1].deletedAt == Some(7) && s.nodes[2].parent == Some(1)
    requires cutoff in {None, Some(8)} && u == TreeState(map[], map[])
    ensures TreeNext(s, u, OpPurge(TrashRoots(s.nodes, cutoff)))
  {
    assert TrashRoots(s.nodes, cutoff) == {1};
    assert IsUp(s.nodes, 1, 1, 0) && IsUp(s.nodes, 2, 2, 0);
    assert Removed(s, 1, 1) && Removed(s, 1, 2);
    assert Gone(s, {1}, 1) && Gone(s, {1}, 2);
  }

  // ---------------------------------------------------------------- two siblings of one name

  /** /d with two rows named x below it. */
  ghost function Twins(top: Option<nat>, first: Option<nat>, second: Option<nat>): Nodes {
    map[1 := Dir(None, "d", top), 2 := Node(Some(1), "x", File, first), 3 := Node(Some(1), "x", File, second)]
  }

  ghost function TwinsClosure(): Closure {
    map[(1, 1) := 0, (2, 2) := 0, (3, 3) := 0, (1, 2) := 1, (1, 3) := 1]
  }

  /** After /d/x went to the trash and a new x was made, trash /d as well: the restore of /d is refused. */
  lemma TwinsCannotBeRestored() returns (s: TreeState, u: TreeState)
    ensures TreeInv(s) && TreeNext(s, u, OpTrash(1, 7)) && TreeInv(u) && SiblingClash(u.nodes, 1)
  {
    s := TreeState(Twins(None, Some(5), None), TwinsClosure());
    u := TreeState(Twins(Some(7), Some(7), Some(7)), TwinsClosure());
    TwinsExact(s.nodes);
    TwinsTable(s.nodes);
    TwinsTrash(s, u);
    TrashKeepsInv(s, u, 1, 7);
    TwinsClash(u.nodes);
  }

  lemma TwinsExact(t: Nodes)
    requires t.Keys == {1, 2, 3} && t[1].parent == None && t[2].parent == Some(1) && t[3].parent == Some(1)
    ensures Exact(t, TwinsClosure())
  {
    forall a: NodeId, d: NodeId, k: nat ensures HasRow(TwinsClosure(), a, d, k) <==> IsUp(t, a, d, k) {
      TwinsUps(t, a, d, k);
      TwinsRows(a, d, k);
    }
  }

  lemma TwinsUps(t: Nodes, a: NodeId, d: NodeId, k: nat)
    requires t.Keys == {1, 2, 3} && t[1].parent == None && t[2].parent == Some(1) && t[3].parent == Some(1)
    ensures IsUp(t, a, d, k) <==> d in t && if k == 0 then a == d else d != 1 && k == 1 && a == 1
  {
    assert Up(t, 1, k) == if k == 0 then Some(1) else None;
    assert k > 0 && d in {2, 3} ==> Up(t, d, k) == Up(t, 1, k - 1);
  }

  lemma TwinsRows(a: NodeId, d: NodeId, k: nat)
    ensures HasRow(TwinsClosure(), a, d, k) <==> d in {1, 2, 3} && if k == 0 then a == d else d != 1 && k == 1 && a == 1
  {
  }

  lemma TwinsTable(t: Nodes)
    requires t.Keys == {1, 2, 3} && t[1].parent == None && t[2].parent == Some(1) && t[3].parent == Some(1)
    requires t[1].Live() && !t[2].Live() && t[3].Live()
    ensures ParentsExist(t) && LiveSiblingsDistinct(t) && TrashClosed(t)
  {
  }

  lemma TwinsTrash(s: TreeState, u: TreeState)
    requires s == TreeState(Twins(None, Some(5), None), TwinsClosure())
    requires u == TreeState(Twins(Some(7), Some(7), Some(7)), TwinsClosure())
    ensures TreeNext(s, u, OpTrash(1, 7))
  {
    assert (1, 1) in s.closure && (1, 2) in s.closure && (1, 3) in s.closure;
  }

  lemma TwinsClash(t: Nodes)
    requires t.Keys == {1, 2, 3} && !t[1].Live() && !t[2].Live() && !t[3].Live()
    requires t[2].parent == Some(1) && t[3].parent == Some(1) && t[2].name == t[3].name
    ensures SiblingClash(t, 1)
  {
    assert TrashedWalk(t, 1, 1, 0);
    assert TrashedWalk(t, 1, 2, 1) && TrashedWalk(t, 1, 3, 1);
    assert InRestoreSet(t, 1, 2) && InRestoreSet(t, 1, 3);
  }
}
