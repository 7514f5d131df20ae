/** Runs of commits, undos, expiry and purges: chain order, the constraints, and rows that block every undo. */
module JournalRuns {
  import opened Common
  import opened Tree
  import opened Collections
  import opened CollectionUndo
  import opened UndoConstraints
  import opened Journal

  // ---------------------------------------------------------------- chains

  /** Ids, expiry and chain numbers grow with the rows; of one subject only the oldest rows have expired. */
  ghost predicate ChainInv(j: JournalDb) {
    && KnownSubjects(j)
    && (forall i :: 0 <= i < |j.rows| ==>
          j.rows[i].id < j.nextId && j.rows[i].subject in j.colls && j.rows[i].chainSeq > 0
            && j.rows[i].expiresAt <= j.now + RETENTION)
    && (forall i, k :: 0 <= i < k < |j.rows| ==>
      j.rows[i].id < j.rows[k].id && j.rows[i].expiresAt <= j.rows[k].expiresAt)
    && (forall i, k :: 0 <= i < k < |j.rows| && j.rows[i].subject == j.rows[k].subject ==>
          j.rows[i].chainSeq < j.rows[k].chainSeq && !(j.rows[i].status == Applied && j.rows[k].status == Expired))
  }

  /** Within a subject, rows and chain numbers are in the same order. */
  lemma ChainOrder(j: JournalDb, i: nat, k: nat)
    requires ChainInv(j) && i < |j.rows| && k < |j.rows| && j.rows[i].subject == j.rows[k].subject
    ensures i < k <==> j.rows[i].chainSeq < j.rows[k].chainSeq
  {
  }

  lemma IndexOfRow(j: JournalDb, id: ActionId) returns (i: nat)
    requires ChainInv(j) && Lookup(j.rows, id).Some?
    ensures i < |j.rows| && Lookup(j.rows, id) == Some(j.rows[i]) && j.rows[i].id == id
  {
    i :| 0 <= i < |j.rows| && j.rows[i] == Lookup(j.rows, id).value;
  }

  lemma SameId(j: JournalDb, row: Row, k: nat)
    requires ChainInv(j) && k < |j.rows| && row in j.rows && row.id == j.rows[k].id
    ensures row == j.rows[k]
  {
  }

  lemma LookupAt(j: JournalDb, i: nat)
    requires ChainInv(j) && i < |j.rows|
    ensures Lookup(j.rows, j.rows[i].id) == Some(j.rows[i])
  {
  }

  /** The cascade list is in strictly falling chain order, whatever the run before it. */
  lemma {:induction false} ListedNewestFirst(j: JournalDb, s: Subject, from: nat, n: nat)
    requires ChainInv(j) && n <= |j.rows|
    ensures forall a, b :: 0 <= a < b < |AppliedFrom(j.rows[..n], s, from)| ==>
      AppliedFrom(j.rows[..n], s, from)[a].chainSeq > AppliedFrom(j.rows[..n], s, from)[b].chainSeq
  {
    if n > 0 {
      var rest := AppliedFrom(j.rows[..n - 1], s, from);
      ListedNewestFirst(j, s, from, n - 1);
      assert j.rows[..n][..n - 1] == j.rows[..n - 1] && j.rows[..n][n - 1] == j.rows[n - 1];
      forall b | 0 <= b < |rest| ensures j.rows[n - 1].subject == s ==> j.rows[n - 1].chainSeq > rest[b].chainSeq {
        assert rest[b] in j.rows[..n - 1];
        var k :| 0 <= k < n - 1 && j.rows[k] == rest[b];
        assert rest[b] in rest && j.rows[k].subject == s;
      }
    }
  }

  lemma LaterCountAt(j: JournalDb, i: nat)
    requires ChainInv(j) && i < |j.rows|
    ensures LaterCount(j.rows, j.rows[i].subject, j.rows[i].chainSeq) > 0
      <==> exists k :: i < k < |j.rows| && j.rows[k].subject == j.rows[i].subject && j.rows[k].status == Applied
  {
    var row := j.rows[i];
    LaterCountPositive(j.rows, row.subject, row.chainSeq);
    if LaterCount(j.rows, row.subject, row.chainSeq) > 0 {
      var later :| later in j.rows && AppliedOf(later, row.subject, row.chainSeq + 1);
      var k :| 0 <= k < |j.rows| && j.rows[k] == later;
      ChainOrder(j, i, k);
    }
    if k: nat :| i < k < |j.rows| && j.rows[k].subject == row.subject && j.rows[k].status == Applied {
      ChainOrder(j, i, k);
      assert j.rows[k] in j.rows && AppliedOf(j.rows[k], row.subject, row.chainSeq + 1);
    }
  }

  /** A plain undo of an applied row is refused for a cascade exactly when a later row of the subject is applied. */
  lemma PlainUndoRefusedIff(j: JournalDb, i: nat)
    requires ChainInv(j) && i < |j.rows| && j.rows[i].status == Applied
    ensures UndoTx(j, j.rows[i].id, false).0.CascadeRequired? <==>
      exists k :: i < k < |j.rows| && j.rows[k].subject == j.rows[i].subject && j.rows[k].status == Applied
  {
    LookupAt(j, i);
    LaterCountAt(j, i);
  }

  ghost function LaterApplied(j: JournalDb, i: nat, n: nat): set<int>
    requires i < n <= |j.rows|
  {
    set k | i < k < n && j.rows[k].subject == j.rows[i].subject && j.rows[k].status == Applied
  }

  lemma {:induction false} LaterCounted(j: JournalDb, i: nat, n: nat)
    requires ChainInv(j) && i < n <= |j.rows|
    ensures LaterCount(j.rows[..n], j.rows[i].subject, j.rows[i].chainSeq) == |LaterApplied(j, i, n)|
    decreases n
  {
    LaterCountNext(j, i, n);
    if n - 1 == i {
      NoneLater(j, i, i);
      assert LaterApplied(j, i, n) == {};
    } else {
      LaterCounted(j, i, n - 1);
      LaterAppliedNext(j, i, n);
    }
  }

  lemma LaterCountNext(j: JournalDb, i: nat, n: nat)
    requires ChainInv(j) && i < |j.rows| && 0 < n <= |j.rows|
    ensures var s, from := j.rows[i].subject, j.rows[i].chainSeq;
      LaterCount(j.rows[..n], s, from) == LaterCount(j.rows[..n - 1], s, from)
        + if n - 1 > i && j.rows[n - 1].subject == s && j.rows[n - 1].status == Applied then 1 else 0
  {
    assert j.rows[..n][..n - 1] == j.rows[..n - 1] && j.rows[..n][n - 1] == j.rows[n - 1];
    if j.rows[n - 1].subject == j.rows[i].subject {
      ChainOrder(j, i, n - 1);
    }
  }

  lemma LaterAppliedNext(j: JournalDb, i: nat, n: nat)
    requires i < n - 1 && n <= |j.rows|
    ensures |LaterApplied(j, i, n)| == |LaterApplied(j, i, n - 1)|
      + if j.rows[n - 1].subject == j.rows[i].subject && j.rows[n - 1].status == Applied then 1 else 0
  {
    var last := j.rows[n - 1];
    var before := LaterApplied(j, i, n - 1);
    assert LaterApplied(j, i, n)
      == if last.subject == j.rows[i].subject && last.status == Applied then before + {n - 1} else before;
    assert n - 1 !in before;
  }

  lemma {:induction false} NoneLater(j: JournalDb, i: nat, n: nat)
    requires ChainInv(j) && n <= i < |j.rows|
    ensures LaterCount(j.rows[..n], j.rows[i].subject, j.rows[i].chainSeq) == 0
  {
    if n > 0 {
      LaterCountNext(j, i, n);
      NoneLater(j, i, n - 1);
    }
  }

  /** The guards by the row alone: its status first, then how many later changes of the subject are applied. */
  lemma UndoGuards(j: JournalDb, i: nat, cascade: bool)
    requires ChainInv(j) && i < |j.rows|
    ensures var undo := UndoTx(j, j.rows[i].id, cascade);
      var later := |LaterApplied(j, i, |j.rows|)|;
      match j.rows[i].status
      case Undone => undo == (AlreadyUndone, j)
      case Expired => undo == (HasExpired, j)
      case Applied => if later > 0 && !cascade then undo == (CascadeRequired(later), j)
                      else (undo == (Threw, j) || undo.0.UndoDone?)
  {
    LookupAt(j, i);
    LaterCounted(j, i, |j.rows|);
    assert j.rows[..|j.rows|] == j.rows;
  }

  /** How many inverses the payload of an executed row holds. */
  ghost function Stored(row: Row): nat {
    if row.payload.Some? && row.payload.value.items != [] then |row.payload.value.items| else 1
  }

  ghost function StoredIn(targets: seq<Row>): nat {
    if targets == [] then 0 else Stored(targets[0]) + StoredIn(targets[1..])
  }

  lemma {:induction false} StoredAppend(a: seq<Row>, r: Row)
    ensures StoredIn(a + [r]) == StoredIn(a) + Stored(r)
  {
    if a == [] {
      assert a + [r] == [r];
    } else {
      StoredAppend(a[1..], r);
      assert (a + [r])[1..] == a[1..] + [r];
    }
  }

  /** An undo counts every inverse of its targets once, as undone or as skipped. */
  lemma {:induction false} ExecutedCounts(c: Coll, targets: seq<Row>, env: Env)
    requires ExecuteAll(c, targets, env).Reverted?
    ensures var done := ExecuteAll(c, targets, env); done.applied + done.skipped == StoredIn(targets)
  {
    if targets != [] {
      var init, last := targets[..|targets| - 1], targets[|targets| - 1];
      ExecutedCounts(c, init, env);
      StoredAppend(init, last);
      assert targets == init + [last];
    }
  }

  // ---------------------------------------------------------------- the constraints

  /** The unique index: of one owner no two active collections share a name. */
  ghost predicate NamesUnique(colls: map<Subject, Coll>) {
    forall s, t ::
      s in colls && t in colls && s != t && colls[s].owner == colls[t].owner && !colls[s].archived && !colls[t].archived
      ==> colls[s].name != colls[t].name
  }

  /** The foreign keys of items and exclusions; a purged node never comes back. */
  ghost predicate ItemsExist(colls: map<Subject, Coll>, nodes: set<NodeId>) {
    forall s :: s in colls ==> colls[s].items.Keys <= nodes && colls[s].exclusions <= nodes
  }

  ghost predicate DbOk(j: JournalDb) {
    NamesUnique(j.colls) && ItemsExist(j.colls, j.nodes) && j.nodes !! j.gone
  }

  lemma CollOkAt(j: JournalDb, s: Subject)
    requires DbOk(j) && s in j.colls
    ensures CollOk(j.colls[s], EnvOf(j, s))
  {
  }

  lemma ChangeKeepsOk(j: JournalDb, s: Subject, c: Coll)
    requires DbOk(j) && s in j.colls && CollOk(c, EnvOf(j, s)) && c.owner == j.colls[s].owner
    ensures DbOk(j.(colls := j.colls[s := c]))
  {
    var colls := j.colls[s := c];
    forall t | t in colls && t != s && colls[t].owner == c.owner && !colls[t].archived && !c.archived
      ensures colls[t].name != c.name {
      assert j.colls[t].name in TakenNames(j.colls, s);
    }
  }

  lemma {:induction false} ExecuteAllKeepsOk(c: Coll, targets: seq<Row>, env: Env)
    requires CollOk(c, env) && ExecuteAll(c, targets, env).Reverted?
    ensures CollOk(ExecuteAll(c, targets, env).state, env) && ExecuteAll(c, targets, env).state.owner == c.owner
  {
    if targets != [] {
      var init, last := targets[..|targets| - 1], targets[|targets| - 1];
      ExecuteAllKeepsOk(c, init, env);
      ExecuteKeepsOk(ExecuteAll(c, init, env).state, last.payload.value, env);
    }
  }

  lemma CommitKeepsOk(j: JournalDb, s: Subject, cmd: Command)
    requires DbOk(j) && s in j.colls
    ensures DbOk(CommitTx(j, s, cmd))
  {
    CollOkAt(j, s);
    if !CommandRefused(cmd, j.colls[s], EnvOf(j, s)) {
      DoKeepsOk(cmd, j.colls[s], EnvOf(j, s));
      ChangeKeepsOk(j, s, Do(cmd, j.colls[s]));
    }
  }

  lemma UndoKeepsOk(j: JournalDb, id: ActionId, cascade: bool)
    requires DbOk(j) && KnownSubjects(j)
    ensures DbOk(UndoTx(j, id, cascade).1)
  {
    if UndoTx(j, id, cascade).0.UndoDone? {
      var row := Lookup(j.rows, id).value;
      CollOkAt(j, row.subject);
      ExecuteAllKeepsOk(j.colls[row.subject], Targets(j.rows, row, cascade), EnvOf(j, row.subject));
      ChangeKeepsOk(j, row.subject, UndoTx(j, id, cascade).1.colls[row.subject]);
    }
  }

  // ---------------------------------------------------------------- steps and runs

  datatype Event =
    | Commit(s: Subject, cmd: Command)
    | UndoRow(id: ActionId, cascade: bool)
    | Expire(cutoff: Option<nat>, sqlite: bool)
    | Tick(seconds: nat)
    | NewNode(n: NodeId)
    | PurgeNode(n: NodeId)

  ghost predicate Next(j: JournalDb, e: Event, u: JournalDb) {
    && KnownSubjects(j)
    && match e
       case Commit(s, cmd) => s in j.colls && u == CommitTx(j, s, cmd)
       case UndoRow(id, cascade) => u == UndoTx(j, id, cascade).1
       case Expire(cutoff, sqlite) => ExpireStep(j, u, cutoff, sqlite)
       case Tick(seconds) => u == j.(now := j.now + seconds)
       case NewNode(n) => n !in j.nodes + j.gone && u == j.(nodes := j.nodes + {n})
       case PurgeNode(n) => n in j.nodes && PurgeNodeStep(j, u, n)
  }

  ghost predicate IsRun(states: seq<JournalDb>, events: seq<Event>) {
    && |states| == |events| + 1
    && states[0] == JournalDb([], states[0].colls, states[0].nodes, {}, 1, 0) && DbOk(states[0])
    && forall i :: 0 <= i < |events| ==> StepAt(states, events, i)
  }

  ghost predicate StepAt(states: seq<JournalDb>, events: seq<Event>, i: nat)
    requires |states| == |events| + 1 && i < |events|
  {
    Next(states[i], events[i], states[i + 1])
  }

  lemma CommitKeepsChain(j: JournalDb, s: Subject, cmd: Command)
    requires ChainInv(j) && s in j.colls
    ensures ChainInv(CommitTx(j, s, cmd)) && CommitTx(j, s, cmd).colls.Keys == j.colls.Keys
  {
  }

  lemma MarkKeepsChain(j: JournalDb, u: JournalDb, ids: seq<ActionId>)
    requires ChainInv(j) && u.rows == MarkUndone(j.rows, ids) && u.colls.Keys == j.colls.Keys && u.nextId == j.nextId
      && u.now == j.now
    ensures ChainInv(u)
  {
  }

  lemma StepKeepsChain(j: JournalDb, e: Event, u: JournalDb)
    requires ChainInv(j) && Next(j, e, u)
    ensures ChainInv(u) && u.colls.Keys == j.colls.Keys
  {
    match e
    case Commit(s, cmd) => CommitKeepsChain(j, s, cmd);
    case UndoRow(id, cascade) => UndoKeepsChain(j, u, id, cascade);
    case Expire(cutoff, sqlite) => ExpireKeepsChain(j, u, cutoff, sqlite);
    case _ =>
  }

  lemma UndoKeepsChain(j: JournalDb, u: JournalDb, id: ActionId, cascade: bool)
    requires ChainInv(j) && u == UndoTx(j, id, cascade).1
    ensures ChainInv(u) && u.colls.Keys == j.colls.Keys
  {
    if UndoTx(j, id, cascade).0.UndoDone? {
      MarkKeepsChain(j, u, UndoTx(j, id, cascade).0.undoneIds);
    }
  }

  lemma ExpireKeepsChain(j: JournalDb, u: JournalDb, cutoff: Option<nat>, sqlite: bool)
    requires ChainInv(j) && ExpireStep(j, u, cutoff, sqlite)
    ensures ChainInv(u)
  {
    forall i, k | 0 <= i < k < |u.rows| && u.rows[i].subject == u.rows[k].subject
      ensures u.rows[i].chainSeq < u.rows[k].chainSeq && !(u.rows[i].status == Applied && u.rows[k].status == Expired)
    {
      assert j.rows[i].chainSeq < j.rows[k].chainSeq;
      assert j.rows[i].expiresAt <= j.rows[k].expiresAt;
    }
  }

  lemma StepKeepsOk(j: JournalDb, e: Event, u: JournalDb)
    requires DbOk(j) && Next(j, e, u)
    ensures DbOk(u)
  {
    match e
    case Commit(s, cmd) => CommitKeepsOk(j, s, cmd);
    case UndoRow(id, cascade) => UndoKeepsOk(j, id, cascade);
    case _ =>
  }

  lemma RunStep(states: seq<JournalDb>, events: seq<Event>, m: nat)
    requires IsRun(states, events) && 0 < m < |states|
    ensures Next(states[m - 1], events[m - 1], states[m])
  {
    assert StepAt(states, events, m - 1);
  }

  /** In every run chain numbers of a subject grow strictly and expiry never overtakes an applied row. */
  lemma {:induction false} RunsKeepChain(states: seq<JournalDb>, events: seq<Event>, i: nat)
    requires IsRun(states, events) && i < |states|
    ensures ChainInv(states[i]) && states[i].colls.Keys == states[0].colls.Keys
    decreases i
  {
    if i > 0 {
      RunsKeepChain(states, events, i - 1);
      RunStep(states, events, i);
      StepKeepsChain(states[i - 1], events[i - 1], states[i]);
    }
  }

  /** In every run active names stay unique for each owner, and items and exclusions refer to nodes that exist. */
  lemma {:induction false} RunsKeepConstraints(states: seq<JournalDb>, events: seq<Event>, i: nat)
    requires IsRun(states, events) && i < |states|
    ensures DbOk(states[i])
    decreases i
  {
    if i > 0 {
      RunsKeepConstraints(states, events, i - 1);
      RunStep(states, events, i);
      StepKeepsOk(states[i - 1], events[i - 1], states[i]);
    }
  }

  /** Row `k` was undone or expired in `j` and is the very same row in `u`. */
  ghost predicate ClosedSince(j: JournalDb, u: JournalDb, k: nat) {
    k < |j.rows| && k < |u.rows| && j.rows[k].status != Applied && u.rows[k] == j.rows[k]
  }

  lemma StepKeepsClosedSince(j: JournalDb, v: JournalDb, e: Event, u: JournalDb, k: nat)
    requires ChainInv(v) && Next(v, e, u) && ClosedSince(j, v, k)
    ensures ClosedSince(j, u, k)
  {
  }

  /** A row once undone or expired keeps its status for the rest of the run, so no row is undone twice. */
  lemma {:induction false} ClosedForGood(states: seq<JournalDb>, events: seq<Event>, i: nat, m: nat, k: nat)
    requires IsRun(states, events) && i <= m < |states| && ClosedSince(states[i], states[i], k)
    ensures ClosedSince(states[i], states[m], k)
    decreases m
  {
    if i < m {
      ClosedForGood(states, events, i, m - 1, k);
      RunsKeepChain(states, events, m - 1);
      RunStep(states, events, m);
      StepKeepsClosedSince(states[i], states[m - 1], events[m - 1], states[m], k);
    }
  }

  /** Expiry as the scheduled job runs it, on a database that compares times with times. */
  ghost predicate OnSchedule(e: Event) {
    e.Expire? ==> e.cutoff.None? && !e.sqlite
  }

  ghost predicate OnScheduleFrom(events: seq<Event>, m: nat, n: nat) {
    forall i :: m <= i < n && i < |events| ==> OnSchedule(events[i])
  }

  lemma StepRetains(j: JournalDb, e: Event, u: JournalDb, k: nat)
    requires ChainInv(j) && Next(j, e, u) && OnSchedule(e) && k < |j.rows| && j.rows[k].status != Expired
    requires j.now <= j.rows[k].expiresAt
    ensures k < |u.rows| && u.rows[k].status != Expired
    ensures u.rows[k].payload == j.rows[k].payload && u.rows[k].expiresAt == j.rows[k].expiresAt && j.now <= u.now
  {
  }

  /** Until its time is up no scheduled expiry takes a row's inverse. */
  lemma {:induction false} RetainedUntilExpiry(states: seq<JournalDb>, events: seq<Event>, m: nat, n: nat, k: nat)
    requires IsRun(states, events) && m <= n < |states| && OnScheduleFrom(events, m, n)
    requires k < |states[m].rows| && states[m].rows[k].status != Expired
    requires states[n].now <= states[m].rows[k].expiresAt
    ensures k < |states[n].rows| && states[n].rows[k].status != Expired
    ensures states[n].rows[k].payload == states[m].rows[k].payload
    ensures states[n].rows[k].expiresAt == states[m].rows[k].expiresAt
    decreases n
  {
    if m < n {
      RunsKeepChain(states, events, n - 1);
      RunStep(states, events, n);
      TimeGrows(states[n - 1], events[n - 1], states[n]);
      RetainedUntilExpiry(states, events, m, n - 1, k);
      assert OnSchedule(events[n - 1]);
      StepRetains(states[n - 1], events[n - 1], states[n], k);
    }
  }

  lemma TimeGrows(j: JournalDb, e: Event, u: JournalDb)
    requires Next(j, e, u)
    ensures j.now <= u.now
  {
  }

  // ---------------------------------------------------------------- rows that block every undo

  lemma {:induction false} RefusedInList(c: Coll, targets: seq<Row>, env: Env, r: Row)
    requires r in targets && forall d :: ExecuteRow(d, r, env).Refused?
    ensures ExecuteAll(c, targets, env).Refused?
  {
    var init, last := targets[..|targets| - 1], targets[|targets| - 1];
    assert targets == init + [last];
    if r in init {
      RefusedInList(c, init, env, r);
    }
  }

  /** What a batch records that had nothing to do: an empty list, and an inverse no executor knows. */
  predicate Unexecutable(row: Row) {
    row.payload == Some(Payload(NoExecutor, [], false))
  }

  /** While such a row is applied, no change of the subject up to it can be undone, with or without cascade. */
  lemma UnexecutableBlocks(j: JournalDb, i: nat, k: nat, cascade: bool)
    requires ChainInv(j) && i <= k < |j.rows| && j.rows[i].subject == j.rows[k].subject
    requires j.rows[i].status == Applied && j.rows[k].status == Applied && Unexecutable(j.rows[k])
    ensures var later := LaterCount(j.rows, j.rows[i].subject, j.rows[i].chainSeq);
      UndoTx(j, j.rows[i].id, cascade) == (if later > 0 && !cascade then CascadeRequired(later) else Threw, j)
  {
    var row := j.rows[i];
    LookupAt(j, i);
    LaterCountAt(j, i);
    if cascade || LaterCount(j.rows, row.subject, row.chainSeq) == 0 {
      assert cascade ==> AppliedOf(j.rows[k], row.subject, row.chainSeq) && j.rows[k] in j.rows;
      RefusedInList(j.colls[row.subject], Targets(j.rows, row, cascade), EnvOf(j, row.subject), j.rows[k]);
    }
  }

  lemma UndoTargets(j: JournalDb, id: ActionId, cascade: bool, k: nat)
    requires ChainInv(j) && UndoTx(j, id, cascade).0.UndoDone? && k < |j.rows| && j.rows[k].status == Applied
      && Unexecutable(j.rows[k])
    ensures UndoTx(j, id, cascade).1.rows[k] == j.rows[k]
  {
    var row := Lookup(j.rows, id).value;
    var targets := Targets(j.rows, row, cascade);
    if j.rows[k].id in Ids(targets) {
      var m :| 0 <= m < |targets| && targets[m].id == j.rows[k].id;
      assert targets[m] in targets;
      SameId(j, targets[m], k);
      RefusedInList(j.colls[row.subject], targets, EnvOf(j, row.subject), j.rows[k]);
    }
  }

  /** Row `k` is still the unexecutable row `r`, or has expired. */
  ghost predicate StillThere(u: JournalDb, k: nat, r: Row) {
    k < |u.rows| && (u.rows[k] == r || u.rows[k].status == Expired)
  }

  /** Only expiry ends it. */
  lemma UnexecutableStays(j: JournalDb, e: Event, u: JournalDb, k: nat, r: Row)
    requires ChainInv(j) && Next(j, e, u) && r.status == Applied && Unexecutable(r) && StillThere(j, k, r)
    ensures StillThere(u, k, r)
    ensures j.rows[k] == r && u.rows[k] != r ==> e.Expire?
  {
    match e
    case UndoRow(id, cascade) =>
      if UndoTx(j, id, cascade).0.UndoDone? && j.rows[k] == r {
        UndoTargets(j, id, cascade, k);
      }
    case _ =>
  }

  lemma {:induction false} UnexecutableFrom(states: seq<JournalDb>, events: seq<Event>, m: nat, n: nat, k: nat)
    requires IsRun(states, events) && m <= n < |states| && k < |states[m].rows|
    requires states[m].rows[k].status == Applied && Unexecutable(states[m].rows[k])
    ensures StillThere(states[n], k, states[m].rows[k])
    decreases n
  {
    if m < n {
      UnexecutableFrom(states, events, m, n - 1, k);
      RunsKeepChain(states, events, n - 1);
      RunStep(states, events, n);
      UnexecutableStays(states[n - 1], events[n - 1], states[n], k, states[m].rows[k]);
    }
  }

  lemma NoOpBatchRecorded(j: JournalDb, s: Subject, nodes: seq<NodeId>, published: bool)
    requires s in j.colls && forall n :: n in nodes ==> n in j.colls[s].items
    ensures var u := CommitTx(j, s, AddItems(nodes, published)); var row := u.rows[|u.rows| - 1];
      |u.rows| == |j.rows| + 1 && row.subject == s && row.status == Applied && Unexecutable(row)
      && Do(AddItems(nodes, published), j.colls[s]) == j.colls[s]
  {
    var c := j.colls[s];
    NotStoredElements(c, nodes);
    HeadIn(NotStored(c, nodes));
    InsertedItems(c, nodes, published);
    assert Put(c.items, nodes, published) == c.items;
    assert DropItems([]) == [];
  }

  /**
   * A batch add of nodes that are all members already changes nothing but is recorded. In every later state of the
   * run, until that row expires, no change of the subject up to it can be undone, with or without cascade.
   */
  lemma NoOpBatchBlocksUndo(states: seq<JournalDb>, events: seq<Event>, m: nat, n: nat, i: nat, cascade: bool)
    requires IsRun(states, events) && m < n < |states| && events[m].Commit? && events[m].cmd.AddItems?
    requires events[m].s in states[m].colls && forall x :: x in events[m].cmd.nodes ==>
      x in states[m].colls[events[m].s].items
    requires var k := |states[m].rows|; i <= k < |states[n].rows| && states[n].rows[k].status != Expired
    requires states[n].rows[i].subject == events[m].s && states[n].rows[i].status == Applied
    ensures ChainInv(states[n])
    ensures var undo := UndoTx(states[n], states[n].rows[i].id, cascade);
      undo.1 == states[n] && (undo.0.Threw? || (!cascade && undo.0.CascadeRequired?))
  {
    var k := |states[m].rows|;
    RunStep(states, events, m + 1);
    NoOpBatchRecorded(states[m], events[m].s, events[m].cmd.nodes, events[m].cmd.published);
    UnexecutableFrom(states, events, m + 1, n, k);
    RunsKeepChain(states, events, n);
    UnexecutableBlocks(states[n], i, k, cascade);
  }

  /** When the executor refuses the newest change, no change of the subject can be undone in this state either. */
  lemma RefusedTipBlocks(u: JournalDb, s: Subject, i: nat, cascade: bool)
    requires ChainInv(u) && i < |u.rows| && s in u.colls
    requires var tip := u.rows[|u.rows| - 1];
      tip.subject == s && tip.status == Applied && ExecuteRow(u.colls[s], tip, EnvOf(u, s)).Refused?
    requires u.rows[i].subject == s && u.rows[i].status == Applied
    ensures UndoTx(u, u.rows[i].id, cascade)
      == (if i < |u.rows| - 1 && !cascade then CascadeRequired(LaterCount(u.rows, s, u.rows[i].chainSeq)) else Threw, u)
  {
    var top := |u.rows| - 1;
    var tip := u.rows[top];
    LookupAt(u, i);
    LaterCountPositive(u.rows, s, u.rows[i].chainSeq);
    if i < top {
      ChainOrder(u, i, top);
      assert tip in u.rows && AppliedOf(tip, s, u.rows[i].chainSeq + 1);
    } else {
      NothingAfterNewest(u, s);
    }
    RefusedHead(u.colls[s], [tip], EnvOf(u, s));
    if cascade {
      assert AppliedOf(tip, s, u.rows[i].chainSeq);
      RefusedHead(u.colls[s], AppliedFrom(u.rows, s, u.rows[i].chainSeq), EnvOf(u, s));
    }
  }

  lemma NothingAfterNewest(u: JournalDb, s: Subject)
    requires ChainInv(u) && u.rows != [] && u.rows[|u.rows| - 1].subject == s
    ensures LaterCount(u.rows, s, u.rows[|u.rows| - 1].chainSeq) == 0
  {
    var row := u.rows[|u.rows| - 1];
    LaterCountPositive(u.rows, s, row.chainSeq);
    forall later | later in u.rows ensures !AppliedOf(later, s, row.chainSeq + 1) {
      var k :| 0 <= k < |u.rows| && u.rows[k] == later;
    }
  }

  lemma {:induction false} RefusedHead(c: Coll, targets: seq<Row>, env: Env)
    requires targets != [] && ExecuteRow(c, targets[0], env).Refused?
    ensures ExecuteAll(c, targets, env).Refused?
  {
    if |targets| > 1 {
      RefusedHead(c, targets[..|targets| - 1], env);
    } else {
      assert ExecuteAll(c, targets[..0], env) == Reverted(c, 0, 0);
    }
  }
}
