/** Undo over whole runs: the state of a subject is the replay of its changes not undone, less the purged nodes. */
module JournalReplay {
  import opened Common
  import opened Tree
  import opened Collections
  import opened CollectionUndo
  import opened UndoConstraints
  import opened Journal
  import opened JournalRuns

  // ---------------------------------------------------------------- replay

  /** Commands of the rows not undone, oldest first. */
  ghost function LiveCommands(rows: seq<Row>, s: Subject): seq<Command> {
    if rows == [] then []
    else
      var rest := LiveCommands(rows[..|rows| - 1], s);
      var last := rows[|rows| - 1];
      if last.subject == s && last.status != Undone then rest + [last.command] else rest
  }

  ghost function Replay(c: Coll, cmds: seq<Command>): Coll {
    if cmds == [] then c else Do(cmds[|cmds| - 1], Replay(c, cmds[..|cmds| - 1]))
  }

  /** The collection a change was made to, recomputed from the rows before it as if no node had been purged. */
  ghost function Before(base: map<Subject, Coll>, rows: seq<Row>, k: nat): Coll
    requires k < |rows| && rows[k].subject in base
  {
    Replay(base[rows[k].subject], LiveCommands(rows[..k], rows[k].subject))
  }

  /** The row holds the inverse of a command that could be taken back, and its nodes exist or were purged. */
  ghost predicate Recorded(row: Row, nodes: set<NodeId>, gone: set<NodeId>) {
    && row.payload == Some(InverseOf(row.command, row.before))
    && Restorable(row.command, row.before)
    && Known(row.before, nodes, gone)
    && Known(Do(row.command, row.before), nodes, gone)
  }

  /** The recorded state is the replay of the rows before, but for nodes purged since. */
  ghost predicate AgreesAt(base: map<Subject, Coll>, rows: seq<Row>, gone: set<NodeId>, k: nat)
    requires k < |rows| && rows[k].subject in base
  {
    Without(rows[k].before, gone) == Without(Before(base, rows, k), gone)
  }

  ghost predicate Fits(base: map<Subject, Coll>, j: JournalDb, k: nat)
    requires k < |j.rows|
  {
    j.rows[k].subject in base && Recorded(j.rows[k], j.nodes, j.gone) && AgreesAt(base, j.rows, j.gone, k)
  }

  /** What is left of the replay when the purged nodes are taken out. */
  ghost function Left(base: Coll, rows: seq<Row>, s: Subject, gone: set<NodeId>): Coll {
    Without(Replay(base, LiveCommands(rows, s)), gone)
  }

  ghost predicate StateIsReplay(base: map<Subject, Coll>, j: JournalDb) {
    base.Keys == j.colls.Keys && forall s :: s in j.colls ==> j.colls[s] == Left(base[s], j.rows, s, j.gone)
  }

  ghost predicate AllFit(base: map<Subject, Coll>, j: JournalDb) {
    forall k: nat :: k < |j.rows| && j.rows[k].status == Applied ==> Fits(base, j, k)
  }

  ghost predicate ReplayInv(base: map<Subject, Coll>, j: JournalDb) {
    StateIsReplay(base, j) && AllFit(base, j)
  }

  /** Every command of the run can be taken back, by the condition checked before it. */
  ghost predicate Careful(j: JournalDb, e: Event) {
    e.Commit? && e.s in j.colls ==> !Journaled(e.cmd, j.colls[e.s]) || Restorable(e.cmd, j.colls[e.s])
  }

  /** Rows that differ only in payload, or in being applied or expired, have the same live commands. */
  lemma {:induction false} SameLive(a: seq<Row>, b: seq<Row>, n: nat, s: Subject)
    requires n <= |a| && n <= |b|
    requires forall i :: 0 <= i < n && (a[i].subject == s || b[i].subject == s) ==>
      a[i].subject == b[i].subject && a[i].command == b[i].command && (a[i].status == Undone <==> b[i].status == Undone)
    ensures LiveCommands(a[..n], s) == LiveCommands(b[..n], s)
  {
    if n > 0 {
      assert a[..n][..n - 1] == a[..n - 1] && b[..n][..n - 1] == b[..n - 1];
      SameLive(a, b, n - 1, s);
    }
  }

  // ---------------------------------------------------------------- commits

  /** A command run on what is left of a collection leaves what is left of its effect. */
  lemma DoLeft(cmd: Command, c: Coll, r: Coll, env: Env, gone: set<NodeId>)
    requires c == Without(r, gone) && CollOk(c, env) && !CommandRefused(cmd, c, env) && env.nodes !! gone
    ensures Do(cmd, c) == Without(Do(cmd, r), gone)
  {
    DoKeepsOk(cmd, c, env);
    WithoutNone(Do(cmd, c), env.nodes, gone);
    DoWithout(cmd, r, gone);
  }

  lemma CommittedState(base: map<Subject, Coll>, j: JournalDb, s: Subject, cmd: Command)
    requires DbOk(j) && StateIsReplay(base, j) && s in j.colls
    requires Journaled(cmd, j.colls[s]) && !CommandRefused(cmd, j.colls[s], EnvOf(j, s))
    ensures StateIsReplay(base, CommitTx(j, s, cmd))
  {
    var u := CommitTx(j, s, cmd);
    CollOkAt(j, s);
    DoLeft(cmd, j.colls[s], Replay(base[s], LiveCommands(j.rows, s)), EnvOf(j, s), j.gone);
    forall t | t in u.colls ensures u.colls[t] == Left(base[t], u.rows, t, u.gone) {
      OneMoreLive(base[t], j.rows, u.rows[|j.rows|], t);
    }
  }

  lemma OneMoreLive(base: Coll, rows: seq<Row>, row: Row, t: Subject)
    requires row.status == Applied
    ensures Replay(base, LiveCommands(rows + [row], t))
      == if row.subject == t then Do(row.command, Replay(base, LiveCommands(rows, t)))
        else Replay(base, LiveCommands(rows, t))
  {
    assert (rows + [row])[..|rows|] == rows;
    var cmds := LiveCommands(rows, t);
    assert (cmds + [row.command])[..|cmds|] == cmds;
  }

  lemma NewestFits(base: map<Subject, Coll>, j: JournalDb, s: Subject, cmd: Command)
    requires DbOk(j) && StateIsReplay(base, j) && s in j.colls && Journaled(cmd, j.colls[s])
    requires Restorable(cmd, j.colls[s]) && !CommandRefused(cmd, j.colls[s], EnvOf(j, s))
    ensures Fits(base, CommitTx(j, s, cmd), |j.rows|)
  {
    CollOkAt(j, s);
    DoKeepsOk(cmd, j.colls[s], EnvOf(j, s));
    assert CommitTx(j, s, cmd).rows[..|j.rows|] == j.rows;
    WithoutTwice(Replay(base[s], LiveCommands(j.rows, s)), j.gone, j.gone);
    assert j.gone + j.gone == j.gone;
  }

  lemma PrefixFits(base: map<Subject, Coll>, j: JournalDb, u: JournalDb, k: nat)
    requires k < |j.rows| && Fits(base, j, k) && |j.rows| <= |u.rows| && u.rows[..|j.rows|] == j.rows
    requires u.nodes == j.nodes && u.gone == j.gone
    ensures Fits(base, u, k)
  {
    assert u.rows[k] == j.rows[k];
    assert u.rows[..k] == u.rows[..|j.rows|][..k];
  }

  lemma CommitKeepsReplay(base: map<Subject, Coll>, j: JournalDb, s: Subject, cmd: Command)
    requires DbOk(j) && ReplayInv(base, j) && s in j.colls
    requires Journaled(cmd, j.colls[s]) ==> Restorable(cmd, j.colls[s])
    ensures ReplayInv(base, CommitTx(j, s, cmd))
  {
    var u := CommitTx(j, s, cmd);
    if u != j {
      CommittedState(base, j, s, cmd);
      NewestFits(base, j, s, cmd);
      forall k: nat | k < |u.rows| && u.rows[k].status == Applied ensures Fits(base, u, k) {
        if k < |j.rows| {
          PrefixFits(base, j, u, k);
        }
      }
    }
  }

  // ---------------------------------------------------------------- expiry and purges

  lemma SameCommandsFit(base: map<Subject, Coll>, j: JournalDb, u: JournalDb, k: nat)
    requires k < |j.rows| && k < |u.rows| && u.rows[k] == j.rows[k] && Fits(base, j, k)
    requires LiveCommands(u.rows[..k], j.rows[k].subject) == LiveCommands(j.rows[..k], j.rows[k].subject)
    requires j.nodes + j.gone <= u.nodes + u.gone && j.gone <= u.gone
    ensures Fits(base, u, k)
  {
    var r := Before(base, j.rows, k);
    WithoutTwice(j.rows[k].before, j.gone, u.gone);
    WithoutTwice(r, j.gone, u.gone);
    assert j.gone + u.gone == u.gone;
  }

  lemma ExpireKeepsReplay(base: map<Subject, Coll>, j: JournalDb, u: JournalDb, cutoff: Option<nat>, sqlite: bool)
    requires ReplayInv(base, j) && ExpireStep(j, u, cutoff, sqlite)
    ensures ReplayInv(base, u)
  {
    forall s, n | 0 <= n <= |j.rows| ensures LiveCommands(u.rows[..n], s) == LiveCommands(j.rows[..n], s) {
      SameLive(u.rows, j.rows, n, s);
    }
    assert u.rows[..|u.rows|] == u.rows && j.rows[..|j.rows|] == j.rows;
    forall k: nat | k < |u.rows| && u.rows[k].status == Applied ensures Fits(base, u, k) {
      SameCommandsFit(base, j, u, k);
    }
  }

  lemma PurgeKeepsReplay(base: map<Subject, Coll>, j: JournalDb, u: JournalDb, n: NodeId)
    requires ReplayInv(base, j) && PurgeNodeStep(j, u, n)
    ensures ReplayInv(base, u)
  {
    forall s | s in u.colls ensures u.colls[s] == Left(base[s], u.rows, s, u.gone) {
      WithoutTwice(Replay(base[s], LiveCommands(j.rows, s)), j.gone, {n});
    }
    forall k: nat | k < |u.rows| && u.rows[k].status == Applied ensures Fits(base, u, k) {
      SameCommandsFit(base, j, u, k);
    }
  }

  lemma NewNodeKeepsReplay(base: map<Subject, Coll>, j: JournalDb, u: JournalDb, n: NodeId)
    requires ReplayInv(base, j) && u == j.(nodes := j.nodes + {n})
    ensures ReplayInv(base, u)
  {
    forall k: nat | k < |u.rows| && u.rows[k].status == Applied ensures Fits(base, u, k) {
      SameCommandsFit(base, j, u, k);
    }
  }

  // ---------------------------------------------------------------- the cascade

  /** Executing a row's inverse on what is left of its effect gives what is left of the state before, unless blocked. */
  lemma RowUndone(base: map<Subject, Coll>, j: JournalDb, k: nat, env: Env)
    requires k < |j.rows| && Fits(base, j, k) && env.nodes == j.nodes && j.nodes !! j.gone
    ensures var row := j.rows[k]; var r := Before(base, j.rows, k);
      var undo := ExecuteRow(Without(Do(row.command, r), j.gone), row, env);
      if UndoBlocked(row.command, row.before, env) then undo.Refused?
        else undo.Reverted? && undo.state == Without(r, j.gone)
  {
    var row, r := j.rows[k], Before(base, j.rows, k);
    DoWithout(row.command, r, j.gone);
    DoWithout(row.command, row.before, j.gone);
    UndoLaterIff(row.command, row.before, j.gone, env);
  }

  lemma {:induction false} ExecuteHead(c: Coll, first: Row, rest: seq<Row>, env: Env)
    ensures ExecuteRow(c, first, env).Refused? ==> ExecuteAll(c, [first] + rest, env).Refused?
    ensures ExecuteRow(c, first, env).Reverted? ==>
      var done := ExecuteAll(ExecuteRow(c, first, env).state, rest, env);
      var all := ExecuteAll(c, [first] + rest, env);
      if done.Refused? then all.Refused? else all.Reverted? && all.state == done.state
  {
    if rest == [] {
      assert [first] + rest == [first] && [first][..0] == [];
      assert ExecuteAll(c, [], env) == Reverted(c, 0, 0);
    } else {
      var init, last := rest[..|rest| - 1], rest[|rest| - 1];
      assert rest == init + [last] && [first] + rest == [first] + init + [last];
      ExecuteHead(c, first, init, env);
      ExecuteLast(c, [first] + init, last, env);
      if ExecuteRow(c, first, env).Reverted? {
        ExecuteLast(ExecuteRow(c, first, env).state, init, last, env);
      }
    }
  }

  lemma ExecuteLast(c: Coll, init: seq<Row>, last: Row, env: Env)
    ensures var done, all := ExecuteAll(c, init, env), ExecuteAll(c, init + [last], env);
      if done.Refused? || ExecuteRow(done.state, last, env).Refused? then all.Refused?
      else all.Reverted? && all.state == ExecuteRow(done.state, last, env).state
  {
    assert (init + [last])[..|init|] == init;
  }

  /** Nothing before row `i` is applied with its chain number or a later one. */
  lemma {:induction false} NoneBefore(j: JournalDb, i: nat, n: nat)
    requires ChainInv(j) && i < |j.rows| && n <= i
    ensures AppliedFrom(j.rows[..n], j.rows[i].subject, j.rows[i].chainSeq) == []
  {
    if n > 0 {
      assert j.rows[..n][..n - 1] == j.rows[..n - 1];
      NoneBefore(j, i, n - 1);
      assert j.rows[..n][n - 1] == j.rows[n - 1];
    }
  }

  ghost predicate AnyBlocked(targets: seq<Row>, env: Env) {
    exists r :: r in targets && UndoBlocked(r.command, r.before, env)
  }

  /**
   * Executing the applied rows from number `from` on, newest first, leads back to `goal`, or is refused when one is
   * blocked.
   */
  ghost predicate RewindsTo(base: Coll, rows: seq<Row>, s: Subject, from: nat, goal: Coll, gone: set<NodeId>, env: Env)
  {
    var undo := ExecuteAll(Left(base, rows, s, gone), AppliedFrom(rows, s, from), env);
    if AnyBlocked(AppliedFrom(rows, s, from), env) then undo.Refused? else undo.Reverted? && undo.state == goal
  }

  lemma ReplayNext(base: map<Subject, Coll>, rows: seq<Row>, n: nat, s: Subject)
    requires 0 < n <= |rows| && s in base
    ensures var row := rows[n - 1]; var c := Replay(base[s], LiveCommands(rows[..n - 1], s));
      Replay(base[s], LiveCommands(rows[..n], s)) == if row.subject == s && row.status != Undone
        then Do(row.command, c) else c
  {
    var cmds := LiveCommands(rows[..n - 1], s);
    assert rows[..n][..n - 1] == rows[..n - 1] && rows[..n][n - 1] == rows[n - 1];
    assert (cmds + [rows[n - 1].command])[..|cmds|] == cmds;
  }

  lemma AppliedFromNext(rows: seq<Row>, n: nat, s: Subject, from: nat)
    requires 0 < n <= |rows|
    ensures AppliedFrom(rows[..n], s, from)
      == if AppliedOf(rows[n - 1], s, from) then [rows[n - 1]] + AppliedFrom(rows[..n - 1], s, from)
        else AppliedFrom(rows[..n - 1], s, from)
  {
    assert rows[..n][..n - 1] == rows[..n - 1] && rows[..n][n - 1] == rows[n - 1];
  }

  /** Row `k` is of another subject, undone, or applied with a later number and its inverse in place. */
  ghost predicate InOrder(base: map<Subject, Coll>, j: JournalDb, s: Subject, from: nat, k: nat)
    requires k < |j.rows|
  {
    && (j.rows[k].subject == s ==> j.rows[k].status != Expired && j.rows[k].chainSeq >= from)
    && (j.rows[k].status == Applied ==> Fits(base, j, k))
  }

  ghost predicate AllInOrder(base: map<Subject, Coll>, j: JournalDb, s: Subject, from: nat, i: nat) {
    forall k: nat :: i <= k < |j.rows| ==> InOrder(base, j, s, from, k)
  }

  lemma LaterInOrder(base: map<Subject, Coll>, j: JournalDb, i: nat, k: nat)
    requires ChainInv(j) && AllFit(base, j) && i <= k < |j.rows| && j.rows[i].status == Applied
    ensures InOrder(base, j, j.rows[i].subject, j.rows[i].chainSeq, k)
  {
    if j.rows[k].subject == j.rows[i].subject {
      ChainAfter(j, i, k);
    }
  }

  lemma ChainAfter(j: JournalDb, i: nat, k: nat)
    requires ChainInv(j) && i <= k < |j.rows| && j.rows[i].status == Applied && j.rows[k].subject == j.rows[i].subject
    ensures j.rows[k].status != Expired && j.rows[k].chainSeq >= j.rows[i].chainSeq
  {
  }

  /** Executing the inverses of the applied rows from `n` down to `i` rewinds as those before `i` do. */
  lemma {:induction false} CascadeRewinds(base: map<Subject, Coll>, j: JournalDb, s: Subject, from: nat, i: nat, n: nat,
                                          goal: Coll, env: Env)
    requires i <= n <= |j.rows| && s in base && env.nodes == j.nodes && j.nodes !! j.gone
    requires AllInOrder(base, j, s, from, i)
    requires RewindsTo(base[s], j.rows[..i], s, from, goal, j.gone, env)
    ensures RewindsTo(base[s], j.rows[..n], s, from, goal, j.gone, env)
    decreases n
  {
    if n > i {
      CascadeRewinds(base, j, s, from, i, n - 1, goal, env);
      CascadeStep(base, j, s, from, i, n, goal, env);
    }
  }

  lemma NothingRewound(base: map<Subject, Coll>, j: JournalDb, i: nat, env: Env)
    requires ChainInv(j) && i < |j.rows| && j.rows[i].subject in base
    ensures RewindsTo(base[j.rows[i].subject], j.rows[..i], j.rows[i].subject, j.rows[i].chainSeq,
                      Without(Before(base, j.rows, i), j.gone), j.gone, env)
  {
    NoneBefore(j, i, i);
  }

  lemma AllRewinds(base: map<Subject, Coll>, j: JournalDb, i: nat)
    requires ChainInv(j) && AllFit(base, j) && j.nodes !! j.gone && i < |j.rows| && j.rows[i].status == Applied
    ensures var s := j.rows[i].subject;
      s in base
        && RewindsTo(base[s], j.rows, s, j.rows[i].chainSeq, Without(Before(base, j.rows, i), j.gone), j.gone,
        EnvOf(j, s))
  {
    assert Fits(base, j, i);
    var s, from, env := j.rows[i].subject, j.rows[i].chainSeq, EnvOf(j, j.rows[i].subject);
    NothingRewound(base, j, i, env);
    forall k: nat | i <= k < |j.rows| ensures InOrder(base, j, s, from, k) {
      LaterInOrder(base, j, i, k);
    }
    CascadeRewinds(base, j, s, from, i, |j.rows|, Without(Before(base, j.rows, i), j.gone), env);
    assert j.rows[..|j.rows|] == j.rows;
  }

  lemma CascadeStep(base: map<Subject, Coll>, j: JournalDb, s: Subject, from: nat, i: nat, n: nat, goal: Coll, env: Env)
    requires i < n <= |j.rows| && s in base && env.nodes == j.nodes && j.nodes !! j.gone
    requires AllInOrder(base, j, s, from, i)
    requires RewindsTo(base[s], j.rows[..n - 1], s, from, goal, j.gone, env)
    ensures RewindsTo(base[s], j.rows[..n], s, from, goal, j.gone, env)
  {
    var row := j.rows[n - 1];
    assert InOrder(base, j, s, from, n - 1);
    ReplayNext(base, j.rows, n, s);
    AppliedFromNext(j.rows, n, s, from);
    if row.subject == s && row.status == Applied {
      RowUndone(base, j, n - 1, env);
      BlockedHead(row, AppliedFrom(j.rows[..n - 1], s, from), env);
      ExecuteHead(Left(base[s], j.rows[..n], s, j.gone), row, AppliedFrom(j.rows[..n - 1], s, from), env);
    }
  }

  lemma BlockedHead(row: Row, rest: seq<Row>, env: Env)
    ensures AnyBlocked([row] + rest, env) <==> UndoBlocked(row.command, row.before, env) || AnyBlocked(rest, env)
  {
    forall r ensures r in [row] + rest <==> r == row || r in rest {
    }
  }

  lemma LiveNext(rows: seq<Row>, n: nat, s: Subject)
    requires 0 < n <= |rows|
    ensures LiveCommands(rows[..n], s) == LiveCommands(rows[..n - 1], s)
      + if rows[n - 1].subject == s && rows[n - 1].status != Undone then [rows[n - 1].command] else []
  {
    assert rows[..n][..n - 1] == rows[..n - 1] && rows[..n][n - 1] == rows[n - 1];
  }

  ghost function RewoundRow(row: Row, s: Subject, reached: bool): Row {
    if reached && row.subject == s && row.status == Applied then row.(status := Undone) else row
  }

  /** Marking the applied rows from `i` on leaves the live commands of the rows before `i`, for that subject only. */
  lemma {:induction false} RewoundLiveTo(rows: seq<Row>, marked: seq<Row>, i: nat, s: Subject, t: Subject, n: nat)
    requires i < |rows| && |marked| == |rows| && n <= |rows|
    requires forall k :: 0 <= k < |rows| ==> marked[k] == RewoundRow(rows[k], s, k >= i)
    requires forall k :: i <= k < |rows| && rows[k].subject == s ==> rows[k].status != Expired
    ensures LiveCommands(marked[..n], t) == LiveCommands(rows[..if t == s && n > i then i else n], t)
  {
    if n > 0 {
      RewoundLiveTo(rows, marked, i, s, t, n - 1);
      LiveNext(marked, n, t);
      LiveNext(rows, n, t);
    }
  }

  /** What a successful undo of row `i` does, plain or cascading. */
  ghost predicate Rewound(base: map<Subject, Coll>, j: JournalDb, i: nat, u: JournalDb)
    requires i < |j.rows| && j.rows[i].subject in base
  {
    && u == j.(rows := u.rows, colls := j.colls[j.rows[i].subject := Without(Before(base, j.rows, i), j.gone)])
    && |u.rows| == |j.rows|
    && forall k :: 0 <= k < |j.rows| ==> u.rows[k] == RewoundRow(j.rows[k], j.rows[i].subject, k >= i)
  }

  lemma TargetAt(j: JournalDb, i: nat, k: nat, targets: seq<Row>)
    requires ChainInv(j) && i < |j.rows| && k < |j.rows|
    requires targets == AppliedFrom(j.rows, j.rows[i].subject, j.rows[i].chainSeq)
    ensures j.rows[k] in targets <==> k >= i && j.rows[k].subject == j.rows[i].subject && j.rows[k].status == Applied
  {
  }

  lemma TargetIds(j: JournalDb, i: nat, targets: seq<Row>)
    requires ChainInv(j) && i < |j.rows|
    requires targets == AppliedFrom(j.rows, j.rows[i].subject, j.rows[i].chainSeq)
    ensures forall k :: 0 <= k < |j.rows| ==>
      (j.rows[k].id in Ids(targets) <==>
       k >= i && j.rows[k].subject == j.rows[i].subject && j.rows[k].status == Applied)
  {
    forall k: nat | k < |j.rows|
      ensures j.rows[k].id in Ids(targets)
        <==> k >= i && j.rows[k].subject == j.rows[i].subject && j.rows[k].status == Applied
    {
      TargetAt(j, i, k, targets);
      IdInTargets(j, targets, k);
    }
  }

  lemma IdInTargets(j: JournalDb, targets: seq<Row>, k: nat)
    requires ChainInv(j) && k < |j.rows| && forall r :: r in targets ==> r in j.rows
    ensures j.rows[k].id in Ids(targets) <==> j.rows[k] in targets
  {
    if j.rows[k].id in Ids(targets) {
      var m :| 0 <= m < |targets| && targets[m].id == j.rows[k].id;
      assert targets[m] in targets;
      SameId(j, targets[m], k);
    }
    if j.rows[k] in targets {
      var m :| 0 <= m < |targets| && targets[m] == j.rows[k];
      assert Ids(targets)[m] == j.rows[k].id;
    }
  }

  /** With nothing applied after it, a plain undo has the targets of a cascade. */
  lemma PlainTargets(j: JournalDb, i: nat)
    requires ChainInv(j) && i < |j.rows| && j.rows[i].status == Applied
    requires LaterCount(j.rows, j.rows[i].subject, j.rows[i].chainSeq) == 0
    ensures AppliedFrom(j.rows, j.rows[i].subject, j.rows[i].chainSeq) == [j.rows[i]]
  {
    LaterCountAt(j, i);
    OnlyOne(j, i, |j.rows|);
    assert j.rows[..|j.rows|] == j.rows;
  }

  lemma {:induction false} OnlyOne(j: JournalDb, i: nat, n: nat)
    requires ChainInv(j) && i < n <= |j.rows| && j.rows[i].status == Applied
    requires forall k :: i < k < |j.rows| && j.rows[k].subject == j.rows[i].subject ==> j.rows[k].status != Applied
    ensures AppliedFrom(j.rows[..n], j.rows[i].subject, j.rows[i].chainSeq) == [j.rows[i]]
    decreases n
  {
    AppliedFromNext(j.rows, n, j.rows[i].subject, j.rows[i].chainSeq);
    if n - 1 == i {
      NoneBefore(j, i, i);
    } else {
      OnlyOne(j, i, n - 1);
    }
  }

  lemma UndoOutcomeAt(j: JournalDb, i: nat, cascade: bool, targets: seq<Row>)
    requires ChainInv(j) && i < |j.rows| && j.rows[i].status == Applied
    requires cascade || LaterCount(j.rows, j.rows[i].subject, j.rows[i].chainSeq) == 0
    requires targets == AppliedFrom(j.rows, j.rows[i].subject, j.rows[i].chainSeq)
    ensures var s := j.rows[i].subject; var done := ExecuteAll(j.colls[s], targets, EnvOf(j, s));
      UndoTx(j, j.rows[i].id, cascade)
        == if done.Refused? then (Threw, j)
           else (UndoDone(done.applied, done.skipped, Ids(targets)),
                 j.(rows := MarkUndone(j.rows, Ids(targets)), colls := j.colls[s := done.state]))
  {
    LookupAt(j, i);
    if !cascade {
      PlainTargets(j, i);
    }
    assert Targets(j.rows, j.rows[i], cascade) == targets;
  }

  /** Of the changes an undo of row `i` takes back, one is blocked by the constraints. */
  ghost predicate StandsAgainst(j: JournalDb, i: nat)
    requires i < |j.rows| && j.rows[i].subject in j.colls
  {
    exists k :: i <= k < |j.rows| && j.rows[k].subject == j.rows[i].subject && j.rows[k].status == Applied
      && UndoBlocked(j.rows[k].command, j.rows[k].before, EnvOf(j, j.rows[i].subject))
  }

  lemma BlockedTargets(j: JournalDb, i: nat, targets: seq<Row>)
    requires ChainInv(j) && i < |j.rows|
    requires targets == AppliedFrom(j.rows, j.rows[i].subject, j.rows[i].chainSeq)
    ensures AnyBlocked(targets, EnvOf(j, j.rows[i].subject)) <==> StandsAgainst(j, i)
  {
    var env := EnvOf(j, j.rows[i].subject);
    if AnyBlocked(targets, env) {
      var r :| r in targets && UndoBlocked(r.command, r.before, env);
      var k :| 0 <= k < |j.rows| && j.rows[k] == r;
      TargetAt(j, i, k, targets);
    }
    if StandsAgainst(j, i) {
      var k :| i <= k < |j.rows| && j.rows[k].subject == j.rows[i].subject && j.rows[k].status == Applied
        && UndoBlocked(j.rows[k].command, j.rows[k].before, env);
      TargetAt(j, i, k, targets);
    }
  }

  /**
   * When every change could be taken back, an undo of the newest change, or with its cascade, succeeds if and only
   * if no name it brings back is taken by another active collection of the owner and no node it needs was purged.
   * It then leaves the state before the target, less the nodes purged since; otherwise it throws and changes nothing.
   */
  lemma UndoRewindsIff(base: map<Subject, Coll>, j: JournalDb, i: nat, cascade: bool)
    requires ChainInv(j) && DbOk(j) && ReplayInv(base, j) && i < |j.rows| && j.rows[i].status == Applied
    requires cascade || LaterCount(j.rows, j.rows[i].subject, j.rows[i].chainSeq) == 0
    ensures j.rows[i].subject in base
    ensures var undo := UndoTx(j, j.rows[i].id, cascade);
      if StandsAgainst(j, i) then undo == (Threw, j) else undo.0.UndoDone? && Rewound(base, j, i, undo.1)
  {
    var targets := AppliedFrom(j.rows, j.rows[i].subject, j.rows[i].chainSeq);
    AllRewinds(base, j, i);
    UndoOutcomeAt(j, i, cascade, targets);
    BlockedTargets(j, i, targets);
    TargetIds(j, i, targets);
  }

  lemma RewoundLive(base: map<Subject, Coll>, j: JournalDb, i: nat, u: JournalDb)
    requires ChainInv(j) && i < |j.rows| && j.rows[i].status == Applied
    requires j.rows[i].subject in base && Rewound(base, j, i, u)
    ensures forall t, n :: 0 <= n <= |j.rows| ==>
      LiveCommands(u.rows[..n], t) == LiveCommands(j.rows[..if t == j.rows[i].subject && n > i then i else n], t)
  {
    forall k: nat | i <= k < |j.rows| && j.rows[k].subject == j.rows[i].subject ensures j.rows[k].status != Expired {
      ChainAfter(j, i, k);
    }
    forall t, n: nat | n <= |j.rows|
      ensures LiveCommands(u.rows[..n], t)
        == LiveCommands(j.rows[..if t == j.rows[i].subject && n > i then i else n], t)
    {
      RewoundLiveTo(j.rows, u.rows, i, j.rows[i].subject, t, n);
    }
  }

  lemma RewoundFits(base: map<Subject, Coll>, j: JournalDb, i: nat, u: JournalDb, k: nat)
    requires i < |j.rows| && j.rows[i].subject in base && Rewound(base, j, i, u)
    requires k < |j.rows| && u.rows[k].status == Applied && Fits(base, j, k)
    requires LiveCommands(u.rows[..k], j.rows[k].subject)
      == LiveCommands(j.rows[..if j.rows[k].subject == j.rows[i].subject && k > i then i else k], j.rows[k].subject)
    ensures Fits(base, u, k)
  {
    assert u.rows[k] == j.rows[k];
    assert !(j.rows[k].subject == j.rows[i].subject && k > i);
    SameCommandsFit(base, j, u, k);
  }

  ghost predicate RewoundLiveOf(rows: seq<Row>, marked: seq<Row>, s: Subject, i: nat, t: Subject)
    requires i < |rows|
  {
    LiveCommands(marked, t) == LiveCommands(if t == s then rows[..i] else rows, t)
  }

  lemma RewoundLiveAll(rows: seq<Row>, marked: seq<Row>, s: Subject, i: nat)
    requires i < |rows| == |marked|
    requires forall t, n :: 0 <= n <= |rows| ==>
      LiveCommands(marked[..n], t) == LiveCommands(rows[..if t == s && n > i then i else n], t)
    ensures forall t :: RewoundLiveOf(rows, marked, s, i, t)
  {
    assert marked[..|rows|] == marked && rows[..|rows|] == rows;
  }

  lemma RewoundState(base: map<Subject, Coll>, j: JournalDb, i: nat, u: JournalDb)
    requires StateIsReplay(base, j) && i < |j.rows| && j.rows[i].subject in base && Rewound(base, j, i, u)
    requires forall t :: RewoundLiveOf(j.rows, u.rows, j.rows[i].subject, i, t)
    ensures StateIsReplay(base, u)
  {
    forall t | t in u.colls ensures u.colls[t] == Left(base[t], u.rows, t, u.gone) {
      assert RewoundLiveOf(j.rows, u.rows, j.rows[i].subject, i, t);
    }
  }

  lemma RewoundKeepsReplay(base: map<Subject, Coll>, j: JournalDb, i: nat, u: JournalDb)
    requires ChainInv(j) && ReplayInv(base, j) && i < |j.rows| && j.rows[i].status == Applied
    requires j.rows[i].subject in base && Rewound(base, j, i, u)
    ensures ReplayInv(base, u)
  {
    RewoundLive(base, j, i, u);
    RewoundLiveAll(j.rows, u.rows, j.rows[i].subject, i);
    RewoundState(base, j, i, u);
    forall k: nat | k < |u.rows| && u.rows[k].status == Applied ensures Fits(base, u, k) {
      assert j.rows[k].status == Applied && Fits(base, j, k);
      RewoundFits(base, j, i, u, k);
    }
  }

  // ---------------------------------------------------------------- whole runs

  lemma UndoKeepsReplay(base: map<Subject, Coll>, j: JournalDb, id: ActionId, cascade: bool)
    requires ChainInv(j) && DbOk(j) && ReplayInv(base, j)
    ensures ReplayInv(base, UndoTx(j, id, cascade).1)
  {
    if UndoTx(j, id, cascade).0.UndoDone? {
      var i := IndexOfRow(j, id);
      UndoRewindsIff(base, j, i, cascade);
      RewoundKeepsReplay(base, j, i, UndoTx(j, id, cascade).1);
    }
  }

  lemma StepKeepsReplay(base: map<Subject, Coll>, j: JournalDb, e: Event, u: JournalDb)
    requires ChainInv(j) && DbOk(j) && ReplayInv(base, j) && Next(j, e, u) && Careful(j, e)
    ensures ReplayInv(base, u)
  {
    match e
    case Commit(s, cmd) => CommitKeepsReplay(base, j, s, cmd);
    case UndoRow(id, cascade) =>
      UndoKeepsReplay(base, j, id, cascade);
    case Expire(cutoff, sqlite) => ExpireKeepsReplay(base, j, u, cutoff, sqlite);
    case Tick(seconds) => SameTablesKeepReplay(base, j, u);
    case NewNode(n) => NewNodeKeepsReplay(base, j, u, n);
    case PurgeNode(n) => PurgeKeepsReplay(base, j, u, n);
  }

  lemma SameTablesKeepReplay(base: map<Subject, Coll>, j: JournalDb, u: JournalDb)
    requires ReplayInv(base, j) && u == j.(now := u.now)
    ensures ReplayInv(base, u)
  {
    forall k: nat | k < |u.rows| && u.rows[k].status == Applied ensures Fits(base, u, k) {
      SameCommandsFit(base, j, u, k);
    }
  }

  ghost predicate CarefulAt(states: seq<JournalDb>, events: seq<Event>, k: nat)
    requires k < |states| && k < |events|
  {
    Careful(states[k], events[k])
  }

  /**
   * In every run of commands that can be taken back, undos, cascades, refusals, expiry and node purges, the state of
   * every subject is the replay, in chain order, of its changes not undone, less the nodes purged.
   */
  lemma {:induction false} RunsReplay(states: seq<JournalDb>, events: seq<Event>, i: nat)
    requires IsRun(states, events) && i < |states| && forall k: nat :: k < i ==> CarefulAt(states, events, k)
    ensures ReplayInv(states[0].colls, states[i])
    decreases i
  {
    if i > 0 {
      RunsReplay(states, events, i - 1);
      RunsKeepChain(states, events, i - 1);
      RunsKeepConstraints(states, events, i - 1);
      RunStep(states, events, i);
      assert CarefulAt(states, events, i - 1);
      StepKeepsReplay(states[0].colls, states[i - 1], events[i - 1], states[i]);
    } else {
      StartIsReplay(states[0]);
    }
  }

  lemma StartIsReplay(j: JournalDb)
    requires DbOk(j) && j.rows == [] && j.gone == {}
    ensures ReplayInv(j.colls, j)
  {
    forall s | s in j.colls ensures Without(j.colls[s], {}) == j.colls[s] {
      WithoutNone(j.colls[s], j.nodes, {});
    }
  }

  // ---------------------------------------------------------------- commit and undo at once

  /**
   * Right after a command that the constraints let through, its inverse restores the state exactly when it is
   * restorable.
   */
  lemma FreshUndoIff(cmd: Command, c: Coll, env: Env)
    requires CollOk(c, env) && !CommandRefused(cmd, c, env)
    ensures var undo := Execute(Do(cmd, c), InverseOf(cmd, c), env);
      undo.Reverted? && undo.state == c <==> Restorable(cmd, c)
  {
    UndoExactIff(cmd, c);
    if Restorable(cmd, c) {
      FreshUndoNotBlocked(cmd, c, env);
      DoKeepsOk(cmd, c, env);
      WithoutNone(Do(cmd, c), env.nodes, {});
      WithoutNone(c, env.nodes, {});
      UndoLaterIff(cmd, c, {}, env);
    }
  }

  lemma NewestIsLast(j: JournalDb, s: Subject, cmd: Command)
    requires ChainInv(j) && s in j.colls && Journaled(cmd, j.colls[s]) && !CommandRefused(cmd, j.colls[s], EnvOf(j, s))
    ensures var u := CommitTx(j, s, cmd);
      ChainInv(u) && u.rows[|j.rows|].id == j.nextId && LaterCount(u.rows, s, u.rows[|j.rows|].chainSeq) == 0
  {
    CommitKeepsChain(j, s, cmd);
    NothingAfterNewest(CommitTx(j, s, cmd), s);
  }

  lemma SameEnv(j: JournalDb, s: Subject, cmd: Command)
    requires s in j.colls && Do(cmd, j.colls[s]).owner == j.colls[s].owner
    ensures EnvOf(CommitTx(j, s, cmd), s) == EnvOf(j, s)
  {
    OwnNameNotTaken(j.colls, s, Do(cmd, j.colls[s]));
  }

  lemma OwnNameNotTaken(colls: map<Subject, Coll>, s: Subject, c: Coll)
    requires s in colls && c.owner == colls[s].owner
    ensures TakenNames(colls[s := c], s) == TakenNames(colls, s)
  {
    var after := colls[s := c];
    assert forall t :: t in colls && t != s ==> t in after && after[t] == colls[t];
    assert TakenNames(after, s) <= TakenNames(colls, s);
    assert TakenNames(colls, s) <= TakenNames(after, s);
  }

  /** A command that commits and is undone at once gives the collections back exactly when it was restorable. */
  lemma CommitThenUndoIff(j: JournalDb, s: Subject, cmd: Command)
    requires ChainInv(j) && DbOk(j) && s in j.colls && Journaled(cmd, j.colls[s])
    requires !CommandRefused(cmd, j.colls[s], EnvOf(j, s)) && KnownSubjects(CommitTx(j, s, cmd))
    ensures var undo := UndoTx(CommitTx(j, s, cmd), j.nextId, false);
      undo.0.UndoDone? && undo.1.colls == j.colls <==> Restorable(cmd, j.colls[s])
  {
    var u, n := CommitTx(j, s, cmd), |j.rows|;
    CollOkAt(j, s);
    DoKeepsOk(cmd, j.colls[s], EnvOf(j, s));
    SameEnv(j, s, cmd);
    NewestIsLast(j, s, cmd);
    FreshUndoIff(cmd, j.colls[s], EnvOf(j, s));
    PlainTargets(u, n);
    UndoOutcomeAt(u, n, false, [u.rows[n]]);
    ExecuteOne(u.colls[s], u.rows[n], EnvOf(u, s));
    var done := ExecuteAll(u.colls[s], [u.rows[n]], EnvOf(u, s));
    if done.Reverted? {
      SetBack(j.colls, s, u.colls[s], done.state);
    }
  }

  lemma SetBack(colls: map<Subject, Coll>, s: Subject, c: Coll, d: Coll)
    requires s in colls
    ensures colls[s := c][s := d] == colls <==> d == colls[s]
  {
    assert colls[s := c][s := d] == colls[s := d];
    assert colls[s := d] == colls <==> d == colls[s];
  }

  lemma ExecuteOne(c: Coll, row: Row, env: Env)
    ensures var one := ExecuteRow(c, row, env); var all := ExecuteAll(c, [row], env);
      if one.Refused? then all.Refused? else all.Reverted? && all.state == one.state
  {
    assert [row][..0] == [];
    assert ExecuteAll(c, [], env) == Reverted(c, 0, 0);
  }

  // ---------------------------------------------------------------- undos the constraints refuse

  ghost function Named(name: string): Coll {
    Coll(7, name, true, Ask, false, None, false, false, map[], {}, map[])
  }

  lemma RunOfTwo(s0: JournalDb, s1: JournalDb, s2: JournalDb, e0: Event, e1: Event)
    requires s0 == JournalDb([], s0.colls, s0.nodes, {}, 1, 0) && DbOk(s0) && Next(s0, e0, s1) && Next(s1, e1, s2)
    ensures IsRun([s0, s1, s2], [e0, e1])
  {
    var states, events := [s0, s1, s2], [e0, e1];
    forall i | 0 <= i < |events| ensures StepAt(states, events, i) {
      assert i == 0 || i == 1;
    }
  }

  /**
   * Collections "x" and "z" of one owner: rename the first to "y" and the second to "x". Both commands could be
   * taken back, yet the undo of the first throws, since the second holds its old name.
   */
  lemma RenamedAwayCannotBeUndone() returns (s0: JournalDb, s1: JournalDb, s2: JournalDb)
    ensures IsRun([s0, s1, s2], [Commit(1, Rename("y", false)), Commit(2, Rename("x", false))])
    ensures Careful(s0, Commit(1, Rename("y", false))) && Careful(s1, Commit(2, Rename("x", false)))
    ensures KnownSubjects(s2) && UndoTx(s2, 1, false) == (Threw, s2)
  {
    s0 := JournalDb([], map[1 := Named("x"), 2 := Named("z")], {}, {}, 1, 0);
    s1 := CommitTx(s0, 1, Rename("y", false));
    s2 := CommitTx(s1, 2, Rename("x", false));
    FirstRename(s0, s1);
    SecondRename(s1, s2);
    RenamedBackRefused(s2);
    RunOfTwo(s0, s1, s2, Commit(1, Rename("y", false)), Commit(2, Rename("x", false)));
  }

  lemma FirstRename(j: JournalDb, u: JournalDb)
    requires j == JournalDb([], map[1 := Named("x"), 2 := Named("z")], {}, {}, 1, 0)
    requires u == CommitTx(j, 1, Rename("y", false))
    ensures DbOk(j) && Next(j, Commit(1, Rename("y", false)), u) && Careful(j, Commit(1, Rename("y", false)))
    ensures u.rows == [Row(1, 1, Rename("y", false), Named("x"), Some(Single(RenameTo("x"))), 1, Applied, RETENTION)]
    ensures u.colls == map[1 := Named("y"), 2 := Named("z")] && u.nextId == 2
  {
    TakenBy(j, 1, 2);
  }

  lemma SecondRename(j: JournalDb, u: JournalDb)
    requires j.rows == [Row(1, 1, Rename("y", false), Named("x"), Some(Single(RenameTo("x"))), 1, Applied, RETENTION)]
    requires j.colls == map[1 := Named("y"), 2 := Named("z")] && j.nextId == 2
    requires u == CommitTx(j, 2, Rename("x", false))
    ensures Next(j, Commit(2, Rename("x", false)), u) && Careful(j, Commit(2, Rename("x", false)))
    ensures |u.rows| == 2 && u.rows[0] == j.rows[0] && u.rows[1].id == 2 && u.rows[1].subject == 2
    ensures u.colls == map[1 := Named("y"), 2 := Named("x")]
  {
    TakenBy(j, 2, 1);
  }

  lemma TakenBy(j: JournalDb, s: Subject, t: Subject)
    requires j.colls.Keys == {s, t} && s != t && j.colls[s].owner == j.colls[t].owner && !j.colls[t].archived
    ensures TakenNames(j.colls, s) == {j.colls[t].name}
  {
  }

  lemma RenamedBackRefused(j: JournalDb)
    requires |j.rows| == 2 && j.rows[0].id == 1 && j.rows[0].subject == 1 && j.rows[1].id == 2 && j.rows[1].subject == 2
    requires j.rows[0].status == Applied && j.rows[0].payload == Some(Single(RenameTo("x")))
    requires j.colls == map[1 := Named("y"), 2 := Named("x")]
    ensures KnownSubjects(j) && UndoTx(j, 1, false) == (Threw, j)
  {
    TakenBy(j, 1, 2);
    assert Lookup(j.rows, 1) == Some(j.rows[0]);
    LaterCountPositive(j.rows, 1, j.rows[0].chainSeq);
    ExecuteOne(j.colls[1], j.rows[0], EnvOf(j, 1));
  }
}
