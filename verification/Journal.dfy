/** The action journal: numbered chains of changes per subject, undone newest first. */
module Journal {
  import opened Common
  import opened Tree
  import opened Collections
  import opened CollectionEffects
  import opened UndoConstraints

  type ActionId = nat
  type Subject = nat

  /** Thirty days, in seconds. */
  const RETENTION: nat := 2592000

  datatype JournalStatus = Applied | Undone | Expired

  /**
   * `command` is what was done, `before` the collection it was done to; the table stores the command's name only,
   * and the inverse in `payload` until the row expires.
   */
  datatype Row = Row(id: ActionId, subject: Subject, command: Command, before: Coll, payload: Option<Payload>,
                     chainSeq: nat, status: JournalStatus, expiresAt: nat)

  /** Journal rows in insertion order, the collections they are about, and the nodes that exist and existed. */
  datatype JournalDb = JournalDb(rows: seq<Row>, colls: map<Subject, Coll>, nodes: set<NodeId>, gone: set<NodeId>,
                                 nextId: ActionId, now: nat)

  datatype CommitOutcome = NothingToDo | ConstraintThrew | Committed(id: ActionId)

  datatype UndoOutcome =
    | NotFound
    | AlreadyUndone
    | HasExpired
    | CascadeRequired(laterCount: nat)
    | Threw
    | UndoDone(undone: nat, skipped: nat, undoneIds: seq<ActionId>)

  // ---------------------------------------------------------------- queries

  function MaxChainSeq(rows: seq<Row>, s: Subject): (m: nat)
    ensures forall r :: r in rows && r.subject == s ==> r.chainSeq <= m
  {
    if rows == [] then 0
    else
      var last := rows[|rows| - 1];
      var rest := MaxChainSeq(rows[..|rows| - 1], s);
      assert rows == rows[..|rows| - 1] + [last];
      if last.subject == s && last.chainSeq > rest then last.chainSeq else rest
  }

  lemma {:induction false} MaxChainSeqAttained(rows: seq<Row>, s: Subject)
    ensures MaxChainSeq(rows, s) == 0 || exists r :: r in rows && r.subject == s && r.chainSeq == MaxChainSeq(rows, s)
  {
    if rows != [] {
      var init, last := rows[..|rows| - 1], rows[|rows| - 1];
      MaxChainSeqAttained(init, s);
      assert rows == init + [last] && last in rows;
      assert forall r :: r in init ==> r in rows;
    }
  }

  predicate AppliedOf(r: Row, s: Subject, from: nat) {
    r.subject == s && r.status == Applied && r.chainSeq >= from
  }

  function LaterCount(rows: seq<Row>, s: Subject, chainSeq: nat): nat {
    if rows == [] then 0
    else LaterCount(rows[..|rows| - 1], s, chainSeq) + if AppliedOf(rows[|rows| - 1], s, chainSeq + 1) then 1 else 0
  }

  lemma {:induction false} LaterCountPositive(rows: seq<Row>, s: Subject, chainSeq: nat)
    ensures LaterCount(rows, s, chainSeq) > 0 <==> exists r :: r in rows && AppliedOf(r, s, chainSeq + 1)
  {
    if rows != [] {
      var init, last := rows[..|rows| - 1], rows[|rows| - 1];
      LaterCountPositive(init, s, chainSeq);
      assert rows == init + [last];
      if r :| r in init && AppliedOf(r, s, chainSeq + 1) {
        assert r in rows;
      }
      assert last in rows;
    }
  }

  /** Applied rows of the subject from `from` on, newest first. */
  function AppliedFrom(rows: seq<Row>, s: Subject, from: nat): (found: seq<Row>)
    ensures forall r :: r in found <==> r in rows && AppliedOf(r, s, from)
  {
    if rows == [] then []
    else
      var last := rows[|rows| - 1];
      var rest := AppliedFrom(rows[..|rows| - 1], s, from);
      assert rows == rows[..|rows| - 1] + [last];
      if AppliedOf(last, s, from) then [last] + rest else rest
  }

  function Lookup(rows: seq<Row>, id: ActionId): (found: Option<Row>)
    ensures found.Some? ==> found.value in rows && found.value.id == id
    ensures found.None? ==> forall r :: r in rows ==> r.id != id
  {
    if rows == [] then None
    else if rows[|rows| - 1].id == id then Some(rows[|rows| - 1])
    else
      assert rows == rows[..|rows| - 1] + [rows[|rows| - 1]];
      Lookup(rows[..|rows| - 1], id)
  }

  function Ids(rows: seq<Row>): seq<ActionId> {
    seq(|rows|, i requires 0 <= i < |rows| => rows[i].id)
  }

  function MarkUndone(rows: seq<Row>, ids: seq<ActionId>): seq<Row> {
    seq(|rows|, i requires 0 <= i < |rows| =>
      if rows[i].id in ids && rows[i].status == Applied then rows[i].(status := Undone) else rows[i])
  }

  // ---------------------------------------------------------------- constraints

  /** The unique index on (owner, name) covers active rows. */
  function TakenNames(colls: map<Subject, Coll>, s: Subject): set<string>
    requires s in colls
  {
    set t | t in colls && t != s && colls[t].owner == colls[s].owner && !colls[t].archived :: colls[t].name
  }

  function EnvOf(j: JournalDb, s: Subject): Env
    requires s in j.colls
  {
    Env(TakenNames(j.colls, s), j.nodes)
  }

  // ---------------------------------------------------------------- transactions

  /** commitChange: mutation and journal row together or, on a constraint, neither; an empty patch does not get here. */
  function CommitTx(j: JournalDb, s: Subject, cmd: Command): JournalDb
    requires s in j.colls
  {
    var c := j.colls[s];
    if !Journaled(cmd, c) || CommandRefused(cmd, c, EnvOf(j, s)) then j
    else
      var row :=
        Row(j.nextId, s, cmd, c, Some(InverseOf(cmd, c)), MaxChainSeq(j.rows, s) + 1, Applied, j.now + RETENTION);
      j.(rows := j.rows + [row], colls := j.colls[s := Do(cmd, c)], nextId := j.nextId + 1)
  }

  /** An applied row without payload has nothing to execute and is refused. */
  function ExecuteRow(c: Coll, row: Row, env: Env): Undo {
    if row.payload.Some? then Execute(c, row.payload.value, env) else Refused
  }

  /** The inverses in list order; one refusal refuses all. */
  function ExecuteAll(c: Coll, targets: seq<Row>, env: Env): Undo {
    if targets == [] then Reverted(c, 0, 0)
    else
      var done := ExecuteAll(c, targets[..|targets| - 1], env);
      if done.Refused? then Refused
      else
        var last := ExecuteRow(done.state, targets[|targets| - 1], env);
        if last.Refused? then Refused
          else Reverted(last.state, done.applied + last.applied, done.skipped + last.skipped)
  }

  function Targets(rows: seq<Row>, row: Row, cascade: bool): seq<Row> {
    if cascade then AppliedFrom(rows, row.subject, row.chainSeq) else [row]
  }

  predicate KnownSubjects(j: JournalDb) {
    forall r :: r in j.rows ==> r.subject in j.colls
  }

  /** undoAction: guards, executor, status flip; a throwing executor or constraint rolls everything back. */
  function UndoTx(j: JournalDb, id: ActionId, cascade: bool): (UndoOutcome, JournalDb)
    requires KnownSubjects(j)
  {
    var found := Lookup(j.rows, id);
    if found.None? then (NotFound, j)
    else
      var row := found.value;
      if row.status == Undone then (AlreadyUndone, j)
      else if row.status == Expired then (HasExpired, j)
      else
        var later := LaterCount(j.rows, row.subject, row.chainSeq);
        if later > 0 && !cascade then (CascadeRequired(later), j)
        else
          var targets := Targets(j.rows, row, cascade);
          var done := ExecuteAll(j.colls[row.subject], targets, EnvOf(j, row.subject));
          if done.Refused? then (Threw, j)
          else
            (UndoDone(done.applied, done.skipped, Ids(targets)),
             j.(rows := MarkUndone(j.rows, Ids(targets)), colls := j.colls[row.subject := done.state]))
  }

  /** Without a cutoff the sqlite statement compares a number with a text and so expires every applied row. */
  predicate PastExpiry(row: Row, cutoff: Option<nat>, sqlite: bool, now: nat) {
    if cutoff.Some? then row.expiresAt < cutoff.value else sqlite || row.expiresAt < now
  }

  predicate Expires(row: Row, cutoff: Option<nat>, sqlite: bool, now: nat) {
    row.status == Applied && PastExpiry(row, cutoff, sqlite, now)
  }

  /** Rows past the cutoff keep everything but their payload and their status; nothing else changes. */
  ghost predicate ExpireStep(j: JournalDb, u: JournalDb, cutoff: Option<nat>, sqlite: bool) {
    && u == j.(rows := u.rows) && |u.rows| == |j.rows|
    && forall i :: 0 <= i < |j.rows| ==>
         (if Expires(j.rows[i], cutoff, sqlite, j.now)
          then u.rows[i] == j.rows[i].(status := Expired, payload := None) else u.rows[i] == j.rows[i])
  }

  /** A purged node takes its memberships and exclusions with it, in every collection. */
  ghost predicate PurgeNodeStep(j: JournalDb, u: JournalDb, n: NodeId) {
    && u == j.(colls := u.colls, nodes := j.nodes - {n}, gone := j.gone + {n})
    && u.colls.Keys == j.colls.Keys
    && forall s :: s in j.colls ==> u.colls[s] == Without(j.colls[s], {n})
  }

  // ---------------------------------------------------------------- the store

  /** The mutation of a command with its recorded inverse; a constraint fails it. */
  method RunCommand(cmd: Command, c: Coll, env: Env) returns (ok: bool, d: Coll, payload: Payload)
    ensures ok <==> !CommandRefused(cmd, c, env)
    ensures ok ==> d == Do(cmd, c) && Effect(cmd, c, d)
    ensures payload == InverseOf(cmd, c)
  {
    EffectOfDo(cmd, c);
    match cmd {
      case AddItems(nodes, published) =>
        var alreadyMembers, added;
        ok, d, payload, alreadyMembers, added := RunAddItems(c, nodes, published, env);
      case RemoveItems(stored, exclude) =>
        var removed, excluded;
        payload := InverseOf(cmd, c);
        ok, d, removed, excluded := RunRemoveItems(c, stored, exclude, env);
      case _ =>
        ok, d, payload := !CommandRefused(cmd, c, env), Do(cmd, c), InverseOf(cmd, c);
    }
  }

  /** A new row is applied, carries the next number of its chain and the next id, and lasts thirty days. */
  ghost predicate RecordedAs(rows: seq<Row>, row: Row, id: ActionId, s: Subject, now: nat) {
    && row.id == id && row.subject == s && row.status == Applied && row.expiresAt == now + 30 * 24 * 60 * 60
    && (forall r :: r in rows && r.subject == s ==> r.chainSeq < row.chainSeq)
    && (row.chainSeq == 1 || exists r :: r in rows && r.subject == s && r.chainSeq == row.chainSeq - 1)
  }

  lemma NextRecorded(rows: seq<Row>, row: Row)
    requires row.status == Applied && row.chainSeq == MaxChainSeq(rows, row.subject) + 1
    requires row.expiresAt >= RETENTION
    ensures RecordedAs(rows, row, row.id, row.subject, row.expiresAt - RETENTION)
  {
    MaxChainSeqAttained(rows, row.subject);
  }

  class ActionJournalStore {
    var rows: seq<Row>
    var colls: map<Subject, Coll>
    var nodes: set<NodeId>
    var gone: set<NodeId>
    var nextId: ActionId
    var now: nat

    constructor (colls: map<Subject, Coll>, nodes: set<NodeId>)
      ensures Db() == JournalDb([], colls, nodes, {}, 1, 0)
    {
      rows, this.colls, this.nodes, gone, nextId, now := [], colls, nodes, {}, 1, 0;
    }

    ghost function Db(): JournalDb
      reads this
    {
      JournalDb(rows, colls, nodes, gone, nextId, now)
    }

    ghost predicate Valid()
      reads this
    {
      KnownSubjects(Db())
    }

    /** Runs the command and records its inverse; returns the undo pointer. */
    method CommitChange(s: Subject, cmd: Command) returns (outcome: CommitOutcome)
      requires Valid() && s in colls
      modifies this
      ensures Valid() && Db() == CommitTx(old(Db()), s, cmd)
      ensures outcome == if !Journaled(cmd, old(colls)[s]) then NothingToDo
                         else if CommandRefused(cmd, old(colls)[s], old(EnvOf(Db(), s))) then ConstraintThrew
                         else Committed(old(nextId))
      ensures outcome == NothingToDo <==> cmd.UpdateProperties? && ChangesNothing(cmd.patch, old(colls)[s])
      ensures !outcome.Committed? ==> Db() == old(Db())
      ensures outcome.Committed? ==> colls == old(colls)[s := colls[s]] && Effect(cmd, old(colls)[s], colls[s])
      ensures outcome.Committed? ==> |rows| == |old(rows)| + 1 && rows[..|old(rows)|] == old(rows)
      ensures outcome.Committed? ==> RecordedAs(old(rows), rows[|old(rows)|], old(nextId), s, now)
    {
      var c := colls[s];
      UnjournaledIff(cmd, c);
      if cmd.UpdateProperties? && PatchInverses(cmd.patch, c) == [] {
        return NothingToDo;
      }
      var ok, d, payload := RunCommand(cmd, c, Env(TakenNames(colls, s), nodes));
      if !ok {
        return ConstraintThrew;
      }
      var chainSeq := MaxChainSeq(rows, s) + 1;
      var row := Row(nextId, s, cmd, c, Some(payload), chainSeq, Applied, now + RETENTION);
      NextRecorded(rows, row);
      rows := rows + [row];
      colls := colls[s := d];
      outcome := Committed(nextId);
      nextId := nextId + 1;
    }

    method UndoAction(id: ActionId, cascade: bool) returns (outcome: UndoOutcome)
      requires Valid()
      modifies this
      ensures Valid() && (outcome, Db()) == UndoTx(old(Db()), id, cascade)
    {
      var found := Lookup(rows, id);
      if found.None? {
        return NotFound;
      }
      var row := found.value;
      if row.status == Undone {
        return AlreadyUndone;
      }
      if row.status == Expired {
        return HasExpired;
      }
      var laterCount := LaterCount(rows, row.subject, row.chainSeq);
      if laterCount > 0 && !cascade {
        return CascadeRequired(laterCount);
      }
      var targets := Targets(rows, row, cascade);
      var start, env := colls[row.subject], Env(TakenNames(colls, row.subject), nodes);
      var c, undone: nat, skipped: nat, i := start, 0, 0, 0;
      while i < |targets|
        invariant 0 <= i <= |targets|
        invariant ExecuteAll(start, targets[..i], env) == Reverted(c, undone, skipped)
        invariant Db() == old(Db())
      {
        assert targets[..i + 1][..i] == targets[..i];
        var done := Refused;
        if targets[i].payload.Some? {
          done := ApplyCollectionInverse(c, targets[i].payload.value, env);
        }
        if done.Refused? {
          RefusalStops(start, targets, env, i + 1);
          return Threw;
        }
        c, undone, skipped := done.state, undone + done.applied, skipped + done.skipped;
        i := i + 1;
      }
      assert targets[..|targets|] == targets;
      colls := colls[row.subject := c];
      rows := MarkUndone(rows, Ids(targets));
      outcome := UndoDone(undone, skipped, Ids(targets));
    }

    /**
     * Only applied rows past the cutoff lose their payload; afterwards no row is due, and for sqlite without cutoff
     * none applied.
     */
    method ExpireRows(cutoff: Option<nat>, sqlite: bool)
      requires Valid()
      modifies this`rows
      ensures Valid() && ExpireStep(old(Db()), Db(), cutoff, sqlite)
      ensures forall r :: r in rows ==> !Expires(r, cutoff, sqlite, now)
      ensures forall i :: 0 <= i < |old(rows)| ==> var row := old(rows)[i];
        if row.status == Applied && (match cutoff case Some(c) => row.expiresAt < c
                                     case None => sqlite || row.expiresAt < now)
        then rows[i] == row.(status := Expired, payload := None) else rows[i] == row
      ensures cutoff.None? && sqlite ==> forall r :: r in rows ==> r.status != Applied
      ensures Ids(rows) == Ids(old(rows))
    {
      rows := seq(|rows|, i requires 0 <= i < |rows| reads this =>
        if rows[i].status == Applied && PastExpiry(rows[i], cutoff, sqlite, now)
        then rows[i].(status := Expired, payload := None) else rows[i]);
    }

    /** The foreign keys of collection_items and collection_exclusions cascade. */
    method PurgeNode(n: NodeId)
      requires Valid()
      modifies this`colls, this`nodes, this`gone
      ensures Valid() && PurgeNodeStep(old(Db()), Db(), n)
    {
      colls := map s | s in colls :: Without(colls[s], {n});
      nodes, gone := nodes - {n}, gone + {n};
    }
  }

  lemma {:induction false} RefusalStops(c: Coll, targets: seq<Row>, env: Env, i: nat)
    requires i <= |targets| && ExecuteAll(c, targets[..i], env).Refused?
    ensures ExecuteAll(c, targets, env).Refused?
    decreases |targets| - i
  {
    if i < |targets| {
      assert targets[..i + 1][..i] == targets[..i];
      RefusalStops(c, targets, env, i + 1);
    } else {
      assert targets[..i] == targets;
    }
  }
}
