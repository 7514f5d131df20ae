/** What untimely steps lose: every one of them leads on to a lost file, and runs that take one are given. */
module BlobLosses {
  import opened Common
  import opened Tree
  import opened ObjectMap
  import opened UploadStates
  import opened Uploads
  import opened FailSafe
  import opened Gc
  import opened BlobRuns
  import opened BlobSafety

  // ---------------------------------------------------------------- lost files

  /** No purge is working on the node; in status active it has no version to download, or a version lacks its blob. */
  ghost predicate Broken(s: Sys, n: NodeId) {
    && n in s.db.nodes && !PurgeRuns(s, n)
    && ((s.db.nodes[n] == SyncActive && forall id :: IsActiveRow(s.db, n, id) ==> s.db.rows[id].key !in s.blobs)
        || !Intact(s.db, s.blobs, n))
  }

  ghost predicate FileLost(s: Sys) {
    exists n :: n !in s.db.trashed && Broken(s, n)
  }

  /** A broken file in the trash is lost once it is restored. */
  lemma BringBack(states: seq<Sys>, events: seq<Event>, n: NodeId) returns (longer: seq<Sys>, more: seq<Event>)
    requires Steps(states, events) && Broken(states[|events|], n)
    ensures Steps(longer, more) && longer[0] == states[0] && FileLost(longer[|more|])
  {
    var s := states[|events|];
    if n in s.db.trashed {
      var u := s.(db := s.db.(trashed := s.db.trashed - {n}));
      OneMore(states, events, Untrash(n), u);
      assert Broken(u, n);
      longer, more := states + [u], events + [Untrash(n)];
    } else {
      longer, more := states, events;
    }
  }

  // ---------------------------------------------------------------- from an untimely step on

  /** Two steps: a commit that activates the row `id`, and the collector's delete of its blob. */
  lemma CommitThenCollect(states: seq<Sys>, events: seq<Event>, n: NodeId, id: RowId, e: Event, w: Sys)
    returns (longer: seq<Sys>, more: seq<Event>)
    requires Steps(states, events)
    requires var s := states[|events|];
      && Next(s, e, w) && s.gc.Selected? && w.gc == s.gc && n in w.db.nodes && n !in w.jobs
      && IsActiveRow(w.db, n, id) && w.db.rows[id].key in s.gc.keys
    ensures Steps(longer, more) && longer[0] == states[0] && FileLost(longer[|more|])
  {
    var key := w.db.rows[id].key;
    OneMore(states, events, e, w);
    var v := w.(blobs := w.blobs - {key});
    OneMore(states + [w], events + [e], DeleteSelectedBlob(key), v);
    assert !Intact(v.db, v.blobs, n);
    longer, more := BringBack(states + [w] + [v], events + [e] + [DeleteSelectedBlob(key)], n);
  }

  lemma ActivatedAt(db: Db, n: NodeId, id: RowId, key: Key, size: nat, mime: string)
    requires id in db.rows && db.rows[id].node == n && db.rows[id].key == key && db.rows[id].status == Pending
      && n in db.nodes
    ensures var u := CompleteTx(db, n, key, size, mime);
      IsActiveRow(u, n, id) && u.rows[id].key == key && n in u.nodes
  {
  }

  /** A repair that probed a selected row commits, and the collector deletes the blob. */
  lemma CompletingLost(u: Sys, n: NodeId, id: RowId) returns (states: seq<Sys>, events: seq<Event>)
    requires n in u.jobs && u.jobs[n].Completing? && u.jobs[n].id == id && JobOk(u, n)
    requires u.gc.Selected? && u.db.rows[id].key in u.gc.keys
    ensures Steps(states, events) && states[0] == u && FileLost(states[|events|])
  {
    var job := u.jobs[n];
    var w := EndJob(u.(db := CompleteTx(u.db, n, job.s3Key, job.size, job.mime)), n);
    ActivatedAt(u.db, n, id, job.s3Key, job.size, job.mime);
    states, events := CommitThenCollect([u], [], n, id, RepairCommit(n), w);
  }

  /** A selected upload goes on to its end, and the collector deletes the blob. */
  lemma UploadLost(u: Sys, n: NodeId, id: RowId) returns (states: seq<Sys>, events: seq<Event>)
    requires Uploading(u, n) && n in u.db.nodes && u.gc.Selected?
    requires id in u.db.rows && u.db.rows[id].node == n && u.db.rows[id].status == Pending
    requires u.jobs[n].key == Some(u.db.rows[id].key) && u.db.rows[id].key in u.gc.keys
    ensures Steps(states, events) && states[0] == u && FileLost(states[|events|])
  {
    var key, blob := u.db.rows[id].key, Blob([], "");
    var a := SetJob(u.(blobs := u.blobs[key := blob]), n, u.jobs[n].(put := true));
    assert UploadNext(u, Put(n, blob, true), a);
    OneMore([u], [], Put(n, blob, true), a);
    var w := EndJob(a.(db := CompleteTx(a.db, n, key, 0, "")), n);
    assert id in ByKey(a.db.rows, key);
    ActivatedAt(a.db, n, id, key, 0, "");
    states, events := CommitThenCollect([u] + [a], [] + [Put(n, blob, true)], n, id, Finish(n, 0, ""), w);
  }

  /** The key of an upload in progress is that of its node's pending row. */
  lemma UploadKey(s: Sys, id: RowId)
    requires SysInv(s) && id in s.db.rows && s.db.rows[id].status == Pending && Uploading(s, s.db.rows[id].node)
    ensures s.jobs[s.db.rows[id].node].key == Some(s.db.rows[id].key) && s.db.rows[id].node in s.db.nodes
  {
    var n := s.db.rows[id].node;
    assert JobOk(s, n);
    assert s.jobs[n].key.Some?;
    assert HasPending(s.db, n, s.jobs[n].key.value);
  }

  lemma SelectionLost(s: Sys, ids: set<RowId>, u: Sys) returns (states: seq<Sys>, events: seq<Event>)
    requires SysInv(s) && CollectNext(s, SelectRows(ids), u) && !Timely(s, SelectRows(ids))
    ensures Steps(states, events) && states[0] == u && FileLost(states[|events|])
  {
    var id :| id in ids && id in s.db.rows && s.db.rows[id].status == Pending && NeedsPending(s, s.db.rows[id].node);
    var n := s.db.rows[id].node;
    assert s.db.rows[id].key in u.gc.keys;
    if Uploading(s, n) {
      UploadKey(s, id);
      states, events := UploadLost(u, n, id);
    } else {
      assert JobOk(s, n);
      OnlyPending(s.db, n, id);
      assert s.jobs[n].id in OfStatus(s.db.rows, n, Pending);
      assert JobOk(u, n);
      states, events := CompletingLost(u, n, id);
    }
  }

  /** A restore, or the end of a purge, leaves a live file with a version lost at once. */
  lemma HurtIsLost(s: Sys, u: Sys, n: NodeId)
    requires SysInv(s) && n in s.hurt && u.db.rows == s.db.rows && u.db.nodes == s.db.nodes && u.blobs == s.blobs
    requires n !in u.jobs && n !in u.db.trashed
    ensures FileLost(u)
  {
    assert HurtOk(s, n);
    var id :| LostRow(s, n, id);
    assert !Intact(u.db, u.blobs, n);
    assert Broken(u, n);
  }

  /** After an untimely step a file is lost, or a few more steps lose one. */
  lemma UntimelyLosesAFile(s: Sys, e: Event, u: Sys) returns (states: seq<Sys>, events: seq<Event>)
    requires SysInv(s) && Next(s, e, u) && !Timely(s, e)
    ensures Steps(states, events) && states[0] == u && FileLost(states[|events|])
  {
    states, events := [u], [];
    match e
    case SelectRows(ids) => states, events := SelectionLost(s, ids, u);
    case RepairProbe(n, id) => states, events := ProbeLost(s, u, n, id);
    case Untrash(n) => UntrashLost(s, u, n);
    case Stop(n) => StopLost(s, u, n);
  }

  lemma UntrashLost(s: Sys, u: Sys, n: NodeId)
    requires SysInv(s) && TrashNext(s, Untrash(n), u) && !Timely(s, Untrash(n))
    ensures FileLost(u)
  {
    assert HurtOk(s, n);
    HurtIsLost(s, u, n);
  }

  lemma StopLost(s: Sys, u: Sys, n: NodeId)
    requires SysInv(s) && UploadNext(s, Stop(n), u) && !Timely(s, Stop(n))
    ensures FileLost(u)
  {
    HurtIsLost(s, u, n);
  }

  lemma ProbeLost(s: Sys, u: Sys, n: NodeId, id: RowId) returns (states: seq<Sys>, events: seq<Event>)
    requires SysInv(s) && RepairNext(s, RepairProbe(n, id), u) && !Timely(s, RepairProbe(n, id))
    ensures Steps(states, events) && states[0] == u && FileLost(states[|events|])
  {
    assert JobOk(u, n);
    assert s.db.rows[id].key in s.gc.keys;
    states, events := CompletingLost(u, n, id);
  }

  // ---------------------------------------------------------------- runs that get there

  /** The row of the first upload, of node 1 under key 5. */
  ghost function FirstRow(status: RowStatus, size: Option<nat>): ObjRow {
    ObjRow(1, 5, NextVersion(map[], 1), status, size, 0)
  }

  /** Node 1 with that row as its only one. */
  ghost function FirstDb(status: SyncStatus, rows: Rows, cache: map<NodeId, CacheRow>, trashed: set<NodeId>): Db {
    Db(map[1 := status], rows, cache, 1, trashed)
  }

  lemma FirstPrepare(db: Db)
    requires db == Db(map[1 := PendingUpload], map[], map[], 0, {})
    ensures PrepareTx(db, 1, 5, 0, 0) == FirstDb(PendingUpload, map[0 := FirstRow(Pending, None)], map[], {})
  {
    assert Demote(db.rows, 1) == map[];
    var u := Upsert(db, 1, 5, Pending, None, 0);
    assert Evict(u.rows, 1, 0) == u.rows;
  }

  lemma FirstComplete(rows: Rows)
    requires rows == map[0 := FirstRow(Pending, None)]
    ensures CompleteTx(FirstDb(PendingUpload, rows, map[], {}), 1, 5, 0, "")
      == FirstDb(SyncActive, map[0 := FirstRow(Active, Some(0))], map[1 := CacheRow(0, "", None)], {})
  {
    assert Activate(rows, 5, 0) == map[0 := FirstRow(Active, Some(0))];
  }

  /** Create and prepare node 1. */
  lemma FirstTwo() returns (states: seq<Sys>, events: seq<Event>)
    ensures IsRun(states, events) && events == [Create(1), Prepare(1, 5, 0, 0)]
    ensures TimelyAt(states, events, 0) && TimelyAt(states, events, 1)
    ensures states[2] == Sys(FirstDb(PendingUpload, map[0 := FirstRow(Pending, None)], map[], {}), map[], {5},
                             map[1 := Upload(Some(5), None, false)], {}, Idle)
  {
    var s0, s1 := EmptySys(), Created();
    var s2 := Sys(FirstDb(PendingUpload, map[0 := FirstRow(Pending, None)], map[], {}), map[], {5},
      map[1 := Upload(Some(5), None, false)], {}, Idle);
    FirstCreate();
    FirstPrepareStep(s2);
    states, events := [s0, s1, s2], [Create(1), Prepare(1, 5, 0, 0)];
    assert StepAt(states, events, 0) && StepAt(states, events, 1);
  }

  ghost function Created(): Sys {
    Sys(Db(map[1 := PendingUpload], map[], map[], 0, {}), map[], {}, map[1 := Upload(None, None, false)], {}, Idle)
  }

  lemma FirstCreate()
    ensures Next(EmptySys(), Create(1), Created())
  {
  }

  lemma FirstPrepareStep(u: Sys)
    requires u == Sys(FirstDb(PendingUpload, map[0 := FirstRow(Pending, None)], map[], {}), map[], {5},
                      map[1 := Upload(Some(5), None, false)], {}, Idle)
    ensures Next(Created(), Prepare(1, 5, 0, 0), u)
  {
    FirstPrepare(Created().db);
  }

  /**
   * An upload begins and, while it still runs, its pending row counts as stale. (The selection takes pending rows older
   * than the stale cutoff, so the upload must have been running for that long.)
   */
  lemma UntimelyIsReachable() returns (states: seq<Sys>, events: seq<Event>, e: Event, u: Sys)
    ensures IsRun(states, events) && |events| == 2 && TimelyAt(states, events, 0) && TimelyAt(states, events, 1)
    ensures Next(states[2], e, u) && !Timely(states[2], e)
  {
    states, events := FirstTwo();
    e := SelectRows({0});
    u := states[2].(gc := Selected({0}, KeysOf(states[2].db.rows, {0})));
  }

  /** One more step of a run from its last state, known to be `s`. */
  lemma Step(states: seq<Sys>, events: seq<Event>, s: Sys, e: Event, u: Sys)
    returns (longer: seq<Sys>, more: seq<Event>)
    requires IsRun(states, events) && states[|events|] == s && Next(s, e, u)
    ensures IsRun(longer, more) && more == events + [e] && longer == states + [u] && longer[|more|] == u
  {
    OneMore(states, events, e, u);
    longer, more := states + [u], events + [e];
  }

  ghost function FirstEvents(): seq<Event> {
    [Create(1), Prepare(1, 5, 0, 0)] + [Put(1, Blob([], ""), true)]
  }

  /** The upload of node 1 has its blob under key 5 in the bucket. */
  lemma FirstThree() returns (states: seq<Sys>, events: seq<Event>, s: Sys)
    ensures IsRun(states, events) && states[|events|] == s && events == FirstEvents()
    ensures s == Sys(FirstDb(PendingUpload, map[0 := FirstRow(Pending, None)], map[], {}), map[5 := Blob([], "")], {5},
                     map[1 := Upload(Some(5), None, true)], {}, Idle)
  {
    states, events := FirstTwo();
    s := Sys(states[2].db, map[5 := Blob([], "")], {5}, map[1 := Upload(Some(5), None, true)], {}, Idle);
    assert UploadNext(states[2], Put(1, Blob([], ""), true), s);
    states, events := Step(states, events, states[2], Put(1, Blob([], ""), true), s);
  }

  /**
   * The process dies after the PUT. A repair reads the pending row and probes the blob; Tier 1, whose selection comes
   * after the probe, deletes both; then the repair commits: the node is in status active without any row.
   */
  lemma RepairOvertaken() returns (states: seq<Sys>, events: seq<Event>)
    ensures IsRun(states, events)
    ensures events == FirstEvents() + [Stop(1)] + [RepairProbe(1, 0)] + [SelectRows({0})] + [DeleteSelectedBlob(5)]
      + [DeleteSelectedRows({})] + [RepairCommit(1)]
    ensures var s := states[|events|]; s.db.nodes == map[1 := SyncActive] && s.db.rows == map[] && FileLost(s)
  {
    var s: Sys;
    states, events, s := FirstThree();
    var a := s.(jobs := map[]);
    assert UploadNext(s, Stop(1), a);
    states, events := Step(states, events, s, Stop(1), a);
    var b := a.(jobs := map[1 := Completing(0, 5, 0, "")]);
    assert 0 in OfStatus(a.db.rows, 1, Pending) && RepairNext(a, RepairProbe(1, 0), b);
    states, events := Step(states, events, a, RepairProbe(1, 0), b);
    states, events := OvertakenCollect(states, events, b);
  }

  /** Tier 1 selects the row, deletes the blob and the row. */
  lemma OvertakenCollect(states: seq<Sys>, events: seq<Event>, b: Sys) returns (longer: seq<Sys>, more: seq<Event>)
    requires IsRun(states, events) && states[|events|] == b && b.jobs == map[1 := Completing(0, 5, 0, "")]
    requires b.db == FirstDb(PendingUpload, map[0 := FirstRow(Pending, None)], map[], {}) && b.gc == Idle
    requires b.blobs.Keys == {5}
    ensures IsRun(longer, more)
    ensures more == events + [SelectRows({0})] + [DeleteSelectedBlob(5)] + [DeleteSelectedRows({})] + [RepairCommit(1)]
    ensures var u := longer[|more|]; u.db.nodes == map[1 := SyncActive] && u.db.rows == map[] && FileLost(u)
  {
    var c := b.(gc := Selected({0}, KeysOf(b.db.rows, {0})));
    assert CollectNext(b, SelectRows({0}), c);
    longer, more := Step(states, events, b, SelectRows({0}), c);
    var d := c.(blobs := c.blobs - {5});
    assert b.db.rows[0].key == 5 && CollectNext(c, DeleteSelectedBlob(5), d);
    longer, more := Step(longer, more, c, DeleteSelectedBlob(5), d);
    var f := d.(db := d.db.(rows := DeleteRows(d.db.rows, {0} - {})), gc := Idle);
    assert CollectNext(d, DeleteSelectedRows({}), f);
    longer, more := Step(longer, more, d, DeleteSelectedRows({}), f);
    assert f.db.rows == map[];
    longer, more := OvertakenCommit(longer, more, f);
  }

  lemma OvertakenCommit(states: seq<Sys>, events: seq<Event>, s: Sys) returns (longer: seq<Sys>, more: seq<Event>)
    requires IsRun(states, events) && states[|events|] == s && s.jobs == map[1 := Completing(0, 5, 0, "")]
    requires s.db.nodes == map[1 := PendingUpload] && s.db.rows == map[] && s.db.trashed == {}
    ensures IsRun(longer, more) && more == events + [RepairCommit(1)]
    ensures var u := longer[|more|]; u.db.nodes == map[1 := SyncActive] && u.db.rows == map[] && FileLost(u)
  {
    var u := EndJob(s.(db := CompleteTx(s.db, 1, 5, 0, "")), 1);
    assert Activate(s.db.rows, 5, 0) == map[];
    assert Broken(u, 1);
    longer, more := Step(states, events, s, RepairCommit(1), u);
  }

  /**
   * A file goes to the trash and a purge deletes its blob, but not its rows: the delete fails or the process stops.
   * Then the file is restored, in status active, and cannot be downloaded.
   */
  lemma FailedPurgeLosesAFile() returns (states: seq<Sys>, events: seq<Event>)
    ensures IsRun(states, events)
    ensures events == FirstEvents() + [Finish(1, 0, "")] + [Trash(1)] + [PurgeRead(1)] + [PurgeBlob(1, 5)] + [Stop(1)]
      + [Untrash(1)]
    ensures FileLost(states[|events|])
  {
    var s: Sys;
    states, events, s := FirstThree();
    var db := FirstDb(SyncActive, map[0 := FirstRow(Active, Some(0))], map[1 := CacheRow(0, "", None)], {});
    var a := s.(db := db, jobs := map[]);
    FirstComplete(s.db.rows);
    assert 0 in ByKey(s.db.rows, 5) && UploadNext(s, Finish(1, 0, ""), a);
    states, events := Step(states, events, s, Finish(1, 0, ""), a);
    var b := a.(db := a.db.(trashed := {1}));
    assert TrashNext(a, Trash(1), b);
    states, events := Step(states, events, a, Trash(1), b);
    states, events := FailedPurge(states, events, b);
  }

  lemma FirstKeys(db: Db)
    requires db.rows == map[0 := FirstRow(Active, Some(0))]
    ensures NodeKeys(db, 1) == {5} && VersionUnder(db, 1, 5)
  {
    assert 0 in db.rows && db.rows[0].node == 1 && db.rows[0].key == 5;
  }

  lemma FailedPurge(states: seq<Sys>, events: seq<Event>, b: Sys) returns (longer: seq<Sys>, more: seq<Event>)
    requires IsRun(states, events) && states[|events|] == b && b.jobs == map[] && b.blobs.Keys == {5} && b.hurt == {}
    requires b.db.rows == map[0 := FirstRow(Active, Some(0))] && b.db.nodes == map[1 := SyncActive]
      && b.db.trashed == {1}
    ensures IsRun(longer, more) && FileLost(longer[|more|])
    ensures more == events + [PurgeRead(1)] + [PurgeBlob(1, 5)] + [Stop(1)] + [Untrash(1)]
  {
    var c := b.(jobs := map[1 := Purging({5})]);
    FirstKeys(b.db);
    assert TrashNext(b, PurgeRead(1), c);
    longer, more := Step(states, events, b, PurgeRead(1), c);
    var d := c.(blobs := c.blobs - {5}, hurt := {1}, jobs := map[1 := Purging({})]);
    assert {5} - {5} == {};
    assert TrashNext(c, PurgeBlob(1, 5), d);
    longer, more := Step(longer, more, c, PurgeBlob(1, 5), d);
    var f := d.(jobs := map[]);
    assert UploadNext(d, Stop(1), f);
    longer, more := Step(longer, more, d, Stop(1), f);
    var g := f.(db := f.db.(trashed := {}));
    assert TrashNext(f, Untrash(1), g);
    longer, more := Step(longer, more, f, Untrash(1), g);
    assert Broken(g, 1);
  }
}
