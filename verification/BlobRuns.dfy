/** Uploads, repairs, trash, purges and garbage collection of many nodes, interleaved in any order. */
module BlobRuns {
  import opened Common
  import opened Tree
  import opened ObjectMap
  import opened UploadStates
  import opened Uploads
  import opened FailSafe
  import opened Gc

  // ---------------------------------------------------------------- the system

  /**
   * What a request on a node has read or done so far; a node has one such request at a time.
   * An upload: its key, the row it demoted, and whether its blob has landed. Cleaning: only blob deletes are left.
   * Repairs between their reads and their transaction: completing the probed row, restoring the last good row,
   * dropping the node. Purging: the keys read and not yet deleted.
   */
  datatype Job =
    | Upload(key: Option<Key>, prev: Option<RowId>, put: bool)
    | Cleaning(keys: set<Key>)
    | Completing(id: RowId, s3Key: Key, size: nat, mime: string)
    | Restoring(last: RowId, pending: set<RowId>, keys: set<Key>)
    | Dropping(keys: set<Key>)
    | Purging(keys: set<Key>)

  /** Where the collector stands: Tier 1 between select and row delete, Tier 2 between list and last delete. */
  datatype GcState =
    | Idle
    | Selected(ids: set<RowId>, keys: set<Key>)
    | Listed(keys: set<Key>)
    | Deleting(keys: set<Key>)

  /** `hurt` are the nodes still there of which a purge has deleted the blob of an active or managed version. */
  datatype Sys = Sys(db: Db, blobs: Blobs, used: set<Key>, jobs: map<NodeId, Job>, hurt: set<NodeId>, gc: GcState)

  datatype Event =
    | Create(n: NodeId)
    | Prepare(n: NodeId, key: Key, cap: nat, now: nat)
    | Begin(n: NodeId, prev: RowId, key: Key, cap: nat, now: nat)
    | Put(n: NodeId, blob: Blob, complete: bool)
    | Finish(n: NodeId, size: nat, mime: string)
    | Rollback(n: NodeId)
    | RollbackFails(n: NodeId)
    | RemoveNew(n: NodeId)
    | CleanBlobs(n: NodeId)
    | Stop(n: NodeId)
    | RepairProbe(n: NodeId, id: RowId)
    | RepairCommit(n: NodeId)
    | RepairRead(n: NodeId, last: RowId)
    | RepairRestore(n: NodeId)
    | RepairDrop(n: NodeId)
    | RepairDropBlobs(n: NodeId)
    | RepairDelete(n: NodeId)
    | RestoreVersion(n: NodeId, current: RowId, target: RowId)
    | Trash(n: NodeId)
    | Untrash(n: NodeId)
    | PurgeRead(n: NodeId)
    | PurgeBlob(n: NodeId, key: Key)
    | PurgeRows(n: NodeId)
    | SelectRows(ids: set<RowId>)
    | DeleteSelectedBlob(key: Key)
    | DeleteSelectedRows(survivors: set<RowId>)
    | ListKeys(keys: set<Key>)
    | ReadKeptSet
    | DeleteListed(key: Key)
    | EndPass
  {
    predicate Repairs() {
      RepairProbe? || RepairCommit? || RepairRead? || RepairRestore? || RepairDrop? || RepairDropBlobs?
        || RepairDelete? || RestoreVersion?
    }

    predicate Trashes() { Trash? || Untrash? || PurgeRead? || PurgeBlob? || PurgeRows? }

    predicate Collects() {
      SelectRows? || DeleteSelectedBlob? || DeleteSelectedRows? || ListKeys? || ReadKeptSet? || DeleteListed?
        || EndPass?
    }
  }

  ghost predicate Uploading(s: Sys, n: NodeId) {
    n in s.jobs && s.jobs[n].Upload?
  }

  ghost predicate PurgeRuns(s: Sys, n: NodeId) {
    n in s.jobs && s.jobs[n].Purging?
  }

  /** The request on `n` counts on its pending row. */
  ghost predicate NeedsPending(s: Sys, n: NodeId) {
    n in s.jobs && (s.jobs[n].Upload? || s.jobs[n].Completing?)
  }

  /** A live node in that status without a request in progress. */
  ghost predicate Settled(s: Sys, n: NodeId, status: SyncStatus) {
    n in s.db.nodes && n !in s.db.trashed && s.db.nodes[n] == status && n !in s.jobs
  }

  ghost function NodeKeys(db: Db, n: NodeId): set<Key> {
    set id | id in db.rows && db.rows[id].node == n :: db.rows[id].key
  }

  ghost predicate SelectedByTier1(s: Sys, id: RowId) {
    s.gc.Selected? && id in s.gc.ids
  }

  /** An active or managed version of `n` lies under the key. */
  ghost predicate VersionUnder(db: Db, n: NodeId, key: Key) {
    exists id :: id in db.rows && db.rows[id].node == n && db.rows[id].key == key
      && db.rows[id].status in {Active, History}
  }

  ghost function SetJob(s: Sys, n: NodeId, job: Job): Sys {
    s.(jobs := s.jobs[n := job])
  }

  ghost function EndJob(s: Sys, n: NodeId): Sys {
    s.(jobs := s.jobs - {n})
  }

  /** One step of an upload; any request may also stop for good, because it throws or its process dies. */
  ghost predicate UploadNext(s: Sys, e: Event, u: Sys)
    requires !e.Repairs() && !e.Trashes() && !e.Collects()
  {
    match e
    case Create(n) =>
      n !in s.db.nodes && n !in s.jobs && n !in s.hurt && n !in s.db.trashed
      && u == SetJob(s.(db := s.db.(nodes := s.db.nodes[n := PendingUpload])), n, Upload(None, None, false))
    case Prepare(n, key, cap, now) =>
      Uploading(s, n) && s.jobs[n].key.None? && key !in s.used
      && u == SetJob(s.(db := PrepareTx(s.db, n, key, cap, now), used := s.used + {key}), n,
        Upload(Some(key), None, false))
    case Begin(n, prev, key, cap, now) =>
      Settled(s, n, SyncActive) && IsActiveRow(s.db, n, prev) && key !in s.used
      && u == SetJob(s.(db := BeginTx(s.db, n, key, cap, now), used := s.used + {key}), n,
        Upload(Some(key), Some(prev), false))
    case Put(n, blob, complete) =>
      Uploading(s, n) && s.jobs[n].key.Some?
      && u == SetJob(s.(blobs := s.blobs[s.jobs[n].key.value := blob]), n,
        s.jobs[n].(put := s.jobs[n].put || complete))
    case Finish(n, size, mime) =>
      Uploading(s, n) && s.jobs[n].put && s.jobs[n].key.Some? && ByKey(s.db.rows, s.jobs[n].key.value) != {}
      && u == EndJob(s.(db := CompleteTx(s.db, n, s.jobs[n].key.value, size, mime)), n)
    case Rollback(n) =>
      Uploading(s, n) && s.jobs[n].prev.Some? && s.jobs[n].key.Some?
      && u == SetJob(s.(db := RollbackTx(s.db, n, s.jobs[n].prev, s.jobs[n].key.value)), n,
        Cleaning({s.jobs[n].key.value}))
    case RollbackFails(n) =>
      Uploading(s, n) && s.jobs[n].prev.Some? && s.jobs[n].key.Some?
      && u == SetJob(s, n, Cleaning({s.jobs[n].key.value}))
    case RemoveNew(n) =>
      Uploading(s, n) && s.jobs[n].prev.None? && u == EndJob(s.(db := RemoveNode(s.db, n)), n)
    case CleanBlobs(n) =>
      n in s.jobs && s.jobs[n].Cleaning? && u == EndJob(s.(blobs := s.blobs - s.jobs[n].keys), n)
    case Stop(n) => u == EndJob(s, n)
  }

  /**
   * One step of a repair or a version restore. Repairs read the rows, and the blob where they complete an upload,
   * before their transaction, which then acts on what was read. At most one row of a node is pending, so the rows
   * read as pending are that one or none.
   */
  ghost predicate RepairNext(s: Sys, e: Event, u: Sys)
    requires e.Repairs()
  {
    match e
    case RepairProbe(n, id) =>
      Settled(s, n, PendingUpload) && id in OfStatus(s.db.rows, n, Pending) && s.db.rows[id].key in s.blobs
      && var head := s.blobs[s.db.rows[id].key];
         u == SetJob(s, n, Completing(id, s.db.rows[id].key, |head.bytes|, head.mime))
    case RepairCommit(n) =>
      n in s.jobs && s.jobs[n].Completing?
      && u == EndJob(s.(db := CompleteTx(s.db, n, s.jobs[n].s3Key, s.jobs[n].size, s.jobs[n].mime)), n)
    case RepairRead(n, last) =>
      Settled(s, n, PendingUpload) && IsLastGood(s.db.rows, n, last)
      && u == SetJob(s, n, Restoring(last, OfStatus(s.db.rows, n, Pending), PendingKeys(s.db, n)))
    case RepairRestore(n) =>
      n in s.jobs && s.jobs[n].Restoring?
      && u == SetJob(s.(db := RestoreTx(s.db, n, s.jobs[n].last, s.jobs[n].pending)), n, Cleaning(s.jobs[n].keys))
    case RepairDrop(n) =>
      Settled(s, n, PendingUpload) && u == SetJob(s, n, Dropping(PendingKeys(s.db, n)))
    case RepairDropBlobs(n) =>
      n in s.jobs && s.jobs[n].Dropping? && u == SetJob(s.(blobs := s.blobs - s.jobs[n].keys), n, Dropping({}))
    case RepairDelete(n) =>
      n in s.jobs && s.jobs[n].Dropping? && u == EndJob(s.(db := RemoveNode(s.db, n)), n)
    case RestoreVersion(n, current, target) =>
      Settled(s, n, SyncActive) && IsActiveRow(s.db, n, current) && target in HistoryOf(s.db.rows, n)
      && s.db.rows[target].key in s.blobs
      && u == s.(db := s.db.(rows := Swapped(s.db.rows, current, target)))
  }

  /**
   * One step of the trash: the stamp and its removal, at any time; a purge, of a trashed node or a live one, reads the
   * rows, deletes blob by blob, and then, if it comes to that, the rows. Blob deletes that fail are left out.
   */
  ghost predicate TrashNext(s: Sys, e: Event, u: Sys)
    requires e.Trashes()
  {
    match e
    case Trash(n) =>
      n in s.db.nodes && n !in s.db.trashed && u == s.(db := s.db.(trashed := s.db.trashed + {n}))
    case Untrash(n) => n in s.db.trashed && u == s.(db := s.db.(trashed := s.db.trashed - {n}))
    case PurgeRead(n) =>
      n in s.db.nodes && n !in s.jobs && u == SetJob(s, n, Purging(NodeKeys(s.db, n)))
    case PurgeBlob(n, key) =>
      PurgeRuns(s, n) && key in s.jobs[n].keys
      && u == SetJob(s.(blobs := s.blobs - {key},
        hurt := if VersionUnder(s.db, n, key) then s.hurt + {n} else s.hurt), n, Purging(s.jobs[n].keys - {key}))
    case PurgeRows(n) =>
      PurgeRuns(s, n) && u == EndJob(s.(db := RemoveNode(s.db, n), hurt := s.hurt - {n}), n)
  }

  ghost predicate CollectNext(s: Sys, e: Event, u: Sys)
    requires e.Collects()
  {
    match e
    case SelectRows(ids) =>
      s.gc.Idle? && (forall id :: id in ids ==> Selectable(s.db, id))
        && u == s.(gc := Selected(ids, KeysOf(s.db.rows, ids)))
    case DeleteSelectedBlob(key) =>
      s.gc.Selected? && key in s.gc.keys && u == s.(blobs := s.blobs - {key})
    case DeleteSelectedRows(survivors) =>
      s.gc.Selected? && u == s.(db := s.db.(rows := DeleteRows(s.db.rows, s.gc.ids - survivors)), gc := Idle)
    case ListKeys(keys) => s.gc.Idle? && keys <= s.blobs.Keys && u == s.(gc := Listed(keys))
    case ReadKeptSet => s.gc.Listed? && u == s.(gc := Deleting(s.gc.keys - KeptObjectKeys(s.db)))
    case DeleteListed(key) => s.gc.Deleting? && key in s.gc.keys && u == s.(blobs := s.blobs - {key})
    case EndPass => (s.gc.Listed? || s.gc.Deleting?) && u == s.(gc := Idle)
  }

  /**
   * One step: one database transaction or one bucket call, with the reads right before it. A probe that finds the blob
   * counts as part of the row read before it, since the blob was there then too.
   */
  ghost predicate Next(s: Sys, e: Event, u: Sys) {
    if e.Repairs() then RepairNext(s, e, u)
    else if e.Trashes() then TrashNext(s, e, u)
    else if e.Collects() then CollectNext(s, e, u)
    else UploadNext(s, e, u)
  }

  /** The transaction of restore-previous, with the rows read before it. */
  ghost function RestoreTx(db: Db, n: NodeId, last: RowId, pending: set<RowId>): Db {
    SetSync(db.(rows := DeleteRows(Reactivate(db.rows, last), pending)), n, SyncActive)
  }

  function Swapped(rows: Rows, current: RowId, target: RowId): Rows
    requires current in rows && target in rows
  {
    rows[target := rows[target].(status := Active)][current := rows[current].(status := History)]
  }

  /**
   * Tier 1 selects no pending row an upload or a completing repair counts on, and no repair probes a row it has
   * selected; no node is restored from the trash, and no purge of a live node stops, when the purge has deleted the
   * blob of a version and left the rows.
   */
  ghost predicate Timely(s: Sys, e: Event) {
    match e
    case SelectRows(ids) => forall id :: id in ids && id in s.db.rows && s.db.rows[id].status == Pending ==>
      !NeedsPending(s, s.db.rows[id].node)
    case RepairProbe(_, id) => !SelectedByTier1(s, id)
    case Untrash(n) => n in s.hurt ==> PurgeRuns(s, n)
    case Stop(n) => n in s.hurt && PurgeRuns(s, n) ==> n in s.db.trashed
    case _ => true
  }

  // ---------------------------------------------------------------- runs

  ghost predicate StepAt(states: seq<Sys>, events: seq<Event>, i: nat)
    requires i < |events| && i + 1 < |states|
  {
    Next(states[i], events[i], states[i + 1])
  }

  ghost predicate TimelyAt(states: seq<Sys>, events: seq<Event>, i: nat)
    requires i < |events| && i < |states|
  {
    Timely(states[i], events[i])
  }

  ghost predicate Steps(states: seq<Sys>, events: seq<Event>) {
    |states| == |events| + 1 && forall i: nat :: i < |events| ==> StepAt(states, events, i)
  }

  ghost function EmptySys(): Sys {
    Sys(Db(map[], map[], map[], 0, {}), map[], {}, map[], {}, Idle)
  }

  /** From the empty system, any steps in any order. */
  ghost predicate IsRun(states: seq<Sys>, events: seq<Event>) {
    Steps(states, events) && states[0] == EmptySys()
  }

  lemma OneMore(states: seq<Sys>, events: seq<Event>, e: Event, u: Sys)
    requires Steps(states, events) && Next(states[|events|], e, u)
    ensures Steps(states + [u], events + [e])
  {
    forall i: nat | i < |events + [e]| ensures StepAt(states + [u], events + [e], i) {
      if i < |events| {
        assert StepAt(states, events, i);
      }
    }
  }

  // ---------------------------------------------------------------- the invariant

  ghost predicate HasPending(db: Db, n: NodeId, key: Key) {
    exists id :: id in db.rows && db.rows[id].node == n && db.rows[id].key == key && db.rows[id].status == Pending
  }

  /** The version an overwrite can fall back to: demoted or evicted, its blob there, not selected by Tier 1. */
  ghost predicate LastGood(s: Sys, n: NodeId, p: RowId) {
    && p in s.db.rows && s.db.rows[p].node == n && s.db.rows[p].status in {History, Orphaned}
    && s.db.rows[p].key in s.blobs && !SelectedByTier1(s, p)
  }

  ghost predicate Waiting(db: Db, n: NodeId) {
    n in db.nodes && db.nodes[n] == PendingUpload
  }

  /** No row but pending ones of `n` refers to the keys. */
  ghost predicate DeadKeys(s: Sys, n: NodeId, keys: set<Key>) {
    keys <= s.used && forall id :: id in s.db.rows && s.db.rows[id].key in keys ==>
      s.db.rows[id].node == n && s.db.rows[id].status == Pending
  }

  ghost predicate UploadOk(s: Sys, n: NodeId, key: Option<Key>, prev: Option<RowId>, put: bool) {
    && Waiting(s.db, n)
    && (key.Some? ==> key.value in s.used && HasPending(s.db, n, key.value))
    && (key.None? ==> prev.None? && !put && forall id :: id in s.db.rows ==> s.db.rows[id].node != n)
    && (put ==> key.Some? && key.value in s.blobs)
    && (prev.Some? ==> LastGood(s, n, prev.value))
  }

  /** What was read or done still holds. */
  ghost predicate JobOk(s: Sys, n: NodeId)
    requires n in s.jobs
  {
    match s.jobs[n]
    case Upload(key, prev, put) => UploadOk(s, n, key, prev, put)
    case Cleaning(keys) => DeadKeys(s, n, keys)
    case Completing(id, key, size, mime) =>
      && Waiting(s.db, n) && key in s.blobs
      && id in s.db.rows && s.db.rows[id].node == n && s.db.rows[id].key == key && s.db.rows[id].status == Pending
    case Restoring(last, pending, keys) =>
      && Waiting(s.db, n) && last in HistoryOf(s.db.rows, n) && DeadKeys(s, n, keys)
      && OfStatus(s.db.rows, n, Pending) <= pending
      && forall id :: id in pending ==>
           id < s.db.nextRow && (id in s.db.rows ==> id in OfStatus(s.db.rows, n, Pending))
    case Dropping(keys) => DeadKeys(s, n, keys)
    case Purging(keys) =>
      keys <= s.used && forall id :: id in s.db.rows && s.db.rows[id].key in keys ==> s.db.rows[id].node == n
  }

  /** An active or managed version of `n` has lost its blob. */
  ghost predicate LostRow(s: Sys, n: NodeId, id: RowId) {
    id in s.db.rows && s.db.rows[id].node == n && s.db.rows[id].status in {Active, History}
    && s.db.rows[id].key !in s.blobs
  }

  /** A hurt node has lost a version, and sits in the trash unless the purge still runs. */
  ghost predicate HurtOk(s: Sys, n: NodeId) {
    && n in s.db.nodes
    && (if n in s.jobs then s.jobs[n].Purging? else n in s.db.trashed)
    && exists id :: LostRow(s, n, id)
  }

  /** Every active and managed version has its blob, but where a purge has begun to take them. */
  ghost predicate GoodBlobs(s: Sys) {
    forall id :: id in s.db.rows && s.db.rows[id].status in {Active, History} && s.db.rows[id].node !in s.hurt ==>
      s.db.rows[id].key in s.blobs
  }

  ghost predicate KeysUsed(s: Sys) {
    s.blobs.Keys <= s.used && forall id :: id in s.db.rows ==> s.db.rows[id].key in s.used
  }

  /** What the collector is about to delete belongs to rows that cannot come back, or to no row at all. */
  ghost predicate GcOk(s: Sys) {
    match s.gc
    case Idle => true
    case Selected(ids, keys) =>
      && keys <= s.used && (forall id :: id in ids ==> id < s.db.nextRow)
      && forall id :: id in s.db.rows && (id in ids || s.db.rows[id].key in keys) ==>
           && id in ids && s.db.rows[id].key in keys && s.db.rows[id].status in {Pending, Orphaned}
           && (s.db.rows[id].status == Pending ==> !NeedsPending(s, s.db.rows[id].node))
    case Listed(keys) => keys <= s.used
    case Deleting(keys) => keys <= s.used && forall id :: id in s.db.rows ==> s.db.rows[id].key !in keys
  }

  ghost predicate SysInv(s: Sys) {
    && DbInv(s.db)
    && GoodBlobs(s)
    && KeysUsed(s)
    && (forall n :: n in s.jobs ==> JobOk(s, n))
    && (forall n :: n in s.hurt ==> HurtOk(s, n))
    && GcOk(s)
  }

  // ---------------------------------------------------------------- frames

  /** Rows, status and stamp of every node but `n` are as they were. */
  ghost predicate OnlyNode(s: Db, u: Db, n: NodeId) {
    && u.nextRow >= s.nextRow
    && (forall m :: m != n ==> (m in u.nodes <==> m in s.nodes) && (m in s.nodes ==> u.nodes[m] == s.nodes[m]))
    && (forall m :: m != n ==> (m in u.trashed <==> m in s.trashed))
    && (forall id :: id in s.rows && s.rows[id].node != n ==> id in u.rows && u.rows[id] == s.rows[id])
    && (forall id :: id in u.rows && u.rows[id].node != n ==> id in s.rows && u.rows[id] == s.rows[id])
  }

  /** Blobs of other nodes' rows neither go nor come back. */
  ghost predicate BlobsKept(s: Sys, u: Sys, n: NodeId) {
    forall id :: id in s.db.rows && s.db.rows[id].node != n ==>
      (s.db.rows[id].key in u.blobs <==> s.db.rows[id].key in s.blobs)
  }

  ghost predicate OthersKept(s: Sys, u: Sys, n: NodeId) {
    && (forall m :: m != n ==> (m in u.jobs <==> m in s.jobs) && (m in s.jobs ==> u.jobs[m] == s.jobs[m]))
    && (forall m :: m != n ==> (m in u.hurt <==> m in s.hurt))
  }

  /**
   * A row of `n` after the step: brand new, or the row it was, with its status changed only if Tier 1 has not
   * selected it.
   */
  ghost predicate RowFollows(s: Sys, u: Sys, n: NodeId, id: RowId)
    requires id in u.db.rows
  {
    || (u.db.rows[id].key !in s.used && id >= s.db.nextRow)
    || (id in s.db.rows && s.db.rows[id].node == n && s.db.rows[id].key == u.db.rows[id].key
        && (s.db.rows[id].status == u.db.rows[id].status || !SelectedByTier1(s, id)))
  }

  ghost predicate NodeStep(s: Sys, u: Sys, n: NodeId) {
    && OnlyNode(s.db, u.db, n) && BlobsKept(s, u, n) && OthersKept(s, u, n) && s.used <= u.used && u.gc == s.gc
    && (forall id :: id in u.db.rows && u.db.rows[id].node == n ==> RowFollows(s, u, n, id))
  }

  lemma OtherDeadKeys(s: Sys, u: Sys, n: NodeId, m: NodeId, keys: set<Key>)
    requires NodeStep(s, u, n) && m != n && DeadKeys(s, m, keys)
    ensures DeadKeys(u, m, keys)
  {
    assert forall id :: id in u.db.rows && u.db.rows[id].node == n ==> RowFollows(s, u, n, id);
  }

  lemma OtherStatus(s: Sys, u: Sys, n: NodeId, m: NodeId, st: RowStatus)
    requires NodeStep(s, u, n) && m != n
    ensures OfStatus(u.db.rows, m, st) == OfStatus(s.db.rows, m, st)
  {
  }

  lemma OtherUpload(s: Sys, u: Sys, n: NodeId, m: NodeId)
    requires NodeStep(s, u, n) && m != n && Uploading(s, m) && JobOk(s, m)
    ensures JobOk(u, m)
  {
    var key := s.jobs[m].key;
    if key.Some? {
      var id :| id in s.db.rows && s.db.rows[id].node == m && s.db.rows[id].key == key.value
        && s.db.rows[id].status == Pending;
      assert id in u.db.rows && u.db.rows[id] == s.db.rows[id];
    }
  }

  lemma OtherPurge(s: Sys, u: Sys, n: NodeId, m: NodeId)
    requires NodeStep(s, u, n) && m != n && PurgeRuns(s, m) && JobOk(s, m)
    ensures JobOk(u, m)
  {
    forall id | id in u.db.rows && u.db.rows[id].key in s.jobs[m].keys ensures u.db.rows[id].node == m {
      if u.db.rows[id].node == n {
        assert RowFollows(s, u, n, id);
      }
    }
  }

  lemma OtherPending(s: Sys, u: Sys, n: NodeId, m: NodeId, pending: set<RowId>)
    requires NodeStep(s, u, n) && m != n
    requires forall id :: id in pending ==>
      id < s.db.nextRow && (id in s.db.rows ==> id in OfStatus(s.db.rows, m, Pending))
    ensures forall id :: id in pending && id in u.db.rows ==> id in OfStatus(u.db.rows, m, Pending)
  {
  }

  lemma OtherJob(s: Sys, u: Sys, n: NodeId, m: NodeId)
    requires NodeStep(s, u, n) && m != n && m in s.jobs && JobOk(s, m)
    ensures JobOk(u, m)
  {
    match s.jobs[m]
    case Upload(_, _, _) => OtherUpload(s, u, n, m);
    case Cleaning(keys) => OtherDeadKeys(s, u, n, m, keys);
    case Completing(id, key, size, mime) =>
    case Restoring(last, pending, keys) =>
      OtherDeadKeys(s, u, n, m, keys);
      OtherStatus(s, u, n, m, Pending);
      OtherStatus(s, u, n, m, History);
      OtherPending(s, u, n, m, pending);
    case Dropping(keys) => OtherDeadKeys(s, u, n, m, keys);
    case Purging(keys) => OtherPurge(s, u, n, m);
  }

  lemma OtherHurt(s: Sys, u: Sys, n: NodeId, m: NodeId)
    requires NodeStep(s, u, n) && m != n && HurtOk(s, m)
    ensures HurtOk(u, m)
  {
    var id :| LostRow(s, m, id);
    assert LostRow(u, m, id);
  }

  /** A step on one node cannot bring back a row the collector is about to delete. */
  lemma GcFrame(s: Sys, u: Sys, n: NodeId)
    requires NodeStep(s, u, n) && GcOk(s)
    requires NeedsPending(u, n) && !NeedsPending(s, n) ==>
      forall id :: id in OfStatus(s.db.rows, n, Pending) ==> !SelectedByTier1(s, id)
    ensures GcOk(u)
  {
    if s.gc.Selected? {
      forall id | id in u.db.rows && (id in s.gc.ids || u.db.rows[id].key in s.gc.keys)
        ensures id in s.gc.ids && u.db.rows[id].key in s.gc.keys && u.db.rows[id].status in {Pending, Orphaned}
        ensures u.db.rows[id].status == Pending ==> !NeedsPending(u, u.db.rows[id].node)
      {
        if u.db.rows[id].node == n {
          assert RowFollows(s, u, n, id);
          assert id in s.db.rows && s.db.rows[id].node == n;
          assert s.db.rows[id].status == Pending ==> id in OfStatus(s.db.rows, n, Pending);
        }
      }
    } else if s.gc.Deleting? {
      forall id | id in u.db.rows ensures u.db.rows[id].key !in s.gc.keys {
        if u.db.rows[id].node == n {
          assert RowFollows(s, u, n, id);
        }
      }
    }
  }

  lemma NodeStepKeepsInv(s: Sys, u: Sys, n: NodeId)
    requires SysInv(s) && NodeStep(s, u, n)
    requires DbInv(u.db) && GoodBlobs(u) && KeysUsed(u)
    requires n in u.jobs ==> JobOk(u, n)
    requires n in u.hurt ==> HurtOk(u, n)
    requires NeedsPending(u, n) && !NeedsPending(s, n) ==>
      forall id :: id in OfStatus(s.db.rows, n, Pending) ==> !SelectedByTier1(s, id)
    ensures SysInv(u)
  {
    GcFrame(s, u, n);
    forall m | m in u.jobs ensures JobOk(u, m) {
      if m != n {
        OtherJob(s, u, n, m);
      }
    }
    forall m | m in u.hurt ensures HurtOk(u, m) {
      if m != n {
        OtherHurt(s, u, n, m);
      }
    }
  }
}
