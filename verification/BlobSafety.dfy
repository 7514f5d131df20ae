/** Every timely step keeps the system invariant, and no other does; hence what timely and untimely runs lose. */
module BlobSafety {
  import opened Common
  import opened Tree
  import opened ObjectMap
  import opened UploadStates
  import opened Uploads
  import opened FailSafe
  import opened Gc
  import opened BlobRuns

  // ---------------------------------------------------------------- shared parts

  /** No request but a purge is in progress on a hurt node, and it is in the trash otherwise. */
  lemma NotHurt(s: Sys, n: NodeId)
    requires SysInv(s) && if n in s.jobs then !s.jobs[n].Purging? else n !in s.db.trashed
    ensures n !in s.hurt
  {
  }

  /** A step that changes nothing but the request on `n`. */
  lemma JobOnly(s: Sys, u: Sys, n: NodeId)
    requires GoodBlobs(s) && KeysUsed(s) && u == s.(jobs := u.jobs) && OthersKept(s, u, n)
    ensures NodeStep(s, u, n) && GoodBlobs(u) && KeysUsed(u)
  {
  }

  /** What was lost stays lost while rows and blobs are the same. */
  lemma SameLoss(s: Sys, u: Sys, n: NodeId)
    requires HurtOk(s, n) && u.db.rows == s.db.rows && u.db.nodes == s.db.nodes && u.blobs.Keys <= s.blobs.Keys
    requires if n in u.jobs then u.jobs[n].Purging? else n in u.db.trashed
    ensures HurtOk(u, n)
  {
    var id :| LostRow(s, n, id);
    assert LostRow(u, n, id);
  }

  /** One row of `n` becomes active, pending rows of `n` may go; the blobs stay. */
  ghost predicate ActivatesOne(s: Sys, u: Sys, n: NodeId, id: RowId) {
    && u.db.nextRow == s.db.nextRow && n in s.db.nodes && u.db.nodes == s.db.nodes[n := SyncActive]
    && u.db.trashed == s.db.trashed && u.blobs == s.blobs && u.used == s.used && u.gc == s.gc && OthersKept(s, u, n)
    && id in s.db.rows && s.db.rows[id].node == n && id in u.db.rows
    && u.db.rows[id].node == n && u.db.rows[id].key == s.db.rows[id].key
    && (forall i :: i in u.db.rows && i != id ==> i in s.db.rows && u.db.rows[i] == s.db.rows[i])
    && (forall i :: i in s.db.rows && i !in u.db.rows ==> s.db.rows[i].node == n)
  }

  lemma ActivatedRows(s: Sys, u: Sys, n: NodeId, id: RowId)
    requires ActivatesOne(s, u, n, id) && u.hurt == s.hurt
    requires GoodBlobs(s) && KeysUsed(s)
    requires s.db.rows[id].key in s.blobs && !SelectedByTier1(s, id)
    ensures NodeStep(s, u, n) && GoodBlobs(u) && KeysUsed(u)
  {
  }

  /** The pending row of an upload in progress. */
  lemma UploadRow(s: Sys, n: NodeId) returns (id: RowId)
    requires KeysUnique(s.db.rows) && GcOk(s) && Uploading(s, n) && JobOk(s, n) && s.jobs[n].key.Some?
    ensures id in s.db.rows && s.db.rows[id].node == n && s.db.rows[id].key == s.jobs[n].key.value
      && s.db.rows[id].status == Pending
    ensures ByKey(s.db.rows, s.jobs[n].key.value) == {id}
    ensures forall i :: i in s.db.rows && s.db.rows[i].key == s.jobs[n].key.value ==> i == id
    ensures !SelectedByTier1(s, id)
  {
    id :| id in s.db.rows && s.db.rows[id].node == n && s.db.rows[id].key == s.jobs[n].key.value
      && s.db.rows[id].status == Pending;
    OnlyRowOfKey(s.db.rows, id, s.jobs[n].key.value);
  }

  // ---------------------------------------------------------------- upload steps

  lemma CreateStep(s: Sys, u: Sys, n: NodeId)
    requires SysInv(s) && UploadNext(s, Create(n), u)
    ensures SysInv(u)
  {
    NewNodeInv(s.db, n);
    assert OfStatus(s.db.rows, n, Pending) == {};
    assert JobOk(u, n);
    NodeStepKeepsInv(s, u, n);
  }

  lemma PrepareStep(s: Sys, u: Sys, n: NodeId, key: Key, cap: nat, now: nat)
    requires SysInv(s) && UploadNext(s, Prepare(n, key, cap, now), u)
    ensures SysInv(u)
  {
    assert JobOk(s, n);
    NotHurt(s, n);
    PreparedRows(s.db, u.db, n, key, cap, now);
    AddedRow(s, u, n, key);
    NodeStepKeepsInv(s, u, n);
  }

  lemma AddedRow(s: Sys, u: Sys, n: NodeId, key: Key)
    requires GoodBlobs(s) && KeysUsed(s) && key !in s.used && Waiting(s.db, n)
    requires u.db.nodes == s.db.nodes && u.db.nextRow == s.db.nextRow + 1 && s.db.nextRow !in s.db.rows
    requires s.db.nextRow in u.db.rows && u.db.rows == s.db.rows[s.db.nextRow := u.db.rows[s.db.nextRow]]
    requires u.db.rows[s.db.nextRow].node == n && u.db.rows[s.db.nextRow].key == key
      && u.db.rows[s.db.nextRow].status == Pending
    requires u == SetJob(s.(db := u.db, used := s.used + {key}), n, Upload(Some(key), None, false))
      && u.db.trashed == s.db.trashed
    ensures NodeStep(s, u, n) && GoodBlobs(u) && KeysUsed(u) && JobOk(u, n)
  {
    assert HasPending(u.db, n, key);
  }

  lemma PreparedRows(s: Db, v: Db, n: NodeId, key: Key, cap: nat, now: nat)
    requires DbInv(s) && n in s.nodes && s.nodes[n] == PendingUpload && v == PrepareTx(s, n, key, cap, now)
    requires forall id :: id in s.rows ==> s.rows[id].node != n && s.rows[id].key != key
    ensures DbInv(v) && v.nodes == s.nodes && v.nextRow == s.nextRow + 1 && s.nextRow !in s.rows
    ensures v.trashed == s.trashed
    ensures s.nextRow in v.rows && v.rows[s.nextRow].node == n && v.rows[s.nextRow].key == key
      && v.rows[s.nextRow].status == Pending
    ensures v.rows == s.rows[s.nextRow := v.rows[s.nextRow]]
  {
    assert Demote(s.rows, n) == s.rows;
    assert HistoryOf(s.rows, n) == {} && OfStatus(s.rows, n, Pending) == {};
    var u := Upsert(s, n, key, Pending, None, now);
    NothingToEvict(s.rows, u.rows, n, s.nextRow, cap);
    assert s.nodes[n := PendingUpload] == s.nodes;
    assert BeginTx(s, n, key, cap, now) == v;
    BeginKeepsInv(s, n, key, cap, now);
  }

  lemma BeginStep(s: Sys, u: Sys, n: NodeId, prev: RowId, key: Key, cap: nat, now: nat)
    requires SysInv(s) && UploadNext(s, Begin(n, prev, key, cap, now), u)
    ensures SysInv(u)
  {
    NotHurt(s, n);
    BegunFacts(s.db, n, prev, key, cap, now);
    NoPendingOnActive(s.db, n);
    BegunRows(s, u, n, prev, key, now);
    NodeStepKeepsInv(s, u, n);
  }

  lemma BegunRows(s: Sys, u: Sys, n: NodeId, prev: RowId, key: Key, now: nat)
    requires RowsFit(s.db) && KeysUsed(s) && GcOk(s) && GoodBlobs(s) && key !in s.used
      && IsActiveRow(s.db, n, prev) && n !in s.hurt
    requires StuckOverwrite(s.db, u.db, n, prev, key, now) && u.db.nextRow == s.db.nextRow + 1 && n in s.db.nodes
    requires u == SetJob(s.(db := u.db, used := s.used + {key}), n, Upload(Some(key), Some(prev), false))
    ensures NodeStep(s, u, n) && JobOk(u, n)
    ensures GoodBlobs(u) && KeysUsed(u)
  {
    assert u.db.rows[s.db.nextRow].key == key;
    BegunFollows(s, u, n, prev, u.db.rows[s.db.nextRow]);
    assert HasPending(u.db, n, key) && LastGood(u, n, prev);
  }

  lemma BegunFollows(s: Sys, u: Sys, n: NodeId, prev: RowId, added: ObjRow)
    requires GcOk(s) && added.key !in s.used && IsActiveRow(s.db, n, prev) && added.node == n
    requires DemotedWith(s.db, u.db, n, prev, added)
    ensures forall id :: id in u.db.rows && u.db.rows[id].node == n ==> RowFollows(s, u, n, id)
    ensures !SelectedByTier1(s, prev)
  {
  }

  lemma PutStep(s: Sys, u: Sys, n: NodeId, blob: Blob, complete: bool)
    requires SysInv(s) && UploadNext(s, Put(n, blob, complete), u)
    ensures SysInv(u)
  {
    assert JobOk(s, n);
    NotHurt(s, n);
    var id := UploadRow(s, n);
    BlobLands(s, u, n, blob, s.jobs[n].put || complete);
    NodeStepKeepsInv(s, u, n);
  }

  lemma BlobLands(s: Sys, u: Sys, n: NodeId, blob: Blob, put: bool)
    requires GoodBlobs(s) && KeysUsed(s) && Uploading(s, n) && JobOk(s, n) && s.jobs[n].key.Some?
    requires forall i :: i in s.db.rows && s.db.rows[i].key == s.jobs[n].key.value ==> s.db.rows[i].node == n
    requires u == SetJob(s.(blobs := s.blobs[s.jobs[n].key.value := blob]), n, s.jobs[n].(put := put))
    ensures NodeStep(s, u, n) && GoodBlobs(u) && KeysUsed(u) && JobOk(u, n)
  {
  }

  lemma FinishStep(s: Sys, u: Sys, n: NodeId, size: nat, mime: string)
    requires SysInv(s) && UploadNext(s, Finish(n, size, mime), u)
    ensures SysInv(u)
  {
    assert JobOk(s, n);
    NotHurt(s, n);
    var id := UploadRow(s, n);
    CommitActivates(s, u, n, id, size, mime);
    NodeStepKeepsInv(s, u, n);
  }

  /** The transaction that ends an upload, by its own request or by a repair. */
  lemma CommitActivates(s: Sys, u: Sys, n: NodeId, id: RowId, size: nat, mime: string)
    requires DbInv(s.db) && GoodBlobs(s) && KeysUsed(s) && Waiting(s.db, n) && !SelectedByTier1(s, id)
    requires id in OfStatus(s.db.rows, n, Pending) && s.db.rows[id].key in s.blobs
    requires u == EndJob(s.(db := CompleteTx(s.db, n, s.db.rows[id].key, size, mime)), n)
    ensures NodeStep(s, u, n) && GoodBlobs(u) && KeysUsed(u) && DbInv(u.db)
  {
    CompleteKeepsInv(s.db, n, s.db.rows[id].key, id, size, mime);
    CompletedRows(s.db, n, s.db.rows[id].key, id, size, mime);
    assert ActivatesOne(s, u, n, id);
    ActivatedRows(s, u, n, id);
  }

  lemma RollbackStep(s: Sys, u: Sys, n: NodeId)
    requires SysInv(s) && UploadNext(s, Rollback(n), u)
    ensures SysInv(u)
  {
    assert JobOk(s, n);
    NotHurt(s, n);
    var key := s.jobs[n].key.value;
    var prev := s.jobs[n].prev.value;
    var id := UploadRow(s, n);
    RollbackShape(s.db, n, prev, key, id);
    RollbackKeepsInv(s.db, u.db, n, prev, id);
    RolledBackRows(s, u, n, prev, key, id);
    NodeStepKeepsInv(s, u, n);
  }

  lemma RolledBackRows(s: Sys, u: Sys, n: NodeId, prev: RowId, key: Key, id: RowId)
    requires GoodBlobs(s) && KeysUsed(s) && Waiting(s.db, n) && LastGood(s, n, prev) && key in s.used
    requires (forall i :: i in s.db.rows && s.db.rows[i].key == key ==> i == id)
    requires prev != id && id in s.db.rows && s.db.rows[id].node == n
    requires u.db
      == s.db.(rows := DeleteRows(s.db.rows, {id})[prev := s.db.rows[prev].(status := Active)],
      nodes := s.db.nodes[n := SyncActive])
    requires u == SetJob(s.(db := u.db), n, Cleaning({key}))
    ensures NodeStep(s, u, n) && GoodBlobs(u) && KeysUsed(u) && JobOk(u, n)
  {
    assert ActivatesOne(s, u, n, prev);
    ActivatedRows(s, u, n, prev);
    assert forall i :: i in u.db.rows ==> u.db.rows[i].key != key;
  }

  lemma RollbackFailsStep(s: Sys, u: Sys, n: NodeId)
    requires SysInv(s) && UploadNext(s, RollbackFails(n), u)
    ensures SysInv(u)
  {
    assert JobOk(s, n);
    NotHurt(s, n);
    var id := UploadRow(s, n);
    JobOnly(s, u, n);
    assert JobOk(u, n);
    NodeStepKeepsInv(s, u, n);
  }

  /** Deleting the blobs of dead keys touches no version. */
  lemma CleanedBlobs(s: Sys, u: Sys, n: NodeId, keys: set<Key>)
    requires GoodBlobs(s) && KeysUsed(s) && n in s.jobs && DeadKeys(s, n, keys)
    requires u == s.(blobs := s.blobs - keys, jobs := u.jobs) && OthersKept(s, u, n)
    ensures NodeStep(s, u, n) && GoodBlobs(u) && KeysUsed(u)
  {
  }

  lemma CleanBlobsStep(s: Sys, u: Sys, n: NodeId)
    requires SysInv(s) && UploadNext(s, CleanBlobs(n), u)
    ensures SysInv(u)
  {
    assert JobOk(s, n);
    NotHurt(s, n);
    CleanedBlobs(s, u, n, s.jobs[n].keys);
    NodeStepKeepsInv(s, u, n);
  }

  /** A node goes with its rows: a failed new file, a repair's delete, or a purge. */
  lemma RemoveStep(s: Sys, u: Sys, n: NodeId)
    requires SysInv(s) && u == EndJob(s.(db := RemoveNode(s.db, n), hurt := s.hurt - {n}), n)
    ensures SysInv(u)
  {
    RemoveKeepsInv(s.db, {n});
    RemoveOne(s.db, n);
    RemovedRows(s, u, n);
    NodeStepKeepsInv(s, u, n);
  }

  lemma RemovedRows(s: Sys, u: Sys, n: NodeId)
    requires GoodBlobs(s) && KeysUsed(s) && u == EndJob(s.(db := RemoveNode(s.db, n), hurt := s.hurt - {n}), n)
    ensures NodeStep(s, u, n) && GoodBlobs(u) && KeysUsed(u)
  {
  }

  lemma RemoveNewStep(s: Sys, u: Sys, n: NodeId)
    requires SysInv(s) && n in s.jobs && !s.jobs[n].Purging? && u == EndJob(s.(db := RemoveNode(s.db, n)), n)
    ensures SysInv(u)
  {
    NotHurt(s, n);
    assert s.hurt - {n} == s.hurt;
    RemoveStep(s, u, n);
  }

  lemma StopStep(s: Sys, u: Sys, n: NodeId)
    requires SysInv(s) && UploadNext(s, Stop(n), u) && Timely(s, Stop(n))
    ensures SysInv(u)
  {
    JobOnly(s, u, n);
    if n in s.hurt {
      SameLoss(s, u, n);
    }
    NodeStepKeepsInv(s, u, n);
  }

  // ---------------------------------------------------------------- repair and version steps

  lemma ProbeStep(s: Sys, u: Sys, n: NodeId, id: RowId)
    requires SysInv(s) && RepairNext(s, RepairProbe(n, id), u) && Timely(s, RepairProbe(n, id))
    ensures SysInv(u)
  {
    NotHurt(s, n);
    OnlyPending(s.db, n, id);
    JobOnly(s, u, n);
    assert JobOk(u, n);
    NodeStepKeepsInv(s, u, n);
  }

  lemma OnlyPending(db: Db, n: NodeId, id: RowId)
    requires OneOfEach(db.rows) && id in OfStatus(db.rows, n, Pending)
    ensures OfStatus(db.rows, n, Pending) == {id}
  {
  }

  lemma CommitStep(s: Sys, u: Sys, n: NodeId)
    requires SysInv(s) && RepairNext(s, RepairCommit(n), u)
    ensures SysInv(u)
  {
    assert JobOk(s, n);
    NotHurt(s, n);
    var id := s.jobs[n].id;
    assert NeedsPending(s, n);
    assert !SelectedByTier1(s, id);
    CommitActivates(s, u, n, id, s.jobs[n].size, s.jobs[n].mime);
    NodeStepKeepsInv(s, u, n);
  }

  /** Rows of a waiting node read for a repair: its pending keys are no other row's. */
  lemma PendingKeysDead(s: Sys, n: NodeId)
    requires KeysUnique(s.db.rows) && KeysUsed(s)
    ensures DeadKeys(s, n, PendingKeys(s.db, n))
  {
    forall id | id in s.db.rows && s.db.rows[id].key in PendingKeys(s.db, n)
      ensures id in OfStatus(s.db.rows, n, Pending)
    {
      var i :| i in OfStatus(s.db.rows, n, Pending) && s.db.rows[i].key == s.db.rows[id].key;
    }
  }

  lemma ReadStep(s: Sys, u: Sys, n: NodeId, last: RowId)
    requires SysInv(s) && RepairNext(s, RepairRead(n, last), u)
    ensures SysInv(u)
  {
    NotHurt(s, n);
    PendingKeysDead(s, n);
    ManagedFallback(s.db, n, last);
    JobOnly(s, u, n);
    ReadJob(s, u, n, last);
    NodeStepKeepsInv(s, u, n);
  }

  lemma ReadJob(s: Sys, u: Sys, n: NodeId, last: RowId)
    requires RowsFit(s.db) && Waiting(s.db, n) && last in HistoryOf(s.db.rows, n)
    requires DeadKeys(s, n, PendingKeys(s.db, n))
    requires u == SetJob(s, n, Restoring(last, OfStatus(s.db.rows, n, Pending), PendingKeys(s.db, n)))
    ensures JobOk(u, n)
  {
  }

  lemma ManagedFallback(db: Db, n: NodeId, last: RowId)
    requires WaitingHasHistory(db) && Waiting(db, n) && IsLastGood(db.rows, n, last)
    ensures last in HistoryOf(db.rows, n)
  {
    if last in OfStatus(db.rows, n, Orphaned) {
      assert OfStatus(db.rows, n, Orphaned) != {};
    }
  }

  lemma RestoreStep(s: Sys, u: Sys, n: NodeId)
    requires SysInv(s) && RepairNext(s, RepairRestore(n), u)
    ensures SysInv(u)
  {
    assert JobOk(s, n);
    NotHurt(s, n);
    var last := s.jobs[n].last;
    RestoredByTx(s.db, u.db, n, last, s.jobs[n].pending);
    RestoreKeepsInv(s.db, u.db, n, last);
    RestoredRowsOk(s, u, n, last);
    RestoredJob(s, u, n, last);
    NodeStepKeepsInv(s, u, n);
  }

  lemma RestoredRowsOk(s: Sys, u: Sys, n: NodeId, last: RowId)
    requires GoodBlobs(s) && KeysUsed(s) && GcOk(s) && n !in s.hurt && last in HistoryOf(s.db.rows, n)
    requires PreviousRestored(s.db, u.db, n, last)
    requires u == s.(db := u.db, jobs := u.jobs) && OthersKept(s, u, n)
    ensures NodeStep(s, u, n) && GoodBlobs(u) && KeysUsed(u)
  {
    assert !SelectedByTier1(s, last);
    assert ActivatesOne(s, u, n, last);
    ActivatedRows(s, u, n, last);
  }

  lemma RestoredByTx(s: Db, u: Db, n: NodeId, last: RowId, pending: set<RowId>)
    requires n in s.nodes && last in HistoryOf(s.rows, n) && u == RestoreTx(s, n, last, pending)
    requires OfStatus(s.rows, n, Pending) <= pending
    requires forall id :: id in pending && id in s.rows ==> id in OfStatus(s.rows, n, Pending)
    ensures PreviousRestored(s, u, n, last)
  {
    assert u.rows == DeleteRows(s.rows, OfStatus(s.rows, n, Pending))[last := s.rows[last].(status := Active)];
  }

  lemma RestoredJob(s: Sys, u: Sys, n: NodeId, last: RowId)
    requires n in s.jobs && s.jobs[n].Restoring? && JobOk(s, n) && s.jobs[n].last == last
    requires PreviousRestored(s.db, u.db, n, last) && u == SetJob(s.(db := u.db), n, Cleaning(s.jobs[n].keys))
    ensures JobOk(u, n)
  {
  }

  lemma DropStep(s: Sys, u: Sys, n: NodeId)
    requires SysInv(s) && RepairNext(s, RepairDrop(n), u)
    ensures SysInv(u)
  {
    NotHurt(s, n);
    PendingKeysDead(s, n);
    JobOnly(s, u, n);
    assert JobOk(u, n);
    NodeStepKeepsInv(s, u, n);
  }

  lemma DropBlobsStep(s: Sys, u: Sys, n: NodeId)
    requires SysInv(s) && RepairNext(s, RepairDropBlobs(n), u)
    ensures SysInv(u)
  {
    assert JobOk(s, n);
    NotHurt(s, n);
    CleanedBlobs(s, u, n, s.jobs[n].keys);
    NodeStepKeepsInv(s, u, n);
  }

  lemma RestoreVersionStep(s: Sys, u: Sys, n: NodeId, current: RowId, target: RowId)
    requires SysInv(s) && RepairNext(s, RestoreVersion(n, current, target), u)
    ensures SysInv(u)
  {
    NotHurt(s, n);
    SwapKeepsInv(s.db, u.db, n, current, target);
    SwappedRows(s, u, n, current, target);
    NodeStepKeepsInv(s, u, n);
  }

  lemma SwappedRows(s: Sys, u: Sys, n: NodeId, current: RowId, target: RowId)
    requires GoodBlobs(s) && KeysUsed(s) && GcOk(s) && n !in s.hurt
    requires IsActiveRow(s.db, n, current) && target in HistoryOf(s.db.rows, n)
    requires u == s.(db := s.db.(rows := Swapped(s.db.rows, current, target)))
    ensures NodeStep(s, u, n) && GoodBlobs(u) && KeysUsed(u)
  {
  }

  lemma SwapKeepsInv(s: Db, u: Db, n: NodeId, current: RowId, target: RowId)
    requires DbInv(s) && n in s.nodes && s.nodes[n] == SyncActive && IsActiveRow(s, n, current)
      && target in HistoryOf(s.rows, n)
    requires u == s.(rows := Swapped(s.rows, current, target))
    ensures DbInv(u)
  {
    assert Identified(s.rows, s.nextRow, s.nodes.Keys);
    IdentityKept(s.rows, u.rows, s.nextRow, s.nodes.Keys);
    SwapOneOfEach(s, u, n, current, target);
    SwapStatuses(s, u, n, current, target);
  }

  lemma SwapOneOfEach(s: Db, u: Db, n: NodeId, current: RowId, target: RowId)
    requires OneOfEach(s.rows) && StatusFits(s) && n in s.nodes && s.nodes[n] == SyncActive
    requires IsActiveRow(s, n, current) && target in HistoryOf(s.rows, n)
    requires u == s.(rows := Swapped(s.rows, current, target))
    ensures OneOfEach(u.rows) && StatusFits(u)
  {
  }

  lemma SwapStatuses(s: Db, u: Db, n: NodeId, current: RowId, target: RowId)
    requires ActiveHasRow(s) && WaitingHasHistory(s) && n in s.nodes && s.nodes[n] == SyncActive
    requires IsActiveRow(s, n, current) && target in HistoryOf(s.rows, n)
    requires u == s.(rows := Swapped(s.rows, current, target))
    ensures ActiveHasRow(u) && WaitingHasHistory(u)
  {
    assert target in OfStatus(u.rows, n, Active);
    forall m, st | m != n ensures OfStatus(u.rows, m, st) == OfStatus(s.rows, m, st) {
    }
  }

  // ---------------------------------------------------------------- trash and purge steps

  /** The stamp of `n` set or removed, nothing else. */
  ghost predicate Restamped(s: Sys, u: Sys, n: NodeId) {
    && u == s.(db := s.db.(trashed := u.db.trashed))
    && forall m :: m != n ==> (m in u.db.trashed <==> m in s.db.trashed)
  }

  lemma StampStep(s: Sys, u: Sys, n: NodeId)
    requires SysInv(s) && Restamped(s, u, n)
    requires n in s.hurt ==> PurgeRuns(s, n) || n in u.db.trashed
    ensures SysInv(u)
  {
    StampedTables(s, u, n);
    if n in s.hurt {
      SameLoss(s, u, n);
    }
    if n in s.jobs {
      StampedJob(s, u, n);
    }
    NodeStepKeepsInv(s, u, n);
  }

  lemma StampedTables(s: Sys, u: Sys, n: NodeId)
    requires DbInv(s.db) && GoodBlobs(s) && KeysUsed(s) && Restamped(s, u, n)
    ensures DbInv(u.db) && NodeStep(s, u, n) && GoodBlobs(u) && KeysUsed(u)
  {
  }

  lemma StampedJob(s: Sys, u: Sys, n: NodeId)
    requires n in s.jobs && JobOk(s, n) && u == s.(db := s.db.(trashed := u.db.trashed))
    ensures JobOk(u, n)
  {
  }

  lemma PurgeReadStep(s: Sys, u: Sys, n: NodeId)
    requires SysInv(s) && TrashNext(s, PurgeRead(n), u)
    ensures SysInv(u)
  {
    NodeKeysOwn(s, n);
    JobOnly(s, u, n);
    if n in s.hurt {
      SameLoss(s, u, n);
    }
    NodeStepKeepsInv(s, u, n);
  }

  lemma NodeKeysOwn(s: Sys, n: NodeId)
    requires KeysUnique(s.db.rows) && KeysUsed(s)
    ensures NodeKeys(s.db, n) <= s.used
    ensures forall id :: id in s.db.rows && s.db.rows[id].key in NodeKeys(s.db, n) ==> s.db.rows[id].node == n
  {
    forall id | id in s.db.rows && s.db.rows[id].key in NodeKeys(s.db, n) ensures s.db.rows[id].node == n {
      var i :| i in s.db.rows && s.db.rows[i].node == n && s.db.rows[i].key == s.db.rows[id].key;
    }
  }

  lemma PurgeBlobStep(s: Sys, u: Sys, n: NodeId, key: Key)
    requires SysInv(s) && TrashNext(s, PurgeBlob(n, key), u)
    ensures SysInv(u)
  {
    assert JobOk(s, n);
    PurgedBlob(s, u, n, key);
    if n in s.hurt {
      SameLoss(s, u, n);
    } else if n in u.hurt {
      var id :| id in s.db.rows && s.db.rows[id].node == n && s.db.rows[id].key == key
        && s.db.rows[id].status in {Active, History};
      assert LostRow(u, n, id);
    }
    NodeStepKeepsInv(s, u, n);
  }

  lemma PurgedBlob(s: Sys, u: Sys, n: NodeId, key: Key)
    requires GoodBlobs(s) && KeysUsed(s) && TrashNext(s, PurgeBlob(n, key), u) && JobOk(s, n)
    ensures NodeStep(s, u, n) && GoodBlobs(u) && KeysUsed(u) && JobOk(u, n)
  {
  }

  // ---------------------------------------------------------------- collector steps

  lemma SelectStep(s: Sys, u: Sys, ids: set<RowId>)
    requires SysInv(s) && CollectNext(s, SelectRows(ids), u) && Timely(s, SelectRows(ids))
    ensures SysInv(u)
  {
    SelectedOk(s, u, ids);
    forall n | n in u.jobs ensures JobOk(u, n) {
      SelectedJob(s, u, ids, n);
    }
    SameHurt(s, u);
  }

  lemma SelectedOk(s: Sys, u: Sys, ids: set<RowId>)
    requires DbInv(s.db) && KeysUsed(s) && (forall id :: id in ids ==> Selectable(s.db, id))
      && Timely(s, SelectRows(ids))
    requires u == s.(gc := Selected(ids, KeysOf(s.db.rows, ids)))
    ensures GcOk(u)
  {
  }

  lemma SelectedJob(s: Sys, u: Sys, ids: set<RowId>, n: NodeId)
    requires StatusFits(s.db) && s.gc.Idle? && n in s.jobs && JobOk(s, n)
    requires u == s.(gc := Selected(ids, KeysOf(s.db.rows, ids))) && forall id :: id in ids ==> Selectable(s.db, id)
    ensures JobOk(u, n)
  {
    if Uploading(s, n) && s.jobs[n].prev.Some? {
      assert Guarded(s.db, n);
    }
  }

  /** Rows and trash as before, blobs no more than before: hurt nodes stay what they are. */
  lemma SameHurt(s: Sys, u: Sys)
    requires forall n :: n in s.hurt ==> HurtOk(s, n)
    requires u.hurt == s.hurt && u.jobs == s.jobs && u.db.nodes == s.db.nodes && u.db.trashed == s.db.trashed
    requires u.blobs.Keys <= s.blobs.Keys
    requires forall id :: id in s.db.rows && s.db.rows[id].status in {Active, History} ==>
      id in u.db.rows && u.db.rows[id] == s.db.rows[id]
    ensures forall n :: n in u.hurt ==> HurtOk(u, n)
  {
    forall n | n in u.hurt ensures HurtOk(u, n) {
      assert HurtOk(s, n);
      var id :| LostRow(s, n, id);
      assert LostRow(u, n, id);
    }
  }

  /** Deleting a blob no active, managed or fallback row and no request counts on. */
  lemma BlobGoneStep(s: Sys, u: Sys, key: Key)
    requires SysInv(s) && u == s.(blobs := s.blobs - {key})
    requires (s.gc.Selected? || s.gc.Deleting?) && key in s.gc.keys
    ensures SysInv(u)
  {
    forall n | n in u.jobs ensures JobOk(u, n) {
      assert JobOk(s, n);
      BlobGoneJob(s, u, key, n);
    }
    SameHurt(s, u);
  }

  lemma BlobGoneJob(s: Sys, u: Sys, key: Key, n: NodeId)
    requires GcOk(s) && n in s.jobs && JobOk(s, n) && u == s.(blobs := s.blobs - {key})
    requires (s.gc.Selected? || s.gc.Deleting?) && key in s.gc.keys
    ensures JobOk(u, n)
  {
    if Uploading(s, n) && s.jobs[n].key.Some? {
      assert NeedsPending(s, n);
      var id :| id in s.db.rows && s.db.rows[id].node == n && s.db.rows[id].key == s.jobs[n].key.value
        && s.db.rows[id].status == Pending;
      assert s.db.rows[id].key != key;
    }
  }

  lemma DeleteSelectedRowsStep(s: Sys, u: Sys, survivors: set<RowId>)
    requires SysInv(s) && CollectNext(s, DeleteSelectedRows(survivors), u)
    ensures SysInv(u)
  {
    SelectedDeletedKeepsInv(s.db, s.blobs, u.db, u.blobs, s.gc.ids);
    forall n | n in u.jobs ensures JobOk(u, n) {
      assert JobOk(s, n);
      RowsGoneJob(s, u, survivors, n);
    }
    SameHurt(s, u);
  }

  lemma RowsGoneJob(s: Sys, u: Sys, survivors: set<RowId>, n: NodeId)
    requires GcOk(s) && CollectNext(s, DeleteSelectedRows(survivors), u) && n in s.jobs && JobOk(s, n)
    ensures JobOk(u, n)
  {
    if Uploading(s, n) && s.jobs[n].key.Some? {
      var id :| id in s.db.rows && s.db.rows[id].node == n && s.db.rows[id].key == s.jobs[n].key.value
        && s.db.rows[id].status == Pending;
      assert id in u.db.rows;
    }
  }

  lemma ReadKeptStep(s: Sys, u: Sys)
    requires SysInv(s) && CollectNext(s, ReadKeptSet, u)
    ensures SysInv(u)
  {
    EveryRowKept(s.db);
    forall n | n in u.jobs ensures JobOk(u, n) {
      assert JobOk(s, n);
    }
    SameHurt(s, u);
  }

  lemma IdleStep(s: Sys, u: Sys)
    requires SysInv(s) && u == s.(gc := u.gc) && !s.gc.Selected?
    requires u.gc.Idle? || (u.gc.Listed? && u.gc.keys <= s.blobs.Keys)
    ensures SysInv(u)
  {
    forall n | n in u.jobs ensures JobOk(u, n) {
      assert JobOk(s, n);
    }
    SameHurt(s, u);
  }

  // ---------------------------------------------------------------- every step

  lemma UploadStepKeepsInv(s: Sys, e: Event, u: Sys)
    requires SysInv(s) && !e.Repairs() && !e.Trashes() && !e.Collects() && UploadNext(s, e, u) && Timely(s, e)
    ensures SysInv(u)
  {
    match e
    case Create(n) => CreateStep(s, u, n);
    case Prepare(n, key, cap, now) => PrepareStep(s, u, n, key, cap, now);
    case Begin(n, prev, key, cap, now) => BeginStep(s, u, n, prev, key, cap, now);
    case Put(n, blob, complete) => PutStep(s, u, n, blob, complete);
    case Finish(n, size, mime) => FinishStep(s, u, n, size, mime);
    case Rollback(n) => RollbackStep(s, u, n);
    case RollbackFails(n) => RollbackFailsStep(s, u, n);
    case RemoveNew(n) => RemoveNewStep(s, u, n);
    case CleanBlobs(n) => CleanBlobsStep(s, u, n);
    case Stop(n) => StopStep(s, u, n);
  }

  lemma RepairStepKeepsInv(s: Sys, e: Event, u: Sys)
    requires SysInv(s) && e.Repairs() && RepairNext(s, e, u) && Timely(s, e)
    ensures SysInv(u)
  {
    match e
    case RepairProbe(n, id) => ProbeStep(s, u, n, id);
    case RepairCommit(n) => CommitStep(s, u, n);
    case RepairRead(n, last) => ReadStep(s, u, n, last);
    case RepairRestore(n) => RestoreStep(s, u, n);
    case RepairDrop(n) => DropStep(s, u, n);
    case RepairDropBlobs(n) => DropBlobsStep(s, u, n);
    case RepairDelete(n) => RemoveNewStep(s, u, n);
    case RestoreVersion(n, current, target) => RestoreVersionStep(s, u, n, current, target);
  }

  lemma TrashStepKeepsInv(s: Sys, e: Event, u: Sys)
    requires SysInv(s) && e.Trashes() && TrashNext(s, e, u) && Timely(s, e)
    ensures SysInv(u)
  {
    match e
    case Trash(n) => StampStep(s, u, n);
    case Untrash(n) => StampStep(s, u, n);
    case PurgeRead(n) => PurgeReadStep(s, u, n);
    case PurgeBlob(n, key) => PurgeBlobStep(s, u, n, key);
    case PurgeRows(n) => RemoveStep(s, u, n);
  }

  lemma CollectStepKeepsInv(s: Sys, e: Event, u: Sys)
    requires SysInv(s) && e.Collects() && CollectNext(s, e, u) && Timely(s, e)
    ensures SysInv(u)
  {
    match e
    case SelectRows(ids) => SelectStep(s, u, ids);
    case DeleteSelectedBlob(key) => BlobGoneStep(s, u, key);
    case DeleteSelectedRows(survivors) => DeleteSelectedRowsStep(s, u, survivors);
    case ListKeys(keys) => IdleStep(s, u);
    case ReadKeptSet => ReadKeptStep(s, u);
    case DeleteListed(key) => BlobGoneStep(s, u, key);
    case EndPass => IdleStep(s, u);
  }

  lemma StepKeepsInv(s: Sys, e: Event, u: Sys)
    requires SysInv(s) && Next(s, e, u) && Timely(s, e)
    ensures SysInv(u)
  {
    if e.Repairs() {
      RepairStepKeepsInv(s, e, u);
    } else if e.Trashes() {
      TrashStepKeepsInv(s, e, u);
    } else if e.Collects() {
      CollectStepKeepsInv(s, e, u);
    } else {
      UploadStepKeepsInv(s, e, u);
    }
  }

  /** The invariant survives a step exactly when the step is timely. */
  lemma StepKeepsInvIff(s: Sys, e: Event, u: Sys)
    requires SysInv(s) && Next(s, e, u)
    ensures SysInv(u) <==> Timely(s, e)
  {
    if Timely(s, e) {
      StepKeepsInv(s, e, u);
    } else {
      UntimelyBreaks(s, e, u);
    }
  }

  lemma UntimelyBreaks(s: Sys, e: Event, u: Sys)
    requires SysInv(s) && Next(s, e, u) && !Timely(s, e)
    ensures !SysInv(u)
  {
    match e
    case SelectRows(ids) => SelectionBreaks(s, ids, u);
    case RepairProbe(n, id) => ProbeBreaks(s, n, id, u);
    case Untrash(n) =>
      assert HurtOk(s, n);
      assert n in u.hurt && !HurtOk(u, n);
    case Stop(n) =>
      assert n in u.hurt && !HurtOk(u, n);
  }

  lemma SelectionBreaks(s: Sys, ids: set<RowId>, u: Sys)
    requires CollectNext(s, SelectRows(ids), u) && !Timely(s, SelectRows(ids))
    ensures !GcOk(u)
  {
    var id :| id in ids && id in s.db.rows && s.db.rows[id].status == Pending && NeedsPending(s, s.db.rows[id].node);
    assert id in u.gc.ids && id in u.db.rows && NeedsPending(u, u.db.rows[id].node);
  }

  lemma ProbeBreaks(s: Sys, n: NodeId, id: RowId, u: Sys)
    requires RepairNext(s, RepairProbe(n, id), u) && !Timely(s, RepairProbe(n, id))
    ensures !GcOk(u)
  {
    assert id in u.gc.ids && id in u.db.rows && NeedsPending(u, n);
  }

  // ---------------------------------------------------------------- timely runs

  /** As long as every step was timely the invariant holds. */
  lemma {:induction false} RunsKeepSysInv(states: seq<Sys>, events: seq<Event>, i: nat)
    requires IsRun(states, events) && i < |states| && forall j: nat :: j < i ==> TimelyAt(states, events, j)
    ensures SysInv(states[i])
    decreases i
  {
    if i > 0 {
      RunsKeepSysInv(states, events, i - 1);
      assert StepAt(states, events, i - 1) && TimelyAt(states, events, i - 1);
      StepKeepsInv(states[i - 1], events[i - 1], states[i]);
    }
  }

  /**
   * In every state of a timely run a live file in status active that no purge is working on has exactly one active row,
   * and its blob is in the bucket.
   */
  lemma ActiveFilesDownloadable(states: seq<Sys>, events: seq<Event>, i: nat, n: NodeId) returns (id: RowId)
    requires IsRun(states, events) && i < |states| && forall j: nat :: j < i ==> TimelyAt(states, events, j)
    requires n in states[i].db.nodes && states[i].db.nodes[n] == SyncActive
    requires n !in states[i].db.trashed && !PurgeRuns(states[i], n)
    ensures OfStatus(states[i].db.rows, n, Active) == {id} && states[i].db.rows[id].key in states[i].blobs
  {
    RunsKeepSysInv(states, events, i);
    NotHurt(states[i], n);
    id := OnlyActive(states[i], n);
  }

  lemma OnlyActive(s: Sys, n: NodeId) returns (id: RowId)
    requires SysInv(s) && n in s.db.nodes && s.db.nodes[n] == SyncActive && n !in s.hurt
    ensures OfStatus(s.db.rows, n, Active) == {id} && s.db.rows[id].key in s.blobs
  {
    id :| id in OfStatus(s.db.rows, n, Active);
  }

  /**
   * In every state of a timely run a node lacks the blob of a version exactly when a purge has deleted one and not,
   * or not yet, the rows.
   */
  lemma VersionLostIff(states: seq<Sys>, events: seq<Event>, i: nat, n: NodeId)
    requires IsRun(states, events) && i < |states| && forall j: nat :: j < i ==> TimelyAt(states, events, j)
    ensures !Intact(states[i].db, states[i].blobs, n) <==> n in states[i].hurt
  {
    RunsKeepSysInv(states, events, i);
    if n in states[i].hurt {
      assert HurtOk(states[i], n);
      var id :| LostRow(states[i], n, id);
    }
  }
}
