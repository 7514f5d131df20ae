/** S3 Tier 2 needs no good timing: in no run at all does it take a blob that a row refers to. */
module Tier2Safety {
  import opened Common
  import opened Tree
  import opened ObjectMap
  import opened UploadStates
  import opened Uploads
  import opened FailSafe
  import opened Gc
  import opened BlobRuns

  // ---------------------------------------------------------------- what every run keeps

  /** Pending rows sit on waiting nodes, one a node; every row has its node and a key of its own. */
  ghost predicate PendingFits(db: Db) {
    && RowsFit(db) && KeysUnique(db.rows)
    && (forall id :: id in db.rows && db.rows[id].status == Pending && db.rows[id].node in db.nodes
          ==> db.nodes[db.rows[id].node] == PendingUpload)
    && forall i, j :: i in db.rows && j in db.rows && i != j && db.rows[i].node == db.rows[j].node
         ==> db.rows[i].status != Pending || db.rows[j].status != Pending
  }

  /** The node waits, its rows alone have the key, and it has no pending row of another key. */
  ghost predicate OwnKey(s: Sys, n: NodeId, key: Option<Key>) {
    && Waiting(s.db, n) && OnlyPendingKey(s.db, n, key)
    && (key.Some? ==> key.value in s.used)
    && (key.Some? ==> forall id :: id in s.db.rows && s.db.rows[id].key == key.value ==> s.db.rows[id].node == n)
  }

  ghost predicate OwnRow(db: Db, n: NodeId, id: RowId) {
    id < db.nextRow && (id in db.rows ==> db.rows[id].node == n)
  }

  /** What a request has read names rows of its own node, its only pending row among them. */
  ghost predicate JobFits(s: Sys, n: NodeId)
    requires n in s.jobs
  {
    match s.jobs[n]
    case Upload(key, prev, _) => OwnKey(s, n, key) && (prev.Some? ==> OwnRow(s.db, n, prev.value))
    case Completing(_, key, _, _) => OwnKey(s, n, Some(key))
    case Restoring(last, pending, _) =>
      && Waiting(s.db, n) && OwnRow(s.db, n, last) && OfStatus(s.db.rows, n, Pending) <= pending
      && forall id :: id in pending ==> OwnRow(s.db, n, id)
    case _ => true
  }

  ghost predicate OnlyPendingKey(db: Db, n: NodeId, key: Option<Key>) {
    forall id :: id in OfStatus(db.rows, n, Pending) ==> key == Some(db.rows[id].key)
  }

  /** Listed keys were used before the listing; those about to be deleted are no row's. */
  ghost predicate ListingFits(s: Sys) {
    match s.gc
    case Listed(keys) => keys <= s.used
    case Deleting(keys) => keys <= s.used && forall id :: id in s.db.rows ==> s.db.rows[id].key !in keys
    case _ => true
  }

  ghost predicate WeakInv(s: Sys) {
    PendingFits(s.db) && KeysUsed(s) && (forall n :: n in s.jobs ==> JobFits(s, n)) && ListingFits(s)
  }

  // ---------------------------------------------------------------- steps on one node

  /** Every row after the step is an old one of the same node and key, or a new one with a key never used before. */
  ghost predicate NoKeyReturns(s: Sys, u: Sys) {
    && s.used <= u.used && u.blobs.Keys <= u.used
    && forall id :: id in u.db.rows ==>
         if id in s.db.rows then
           s.db.rows[id].key == u.db.rows[id].key && s.db.rows[id].node == u.db.rows[id].node
         else u.db.rows[id].key !in s.used && u.db.rows[id].key in u.used
  }

  /** Rows, status and request of every node but `n` are as they were; no key comes back. */
  ghost predicate LocalStep(s: Sys, u: Sys, n: NodeId) {
    && OnlyNode(s.db, u.db, n) && NoKeyReturns(s, u) && u.gc == s.gc
    && (forall m :: m != n ==> (m in u.jobs <==> m in s.jobs) && (m in s.jobs ==> u.jobs[m] == s.jobs[m]))
    && forall id :: id in u.db.rows && id !in s.db.rows ==> u.db.rows[id].node == n && id == s.db.nextRow
  }

  lemma OtherStatusSame(s: Sys, u: Sys, n: NodeId, m: NodeId)
    requires LocalStep(s, u, n) && m != n
    ensures OfStatus(u.db.rows, m, Pending) == OfStatus(s.db.rows, m, Pending)
  {
  }

  lemma OtherOwnKey(s: Sys, u: Sys, n: NodeId, m: NodeId, key: Option<Key>)
    requires LocalStep(s, u, n) && m != n && OwnKey(s, m, key)
    ensures OwnKey(u, m, key)
  {
    OtherStatusSame(s, u, n, m);
  }

  lemma OtherOwnRow(s: Sys, u: Sys, n: NodeId, m: NodeId, id: RowId)
    requires LocalStep(s, u, n) && m != n && OwnRow(s.db, m, id)
    ensures OwnRow(u.db, m, id)
  {
  }

  lemma OtherFits(s: Sys, u: Sys, n: NodeId, m: NodeId)
    requires LocalStep(s, u, n) && m != n && m in s.jobs && JobFits(s, m)
    ensures JobFits(u, m)
  {
    match s.jobs[m]
    case Upload(key, prev, _) =>
      OtherOwnKey(s, u, n, m, key);
      if prev.Some? {
        OtherOwnRow(s, u, n, m, prev.value);
      }
    case Completing(_, key, _, _) => OtherOwnKey(s, u, n, m, Some(key));
    case Restoring(last, pending, _) =>
      OtherStatusSame(s, u, n, m);
      OtherOwnRow(s, u, n, m, last);
      forall id | id in pending ensures OwnRow(u.db, m, id) {
        OtherOwnRow(s, u, n, m, id);
      }
    case _ =>
  }

  lemma LocalListing(s: Sys, u: Sys, n: NodeId)
    requires LocalStep(s, u, n) && ListingFits(s)
    ensures ListingFits(u)
  {
  }

  lemma LocalKeys(s: Sys, u: Sys, n: NodeId)
    requires LocalStep(s, u, n) && KeysUsed(s) && KeysUnique(s.db.rows)
    ensures KeysUsed(u) && KeysUnique(u.db.rows)
  {
  }

  lemma LocalKeeps(s: Sys, u: Sys, n: NodeId)
    requires WeakInv(s) && LocalStep(s, u, n) && PendingFits(u.db) && (n in u.jobs ==> JobFits(u, n))
    ensures WeakInv(u)
  {
    LocalListing(s, u, n);
    LocalKeys(s, u, n);
    forall m | m in u.jobs ensures JobFits(u, m) {
      if m != n {
        OtherFits(s, u, n, m);
      }
    }
  }

  // ---------------------------------------------------------------- what the statements do to pending rows

  lemma NoneWaiting(db: Db, n: NodeId)
    requires PendingFits(db) && n in db.nodes && db.nodes[n] != PendingUpload
    ensures OfStatus(db.rows, n, Pending) == {}
  {
    forall id | id in db.rows && db.rows[id].node == n ensures db.rows[id].status != Pending {
    }
  }

  /** A row of `key` is added to `n`, pending; other rows keep node and key, and none becomes pending. */
  ghost predicate PendingAdded(s: Db, u: Db, n: NodeId, key: Key) {
    && u.nextRow == s.nextRow + 1 && u.rows.Keys == s.rows.Keys + {s.nextRow}
    && u.rows[s.nextRow].node == n && u.rows[s.nextRow].key == key && u.rows[s.nextRow].status == Pending
    && forall id :: id in s.rows && id != s.nextRow ==>
         && u.rows[id].node == s.rows[id].node && u.rows[id].key == s.rows[id].key
         && (u.rows[id].status == Pending <==> s.rows[id].status == Pending)
         && (s.rows[id].node != n ==> u.rows[id] == s.rows[id])
  }

  lemma PreparedAdds(s: Db, n: NodeId, key: Key, cap: nat, now: nat)
    requires RowsFit(s)
    ensures PendingAdded(s, PrepareTx(s, n, key, cap, now), n, key) && s.nextRow !in s.rows
  {
  }

  lemma AddedFits(s: Db, u: Db, n: NodeId, key: Key)
    requires PendingFits(s) && PendingAdded(s, u, n, key) && OfStatus(s.rows, n, Pending) == {}
    requires n in s.nodes && u.nodes == s.nodes[n := PendingUpload] && u.trashed == s.trashed
    requires s.nextRow !in s.rows && forall id :: id in s.rows ==> s.rows[id].key != key
    ensures PendingFits(u) && OnlyPendingKey(u, n, Some(key))
  {
    forall id | id in u.rows && id != s.nextRow && u.rows[id].status == Pending ensures u.rows[id].node != n {
      assert s.rows[id].status == Pending;
      assert s.rows[id].node == n ==> id in OfStatus(s.rows, n, Pending);
    }
  }

  /** Rows may go and rows of `n` may change status, but none becomes pending; `n` waits or has no pending row. */
  ghost predicate PendingShrinks(s: Db, u: Db, n: NodeId) {
    && u.nextRow == s.nextRow && u.rows.Keys <= s.rows.Keys
    && (forall m :: m != n ==> (m in u.trashed <==> m in s.trashed))
    && (forall id :: id in u.rows ==>
          && u.rows[id].node == s.rows[id].node && u.rows[id].key == s.rows[id].key
          && (u.rows[id].status == Pending ==> s.rows[id].status == Pending)
          && (s.rows[id].node != n ==> u.rows[id] == s.rows[id]))
    && (forall id :: id in s.rows && id !in u.rows ==> s.rows[id].node == n)
    && (forall m :: m != n ==> (m in u.nodes <==> m in s.nodes) && (m in s.nodes ==> u.nodes[m] == s.nodes[m]))
    && ((n in u.nodes && u.nodes[n] == PendingUpload) || OfStatus(u.rows, n, Pending) == {})
    && (n !in u.nodes ==> forall id :: id in u.rows ==> u.rows[id].node != n)
  }

  lemma ShrunkFits(s: Db, u: Db, n: NodeId)
    requires PendingFits(s) && PendingShrinks(s, u, n)
    ensures PendingFits(u)
  {
    forall id | id in u.rows && u.rows[id].status == Pending && u.rows[id].node in u.nodes
      ensures u.nodes[u.rows[id].node] == PendingUpload
    {
      assert u.rows[id].node == n ==> id in OfStatus(u.rows, n, Pending);
    }
  }

  /** A step that adds no row, with the blobs and the flight of `n` alone touched besides. */
  lemma ShrinkStep(s: Sys, u: Sys, n: NodeId)
    requires WeakInv(s) && PendingShrinks(s.db, u.db, n) && u.gc == s.gc && u.used == s.used && u.blobs.Keys <= s.used
    requires forall m :: m != n ==>
      (m in u.jobs <==> m in s.jobs) && (m in s.jobs ==> u.jobs[m] == s.jobs[m])
    requires n in u.jobs ==> JobFits(u, n)
    ensures WeakInv(u)
  {
    ShrunkFits(s.db, u.db, n);
    LocalKeeps(s, u, n);
  }

  // ---------------------------------------------------------------- steps of uploads

  lemma CreateWeak(s: Sys, u: Sys, n: NodeId)
    requires WeakInv(s) && UploadNext(s, Create(n), u)
    ensures WeakInv(u)
  {
    forall id | id in s.db.rows ensures s.db.rows[id].node != n {
    }
    ShrinkStep(s, u, n);
  }

  lemma AddStep(s: Sys, u: Sys, n: NodeId, key: Key, prev: Option<RowId>)
    requires WeakInv(s) && PendingAdded(s.db, u.db, n, key) && OfStatus(s.db.rows, n, Pending) == {}
      && s.db.nextRow !in s.db.rows
    requires n in s.db.nodes && u.db.nodes == s.db.nodes[n := PendingUpload] && u.db.trashed == s.db.trashed
    requires key !in s.used && (prev.Some? ==> prev.value in s.db.rows && s.db.rows[prev.value].node == n)
    requires u == SetJob(s.(db := u.db, used := s.used + {key}), n, Upload(Some(key), prev, false))
    ensures WeakInv(u)
  {
    AddedFits(s.db, u.db, n, key);
    assert prev.Some? ==> prev.value < s.db.nextRow;
    AddedLocal(s, u, n, key);
    LocalKeeps(s, u, n);
  }

  lemma AddedLocal(s: Sys, u: Sys, n: NodeId, key: Key)
    requires KeysUsed(s) && PendingAdded(s.db, u.db, n, key) && s.db.nextRow !in s.db.rows && key !in s.used
    requires u.db.nodes == s.db.nodes[n := PendingUpload] && u.db.trashed == s.db.trashed
    requires u == s.(db := u.db, used := s.used + {key}, jobs := u.jobs)
    requires forall m :: m != n ==> (m in u.jobs <==> m in s.jobs) && (m in s.jobs ==> u.jobs[m] == s.jobs[m])
    ensures LocalStep(s, u, n) && forall id :: id in u.db.rows && u.db.rows[id].key == key ==> id == s.db.nextRow
  {
  }

  lemma PrepareWeak(s: Sys, u: Sys, n: NodeId, key: Key, cap: nat, now: nat)
    requires WeakInv(s) && UploadNext(s, Prepare(n, key, cap, now), u)
    ensures WeakInv(u)
  {
    assert JobFits(s, n);
    PreparedAdds(s.db, n, key, cap, now);
    assert s.db.nodes[n := PendingUpload] == s.db.nodes;
    AddStep(s, u, n, key, None);
  }

  lemma BeginWeak(s: Sys, u: Sys, n: NodeId, prev: RowId, key: Key, cap: nat, now: nat)
    requires WeakInv(s) && UploadNext(s, Begin(n, prev, key, cap, now), u)
    ensures WeakInv(u)
  {
    NoneWaiting(s.db, n);
    PreparedAdds(s.db, n, key, cap, now);
    AddStep(s, u, n, key, Some(prev));
  }

  /** Steps that only change the request on `n` and blobs of used keys. */
  lemma JobWeak(s: Sys, u: Sys, n: NodeId)
    requires WeakInv(s) && u.db == s.db && u.gc == s.gc && u.used == s.used && u.blobs.Keys <= s.used
    requires forall m :: m != n ==> (m in u.jobs <==> m in s.jobs) && (m in s.jobs ==> u.jobs[m] == s.jobs[m])
    requires n in u.jobs ==> JobFits(u, n)
    ensures WeakInv(u)
  {
    forall m | m in u.jobs ensures JobFits(u, m) {
      if m != n {
        assert JobFits(s, m);
      }
    }
  }

  lemma PutWeak(s: Sys, u: Sys, n: NodeId, blob: Blob, complete: bool)
    requires WeakInv(s) && UploadNext(s, Put(n, blob, complete), u)
    ensures WeakInv(u)
  {
    assert JobFits(s, n);
    JobWeak(s, u, n);
  }

  /** The transaction that ends an upload, by its own request or by a repair. */
  lemma CompleteWeak(s: Sys, u: Sys, n: NodeId, key: Key, size: nat, mime: string)
    requires WeakInv(s) && OwnKey(s, n, Some(key)) && u == EndJob(s.(db := CompleteTx(s.db, n, key, size, mime)), n)
    ensures WeakInv(u)
  {
    CompleteShrinks(s.db, n, key, size, mime);
    ShrinkStep(s, u, n);
  }

  lemma CompleteShrinks(s: Db, n: NodeId, key: Key, size: nat, mime: string)
    requires n in s.nodes && OnlyPendingKey(s, n, Some(key))
    requires forall id :: id in s.rows && s.rows[id].key == key ==> s.rows[id].node == n
    ensures PendingShrinks(s, CompleteTx(s, n, key, size, mime), n)
  {
    forall id | id in s.rows && s.rows[id].node == n && s.rows[id].status == Pending ensures s.rows[id].key == key {
      assert id in OfStatus(s.rows, n, Pending);
    }
  }

  lemma RollbackWeak(s: Sys, u: Sys, n: NodeId)
    requires WeakInv(s) && UploadNext(s, Rollback(n), u)
    ensures WeakInv(u)
  {
    assert JobFits(s, n);
    RollbackShrinks(s.db, n, s.jobs[n].prev, s.jobs[n].key.value);
    ShrinkStep(s, u, n);
  }

  lemma RollbackShrinks(s: Db, n: NodeId, prev: Option<RowId>, key: Key)
    requires n in s.nodes && OnlyPendingKey(s, n, Some(key))
    requires forall id :: id in s.rows && s.rows[id].key == key ==> s.rows[id].node == n
    requires prev.Some? && prev.value in s.rows ==> s.rows[prev.value].node == n
    ensures PendingShrinks(s, RollbackTx(s, n, prev, key), n)
  {
    forall id | id in s.rows && s.rows[id].node == n && s.rows[id].status == Pending ensures s.rows[id].key == key {
      assert id in OfStatus(s.rows, n, Pending);
    }
  }

  lemma RemoveWeak(s: Sys, u: Sys, n: NodeId)
    requires WeakInv(s) && u == EndJob(s.(db := RemoveNode(s.db, n), hurt := u.hurt), n)
    ensures WeakInv(u)
  {
    assert OfStatus(u.db.rows, n, Pending) == {};
    ShrinkStep(s, u, n);
  }

  // ---------------------------------------------------------------- repairs and versions

  lemma ProbeWeak(s: Sys, u: Sys, n: NodeId, id: RowId)
    requires WeakInv(s) && RepairNext(s, RepairProbe(n, id), u)
    ensures WeakInv(u)
  {
    PendingAlone(s.db, n, id);
    assert JobFits(u, n);
    JobWeak(s, u, n);
  }

  lemma PendingAlone(db: Db, n: NodeId, id: RowId)
    requires PendingFits(db) && id in OfStatus(db.rows, n, Pending)
    ensures OnlyPendingKey(db, n, Some(db.rows[id].key))
    ensures forall i :: i in db.rows && db.rows[i].key == db.rows[id].key ==> i == id
  {
  }

  lemma ReadWeak(s: Sys, u: Sys, n: NodeId, last: RowId)
    requires WeakInv(s) && RepairNext(s, RepairRead(n, last), u)
    ensures WeakInv(u)
  {
    assert last in s.db.rows && s.db.rows[last].node == n;
    assert JobFits(u, n);
    JobWeak(s, u, n);
  }

  lemma RestoreWeak(s: Sys, u: Sys, n: NodeId)
    requires WeakInv(s) && RepairNext(s, RepairRestore(n), u)
    ensures WeakInv(u)
  {
    assert JobFits(s, n);
    RestoreShrinks(s.db, n, s.jobs[n].last, s.jobs[n].pending);
    ShrinkStep(s, u, n);
  }

  lemma RestoreShrinks(s: Db, n: NodeId, last: RowId, pending: set<RowId>)
    requires n in s.nodes && OwnRow(s, n, last) && OfStatus(s.rows, n, Pending) <= pending
    requires forall id :: id in pending ==> OwnRow(s, n, id)
    ensures PendingShrinks(s, RestoreTx(s, n, last, pending), n)
  {
    var u := RestoreTx(s, n, last, pending);
    forall id | id in u.rows && u.rows[id].node == n ensures u.rows[id].status != Pending {
      assert s.rows[id].status == Pending ==> id in OfStatus(s.rows, n, Pending);
    }
  }

  lemma RestoreVersionWeak(s: Sys, u: Sys, n: NodeId, current: RowId, target: RowId)
    requires WeakInv(s) && RepairNext(s, RestoreVersion(n, current, target), u)
    ensures WeakInv(u)
  {
    NoneWaiting(s.db, n);
    assert OfStatus(u.db.rows, n, Pending) == {};
    ShrinkStep(s, u, n);
  }

  /** The stamp and the blobs play no part. */
  lemma TrashWeak(s: Sys, u: Sys)
    requires WeakInv(s) && u == s.(db := s.db.(trashed := u.db.trashed))
    ensures WeakInv(u)
  {
    forall m | m in u.jobs ensures JobFits(u, m) {
      assert JobFits(s, m);
      RestampedFits(s, u, m);
    }
  }

  lemma RestampedFits(s: Sys, u: Sys, m: NodeId)
    requires m in s.jobs && JobFits(s, m) && u == s.(db := s.db.(trashed := u.db.trashed))
    ensures JobFits(u, m)
  {
  }

  // ---------------------------------------------------------------- the collector

  /** Rows may go, blobs may go, the collector moves. */
  lemma CollectWeak(s: Sys, u: Sys)
    requires WeakInv(s) && u.used == s.used && u.jobs == s.jobs && u.blobs.Keys <= s.blobs.Keys
    requires u.db.nodes == s.db.nodes && u.db.nextRow == s.db.nextRow && ListingFits(u)
    requires u.db.rows.Keys <= s.db.rows.Keys && forall id :: id in u.db.rows ==> u.db.rows[id] == s.db.rows[id]
    ensures WeakInv(u)
  {
    forall m | m in u.jobs ensures JobFits(u, m) {
      assert JobFits(s, m);
      FewerRowsFit(s, u, m);
    }
  }

  lemma FewerRowsFit(s: Sys, u: Sys, m: NodeId)
    requires m in s.jobs && JobFits(s, m) && u.jobs == s.jobs && u.used == s.used
    requires u.db.nodes == s.db.nodes && u.db.nextRow == s.db.nextRow
    requires u.db.rows.Keys <= s.db.rows.Keys && forall id :: id in u.db.rows ==> u.db.rows[id] == s.db.rows[id]
    ensures JobFits(u, m)
  {
    assert OfStatus(u.db.rows, m, Pending) <= OfStatus(s.db.rows, m, Pending);
  }

  lemma ReadKeptWeak(s: Sys, u: Sys)
    requires WeakInv(s) && CollectNext(s, ReadKeptSet, u)
    ensures ListingFits(u)
  {
    forall id | id in s.db.rows ensures s.db.rows[id].key in KeptObjectKeys(s.db) {
    }
  }

  // ---------------------------------------------------------------- every step, every run

  lemma UploadStepWeak(s: Sys, e: Event, u: Sys)
    requires WeakInv(s) && !e.Repairs() && !e.Trashes() && !e.Collects() && UploadNext(s, e, u)
    ensures WeakInv(u)
  {
    match e
    case Create(n) => CreateWeak(s, u, n);
    case Prepare(n, key, cap, now) => PrepareWeak(s, u, n, key, cap, now);
    case Begin(n, prev, key, cap, now) => BeginWeak(s, u, n, prev, key, cap, now);
    case Put(n, blob, complete) => PutWeak(s, u, n, blob, complete);
    case Finish(n, size, mime) =>
      assert JobFits(s, n);
      CompleteWeak(s, u, n, s.jobs[n].key.value, size, mime);
    case Rollback(n) => RollbackWeak(s, u, n);
    case RollbackFails(n) => JobWeak(s, u, n);
    case RemoveNew(n) => RemoveWeak(s, u, n);
    case CleanBlobs(n) => JobWeak(s, u, n);
    case Stop(n) => JobWeak(s, u, n);
  }

  lemma RepairWeak(s: Sys, e: Event, u: Sys)
    requires WeakInv(s) && e.Repairs() && RepairNext(s, e, u)
    ensures WeakInv(u)
  {
    match e
    case RepairProbe(n, id) => ProbeWeak(s, u, n, id);
    case RepairCommit(n) =>
      assert JobFits(s, n);
      CompleteWeak(s, u, n, s.jobs[n].s3Key, s.jobs[n].size, s.jobs[n].mime);
    case RepairRead(n, last) => ReadWeak(s, u, n, last);
    case RepairRestore(n) => RestoreWeak(s, u, n);
    case RepairDrop(n) => JobWeak(s, u, n);
    case RepairDropBlobs(n) => JobWeak(s, u, n);
    case RepairDelete(n) => RemoveWeak(s, u, n);
    case RestoreVersion(n, current, target) => RestoreVersionWeak(s, u, n, current, target);
  }

  lemma TrashStepWeak(s: Sys, e: Event, u: Sys)
    requires WeakInv(s) && e.Trashes() && TrashNext(s, e, u)
    ensures WeakInv(u)
  {
    match e
    case Trash(n) => TrashWeak(s, u);
    case Untrash(n) => TrashWeak(s, u);
    case PurgeRead(n) => JobWeak(s, u, n);
    case PurgeBlob(n, key) => JobWeak(s, u, n);
    case PurgeRows(n) => RemoveWeak(s, u, n);
  }

  lemma CollectorWeak(s: Sys, e: Event, u: Sys)
    requires WeakInv(s) && e.Collects() && CollectNext(s, e, u)
    ensures WeakInv(u)
  {
    if e.ReadKeptSet? {
      ReadKeptWeak(s, u);
    }
    CollectWeak(s, u);
  }

  lemma StepKeepsWeak(s: Sys, e: Event, u: Sys)
    requires WeakInv(s) && Next(s, e, u)
    ensures WeakInv(u)
  {
    if e.Repairs() {
      RepairWeak(s, e, u);
    } else if e.Trashes() {
      TrashStepWeak(s, e, u);
    } else if e.Collects() {
      CollectorWeak(s, e, u);
    } else {
      UploadStepWeak(s, e, u);
    }
  }

  lemma {:induction false} RunsKeepWeak(states: seq<Sys>, events: seq<Event>, i: nat)
    requires IsRun(states, events) && i < |states|
    ensures WeakInv(states[i])
    decreases i
  {
    if i > 0 {
      RunsKeepWeak(states, events, i - 1);
      assert StepAt(states, events, i - 1);
      StepKeepsWeak(states[i - 1], events[i - 1], states[i]);
    }
  }

  /** No Tier 2 delete of any run, timely or not, takes the blob of a row, whatever its status and age. */
  lemma Tier2NeverTakesReferenced(states: seq<Sys>, events: seq<Event>, i: nat, key: Key)
    requires IsRun(states, events) && i < |events| && events[i] == DeleteListed(key)
    ensures forall id :: id in states[i].db.rows ==> states[i].db.rows[id].key != key
  {
    RunsKeepWeak(states, events, i);
    assert StepAt(states, events, i);
  }
}
