/** uploadService and failSafeService over one database and one S3 bucket, with every call able to fail. */
module Uploads {
  import opened Common
  import opened Tree
  import opened ObjectMap
  import opened UploadStates

  /** A failed PUT may leave nothing or a partial object; a failed DELETE leaves the object. */
  datatype PutFault = PutOk | PutLeavesNothing | PutLeavesPartial(partial: seq<bv8>)

  /** prepareUpload is two statements: it can fail before the upsert or between upsert and eviction. */
  datatype PrepareFault = PrepareOk | FailsBeforeUpsert | FailsAfterUpsert

  datatype OverwriteFaults = OverwriteFaults(tx1: bool, put: PutFault, tx2: bool, rollbackTx: bool, blobDelete: bool,
      cacheWrite: bool)

  datatype UploadFaults = UploadFaults(create: bool, prepare: PrepareFault, put: PutFault, tx2: bool, cleanup: bool,
      cacheWrite: bool)

  datatype UploadResult = Uploaded | Threw

  datatype RepairAction = Complete | RestorePrevious | Delete | Auto

  datatype RepairFaults = RepairFaults(probe: bool, tx: bool, blobDelete: bool, dbDelete: bool)

  datatype RepairResult =
    | Resolved | NodeMissing | NotPending | NothingToActivate | BlobMissing | NothingToRestore | RepairThrew

  /** The database and the bucket. */
  class Storage {
    var db: Db
    var blobs: Blobs
    /** What the bucket reports as content type: uploads do not send one. */
    const contentType: string

    ghost predicate Valid()
      reads this
    {
      CoreInv(db)
    }

    constructor (db: Db, blobs: Blobs, contentType: string)
      ensures this.db == db && this.blobs == blobs && this.contentType == contentType
    {
      this.db, this.blobs, this.contentType := db, blobs, contentType;
    }

    method GetActiveObject(n: NodeId) returns (r: Option<RowId>)
      ensures r.Some? ==> IsActiveRow(db, n, r.value)
      ensures r.None? ==> OfStatus(db.rows, n, Active) == {}
    {
      var hits := OfStatus(db.rows, n, Active);
      if hits == {} {
        return None;
      }
      var id :| id in hits;
      r := Some(id);
    }

    method UploadBlob(key: Key, bytes: seq<bv8>, fault: PutFault) returns (ok: bool)
      modifies this`blobs
      ensures ok <==> fault.PutOk?
      ensures ok ==> blobs == old(blobs)[key := Blob(bytes, contentType)]
      ensures OnlyKeyDiffers(old(blobs), blobs, key)
    {
      match fault {
        case PutOk => blobs := blobs[key := Blob(bytes, contentType)];
        case PutLeavesNothing =>
        case PutLeavesPartial(partial) => blobs := blobs[key := Blob(partial, contentType)];
      }
      ok := fault.PutOk?;
    }

    method DeleteBlob(key: Key, fails: bool) returns (ok: bool)
      modifies this`blobs
      ensures ok == !fails
      ensures blobs == if fails then old(blobs) else old(blobs) - {key}
    {
      if !fails {
        blobs := blobs - {key};
      }
      ok := !fails;
    }

    /** Looks the row up first and throws when it is gone. */
    method CompleteUpload(key: Key, size: nat, mime: string) returns (ok: bool)
      modifies this`db
      ensures ok <==> ByKey(old(db).rows, key) != {}
      ensures !ok ==> db == old(db)
      ensures ok ==> exists id :: (id in ByKey(old(db).rows, key)
        && db == PutCache(old(db).(rows := Activate(old(db).rows, key, size)), old(db).rows[id].node,
          CacheRow(size, mime, None)))
    {
      var hits := ByKey(db.rows, key);
      if hits == {} {
        return false;
      }
      var row :| row in hits;
      var node := db.rows[row].node;
      db := db.(rows := Activate(db.rows, key, size));
      db := PutCache(db, node, CacheRow(size, mime, None));
      ok := true;
    }
  }

  class UploadService {
    const store: Storage

    constructor (store: Storage)
      ensures this.store == store
    {
      this.store := store;
    }

    /** TX1: prepareUpload and the status change, all or nothing. */
    method BeginOverwrite(n: NodeId, key: Key, cap: nat, now: nat, fails: bool) returns (ok: bool)
      modifies store`db
      ensures ok == !fails
      ensures store.db == if ok then BeginTx(old(store.db), n, key, cap, now) else old(store.db)
    {
      if fails {
        return false;
      }
      store.db := Upsert(store.db, n, key, Pending, None, now);
      store.db := store.db.(rows := Evict(store.db.rows, n, cap));
      store.db := SetSync(store.db, n, PendingUpload);
      ok := true;
    }

    /** TX2: completeUpload and the status change, all or nothing; throws when the row is gone. */
    method FinishUpload(n: NodeId, key: Key, size: nat, mime: string, fails: bool) returns (ok: bool)
      requires forall id :: id in ByKey(store.db.rows, key) ==> store.db.rows[id].node == n
      modifies store`db
      ensures ok <==> !fails && ByKey(old(store.db).rows, key) != {}
      ensures store.db == if ok then CompleteTx(old(store.db), n, key, size, mime) else old(store.db)
    {
      if fails {
        return false;
      }
      ok := store.CompleteUpload(key, size, mime);
      if ok {
        store.db := SetSync(store.db, n, SyncActive);
      }
    }

    /** Guarded steps: a failed transaction skips neither the blob delete nor the cache write. */
    method RollbackOverwrite(n: NodeId, previousActive: Option<RowId>, previousCache: Option<CacheRow>, newKey: Key,
        f: OverwriteFaults)
      modifies store
      ensures store.db
        == CacheBack(if f.rollbackTx then old(store.db) else RollbackTx(old(store.db), n, previousActive, newKey),
                                    n, previousCache, f.cacheWrite)
      ensures store.blobs == if f.blobDelete then old(store.blobs) else old(store.blobs) - {newKey}
    {
      if !f.rollbackTx {
        RollbackStatements(n, previousActive, newKey);
      }
      var deleted := store.DeleteBlob(newKey, f.blobDelete);
      if previousCache.Some? && !f.cacheWrite {
        store.db := PutCache(store.db, n, previousCache.value);
      }
    }

    method RollbackStatements(n: NodeId, previousActive: Option<RowId>, newKey: Key)
      modifies store`db
      ensures store.db == RollbackTx(old(store.db), n, previousActive, newKey)
    {
      if previousActive.Some? {
        store.db := store.db.(rows := Reactivate(store.db.rows, previousActive.value));
      }
      store.db := SetSync(store.db, n, SyncActive);
      store.db := store.db.(rows := DeleteRows(store.db.rows, ByKey(store.db.rows, newKey)));
    }

    /** PUT and TX2 inside one try; any failure rolls back. */
    method PutAndFinish(n: NodeId, previousActive: Option<RowId>, previousCache: Option<CacheRow>, bytes: seq<bv8>,
                        mime: string, key: Key, hash: string, f: OverwriteFaults) returns (r: UploadResult)
      requires ByKey(store.db.rows, key) != {} && forall id :: id in ByKey(store.db.rows, key) ==>
        store.db.rows[id].node == n
      modifies store
      ensures OnlyKeyDiffers(old(store.blobs), store.blobs, key)
      ensures r == if !f.put.PutOk? || f.tx2 then Threw else Uploaded
      ensures r == Uploaded ==> key in store.blobs && store.blobs[key].bytes == bytes
      ensures store.db == if r == Uploaded then UploadedDb(old(store.db), n, key, |bytes|, mime, hash, f)
                          else RolledBackDb(old(store.db), n, previousActive, previousCache, key, f)
    {
      var done := store.UploadBlob(key, bytes, f.put);
      if done {
        done := FinishUpload(n, key, |bytes|, mime, f.tx2);
      }
      if done {
        if !f.cacheWrite {
          store.db := PutCache(store.db, n, CacheRow(|bytes|, mime, Some(hash)));
        }
        return Uploaded;
      }
      RollbackOverwrite(n, previousActive, previousCache, key, f);
      r := Threw;
    }

    /**
     * Overwrites a file, from whatever state the node is in. From an active file it commits when nothing fails;
     * otherwise the pre-state is back, or, when the rollback transaction failed as well, the node waits in
     * pending_upload with its last good row demoted. No blob but the new one is ever touched.
     */
    method OverwriteFile(n: NodeId, bytes: seq<bv8>, mime: string, key: Key, cap: nat, now: nat, hash: string,
        f: OverwriteFaults)
      returns (r: UploadResult, ghost prev: Option<RowId>)
      requires RowsFit(store.db) && n in store.db.nodes && FreshKey(store.db, store.blobs, key)
      modifies store
      ensures if prev.Some? then IsActiveRow(old(store.db), n, prev.value)
        else OfStatus(old(store.db).rows, n, Active) == {}
      ensures OnlyKeyDiffers(old(store.blobs), store.blobs, key)
      ensures r == if f.tx1 || !f.put.PutOk? || f.tx2 then Threw else Uploaded
      ensures r == Uploaded ==> key in store.blobs && store.blobs[key].bytes == bytes
      ensures f.tx1 ==> store.blobs == old(store.blobs)
      ensures store.db == OverwriteDb(old(store.db), n, prev, key, |bytes|, mime, hash, cap, now, f)
      ensures OverwriteRows(old(store.db), store.db, n, prev, key, now, f)
      ensures r == Uploaded ==>
        store.db.cache == old(store.db).cache[n := CacheRow(|bytes|, mime, if f.cacheWrite then None else Some(hash))]
      ensures r == Uploaded ==> store.db.rows[old(store.db).nextRow].size == Some(|bytes|)
      ensures r == Threw ==> store.db.cache == old(store.db).cache
      ensures old(store.Valid()) && old(store.db).nodes[n] == SyncActive ==>
        && InvKept(old(store.db), store.db) && KeepsIntact(old(store.db), old(store.blobs), store.db, store.blobs)
        && prev.Some? && OverwriteOutcome(old(store.db), store.db, n, prev.value, key, |bytes|, mime, hash, now, f)
    {
      ghost var s, b := store.db, store.blobs;
      var previousActive := store.GetActiveObject(n);
      prev := previousActive;
      var previousCache := if n in store.db.cache then Some(store.db.cache[n]) else None;
      var begun := BeginOverwrite(n, key, cap, now, f.tx1);
      if begun {
        NewKeyRow(s, n, key, cap, now);
        r := PutAndFinish(n, previousActive, previousCache, bytes, mime, key, hash, f);
      } else {
        r := Threw;
      }
      RowsAfterOverwrite(s, n, prev, key, |bytes|, mime, hash, cap, now, f);
      if CoreInv(s) && s.nodes[n] == SyncActive {
        OverwriteFromActive(s, b, store.db, store.blobs, n, prev, key, |bytes|, mime, hash, cap, now, f);
      }
    }

    method PrepareNewFile(ghost s: Db, n: NodeId, key: Key, cap: nat, now: nat, fault: PrepareFault) returns (ok: bool)
      requires CoreInv(s) && n !in s.nodes && store.db == s.(nodes := s.nodes[n := PendingUpload])
      requires forall id :: id in s.rows ==> s.rows[id].key != key
      modifies store`db
      ensures ok <==> fault.PrepareOk?
      ensures InvKept(s, store.db)
      ensures if fault.FailsBeforeUpsert? then store.db == old(store.db) else NewFileWaiting(s, store.db, n, key, now)
    {
      NewNodeInv(s, n);
      if fault.FailsBeforeUpsert? {
        return false;
      }
      NewFilePrepared(s, store.db, n, key, cap, now);
      store.db := Upsert(store.db, n, key, Pending, None, now);
      if fault.FailsAfterUpsert? {
        return false;
      }
      store.db := store.db.(rows := Evict(store.db.rows, n, cap));
      ok := true;
    }

    method FinishNewFile(ghost s: Db, n: NodeId, key: Key, ghost now: nat, size: nat, mime: string, fails: bool)
        returns (ok: bool)
      requires CoreInv(store.db) && NewFileWaiting(s, store.db, n, key, now)
      modifies store`db
      ensures ok == !fails
      ensures if ok then InvKept(old(store.db), store.db)
                   && NewFileActive(s, store.db, n, key, CacheRow(size, mime, None), now)
              else store.db == old(store.db)
    {
      NewFileCompleted(s, store.db, n, key, now, size, mime);
      ok := FinishUpload(n, key, size, mime, fails);
    }

    /** PUT and TX2 of a new file; on failure the node is removed again, best effort. */
    method PutNewFile(ghost s: Db, n: NodeId, bytes: seq<bv8>, mime: string, key: Key, ghost now: nat, hash: string,
        f: UploadFaults)
      returns (r: UploadResult)
      requires CoreInv(s) && n !in s.cache && n !in s.trashed && InvKept(s, store.db)
      requires NewFileWaiting(s, store.db, n, key, now)
      modifies store
      ensures InvKept(s, store.db) && OnlyKeyDiffers(old(store.blobs), store.blobs, key)
      ensures r == if !f.put.PutOk? || f.tx2 then Threw else Uploaded
      ensures r == Uploaded ==> key in store.blobs && store.blobs[key].bytes == bytes
      ensures r == Uploaded ==>
        NewFileActive(s, store.db, n, key, CacheRow(|bytes|, mime, if f.cacheWrite then None else Some(hash)), now)
      ensures r == Threw ==> if f.cleanup then store.db == old(store.db)
                             else && store.db.nodes == s.nodes && store.db.rows == s.rows && store.db.cache == s.cache
                                  && store.db.trashed == s.trashed
    {
      ghost var u := store.db;
      var done := store.UploadBlob(key, bytes, f.put);
      if done {
        done := FinishNewFile(s, n, key, now, |bytes|, mime, f.tx2);
      }
      if done {
        if !f.cacheWrite {
          NewFileCached(s, store.db, n, key, CacheRow(|bytes|, mime, None), Some(hash), now);
          store.db := PutCache(store.db, n, CacheRow(|bytes|, mime, Some(hash)));
        }
        InvStillKept(s, u, store.db);
        return Uploaded;
      }
      if !f.cleanup {
        NewFileRemoved(s, store.db, n, key, now);
        store.db := RemoveNode(store.db, n);
      }
      r := Threw;
    }

    /**
     * Uploads a new file. A throw leaves no trace in the database unless the prepare itself or the
     * cleanup failed; then the node stays behind in pending_upload.
     */
    method UploadFile(n: NodeId, bytes: seq<bv8>, mime: string, key: Key, cap: nat, now: nat, hash: string,
        f: UploadFaults)
      returns (r: UploadResult)
      requires store.Valid() && FreshKey(store.db, store.blobs, key)
      requires n !in store.db.nodes && n !in store.db.cache && n !in store.db.trashed
      modifies store
      ensures InvKept(old(store.db), store.db)
      ensures KeepsIntact(old(store.db), old(store.blobs), store.db, store.blobs)
      ensures UploadOutcome(old(store.db), old(store.blobs), store.db, store.blobs, n, key, bytes, now, f, r)
      ensures r == Uploaded ==>
        && store.db.rows == old(store.db).rows[old(store.db).nextRow := ObjRow(n, key, 1, Active, Some(|bytes|), now)]
        && store.db.nodes == old(store.db).nodes[n := SyncActive]
        && store.db.cache
             == old(store.db).cache[n := CacheRow(|bytes|, mime, if f.cacheWrite then None else Some(hash))]
    {
      ghost var s, b := store.db, store.blobs;
      if f.create {
        return Threw;
      }
      store.db := store.db.(nodes := store.db.nodes[n := PendingUpload]);
      // prepareUpload runs outside the try: its failure is not cleaned up.
      var prepared := PrepareNewFile(s, n, key, cap, now, f.prepare);
      if !prepared {
        NewFileBlobs(s, store.db, b, store.blobs, n, key, now);
        return Threw;
      }
      r := PutNewFile(s, n, bytes, mime, key, now, hash, f);
      NewFileBlobs(s, store.db, b, store.blobs, n, key, now);
    }
  }

  // ---------------------------------------------------------------- outcomes

  function CacheBack(db: Db, n: NodeId, previousCache: Option<CacheRow>, fails: bool): Db {
    if previousCache.Some? && !fails then PutCache(db, n, previousCache.value) else db
  }

  ghost function UploadedDb(mid: Db, n: NodeId, key: Key, size: nat, mime: string, hash: string,
      f: OverwriteFaults): Db {
    CacheBack(CompleteTx(mid, n, key, size, mime), n, Some(CacheRow(size, mime, Some(hash))), f.cacheWrite)
  }

  ghost function RolledBackDb(mid: Db, n: NodeId, prev: Option<RowId>, previousCache: Option<CacheRow>, key: Key,
      f: OverwriteFaults): Db {
    CacheBack(if f.rollbackTx then mid else RollbackTx(mid, n, prev, key), n, previousCache, f.cacheWrite)
  }

  /** The database after an overwrite, as its transactions leave it under the given faults. */
  ghost function OverwriteDb(s: Db, n: NodeId, prev: Option<RowId>, key: Key, size: nat, mime: string, hash: string,
                             cap: nat, now: nat, f: OverwriteFaults): Db
  {
    var mid := BeginTx(s, n, key, cap, now);
    if f.tx1 then s
    else if f.put.PutOk? && !f.tx2 then UploadedDb(mid, n, key, size, mime, hash, f)
    else RolledBackDb(mid, n, prev, if n in s.cache then Some(s.cache[n]) else None, key, f)
  }

  /**
   * From an active file: committed, or nothing happened, or back at the pre-state, or waiting with the last good row.
   */
  ghost predicate OverwriteOutcome(s: Db, u: Db, n: NodeId, prev: RowId, key: Key, size: nat, mime: string,
                                   hash: string, now: nat, f: OverwriteFaults)
  {
    && IsActiveRow(s, n, prev)
    && if f.tx1 then u == s
       else if f.put.PutOk? && !f.tx2 then
         OverwriteCommitted(s, u, n, prev, key, CacheRow(size, mime, if f.cacheWrite then None else Some(hash)), now)
       else if f.rollbackTx then StuckOverwrite(s, u, n, prev, key, now)
       else PreStateRestored(s, u, n)
  }

  /** A row of the node before and after: what was active or managed is managed or evicted. */
  ghost predicate DemotedRow(before: ObjRow, after: ObjRow) {
    after == before.(status := after.status)
    && if before.status in {Active, History} then after.status in {History, Orphaned} else after.status == before.status
  }

  /**
   * From any state of the node: the new row active, or pending after a failed rollback, or gone after a rollback,
   * which makes the node active and reactivates the row that was; rows of other nodes stay.
   */
  ghost predicate OverwriteRows(s: Db, u: Db, n: NodeId, prev: Option<RowId>, key: Key, now: nat, f: OverwriteFaults) {
    && u.trashed == s.trashed
    && (forall id :: id in s.rows ==> id in u.rows)
    && (forall id :: id in s.rows && (f.tx1 || s.rows[id].node != n) ==> u.rows[id] == s.rows[id])
    && if f.tx1 then u.rows.Keys == s.rows.Keys && u.nodes == s.nodes
       else if f.put.PutOk? && !f.tx2 then
         && u.nodes == s.nodes[n := SyncActive] && AddedRow(s, u, n, key, Active, now)
         && forall id :: id in s.rows && s.rows[id].node == n ==> DemotedRow(s.rows[id], u.rows[id])
       else if f.rollbackTx then
         && u.nodes == s.nodes[n := PendingUpload] && AddedRow(s, u, n, key, Pending, now)
         && forall id :: id in s.rows && s.rows[id].node == n ==> DemotedRow(s.rows[id], u.rows[id])
       else
         && u.nodes == s.nodes[n := SyncActive] && u.rows.Keys == s.rows.Keys
         && forall id :: id in s.rows && s.rows[id].node == n ==>
              if prev == Some(id) then u.rows[id] == s.rows[id].(status := Active)
              else DemotedRow(s.rows[id], u.rows[id])
  }

  ghost predicate AddedRow(s: Db, u: Db, n: NodeId, key: Key, status: RowStatus, now: nat) {
    && u.rows.Keys == s.rows.Keys + {s.nextRow}
    && u.rows[s.nextRow] == ObjRow(n, key, NextVersion(s.rows, n), status, u.rows[s.nextRow].size, now)
  }

  lemma RowsAfterOverwrite(s: Db, n: NodeId, prev: Option<RowId>, key: Key, size: nat, mime: string, hash: string,
                           cap: nat, now: nat, f: OverwriteFaults)
    requires RowsFit(s) && n in s.nodes && forall id :: id in s.rows ==> s.rows[id].key != key
    requires if prev.Some? then IsActiveRow(s, n, prev.value) else OfStatus(s.rows, n, Active) == {}
    ensures var u := OverwriteDb(s, n, prev, key, size, mime, hash, cap, now, f);
      && OverwriteRows(s, u, n, prev, key, now, f)
      && (if !f.tx1 && f.put.PutOk? && !f.tx2 then
            u.cache == s.cache[n := CacheRow(size, mime, if f.cacheWrite then None else Some(hash))]
            && u.rows[s.nextRow].size == Some(size)
          else u.cache == s.cache)
  {
    if !f.tx1 {
      var mid := BeginTx(s, n, key, cap, now);
      RowsBegun(s, n, key, cap, now);
      if f.put.PutOk? && !f.tx2 {
        RowsFinished(s, mid, n, prev, key, size, mime, hash, now, f);
      } else {
        RowsRolledBack(s, mid, n, prev, key, now, f);
      }
    }
  }

  /** After TX1, from any state of the node. */
  ghost predicate BegunFrom(s: Db, mid: Db, n: NodeId, key: Key, now: nat) {
    && mid.nodes == s.nodes[n := PendingUpload] && mid.trashed == s.trashed && mid.cache == s.cache
    && s.nextRow !in s.rows && AddedRow(s, mid, n, key, Pending, now)
    && (forall id :: id in s.rows ==> s.rows[id].key != key)
    && forall id :: id in s.rows ==>
         if s.rows[id].node == n then DemotedRow(s.rows[id], mid.rows[id]) else mid.rows[id] == s.rows[id]
  }

  lemma RowsFinished(s: Db, mid: Db, n: NodeId, prev: Option<RowId>, key: Key, size: nat, mime: string, hash: string,
                     now: nat, f: OverwriteFaults)
    requires BegunFrom(s, mid, n, key, now) && n in s.nodes && !f.tx1 && f.put.PutOk? && !f.tx2
    ensures var u := UploadedDb(mid, n, key, size, mime, hash, f);
      && OverwriteRows(s, u, n, prev, key, now, f) && u.rows[s.nextRow].size == Some(size)
      && u.cache == s.cache[n := CacheRow(size, mime, if f.cacheWrite then None else Some(hash))]
  {
    var rows := Activate(mid.rows, key, size);
    assert forall id :: id in s.rows ==> rows[id] == mid.rows[id];
    assert UploadedDb(mid, n, key, size, mime, hash, f).rows == rows;
  }

  lemma RowsRolledBack(s: Db, mid: Db, n: NodeId, prev: Option<RowId>, key: Key, now: nat, f: OverwriteFaults)
    requires BegunFrom(s, mid, n, key, now) && n in s.nodes && !f.tx1 && (!f.put.PutOk? || f.tx2)
    requires prev.Some? ==> IsActiveRow(s, n, prev.value)
    ensures var u := RolledBackDb(mid, n, prev, if n in s.cache then Some(s.cache[n]) else None, key, f);
      OverwriteRows(s, u, n, prev, key, now, f) && u.cache == s.cache
  {
    if !f.rollbackTx {
      var rows := if prev.Some? then Reactivate(mid.rows, prev.value) else mid.rows;
      assert ByKey(rows, key) == {s.nextRow};
      assert DeleteRows(rows, ByKey(rows, key)).Keys == s.rows.Keys;
    }
  }

  lemma RowsBegun(s: Db, n: NodeId, key: Key, cap: nat, now: nat)
    requires RowsFit(s) && n in s.nodes && forall id :: id in s.rows ==> s.rows[id].key != key
    ensures BegunFrom(s, BeginTx(s, n, key, cap, now), n, key, now)
  {
    NextVersionSame(Demote(s.rows, n), s.rows, n);
  }

  lemma NewKeyRow(s: Db, n: NodeId, key: Key, cap: nat, now: nat)
    requires RowsFit(s) && forall id :: id in s.rows ==> s.rows[id].key != key
    ensures var rows := BeginTx(s, n, key, cap, now).rows;
      ByKey(rows, key) == {s.nextRow} && s.nextRow in rows && rows[s.nextRow].node == n
  {
  }

  /** An overwrite of an active file keeps all invariants and ends in one of four states. */
  lemma OverwriteFromActive(s: Db, b: Blobs, u: Db, c: Blobs, n: NodeId, prev: Option<RowId>, key: Key, size: nat,
                            mime: string, hash: string, cap: nat, now: nat, f: OverwriteFaults)
    requires CoreInv(s) && n in s.nodes && s.nodes[n] == SyncActive && FreshKey(s, b, key)
    requires if prev.Some? then IsActiveRow(s, n, prev.value) else OfStatus(s.rows, n, Active) == {}
    requires OnlyKeyDiffers(b, c, key) && (!f.tx1 && f.put.PutOk? && !f.tx2 ==> key in c) && (f.tx1 ==> c == b)
    requires u == OverwriteDb(s, n, prev, key, size, mime, hash, cap, now, f)
    ensures InvKept(s, u) && KeepsIntact(s, b, u, c)
    ensures prev.Some? && OverwriteOutcome(s, u, n, prev.value, key, size, mime, hash, now, f)
  {
    assert prev.Some?;
    if !f.tx1 {
      var mid := BeginTx(s, n, key, cap, now);
      BegunFacts(s, n, prev.value, key, cap, now);
      if f.put.PutOk? && !f.tx2 {
        FinishedOutcome(s, mid, n, prev.value, key, now, size, mime, hash, f);
      } else {
        RolledBackOutcome(s, mid, n, prev.value, key, now, f);
      }
      OverwriteBlobs(s, u, b, c, n, prev.value, key, CacheRow(size, mime, if f.cacheWrite then None else Some(hash)),
        now);
    }
  }

  lemma FinishedOutcome(s: Db, mid: Db, n: NodeId, prev: RowId, key: Key, now: nat, size: nat, mime: string,
      hash: string, f: OverwriteFaults)
    requires CoreInv(mid) && StuckOverwrite(s, mid, n, prev, key, now) && n in s.nodes && s.nodes[n] == SyncActive
    ensures var u := UploadedDb(mid, n, key, size, mime, hash, f);
      && InvKept(mid, u)
      && OverwriteCommitted(s, u, n, prev, key, CacheRow(size, mime, if f.cacheWrite then None else Some(hash)), now)
  {
    StuckKey(s, mid, n, prev, key, now);
    CompleteCommits(s, mid, n, prev, key, now, size, mime);
    CompleteKeepsInv(mid, n, key, s.nextRow, size, mime);
    CacheIrrelevant(CompleteTx(mid, n, key, size, mime), n, CacheRow(size, mime, Some(hash)));
    CommittedCache(s, CompleteTx(mid, n, key, size, mime), n, prev, key, CacheRow(size, mime, None), Some(hash), now);
  }

  lemma RolledBackOutcome(s: Db, mid: Db, n: NodeId, prev: RowId, key: Key, now: nat, f: OverwriteFaults)
    requires CoreInv(mid) && StuckOverwrite(s, mid, n, prev, key, now) && n in s.nodes && s.nodes[n] == SyncActive
      && IsActiveRow(s, n, prev)
    ensures var u := RolledBackDb(mid, n, Some(prev), if n in s.cache then Some(s.cache[n]) else None, key, f);
      InvKept(mid, u) && if f.rollbackTx then StuckOverwrite(s, u, n, prev, key, now) else PreStateRestored(s, u, n)
  {
    RollbackRestores(s, mid, n, prev, key, now);
    if n in s.cache {
      SameCache(s, mid, n);
      SameCache(s, RollbackTx(mid, n, Some(prev), key), n);
    }
  }

  ghost predicate UploadOutcome(s: Db, b: Blobs, u: Db, c: Blobs, n: NodeId, key: Key, bytes: seq<bv8>, now: nat,
      f: UploadFaults, r: UploadResult) {
    && OnlyKeyDiffers(b, c, key) && u.trashed == s.trashed
    && r == (if f.create || !f.prepare.PrepareOk? || !f.put.PutOk? || f.tx2 then Threw else Uploaded)
    && (r == Uploaded ==> key in c && c[key].bytes == bytes)
    && (r == Threw ==> (n in u.nodes <==> !f.create && (!f.prepare.PrepareOk? || f.cleanup)))
    && (r == Threw ==> u.cache == s.cache && u.nodes == if n in u.nodes then s.nodes[n := PendingUpload] else s.nodes)
    && (r == Threw ==> u.rows == if n in u.nodes && !f.prepare.FailsBeforeUpsert?
          then s.rows[s.nextRow := ObjRow(n, key, 1, Pending, None, now)] else s.rows)
  }

  lemma CommittedCache(s: Db, w: Db, n: NodeId, prev: RowId, key: Key, row: CacheRow, hash: Option<string>, now: nat)
    requires OverwriteCommitted(s, w, n, prev, key, row, now)
    ensures OverwriteCommitted(s, PutCache(w, n, row.(hash := hash)), n, prev, key, row.(hash := hash), now)
  {
  }

  lemma SameCache(s: Db, u: Db, n: NodeId)
    requires n in s.cache && u.cache == s.cache
    ensures PutCache(u, n, s.cache[n]) == u
  {
  }

  lemma CacheIrrelevant(u: Db, n: NodeId, row: CacheRow)
    requires CoreInv(u)
    ensures InvKept(u, PutCache(u, n, row))
  {
  }

  lemma BegunFacts(s: Db, n: NodeId, prev: RowId, key: Key, cap: nat, now: nat)
    requires CoreInv(s) && n in s.nodes && s.nodes[n] == SyncActive && IsActiveRow(s, n, prev)
    requires forall id :: id in s.rows ==> s.rows[id].key != key
    ensures InvKept(s, BeginTx(s, n, key, cap, now))
    ensures StuckOverwrite(s, BeginTx(s, n, key, cap, now), n, prev, key, now)
  {
    BeginIsStuck(s, n, prev, key, cap, now);
    NoPendingOnActive(s, n);
    BeginKeepsInv(s, n, key, cap, now);
  }

  // ---------------------------------------------------------------- blobs along the way

  lemma NoPendingOnActive(s: Db, n: NodeId)
    requires StatusFits(s) && n in s.nodes && s.nodes[n] != PendingUpload
    ensures OfStatus(s.rows, n, Pending) == {}
  {
  }

  lemma OverwriteBlobs(s: Db, u: Db, b: Blobs, c: Blobs, n: NodeId, prev: RowId, key: Key, row: CacheRow, now: nat)
    requires IsActiveRow(s, n, prev) && FreshKey(s, b, key) && OnlyKeyDiffers(b, c, key)
    requires StuckOverwrite(s, u, n, prev, key, now) || PreStateRestored(s, u, n)
      || (key in c && OverwriteCommitted(s, u, n, prev, key, row, now))
    ensures KeepsIntact(s, b, u, c)
  {
  }

  // ---------------------------------------------------------------- a new file

  lemma NewNodeInv(s: Db, n: NodeId)
    requires CoreInv(s) && n !in s.nodes
    ensures InvKept(s, s.(nodes := s.nodes[n := PendingUpload]))
    ensures forall st :: OfStatus(s.rows, n, st) == {}
  {
  }

  /** Everything as before plus a waiting node with one pending row. */
  ghost predicate NewFileWaiting(s: Db, u: Db, n: NodeId, key: Key, now: nat) {
    && n !in s.nodes && u.nodes == s.nodes[n := PendingUpload] && u.cache == s.cache && u.nextRow == s.nextRow + 1
    && u.trashed == s.trashed && s.nextRow !in s.rows
    && u.rows == s.rows[s.nextRow := ObjRow(n, key, 1, Pending, None, now)]
  }

  /** The same with the row and the node active, and the cache row of the content. */
  ghost predicate NewFileActive(s: Db, u: Db, n: NodeId, key: Key, row: CacheRow, now: nat) {
    && n !in s.nodes && u.nodes == s.nodes[n := SyncActive] && u.cache == s.cache[n := row]
    && u.trashed == s.trashed && s.nextRow !in s.rows
    && u.rows == s.rows[s.nextRow := ObjRow(n, key, 1, Active, Some(row.size), now)]
  }

  lemma NoRowsYet(s: Db, n: NodeId)
    requires RowsFit(s) && n !in s.nodes
    ensures Demote(s.rows, n) == s.rows
    ensures forall st :: OfStatus(s.rows, n, st) == {}
    ensures s.nextRow !in s.rows
  {
  }

  /** A new node has no version to demote or evict: the prepare adds one pending row. */
  lemma NewFilePrepared(s: Db, created: Db, n: NodeId, key: Key, cap: nat, now: nat)
    requires CoreInv(s) && n !in s.nodes && created == s.(nodes := s.nodes[n := PendingUpload]) && CoreInv(created)
    requires forall id :: id in s.rows ==> s.rows[id].key != key
    ensures var u := Upsert(created, n, key, Pending, None, now);
      InvKept(created, u) && NewFileWaiting(s, u, n, key, now) && u.(rows := Evict(u.rows, n, cap)) == u
  {
    NoRowsYet(s, n);
    NewFileRow(s, created, n, key, cap, now);
    BeginKeepsInv(created, n, key, cap, now);
  }

  lemma NewFileRow(s: Db, created: Db, n: NodeId, key: Key, cap: nat, now: nat)
    requires n !in s.nodes && created == s.(nodes := s.nodes[n := PendingUpload])
    requires Demote(s.rows, n) == s.rows && HistoryOf(s.rows, n) == {} && s.nextRow !in s.rows
    requires forall id :: id in s.rows ==> s.rows[id].node != n
    ensures var u := Upsert(created, n, key, Pending, None, now);
      && NewFileWaiting(s, u, n, key, now) && u.(rows := Evict(u.rows, n, cap)) == u
      && BeginTx(created, n, key, cap, now) == u
  {
  }

  lemma NothingToEvict(before: Rows, rows: Rows, n: NodeId, added: RowId, cap: nat)
    requires HistoryOf(before, n) == {} && added !in before
    requires added in rows && rows[added].status == Pending && rows == before[added := rows[added]]
    ensures Evict(rows, n, cap) == rows
  {
  }

  lemma NewFileCompleted(s: Db, u: Db, n: NodeId, key: Key, now: nat, size: nat, mime: string)
    requires CoreInv(u) && NewFileWaiting(s, u, n, key, now)
    ensures ByKey(u.rows, key) == {s.nextRow} && u.rows[s.nextRow].node == n
    ensures InvKept(u, CompleteTx(u, n, key, size, mime))
    ensures NewFileActive(s, CompleteTx(u, n, key, size, mime), n, key, CacheRow(size, mime, None), now)
  {
    OnlyRowOfKey(u.rows, s.nextRow, key);
    CompleteKeepsInv(u, n, key, s.nextRow, size, mime);
    NewFileActivated(s, u, n, key, now, size, mime);
  }

  lemma OnlyRowOfKey(rows: Rows, id: RowId, key: Key)
    requires KeysUnique(rows) && id in rows && rows[id].key == key
    ensures forall i :: i in rows && i != id ==> rows[i].key != key
    ensures rows[id].status in {Pending, Active} ==> ByKey(rows, key) == {id}
  {
  }

  lemma NewFileActivated(s: Db, u: Db, n: NodeId, key: Key, now: nat, size: nat, mime: string)
    requires NewFileWaiting(s, u, n, key, now) && forall i :: i in u.rows && i != s.nextRow ==> u.rows[i].key != key
    ensures NewFileActive(s, CompleteTx(u, n, key, size, mime), n, key, CacheRow(size, mime, None), now)
  {
    assert forall i :: i in s.rows ==> u.rows[i] == s.rows[i];
    assert CompleteTx(u, n, key, size, mime).rows == s.rows[s.nextRow := ObjRow(n, key, 1, Active, Some(size), now)];
  }

  lemma NewFileBlobs(s: Db, u: Db, b: Blobs, c: Blobs, n: NodeId, key: Key, now: nat)
    requires FreshKey(s, b, key) && OnlyKeyDiffers(b, c, key)
    requires u.rows == s.rows || NewFileWaiting(s, u, n, key, now)
      || (key in c && exists row :: NewFileActive(s, u, n, key, row, now))
    ensures KeepsIntact(s, b, u, c)
  {
  }

  /** The enrichment write changes the cache row alone. */
  lemma NewFileCached(s: Db, u: Db, n: NodeId, key: Key, row: CacheRow, hash: Option<string>, now: nat)
    requires CoreInv(u) && NewFileActive(s, u, n, key, row, now)
    ensures InvKept(u, PutCache(u, n, row.(hash := hash)))
    ensures NewFileActive(s, PutCache(u, n, row.(hash := hash)), n, key, row.(hash := hash), now)
  {
    CacheIrrelevant(u, n, row.(hash := hash));
    assert s.cache[n := row][n := row.(hash := hash)] == s.cache[n := row.(hash := hash)];
  }

  lemma InvStillKept(s: Db, u: Db, w: Db)
    requires InvKept(s, u) && (InvKept(u, w) || w == u)
    ensures InvKept(s, w)
  {
  }

  lemma NewFileRemoved(s: Db, u: Db, n: NodeId, key: Key, now: nat)
    requires CoreInv(s) && n !in s.cache && n !in s.trashed && NewFileWaiting(s, u, n, key, now)
    ensures RemoveNode(u, n).rows == s.rows && RemoveNode(u, n).nodes == s.nodes && RemoveNode(u, n).cache == s.cache
    ensures RemoveNode(u, n).trashed == s.trashed && InvKept(s, RemoveNode(u, n))
  {
    var w := RemoveNode(u, n);
    assert w.rows == s.rows && w.nodes == s.nodes;
    SameInv(s, w);
  }

  /** The invariants speak of the rows, the statuses and the row sequence alone. */
  lemma SameInv(s: Db, w: Db)
    requires CoreInv(s) && w.rows == s.rows && w.nodes == s.nodes && w.nextRow >= s.nextRow
    ensures InvKept(s, w)
  {
  }
}
