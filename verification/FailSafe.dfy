/** failSafeService.repairPendingUploadNode: what each action does to a stuck node. */
module FailSafe {
  import opened Common
  import opened Tree
  import opened ObjectMap
  import opened UploadStates
  import opened Uploads

  // ---------------------------------------------------------------- outcomes

  /** `last` is active again, pending rows of `n` are gone, nothing else changed. */
  ghost predicate PreviousRestored(s: Db, u: Db, n: NodeId, last: RowId) {
    && n in s.nodes && u.nodes == s.nodes[n := SyncActive] && u.trashed == s.trashed && u.cache == s.cache
    && u.nextRow == s.nextRow && last in s.rows
    && u.rows == DeleteRows(s.rows, OfStatus(s.rows, n, Pending))[last := s.rows[last].(status := Active)]
  }

  /** The pending row `id` is active with the size the bucket reported. */
  ghost predicate UploadCompleted(s: Db, u: Db, n: NodeId, id: RowId, head: Blob) {
    && n in s.nodes && u.nodes == s.nodes[n := SyncActive] && u.trashed == s.trashed && u.nextRow == s.nextRow
    && id in s.rows && u.rows == s.rows[id := s.rows[id].(status := Active, size := Some(|head.bytes|))]
    && u.cache == s.cache[n := CacheRow(|head.bytes|, head.mime, None)]
  }

  /**
   * Auto repair ends in one of three ways, decided by the rows and the bucket alone; the last takes the whole
   * subtree.
   */
  ghost predicate AutoRepaired(s: Db, b: Blobs, u: Db, c: Blobs, n: NodeId, subtree: set<NodeId>) {
    if HistoryOf(s.rows, n) + OfStatus(s.rows, n, Orphaned) != {} then
      exists last :: IsLastGood(s.rows, n, last) && PreviousRestored(s, u, n, last)
    else if exists id :: id in OfStatus(s.rows, n, Pending) && s.rows[id].key in b then
      exists id ::
        id in OfStatus(s.rows, n, Pending) && s.rows[id].key in b && UploadCompleted(s, u, n, id, b[s.rows[id].key])
        && c == b
    else u == RemoveNodes(s, subtree)
  }

  /** An evicted version whose blob is gone already was made the active one. */
  ghost predicate RevivesLostBlob(s: Db, b: Blobs, u: Db, n: NodeId) {
    exists last :: IsLastGood(s.rows, n, last) && PreviousRestored(s, u, n, last) && s.rows[last].key !in b
  }

  /**
   * A repair of `n` takes no blob of another node's versions, and none of its own, but where it revived a version whose
   * blob was gone.
   */
  ghost predicate GoodBlobsKept(s: Db, b: Blobs, u: Db, c: Blobs, n: NodeId) {
    && (forall m :: m != n && Intact(s, b, m) ==> Intact(u, c, m))
    && (Intact(s, b, n) ==> (Intact(u, c, n) <==> !RevivesLostBlob(s, b, u, n)))
  }

  lemma RestoreKeepsInv(s: Db, u: Db, n: NodeId, last: RowId)
    requires CoreInv(s) && n in s.nodes && s.nodes[n] == PendingUpload
    requires last in s.rows && s.rows[last].node == n && s.rows[last].status in {History, Orphaned}
    requires PreviousRestored(s, u, n, last)
    ensures InvKept(s, u)
  {
    ActivatedKeepsInv(s, u, n, last);
  }

  /** A restore leaves every version of the node with its blob exactly when the restored one has its own. */
  lemma RestoreBlobs(s: Db, b: Blobs, u: Db, c: Blobs, n: NodeId, last: RowId)
    requires KeysUnique(s.rows) && IsLastGood(s.rows, n, last) && PreviousRestored(s, u, n, last)
    requires c.Keys <= b.Keys && forall k :: k in b && k !in c ==>
      exists id :: id in OfStatus(s.rows, n, Pending) && s.rows[id].key == k
    ensures GoodBlobsKept(s, b, u, c, n)
    ensures RevivesLostBlob(s, b, u, n) <==> s.rows[last].key !in b
  {
    forall id | id in s.rows && s.rows[id].status != Pending && s.rows[id].key in b ensures s.rows[id].key in c {
    }
    assert c.Keys <= b.Keys;
    RestoredIntact(s, b, u, c, n, last);
    if last2 :| IsLastGood(s.rows, n, last2) && PreviousRestored(s, u, n, last2) && s.rows[last2].key !in b {
      OneRestored(s, u, n, last, last2);
    }
  }

  lemma RestoredIntact(s: Db, b: Blobs, u: Db, c: Blobs, n: NodeId, last: RowId)
    requires IsLastGood(s.rows, n, last) && PreviousRestored(s, u, n, last) && c.Keys <= b.Keys
    requires forall id :: id in s.rows && s.rows[id].status != Pending && s.rows[id].key in b ==> s.rows[id].key in c
    ensures forall m :: m != n && Intact(s, b, m) ==> Intact(u, c, m)
    ensures Intact(s, b, n) ==> (Intact(u, c, n) <==> s.rows[last].key in b)
  {
    assert last in u.rows && u.rows[last].status == Active && u.rows[last].key == s.rows[last].key;
    assert s.rows[last].key in c ==> s.rows[last].key in b;
  }

  lemma OneRestored(s: Db, u: Db, n: NodeId, a: RowId, b: RowId)
    requires IsLastGood(s.rows, n, a) && PreviousRestored(s, u, n, a) && IsLastGood(s.rows, n, b)
      && PreviousRestored(s, u, n, b)
    ensures a == b
  {
    assert u.rows[b].status == Active && s.rows[b].status != Active;
  }

  lemma CompletedBlobs(s: Db, u: Db, b: Blobs, n: NodeId, id: RowId, head: Blob)
    requires UploadCompleted(s, u, n, id, head) && s.rows[id].status == Pending && s.rows[id].key in b
    ensures GoodBlobsKept(s, b, u, b, n)
  {
    NotRevived(s, b, u, n);
  }

  lemma PendingKeysOf(s: Db, n: NodeId, pending: Option<RowId>)
    requires OfStatus(s.rows, n, Pending) == if pending.Some? then {pending.value} else {}
    ensures pending.Some? ==> pending.value in s.rows && PendingKeys(s, n) == {s.rows[pending.value].key}
    ensures pending.None? ==> PendingKeys(s, n) == {}
  {
    assert pending.Some? ==> pending.value in OfStatus(s.rows, n, Pending);
  }

  lemma RestoredRows(rows: Rows, n: NodeId, last: RowId, pending: Option<RowId>)
    requires last in rows && rows[last].status in {History, Orphaned}
    requires OfStatus(rows, n, Pending) == if pending.Some? then {pending.value} else {}
    ensures var reactivated := Reactivate(rows, last);
      (if pending.Some? then DeleteRows(reactivated, {pending.value}) else reactivated)
        == DeleteRows(rows, OfStatus(rows, n, Pending))[last := rows[last].(status := Active)]
  {
  }

  lemma RemoveKeepsInv(s: Db, gone: set<NodeId>)
    requires CoreInv(s)
    ensures InvKept(s, RemoveNodes(s, gone))
  {
    var u := RemoveNodes(s, gone);
    forall m, st | m !in gone ensures OfStatus(u.rows, m, st) == OfStatus(s.rows, m, st) {
    }
  }

  /** The nodes are gone with their object rows, cache rows and stamps; what belongs to other nodes is as it was. */
  ghost predicate CascadedFrom(s: Db, u: Db, gone: set<NodeId>) {
    && u.nextRow == s.nextRow
    && (forall n :: n in u.nodes <==> n in s.nodes && n !in gone)
    && (forall n :: n in u.nodes ==> u.nodes[n] == s.nodes[n])
    && (forall n :: n in u.cache <==> n in s.cache && n !in gone)
    && (forall n :: n in u.cache ==> u.cache[n] == s.cache[n])
    && (forall n :: n in u.trashed <==> n in s.trashed && n !in gone)
    && (forall id :: id in u.rows <==> id in s.rows && s.rows[id].node !in gone)
    && (forall id :: id in u.rows ==> u.rows[id] == s.rows[id])
  }

  lemma RemovedCascade(s: Db, gone: set<NodeId>)
    ensures CascadedFrom(s, RemoveNodes(s, gone), gone)
  {
  }

  lemma RemoveOne(s: Db, n: NodeId)
    ensures RemoveNodes(s, {n}) == RemoveNode(s, n)
  {
  }

  class FailSafeService {
    const store: Storage

    constructor (store: Storage)
      ensures this.store == store
    {
      this.store := store;
    }

    /** The first row of one status in getObjectMapByNode's newest-first order. */
    method FindNewest(n: NodeId, st: RowStatus) returns (r: Option<RowId>)
      ensures r.None? <==> OfStatus(store.db.rows, n, st) == {}
      ensures r.Some? ==> r.value in OfStatus(store.db.rows, n, st)
      ensures r.Some? ==> forall id :: id in OfStatus(store.db.rows, n, st) ==>
        store.db.rows[id].version <= store.db.rows[r.value].version
    {
      var rows := store.db.rows;
      var hits := OfStatus(rows, n, st);
      if hits == {} {
        return None;
      }
      ghost var top := NewestExists(rows, hits);
      var id :| id in hits && forall h :: h in hits ==> rows[h].version <= rows[id].version;
      r := Some(id);
    }

    /** The pending row, and the newest managed version or else the newest evicted one. */
    method ReadRows(n: NodeId) returns (pendingRow: Option<RowId>, lastGoodRow: Option<RowId>)
      requires OneOfEach(store.db.rows)
      ensures RowsRead(store.db, n, pendingRow, lastGoodRow)
    {
      pendingRow := FindNewest(n, Pending);
      lastGoodRow := FindNewest(n, History);
      if lastGoodRow.None? {
        lastGoodRow := FindNewest(n, Orphaned);
      }
      SinglePending(store.db, n, pendingRow);
    }

    /** One transaction: the last good row reactivated, the pending row deleted, the node active. */
    method RestoreLastGood(n: NodeId, last: RowId, pending: Option<RowId>, f: RepairFaults) returns (r: RepairResult)
      requires CoreInv(store.db) && n in store.db.nodes && store.db.nodes[n] == PendingUpload
      requires IsLastGood(store.db.rows, n, last)
      requires OfStatus(store.db.rows, n, Pending) == if pending.Some? then {pending.value} else {}
      modifies store
      ensures InvKept(old(store.db), store.db)
      ensures r == if f.tx then RepairThrew else Resolved
      ensures if f.tx then store.db == old(store.db) && store.blobs == old(store.blobs)
              else PreviousRestored(old(store.db), store.db, n, last)
      ensures !f.tx ==> store.blobs == old(store.blobs) - if f.blobDelete then {} else PendingKeys(old(store.db), n)
      ensures GoodBlobsKept(old(store.db), old(store.blobs), store.db, store.blobs, n)
    {
      ghost var s, b := store.db, store.blobs;
      if f.tx {
        NotRevived(s, b, s, n);
        return RepairThrew;
      }
      var pendingKey := if pending.Some? then Some(store.db.rows[pending.value].key) else None;
      store.db := store.db.(rows := Reactivate(store.db.rows, last));
      if pending.Some? {
        store.db := store.db.(rows := DeleteRows(store.db.rows, {pending.value}));
      }
      store.db := SetSync(store.db, n, SyncActive);
      RestoredRows(s.rows, n, last, pending);
      PendingKeysOf(s, n, pending);
      RestoreKeepsInv(s, store.db, n, last);
      if pendingKey.Some? {
        var deleted := store.DeleteBlob(pendingKey.value, f.blobDelete);
      }
      RestoreBlobs(s, b, store.db, store.blobs, n, last);
      r := Resolved;
    }

    method CompletePending(n: NodeId, pending: Option<RowId>, f: RepairFaults) returns (r: RepairResult)
      requires CoreInv(store.db) && n in store.db.nodes && store.db.nodes[n] == PendingUpload
      requires OfStatus(store.db.rows, n, Pending) == if pending.Some? then {pending.value} else {}
      modifies store`db
      ensures InvKept(old(store.db), store.db)
      ensures GoodBlobsKept(old(store.db), old(store.blobs), store.db, store.blobs, n)
      ensures r == if pending.None? then NothingToActivate else if f.probe then RepairThrew
                   else if old(store.db).rows[pending.value].key !in store.blobs then BlobMissing
                   else if f.tx then RepairThrew else Resolved
      ensures if r == Resolved
        then UploadCompleted(old(store.db), store.db, n, pending.value,
        store.blobs[old(store.db).rows[pending.value].key])
              else store.db == old(store.db)
    {
      ghost var s := store.db;
      NotRevived(s, store.blobs, s, n);
      if pending.None? {
        return NothingToActivate;
      }
      assert pending.value in OfStatus(store.db.rows, n, Pending);
      var key := store.db.rows[pending.value].key;
      if f.probe {
        return RepairThrew;
      }
      if key !in store.blobs {
        return BlobMissing;
      }
      if f.tx {
        return RepairThrew;
      }
      var head := store.blobs[key];
      CompleteKeepsInv(s, n, key, pending.value, |head.bytes|, head.mime);
      CompletedRows(s, n, key, pending.value, |head.bytes|, head.mime);
      store.db := store.db.(rows := Activate(store.db.rows, key, |head.bytes|));
      store.db := PutCache(store.db, n, CacheRow(|head.bytes|, head.mime, None));
      store.db := SetSync(store.db, n, SyncActive);
      CompletedBlobs(s, store.db, store.blobs, n, pending.value, head);
      r := Resolved;
    }

    /**
     * deleteNode takes every node the closure lists under `n`, with their rows; of the blobs only the pending one
     * goes.
     */
    method DeleteStuck(n: NodeId, subtree: set<NodeId>, pending: Option<RowId>, f: RepairFaults)
        returns (r: RepairResult)
      requires CoreInv(store.db)
      requires OfStatus(store.db.rows, n, Pending) == if pending.Some? then {pending.value} else {}
      modifies store
      ensures InvKept(old(store.db), store.db)
      ensures GoodBlobsKept(old(store.db), old(store.blobs), store.db, store.blobs, n)
      ensures r == if f.dbDelete then RepairThrew else Resolved
      ensures store.db == if f.dbDelete then old(store.db) else RemoveNodes(old(store.db), subtree)
      ensures store.blobs == old(store.blobs) - if f.blobDelete then {} else PendingKeys(old(store.db), n)
    {
      ghost var s, b := store.db, store.blobs;
      PendingKeysOf(s, n, pending);
      if pending.Some? {
        var deleted := store.DeleteBlob(store.db.rows[pending.value].key, f.blobDelete);
      }
      if !f.dbDelete {
        RemoveKeepsInv(store.db, subtree);
        store.db := RemoveNodes(store.db, subtree);
      }
      NotRevived(s, b, store.db, n);
      r := if f.dbDelete then RepairThrew else Resolved;
    }

    /** What auto resolves to. An unknown blob state must not pick a destructive action. */
    method ResolveAction(n: NodeId, action: RepairAction, pendingRow: Option<RowId>, lastGoodRow: Option<RowId>,
        probeFails: bool)
      returns (resolved: Option<RepairAction>)
      requires pendingRow.Some? ==> pendingRow.value in store.db.rows
      ensures action != Auto ==> resolved == Some(action)
      ensures action == Auto ==>
        (resolved == if lastGoodRow.Some? then Some(RestorePrevious)
                     else if pendingRow.Some? && probeFails then None
                     else if pendingRow.Some? && store.db.rows[pendingRow.value].key in store.blobs then Some(Complete)
                     else Some(Delete))
    {
      if action != Auto {
        return Some(action);
      }
      if lastGoodRow.Some? {
        return Some(RestorePrevious);
      }
      if pendingRow.Some? && probeFails {
        return None;
      }
      resolved :=
        Some(if pendingRow.Some? && store.db.rows[pendingRow.value].key in store.blobs then Complete else Delete);
    }

    /** The three branches; every one keeps the invariants, and of the blobs loses at most the pending one. */
    method RunAction(n: NodeId, subtree: set<NodeId>, resolved: RepairAction, pendingRow: Option<RowId>,
                     lastGoodRow: Option<RowId>, f: RepairFaults) returns (r: RepairResult)
      requires CoreInv(store.db) && n in store.db.nodes && store.db.nodes[n] == PendingUpload && resolved != Auto
      requires OfStatus(store.db.rows, n, Pending) == if pendingRow.Some? then {pendingRow.value} else {}
      requires lastGoodRow.Some? ==> IsLastGood(store.db.rows, n, lastGoodRow.value)
      modifies store
      ensures InvKept(old(store.db), store.db)
      ensures GoodBlobsKept(old(store.db), old(store.blobs), store.db, store.blobs, n)
      ensures BranchDone(old(store.db), old(store.blobs), store.db, store.blobs, n, subtree, resolved, pendingRow,
        lastGoodRow, f, r)
    {
      match resolved {
        case Complete =>
          r := CompletePending(n, pendingRow, f);
        case RestorePrevious =>
          if lastGoodRow.None? {
            NotRevived(store.db, store.blobs, store.db, n);
            return NothingToRestore;
          }
          r := RestoreLastGood(n, lastGoodRow.value, pendingRow, f);
        case Delete =>
          r := DeleteStuck(n, subtree, pendingRow, f);
      }
    }

    /** The rest of a repair, with the rows read. */
    method RepairWaiting(n: NodeId, subtree: set<NodeId>, action: RepairAction, pendingRow: Option<RowId>,
                         lastGoodRow: Option<RowId>, f: RepairFaults) returns (r: RepairResult)
      requires CoreInv(store.db) && n in store.db.nodes && store.db.nodes[n] == PendingUpload
      requires RowsRead(store.db, n, pendingRow, lastGoodRow)
      modifies store
      ensures InvKept(old(store.db), store.db)
      ensures GoodBlobsKept(old(store.db), old(store.blobs), store.db, store.blobs, n)
      ensures RepairOutcome(old(store.db), old(store.blobs), store.db, store.blobs, n, subtree, action, f, r)
    {
      ghost var s, b := store.db, store.blobs;
      var resolved := ResolveAction(n, action, pendingRow, lastGoodRow, f.probe);
      if resolved.None? {
        NotRevived(s, b, store.db, n);
        return RepairThrew;
      }
      r := RunAction(n, subtree, resolved.value, pendingRow, lastGoodRow, f);
      OutcomeOfAction(s, b, store.db, store.blobs, n, subtree, action, resolved.value, pendingRow, lastGoodRow, f, r);
    }

    /**
     * Repairs any live node that waits in pending_upload, file or directory; `subtree` is what the closure lists under
     * it. A trashed node is not found. An evicted row is the fallback when no version is managed.
     */
    method RepairPendingUploadNode(n: NodeId, subtree: set<NodeId>, action: RepairAction, f: RepairFaults)
        returns (r: RepairResult)
      requires CoreInv(store.db)
      modifies store
      ensures InvKept(old(store.db), store.db)
      ensures GoodBlobsKept(old(store.db), old(store.blobs), store.db, store.blobs, n)
      ensures r == NodeMissing <==> n !in old(store.db).nodes || n in old(store.db).trashed
      ensures r == NotPending <==>
        n in old(store.db).nodes && n !in old(store.db).trashed && old(store.db).nodes[n] != PendingUpload
      ensures r in {NodeMissing, NotPending} ==> store.db == old(store.db) && store.blobs == old(store.blobs)
      ensures r !in {NodeMissing, NotPending} ==>
        RepairOutcome(old(store.db), old(store.blobs), store.db, store.blobs, n, subtree, action, f, r)
    {
      ghost var s, b := store.db, store.blobs;
      if n !in store.db.nodes || n in store.db.trashed || store.db.nodes[n] != PendingUpload {
        NotRevived(s, b, store.db, n);
        return if n !in store.db.nodes || n in store.db.trashed then NodeMissing else NotPending;
      }
      var pendingRow, lastGoodRow := ReadRows(n);
      r := RepairWaiting(n, subtree, action, pendingRow, lastGoodRow, f);
    }
  }

  ghost predicate HasGoodRow(s: Db, n: NodeId) {
    HistoryOf(s.rows, n) + OfStatus(s.rows, n, Orphaned) != {}
  }

  ghost predicate HasPendingBlob(s: Db, b: Blobs, n: NodeId) {
    exists id :: id in OfStatus(s.rows, n, Pending) && s.rows[id].key in b
  }

  /** What the action needs: nothing, a blob under the pending row, or a row to fall back to. */
  ghost predicate CanResolve(s: Db, b: Blobs, n: NodeId, action: RepairAction) {
    (action == Complete ==> HasPendingBlob(s, b, n)) && (action == RestorePrevious ==> HasGoodRow(s, n))
  }

  /** Complete was asked for, or auto found a pending blob and no row to fall back to. */
  ghost predicate Completes(s: Db, b: Blobs, n: NodeId, action: RepairAction) {
    action == Complete || (action == Auto && !HasGoodRow(s, n) && HasPendingBlob(s, b, n))
  }

  ghost predicate ActiveAgain(u: Db, n: NodeId) {
    n in u.nodes && u.nodes[n] == SyncActive && OfStatus(u.rows, n, Active) != {} && OfStatus(u.rows, n, Pending) == {}
  }

  ghost predicate RowsRead(s: Db, n: NodeId, pendingRow: Option<RowId>, lastGoodRow: Option<RowId>) {
    && OfStatus(s.rows, n, Pending) == (if pendingRow.Some? then {pendingRow.value} else {})
    && (pendingRow.Some? ==> pendingRow.value in s.rows)
    && if lastGoodRow.Some? then IsLastGood(s.rows, n, lastGoodRow.value) else !HasGoodRow(s, n)
  }

  /** What an action asked for leaves, whether it resolves the node or not. */
  ghost predicate RepairOutcome(s: Db, b: Blobs, u: Db, c: Blobs, n: NodeId, subtree: set<NodeId>,
                                action: RepairAction, f: RepairFaults, r: RepairResult)
  {
    && r in {Resolved, RepairThrew, NothingToActivate, BlobMissing, NothingToRestore}
    && (action == Auto ==> r in {RepairThrew, Resolved})
    && (r != Resolved ==> u == s && (r != RepairThrew ==> c == b))
    && (r == RepairThrew ==> f.probe || f.tx || f.dbDelete)
    && (r == NothingToRestore ==> !HasGoodRow(s, n))
    && (!f.probe && !f.tx && !f.dbDelete ==> (r == Resolved <==> CanResolve(s, b, n, action)))
    && (r == Resolved ==> ActionDone(s, b, u, c, n, subtree, action))
    && (r == Resolved && n in subtree && n in u.nodes ==> ActiveAgain(u, n))
    && (r == Resolved ==> c == b - if f.blobDelete || Completes(s, b, n, action) then {} else PendingKeys(s, n))
    && (r == RepairThrew && c != b ==> f.dbDelete && c == b - PendingKeys(s, n))
  }

  ghost predicate ActionDone(s: Db, b: Blobs, u: Db, c: Blobs, n: NodeId, subtree: set<NodeId>, action: RepairAction) {
    match action
    case Auto => AutoRepaired(s, b, u, c, n, subtree)
    case RestorePrevious => exists last :: IsLastGood(s.rows, n, last) && PreviousRestored(s, u, n, last)
    case Delete => u == RemoveNodes(s, subtree) && CascadedFrom(s, u, subtree)
    case Complete => c == b && exists id :: (id in OfStatus(s.rows, n, Pending) && s.rows[id].key in b
      && UploadCompleted(s, u, n, id, b[s.rows[id].key]))
  }

  /** The three branches end in one of these ways. */
  ghost predicate BranchDone(s: Db, b: Blobs, u: Db, c: Blobs, n: NodeId, subtree: set<NodeId>,
                             resolved: RepairAction, pendingRow: Option<RowId>, lastGoodRow: Option<RowId>,
                             f: RepairFaults, r: RepairResult)
    requires pendingRow.Some? ==> pendingRow.value in s.rows
  {
    && r in {Resolved, RepairThrew, NothingToActivate, BlobMissing, NothingToRestore}
    && (r != Resolved ==> u == s && (r != RepairThrew ==> c == b))
    && (r == RepairThrew ==> f.probe || f.tx || f.dbDelete)
    && (r == NothingToRestore ==> lastGoodRow.None? && resolved == RestorePrevious)
    && (r in {NothingToActivate, BlobMissing} ==>
         resolved == Complete && (pendingRow.None? || s.rows[pendingRow.value].key !in b))
    && (!f.probe && !f.tx && !f.dbDelete ==> (r == Resolved <==>
         && (resolved == Complete ==> pendingRow.Some? && s.rows[pendingRow.value].key in b)
         && (resolved == RestorePrevious ==> lastGoodRow.Some?)))
    && c == b - (if f.blobDelete || resolved == Complete || (resolved == RestorePrevious && r != Resolved) then {}
                 else PendingKeys(s, n))
    && (r == RepairThrew && resolved == Delete ==> f.dbDelete)
    && (r == Resolved ==> RepairedBy(s, b, u, c, n, subtree, resolved, pendingRow, lastGoodRow))
  }

  lemma OutcomeOfAction(s: Db, b: Blobs, u: Db, c: Blobs, n: NodeId, subtree: set<NodeId>, action: RepairAction,
                        resolved: RepairAction, pendingRow: Option<RowId>, lastGoodRow: Option<RowId>,
                        f: RepairFaults, r: RepairResult)
    requires CoreInv(u) && RowsRead(s, n, pendingRow, lastGoodRow) && resolved != Auto
    requires action != Auto ==> resolved == action
    requires action == Auto ==> resolved == if lastGoodRow.Some? then RestorePrevious
      else if pendingRow.Some? && s.rows[pendingRow.value].key in b then Complete else Delete
    requires BranchDone(s, b, u, c, n, subtree, resolved, pendingRow, lastGoodRow, f, r)
    ensures RepairOutcome(s, b, u, c, n, subtree, action, f, r)
  {
    ResolvedTo(s, b, n, action, resolved, pendingRow, lastGoodRow);
    if r == Resolved {
      if n in subtree {
        RepairedNode(s, b, u, c, n, subtree, resolved, pendingRow, lastGoodRow);
      }
      DoneByAction(s, b, u, c, n, subtree, action, resolved, pendingRow, lastGoodRow);
    }
  }

  lemma DoneByAction(s: Db, b: Blobs, u: Db, c: Blobs, n: NodeId, subtree: set<NodeId>, action: RepairAction,
                     resolved: RepairAction, pendingRow: Option<RowId>, lastGoodRow: Option<RowId>)
    requires RowsRead(s, n, pendingRow, lastGoodRow) && (action != Auto ==> resolved == action)
    requires action == Auto ==> resolved == if lastGoodRow.Some? then RestorePrevious
      else if pendingRow.Some? && s.rows[pendingRow.value].key in b then Complete else Delete
    requires RepairedBy(s, b, u, c, n, subtree, resolved, pendingRow, lastGoodRow)
    ensures ActionDone(s, b, u, c, n, subtree, action)
  {
    RemovedCascade(s, subtree);
    if action == Auto {
      AutoOutcome(s, b, u, c, n, subtree, resolved, pendingRow, lastGoodRow);
    } else if action == Complete {
      assert pendingRow.value in OfStatus(s.rows, n, Pending);
    }
  }

  lemma RepairedNode(s: Db, b: Blobs, u: Db, c: Blobs, n: NodeId, subtree: set<NodeId>, resolved: RepairAction,
                     pendingRow: Option<RowId>, lastGoodRow: Option<RowId>)
    requires CoreInv(u) && RepairedBy(s, b, u, c, n, subtree, resolved, pendingRow, lastGoodRow)
    requires resolved == Delete ==> n in subtree
    ensures n in u.nodes ==> ActiveAgain(u, n)
  {
    if n in u.nodes {
      assert u.nodes[n] == SyncActive;
    }
  }

  /** The rows found decide what the action resolves to, and whether it can. */
  lemma ResolvedTo(s: Db, b: Blobs, n: NodeId, action: RepairAction, resolved: RepairAction,
                   pendingRow: Option<RowId>, lastGoodRow: Option<RowId>)
    requires RowsRead(s, n, pendingRow, lastGoodRow)
    requires action != Auto ==> resolved == action
    requires action == Auto ==> resolved == if lastGoodRow.Some? then RestorePrevious
      else if pendingRow.Some? && s.rows[pendingRow.value].key in b then Complete else Delete
    ensures lastGoodRow.Some? <==> HasGoodRow(s, n)
    ensures HasPendingBlob(s, b, n) <==> pendingRow.Some? && s.rows[pendingRow.value].key in b
    ensures Completes(s, b, n, action) <==> resolved == Complete
    ensures CanResolve(s, b, n, action) <==> CanResolve(s, b, n, resolved)
  {
    if lastGoodRow.Some? {
      assert lastGoodRow.value in HistoryOf(s.rows, n) + OfStatus(s.rows, n, Orphaned);
    }
    if pendingRow.Some? {
      assert pendingRow.value in OfStatus(s.rows, n, Pending);
    }
  }

  /** What each action leaves when it resolves the node. */
  ghost predicate RepairedBy(s: Db, b: Blobs, u: Db, c: Blobs, n: NodeId, subtree: set<NodeId>, resolved: RepairAction,
                             pendingRow: Option<RowId>, lastGoodRow: Option<RowId>)
  {
    match resolved
    case RestorePrevious => lastGoodRow.Some? && PreviousRestored(s, u, n, lastGoodRow.value)
    case Complete =>
      pendingRow.Some? && pendingRow.value in s.rows && s.rows[pendingRow.value].key in b && c == b
      && UploadCompleted(s, u, n, pendingRow.value, b[s.rows[pendingRow.value].key])
    case Delete => u == RemoveNodes(s, subtree)
    case Auto => false
  }

  lemma AutoOutcome(s: Db, b: Blobs, u: Db, c: Blobs, n: NodeId, subtree: set<NodeId>, resolved: RepairAction,
                    pendingRow: Option<RowId>, lastGoodRow: Option<RowId>)
    requires RowsRead(s, n, pendingRow, lastGoodRow)
    requires resolved == if lastGoodRow.Some? then RestorePrevious
                         else if pendingRow.Some? && s.rows[pendingRow.value].key in b then Complete else Delete
    requires RepairedBy(s, b, u, c, n, subtree, resolved, pendingRow, lastGoodRow)
    ensures AutoRepaired(s, b, u, c, n, subtree)
  {
    if lastGoodRow.Some? {
      assert lastGoodRow.value in HistoryOf(s.rows, n) + OfStatus(s.rows, n, Orphaned);
    } else if pendingRow.Some? {
      assert pendingRow.value in OfStatus(s.rows, n, Pending);
    }
  }

  /** Under the full invariants the fallback is a managed version, so no repair makes a version active without blob. */
  lemma RepairKeepsBlobs(s: Db, b: Blobs, u: Db, c: Blobs, n: NodeId)
    requires DbInv(s) && GoodBlobsKept(s, b, u, c, n) && (u == s || (n in s.nodes && s.nodes[n] == PendingUpload))
    ensures KeepsIntact(s, b, u, c)
  {
    if Intact(s, b, n) {
      assert !RevivesLostBlob(s, b, u, n);
    }
  }

  /** Neither a completed upload nor a delete reactivates a version. */
  lemma NotRevived(s: Db, b: Blobs, u: Db, n: NodeId)
    requires forall id :: id in u.rows && id in s.rows && s.rows[id].status in {History, Orphaned} ==>
      u.rows[id].status == s.rows[id].status
    ensures !RevivesLostBlob(s, b, u, n)
  {
  }

  /** Directories hold no rows and wait for ever: an auto repair of one deletes all that the closure lists under it. */
  lemma DirectoryRepairTakesSubtree(s: Db, b: Blobs, u: Db, c: Blobs, n: NodeId, subtree: set<NodeId>)
    requires AutoRepaired(s, b, u, c, n, subtree) && forall id :: id in s.rows ==> s.rows[id].node != n
    ensures u.nodes == s.nodes - subtree && forall id :: id in u.rows ==> u.rows[id].node !in subtree
  {
    assert HistoryOf(s.rows, n) + OfStatus(s.rows, n, Orphaned) == {} && OfStatus(s.rows, n, Pending) == {};
  }

  lemma SinglePending(s: Db, n: NodeId, pending: Option<RowId>)
    requires OneOfEach(s.rows)
    requires pending.None? ==> OfStatus(s.rows, n, Pending) == {}
    requires pending.Some? ==> pending.value in OfStatus(s.rows, n, Pending)
    ensures OfStatus(s.rows, n, Pending) == if pending.Some? then {pending.value} else {}
  {
  }
}
