/** gcService Tier 1 and Tier 2 in s3 mode, one pass at a time. */
module Gc {
  import opened Common
  import opened Tree
  import opened ObjectMap
  import opened UploadStates
  import opened Uploads

  // ---------------------------------------------------------------- what Tier 1 may select

  /** The last-good guard: the node waits in pending_upload and has no active row. */
  predicate Guarded(db: Db, n: NodeId) {
    n in db.nodes && db.nodes[n] == PendingUpload && OfStatus(db.rows, n, Active) == {}
  }

  /** Orphaned rows old enough, by category: node gone, guarded, or an expired version. */
  predicate OrphanDeletable(db: Db, id: RowId, orphanCutoff: int, versionCutoff: int) {
    id in db.rows && db.rows[id].status == Orphaned && db.rows[id].created < orphanCutoff
    && (db.rows[id].node !in db.nodes || (!Guarded(db, db.rows[id].node) && db.rows[id].created < versionCutoff))
  }

  predicate StalePending(db: Db, id: RowId, staleCutoff: int) {
    id in db.rows && db.rows[id].status == Pending && db.rows[id].created < staleCutoff
    && db.rows[id].node in db.nodes && db.nodes[db.rows[id].node] == PendingUpload
  }

  ghost predicate Tier1Selects(db: Db, id: RowId, orphanCutoff: int, versionCutoff: int, staleCutoff: Option<int>) {
    || OrphanDeletable(db, id, orphanCutoff, versionCutoff)
    || (staleCutoff.Some? && StalePending(db, id, staleCutoff.value))
  }

  function OldOrphans(db: Db, orphanCutoff: int): set<RowId> {
    set id | id in db.rows && db.rows[id].status == Orphaned && db.rows[id].created < orphanCutoff
  }

  ghost function Held(db: Db, ids: set<RowId>): set<RowId> {
    set id | id in ids && id in db.rows && Guarded(db, db.rows[id].node)
  }

  /** Selectable without regard to age. */
  ghost predicate Selectable(db: Db, id: RowId) {
    id in db.rows
      && (db.rows[id].status == Pending || (db.rows[id].status == Orphaned && !Guarded(db, db.rows[id].node)))
  }

  ghost function KeysOf(rows: Rows, ids: set<RowId>): set<Key> {
    set id | id in ids && id in rows :: rows[id].key
  }

  /** Some of the selected rows and some of their blobs are gone; nothing else changed. */
  ghost predicate SelectedDeleted(s: Db, b: Blobs, u: Db, c: Blobs, selected: set<RowId>) {
    && u.nodes == s.nodes && u.cache == s.cache && u.nextRow == s.nextRow && u.trashed == s.trashed
    && u.rows.Keys <= s.rows.Keys && s.rows.Keys - selected <= u.rows.Keys
    && (forall id :: id in u.rows ==> u.rows[id] == s.rows[id])
    && c.Keys <= b.Keys && b.Keys - KeysOf(s.rows, selected) <= c.Keys
    && (forall k :: k in c ==> c[k] == b[k])
  }

  // ---------------------------------------------------------------- what a pass keeps

  /** Deleting pending and evicted rows keeps every invariant, whichever deletions failed. */
  lemma SelectedDeletedKeepsInv(s: Db, b: Blobs, u: Db, c: Blobs, selected: set<RowId>)
    requires CoreInv(s) && SelectedDeleted(s, b, u, c, selected)
    requires forall id :: id in selected && id in s.rows ==> s.rows[id].status in {Pending, Orphaned}
    ensures InvKept(s, u) && KeepsIntact(s, b, u, c)
  {
  }

  /**
   * On a guarded node only pending rows can disappear, so a later repair finds the same last good row, managed or
   * evicted.
   */
  lemma GuardedKept(s: Db, b: Blobs, u: Db, c: Blobs, selected: set<RowId>, n: NodeId)
    requires SelectedDeleted(s, b, u, c, selected) && forall id :: id in selected ==> Selectable(s, id)
    requires Guarded(s, n)
    ensures forall id :: id in s.rows && s.rows[id].node == n && s.rows[id].status != Pending ==>
      id in u.rows && u.rows[id] == s.rows[id]
    ensures forall last :: IsLastGood(u.rows, n, last) <==> IsLastGood(s.rows, n, last)
  {
    assert HistoryOf(u.rows, n) == HistoryOf(s.rows, n);
    assert OfStatus(u.rows, n, Orphaned) == OfStatus(s.rows, n, Orphaned);
  }

  lemma Tier1Kept(s: Db, b: Blobs, u: Db, c: Blobs, selected: set<RowId>)
    requires CoreInv(s) && SelectedDeleted(s, b, u, c, selected) && forall id :: id in selected ==> Selectable(s, id)
    ensures InvKept(s, u) && KeepsIntact(s, b, u, c)
    ensures forall n, last :: Guarded(s, n) ==> (IsLastGood(u.rows, n, last) <==> IsLastGood(s.rows, n, last))
  {
    SelectedDeletedKeepsInv(s, b, u, c, selected);
    forall n | Guarded(s, n) ensures forall last :: IsLastGood(u.rows, n, last) <==> IsLastGood(s.rows, n, last) {
      GuardedKept(s, b, u, c, selected, n);
    }
  }

  /** Under the invariants the kept set misses no row at all. */
  lemma EveryRowKept(db: Db)
    requires RowsFit(db) && StatusFits(db)
    ensures forall id :: id in db.rows ==> db.rows[id].key in KeptObjectKeys(db)
  {
  }

  /** The row is as it was, and its blob is there if it was. */
  ghost predicate RowSurvives(s: Db, b: Blobs, u: Db, c: Blobs, id: RowId)
    requires id in s.rows
  {
    id in u.rows && u.rows[id] == s.rows[id] && (s.rows[id].key in b ==>
      s.rows[id].key in c && c[s.rows[id].key] == b[s.rows[id].key])
  }

  /** Row and blob are gone, but for deletes that fail. */
  ghost predicate RowGone(s: Db, b: Blobs, u: Db, c: Blobs, id: RowId, blobFails: set<Key>, survivors: set<RowId>)
    requires id in s.rows
  {
    && (id in u.rows <==> id in survivors)
    && (s.rows[id].key in c <==> (s.rows[id].key in b && s.rows[id].key in blobFails))
  }

  /** The blobs of these rows are gone, then the rows, but for deletes that fail. */
  ghost predicate Cleaned(s: Db, b: Blobs, u: Db, c: Blobs, ids: set<RowId>, blobFails: set<Key>,
      survivors: set<RowId>) {
    u == s.(rows := DeleteRows(s.rows, ids - survivors)) && c == b - (KeysOf(s.rows, ids) - blobFails)
  }

  lemma CleanedTwice(s: Db, b: Blobs, m: Db, d: Blobs, u: Db, c: Blobs, first: set<RowId>, second: set<RowId>,
      blobFails: set<Key>, survivors: set<RowId>)
    requires Cleaned(s, b, m, d, first, blobFails, survivors) && Cleaned(m, d, u, c, second, blobFails, survivors)
    requires first !! second
    ensures Cleaned(s, b, u, c, first + second, blobFails, survivors)
  {
    assert KeysOf(m.rows, second) == KeysOf(s.rows, second);
    assert KeysOf(s.rows, first + second) == KeysOf(s.rows, first) + KeysOf(s.rows, second);
  }

  /** Deleting orphaned rows selects no pending row away. */
  lemma StaleAfter(s: Db, b: Blobs, m: Db, d: Blobs, ids: set<RowId>, staleCutoff: int, blobFails: set<Key>,
      survivors: set<RowId>)
    requires Cleaned(s, b, m, d, ids, blobFails, survivors)
    requires forall id :: id in ids ==> id in s.rows && s.rows[id].status == Orphaned
    ensures forall id :: StalePending(m, id, staleCutoff) <==> StalePending(s, id, staleCutoff)
    ensures forall id :: id in ids ==> !StalePending(s, id, staleCutoff)
  {
  }

  lemma CleanedRows(s: Db, b: Blobs, u: Db, c: Blobs, ids: set<RowId>, blobFails: set<Key>, survivors: set<RowId>)
    requires Cleaned(s, b, u, c, ids, blobFails, survivors)
    ensures SelectedDeleted(s, b, u, c, ids)
    ensures forall id :: id in ids && id in s.rows ==> RowGone(s, b, u, c, id, blobFails, survivors)
  {
    forall id | id in ids && id in s.rows ensures RowGone(s, b, u, c, id, blobFails, survivors) {
      assert s.rows[id].key in KeysOf(s.rows, ids);
    }
  }

  /** Old enough to go, under the invariants: by status, age and the state of the node. */
  ghost predicate AgedOut(s: Db, id: RowId, orphanCutoff: int, versionCutoff: int, staleCutoff: Option<int>)
    requires id in s.rows && s.rows[id].node in s.nodes
  {
    match s.rows[id].status
    case Pending => staleCutoff.Some? && s.rows[id].created < staleCutoff.value
    case Orphaned => s.rows[id].created < orphanCutoff && s.rows[id].created < versionCutoff
      && s.nodes[s.rows[id].node] != PendingUpload
    case _ => false
  }

  /** A pass that leaves a row unselected leaves it with its blob. */
  lemma UnselectedSurvives(s: Db, b: Blobs, u: Db, c: Blobs, selected: set<RowId>, id: RowId)
    requires KeysUnique(s.rows) && SelectedDeleted(s, b, u, c, selected) && id in s.rows && id !in selected
    ensures RowSurvives(s, b, u, c, id)
  {
  }

  /** Under the invariants the guard and both selections come down to statuses and ages. */
  lemma SelectedByAge(s: Db, id: RowId, orphanCutoff: int, versionCutoff: int, staleCutoff: Option<int>)
    requires CoreInv(s) && id in s.rows
    ensures Tier1Selects(s, id, orphanCutoff, versionCutoff, staleCutoff)
      <==> AgedOut(s, id, orphanCutoff, versionCutoff, staleCutoff)
  {
    var n := s.rows[id].node;
    assert s.nodes[n] == PendingUpload ==> OfStatus(s.rows, n, Active) == {};
  }

  lemma Tier1Outcome(s: Db, b: Blobs, u: Db, c: Blobs, selected: set<RowId>, orphanCutoff: int, versionCutoff: int,
      staleCutoff: Option<int>, blobFails: set<Key>, survivors: set<RowId>)
    requires CoreInv(s) && Cleaned(s, b, u, c, selected, blobFails, survivors)
    requires forall id :: id in selected <==> Tier1Selects(s, id, orphanCutoff, versionCutoff, staleCutoff)
    ensures SelectedDeleted(s, b, u, c, selected)
    ensures forall id :: id in s.rows ==>
      if AgedOut(s, id, orphanCutoff, versionCutoff, staleCutoff) then RowGone(s, b, u, c, id, blobFails, survivors)
      else RowSurvives(s, b, u, c, id)
  {
    CleanedRows(s, b, u, c, selected, blobFails, survivors);
    forall id | id in s.rows
      ensures id in selected <==> AgedOut(s, id, orphanCutoff, versionCutoff, staleCutoff)
      ensures id !in selected ==> RowSurvives(s, b, u, c, id)
    {
      SelectedByAge(s, id, orphanCutoff, versionCutoff, staleCutoff);
      if id !in selected {
        UnselectedSurvives(s, b, u, c, selected, id);
      }
    }
  }

  /** The guarded rows of a waiting node, counted by the status of the node. */
  lemma HeldByStatus(s: Db, orphanCutoff: int)
    requires CoreInv(s)
    ensures OldOrphans(s, orphanCutoff)
      == set id | id in s.rows && s.rows[id].status == Orphaned && s.rows[id].created < orphanCutoff
    ensures Held(s, OldOrphans(s, orphanCutoff)) == set id | id in s.rows && s.rows[id].status == Orphaned
      && s.rows[id].created < orphanCutoff && s.nodes[s.rows[id].node] == PendingUpload
  {
    forall id | id in s.rows && s.nodes[s.rows[id].node] == PendingUpload
      ensures OfStatus(s.rows, s.rows[id].node, Active) == {} {
    }
  }

  lemma HeldWith(db: Db, ids: set<RowId>, id: RowId)
    requires id in db.rows && id !in ids
    ensures |Held(db, ids + {id})| == |Held(db, ids)| + (if Guarded(db, db.rows[id].node) then 1 else 0)
  {
    assert Held(db, ids + {id}) == Held(db, ids) + (if Guarded(db, db.rows[id].node) then {id} else {});
  }

  lemma HeldNext(db: Db, rows: seq<RowId>, i: nat)
    requires i < |rows| && NoDup(rows) && rows[i] in db.rows
    ensures |Held(db, Elements(rows[..i + 1]))|
      == |Held(db, Elements(rows[..i]))| + (if Guarded(db, db.rows[rows[i]].node) then 1 else 0)
  {
    ElementsOfPrefix(rows, i);
    HeldWith(db, Elements(rows[..i]), rows[i]);
  }

  datatype Tier1Report = Tier1Report(orphanedRows: nat, guardedRows: nat)

  class S3GcService {
    const store: Storage

    constructor (store: Storage)
      ensures this.store == store
    {
      this.store := store;
    }

    /** Blob by blob; a throwing delete is only reported. */
    method DeleteBlobsForRows(rows: seq<RowId>, blobFails: set<Key>)
      requires forall id :: id in rows ==> id in store.db.rows
      modifies store`blobs
      ensures store.blobs == old(store.blobs) - (KeysOf(store.db.rows, Elements(rows)) - blobFails)
    {
      var i := 0;
      while i < |rows|
        invariant 0 <= i <= |rows|
        invariant store.blobs == old(store.blobs) - (KeysOf(store.db.rows, Elements(rows[..i])) - blobFails)
      {
        assert rows[i] in rows;
        var key := store.db.rows[rows[i]].key;
        ElementsOfPrefix(rows, i);
        assert KeysOf(store.db.rows, Elements(rows[..i + 1])) == KeysOf(store.db.rows, Elements(rows[..i])) + {key};
        var deleted := store.DeleteBlob(key, key in blobFails);
        i := i + 1;
      }
      assert rows[..i] == rows;
    }

    /** Row by row outside any transaction; `survivors` are the rows a failure leaves behind. */
    method DeleteObjectMapRows(ids: set<RowId>, survivors: set<RowId>)
      modifies store`db
      ensures store.db == old(store.db).(rows := DeleteRows(old(store.db).rows, ids - survivors))
    {
      store.db := store.db.(rows := DeleteRows(store.db.rows, ids - survivors));
    }

    /** Classifies the orphaned rows and counts the guarded ones. */
    method Classify(orphanCutoff: int, versionCutoff: int) returns (deletable: seq<RowId>, report: Tier1Report)
      ensures forall id :: id in deletable <==> OrphanDeletable(store.db, id, orphanCutoff, versionCutoff)
      ensures forall id :: id in deletable <==> (id in store.db.rows && var row := store.db.rows[id];
        row.status == Orphaned && row.created < orphanCutoff
        && if row.node !in store.db.nodes then true
           else if store.db.nodes[row.node] == PendingUpload && OfStatus(store.db.rows, row.node, Active) == {}
             then false else row.created < versionCutoff)
      ensures report.orphanedRows == |OldOrphans(store.db, orphanCutoff)|
      ensures report.guardedRows == |Held(store.db, OldOrphans(store.db, orphanCutoff))|
    {
      var db := store.db;
      var rows := Enumerate(OldOrphans(db, orphanCutoff));
      deletable := [];
      var guarded := 0;
      var i := 0;
      while i < |rows|
        invariant 0 <= i <= |rows| && guarded == |Held(db, Elements(rows[..i]))|
        invariant forall id ::
          id in deletable <==> id in rows[..i] && OrphanDeletable(db, id, orphanCutoff, versionCutoff)
      {
        var row := rows[i];
        assert row in rows && rows[..i + 1] == rows[..i] + [row];
        HeldNext(db, rows, i);
        if db.rows[row].node !in db.nodes {
          deletable := deletable + [row];
        } else if Guarded(db, db.rows[row].node) {
          guarded := guarded + 1;
        } else if db.rows[row].created < versionCutoff {
          deletable := deletable + [row];
        }
        i := i + 1;
      }
      assert rows[..i] == rows;
      assert Elements(rows) == OldOrphans(db, orphanCutoff);
      ListedOnce(rows, OldOrphans(db, orphanCutoff));
      report := Tier1Report(|rows|, guarded);
    }

    method ListStale(staleCutoff: int) returns (rows: seq<RowId>)
      ensures forall id :: id in rows <==> StalePending(store.db, id, staleCutoff)
    {
      var db := store.db;
      rows := Enumerate(set id: RowId | id in db.rows && StalePending(db, id, staleCutoff));
    }

    method CleanUp(rows: seq<RowId>, blobFails: set<Key>, survivors: set<RowId>)
      requires forall id :: id in rows ==> id in store.db.rows
      modifies store
      ensures Cleaned(old(store.db), old(store.blobs), store.db, store.blobs, Elements(rows), blobFails, survivors)
    {
      DeleteBlobsForRows(rows, blobFails);
      DeleteObjectMapRows(Elements(rows), survivors);
    }

    /** One Tier 1 pass; any blob delete may throw and any row may survive. */
    method RunTier1(orphanCutoff: int, versionCutoff: int, staleCutoff: Option<int>, blobFails: set<Key>,
        survivors: set<RowId>)
      returns (report: Tier1Report, ghost selected: set<RowId>)
      requires store.Valid()
      modifies store
      ensures InvKept(old(store.db), store.db)
      ensures KeepsIntact(old(store.db), old(store.blobs), store.db, store.blobs)
      ensures SelectedDeleted(old(store.db), old(store.blobs), store.db, store.blobs, selected)
      ensures forall id :: id in selected <==>
        Tier1Selects(old(store.db), id, orphanCutoff, versionCutoff, staleCutoff)
      ensures forall id :: id in old(store.db).rows ==>
        var row := old(store.db).rows[id];
        if match row.status
           case Pending => staleCutoff.Some? && row.created < staleCutoff.value
           case Orphaned => row.created < orphanCutoff && row.created < versionCutoff
             && old(store.db).nodes[row.node] != PendingUpload
           case _ => false
        then RowGone(old(store.db), old(store.blobs), store.db, store.blobs, id, blobFails, survivors)
        else RowSurvives(old(store.db), old(store.blobs), store.db, store.blobs, id)
      ensures report.orphanedRows == |set id | id in old(store.db).rows
        && old(store.db).rows[id].status == Orphaned && old(store.db).rows[id].created < orphanCutoff|
      ensures report.guardedRows == |set id | id in old(store.db).rows && old(store.db).rows[id].status == Orphaned
        && old(store.db).rows[id].created < orphanCutoff
        && old(store.db).nodes[old(store.db).rows[id].node] == PendingUpload|
      ensures forall n, last :: Guarded(old(store.db), n) ==>
        (IsLastGood(store.db.rows, n, last) <==> IsLastGood(old(store.db).rows, n, last))
    {
      ghost var s, b := store.db, store.blobs;
      var deletable: seq<RowId>;
      deletable, report := Classify(orphanCutoff, versionCutoff);
      CleanUp(deletable, blobFails, survivors);
      selected := Elements(deletable);
      if staleCutoff.Some? {
        ghost var m, d := store.db, store.blobs;
        var staleRows := ListStale(staleCutoff.value);
        StaleAfter(s, b, m, d, selected, staleCutoff.value, blobFails, survivors);
        CleanUp(staleRows, blobFails, survivors);
        CleanedTwice(s, b, m, d, store.db, store.blobs, selected, Elements(staleRows), blobFails, survivors);
        selected := selected + Elements(staleRows);
      }
      Tier1Outcome(s, b, store.db, store.blobs, selected, orphanCutoff, versionCutoff, staleCutoff, blobFails,
        survivors);
      Tier1Kept(s, b, store.db, store.blobs, selected);
      HeldByStatus(s, orphanCutoff);
    }

    /** One s3 Tier 2 pass over the listed keys. No blob of any row is touched. */
    method RunTier2(candidateKeys: seq<Key>, blobFails: set<Key>)
      requires store.Valid()
      modifies store`blobs
      ensures store.Valid()
      ensures store.blobs == old(store.blobs) - (Elements(candidateKeys) - KeptObjectKeys(store.db) - blobFails)
      ensures forall k :: k in store.blobs <==> (k in old(store.blobs)
        && (k !in candidateKeys || k in blobFails || exists id :: id in store.db.rows && store.db.rows[id].key == k))
      ensures forall k :: k in store.blobs ==> store.blobs[k] == old(store.blobs)[k]
    {
      EveryRowKept(store.db);
      var keptKeySet := KeptObjectKeys(store.db);
      var i := 0;
      while i < |candidateKeys|
        invariant 0 <= i <= |candidateKeys|
        invariant store.blobs == old(store.blobs) - (Elements(candidateKeys[..i]) - keptKeySet - blobFails)
      {
        ElementsOfPrefix(candidateKeys, i);
        if candidateKeys[i] !in keptKeySet {
          var deleted := store.DeleteBlob(candidateKeys[i], candidateKeys[i] in blobFails);
        }
        i := i + 1;
      }
      assert candidateKeys[..i] == candidateKeys;
    }
  }
}
