/** The invariants of the S3 blob lifecycle and the states its transactions lead to. */
module UploadStates {
  import opened Common
  import opened Tree
  import opened ObjectMap

  // ---------------------------------------------------------------- invariants

  ghost predicate KeysUnique(rows: Rows) {
    forall i, j :: i in rows && j in rows && i != j ==> rows[i].key != rows[j].key
  }

  /** At most one active and at most one pending row a node. */
  ghost predicate OneOfEach(rows: Rows) {
    forall i, j :: i in rows && j in rows && i != j && rows[i].node == rows[j].node && rows[i].status == rows[j].status
      ==> rows[i].status in {History, Orphaned}
  }

  ghost predicate RowsFit(db: Db) {
    forall id :: id in db.rows ==> id < db.nextRow && db.rows[id].node in db.nodes
  }

  /** A pending row sits on a pending_upload node, an active row never does. */
  ghost predicate StatusFits(db: Db) {
    forall id :: id in db.rows && db.rows[id].node in db.nodes ==>
      && (db.rows[id].status == Pending ==> db.nodes[db.rows[id].node] == PendingUpload)
      && (db.rows[id].status == Active ==> db.nodes[db.rows[id].node] != PendingUpload)
  }

  /** A node in status active has an active row. */
  ghost predicate ActiveHasRow(db: Db) {
    forall n :: n in db.nodes && db.nodes[n] == SyncActive ==> OfStatus(db.rows, n, Active) != {}
  }

  /** A waiting node that has an evicted version also has a managed one. */
  ghost predicate WaitingHasHistory(db: Db) {
    forall n :: n in db.nodes && db.nodes[n] == PendingUpload && OfStatus(db.rows, n, Orphaned) != {}
      ==> HistoryOf(db.rows, n) != {}
  }

  ghost predicate CoreInv(db: Db) {
    && RowsFit(db)
    && KeysUnique(db.rows)
    && VersionsUnique(db.rows)
    && OneOfEach(db.rows)
    && StatusFits(db)
    && ActiveHasRow(db)
  }

  /** The last part is missing where rows are older than the distinction of managed and evicted versions. */
  ghost predicate DbInv(db: Db) {
    CoreInv(db) && WaitingHasHistory(db)
  }

  /** The invariants hold after a step, the last one where it held before. */
  ghost predicate InvKept(s: Db, u: Db) {
    CoreInv(u) && (WaitingHasHistory(s) ==> WaitingHasHistory(u))
  }

  /** Every active and every managed prior version of the node has its blob. */
  ghost predicate Intact(db: Db, blobs: Blobs, n: NodeId) {
    forall id :: id in db.rows && db.rows[id].node == n && db.rows[id].status in {Active, History} ==>
      db.rows[id].key in blobs
  }

  /** No node loses the blob of a version it had all blobs of. */
  ghost predicate KeepsIntact(s: Db, b: Blobs, u: Db, c: Blobs) {
    forall n :: Intact(s, b, n) ==> Intact(u, c, n)
  }

  ghost predicate FreshKey(db: Db, blobs: Blobs, key: Key) {
    key !in blobs && forall id :: id in db.rows ==> db.rows[id].key != key
  }

  ghost predicate IsActiveRow(db: Db, n: NodeId, id: RowId) {
    id in db.rows && db.rows[id].node == n && db.rows[id].status == Active
  }

  // ---------------------------------------------------------------- outcomes

  /** The row as it was, or a prior version of `n` evicted by the cap. */
  ghost predicate SameOrEvicted(before: ObjRow, after: ObjRow, n: NodeId) {
    after == before || (before.node == n && before.status == History && after == before.(status := Orphaned))
  }

  ghost predicate SameUpToEviction(before: Rows, after: Rows, n: NodeId) {
    before.Keys == after.Keys && forall id :: id in before ==> SameOrEvicted(before[id], after[id], n)
  }

  /** Node statuses and cache as before, every row as before but for evicted versions of `n`. */
  ghost predicate PreStateRestored(s: Db, u: Db, n: NodeId) {
    u.nodes == s.nodes && u.trashed == s.trashed && u.cache == s.cache && SameUpToEviction(s.rows, u.rows, n)
  }

  /** Beside one added row, `prev` is demoted, the others are as before but for evictions. */
  ghost predicate DemotedWith(s: Db, u: Db, n: NodeId, prev: RowId, added: ObjRow) {
    && prev in s.rows && s.nextRow !in s.rows
    && u.rows.Keys == s.rows.Keys + {s.nextRow}
    && u.rows[s.nextRow] == added
    && u.rows[prev].status in {History, Orphaned}
    && u.rows[prev] == s.rows[prev].(status := u.rows[prev].status)
    && forall id :: id in s.rows && id != prev ==> SameOrEvicted(s.rows[id], u.rows[id], n)
  }

  /** After TX1 with nothing rolled back: waiting node, one pending row, the last good row demoted. */
  ghost predicate StuckOverwrite(s: Db, u: Db, n: NodeId, prev: RowId, key: Key, now: nat) {
    && u.nodes == s.nodes[n := PendingUpload] && u.trashed == s.trashed && u.cache == s.cache
    && DemotedWith(s, u, n, prev, ObjRow(n, key, NextVersion(s.rows, n), Pending, None, now))
  }

  /** The new version is active with its size, the old one demoted, and the cache row is that of the new content. */
  ghost predicate OverwriteCommitted(s: Db, u: Db, n: NodeId, prev: RowId, key: Key, row: CacheRow, now: nat) {
    && u.nodes == s.nodes && u.trashed == s.trashed
    && DemotedWith(s, u, n, prev, ObjRow(n, key, NextVersion(s.rows, n), Active, Some(row.size), now))
    && u.cache == s.cache[n := row]
  }

  /** No blob but the one under `key` differs. */
  ghost predicate OnlyKeyDiffers(before: Blobs, after: Blobs, key: Key) {
    forall k :: k != key ==> (k in after <==> k in before) && (k in before ==> after[k] == before[k])
  }

  // ---------------------------------------------------------------- TX1

  /** TX1 demotes the one active row, adds the pending one and evicts from the oldest. */
  lemma BeginIsStuck(s: Db, n: NodeId, prev: RowId, key: Key, cap: nat, now: nat)
    requires RowsFit(s) && OneOfEach(s.rows) && n in s.nodes && IsActiveRow(s, n, prev)
    ensures StuckOverwrite(s, BeginTx(s, n, key, cap, now), n, prev, key, now)
  {
    NextVersionSame(s.rows, Demote(s.rows, n), n);
  }

  /** Statements that only change status keep what rows are identified by. */
  ghost predicate SameIdentity(before: Rows, after: Rows) {
    && after.Keys <= before.Keys
    && forall id :: id in after ==>
         after[id].node == before[id].node && after[id].key == before[id].key && after[id].version == before[id].version
  }

  ghost predicate Identified(rows: Rows, next: RowId, nodes: set<NodeId>) {
    && KeysUnique(rows) && VersionsUnique(rows)
    && forall id :: id in rows ==> id < next && rows[id].node in nodes
  }

  lemma IdentityKept(before: Rows, after: Rows, next: RowId, nodes: set<NodeId>)
    requires Identified(before, next, nodes) && SameIdentity(before, after)
    ensures Identified(after, next, nodes)
  {
  }

  /** The table inside TX1 between the upsert and the eviction. */
  ghost function MidRows(s: Db, n: NodeId, key: Key, now: nat): Rows {
    Upsert(s, n, key, Pending, None, now).rows
  }

  lemma MidIdentified(s: Db, n: NodeId, key: Key, now: nat)
    requires Identified(s.rows, s.nextRow, s.nodes.Keys) && n in s.nodes
    requires forall id :: id in s.rows ==> s.rows[id].key != key
    ensures Identified(MidRows(s, n, key, now), s.nextRow + 1, s.nodes.Keys)
    ensures OfStatus(MidRows(s, n, key, now), n, Active) == {}
  {
  }

  lemma BeginIdentified(s: Db, n: NodeId, key: Key, cap: nat, now: nat)
    requires Identified(s.rows, s.nextRow, s.nodes.Keys) && n in s.nodes
    requires forall id :: id in s.rows ==> s.rows[id].key != key
    ensures Identified(BeginTx(s, n, key, cap, now).rows, s.nextRow + 1, s.nodes.Keys)
  {
    MidIdentified(s, n, key, now);
    IdentityKept(MidRows(s, n, key, now), BeginTx(s, n, key, cap, now).rows, s.nextRow + 1, s.nodes.Keys);
  }

  /** Beside the new row the pending and active rows are those of other nodes, as they were. */
  ghost predicate LiveRowsElsewhere(s: Rows, u: Rows, n: NodeId, added: RowId) {
    && added in u && u[added].node == n && u[added].status == Pending
    && forall id :: id in u && id != added && u[id].status in {Pending, Active} ==>
      id in s && u[id] == s[id] && u[id].node != n
  }

  lemma BegunLiveRows(s: Db, n: NodeId, key: Key, cap: nat, now: nat)
    requires RowsFit(s) && OfStatus(s.rows, n, Pending) == {}
    ensures LiveRowsElsewhere(s.rows, BeginTx(s, n, key, cap, now).rows, n, s.nextRow)
  {
    MidLiveRows(s, n, key, now);
    EvictKeepsLive(s.rows, MidRows(s, n, key, now), n, cap, s.nextRow);
  }

  lemma MidLiveRows(s: Db, n: NodeId, key: Key, now: nat)
    requires RowsFit(s) && OfStatus(s.rows, n, Pending) == {}
    ensures LiveRowsElsewhere(s.rows, MidRows(s, n, key, now), n, s.nextRow)
  {
    assert forall id :: id in s.rows && s.rows[id].node == n && s.rows[id].status == Pending ==>
      id in OfStatus(s.rows, n, Pending);
  }

  lemma EvictKeepsLive(s: Rows, rows: Rows, n: NodeId, cap: nat, added: RowId)
    requires LiveRowsElsewhere(s, rows, n, added)
    ensures LiveRowsElsewhere(s, Evict(rows, n, cap), n, added)
  {
    EvictedStatuses(rows, n, cap);
  }

  lemma BeginOneOfEach(s: Db, n: NodeId, key: Key, cap: nat, now: nat)
    requires RowsFit(s) && OneOfEach(s.rows) && StatusFits(s) && n in s.nodes && OfStatus(s.rows, n, Pending) == {}
    ensures OneOfEach(BeginTx(s, n, key, cap, now).rows) && StatusFits(BeginTx(s, n, key, cap, now))
  {
    BegunLiveRows(s, n, key, cap, now);
    LiveElsewhereFits(s, BeginTx(s, n, key, cap, now), n, s.nextRow);
  }

  lemma LiveElsewhereFits(s: Db, u: Db, n: NodeId, added: RowId)
    requires OneOfEach(s.rows) && StatusFits(s) && n in s.nodes && LiveRowsElsewhere(s.rows, u.rows, n, added)
    requires u.nodes == s.nodes[n := PendingUpload]
    ensures OneOfEach(u.rows) && StatusFits(u)
  {
  }

  /** Rows of other nodes are not touched. */
  lemma BeginOtherNodes(s: Db, n: NodeId, key: Key, cap: nat, now: nat, m: NodeId, st: RowStatus)
    requires RowsFit(s) && m != n
    ensures OfStatus(BeginTx(s, n, key, cap, now).rows, m, st) == OfStatus(s.rows, m, st)
  {
  }

  lemma MidSets(s: Db, n: NodeId, key: Key, now: nat)
    requires RowsFit(s)
    ensures HistoryOf(MidRows(s, n, key, now), n) == OfStatus(s.rows, n, Active) + HistoryOf(s.rows, n)
    ensures OfStatus(MidRows(s, n, key, now), n, Orphaned) == OfStatus(s.rows, n, Orphaned)
  {
  }

  lemma EvictKeepsSome(rows: Rows, n: NodeId, cap: nat)
    requires VersionsUnique(rows) && OfStatus(rows, n, Active) == {}
    requires OfStatus(rows, n, Orphaned) != {} ==> HistoryOf(rows, n) != {}
    ensures OfStatus(Evict(rows, n, cap), n, Orphaned) != {} ==> HistoryOf(Evict(rows, n, cap), n) != {}
  {
    if HistoryOf(rows, n) != {} {
      var top := NewestExists(rows, HistoryOf(rows, n));
      EvictKeepsNewest(rows, n, cap, top);
    } else {
      assert Evicted(rows, n, cap) == {};
      assert OfStatus(Evict(rows, n, cap), n, Orphaned) == OfStatus(rows, n, Orphaned);
    }
  }

  /** Demoting and evicting always leave a managed version when there was any version at all. */
  lemma BeginKeepsHistory(s: Db, n: NodeId, key: Key, cap: nat, now: nat)
    requires VersionsUnique(MidRows(s, n, key, now)) && OfStatus(MidRows(s, n, key, now), n, Active) == {}
    requires RowsFit(s)
    requires OfStatus(s.rows, n, Orphaned) != {} ==> OfStatus(s.rows, n, Active) + HistoryOf(s.rows, n) != {}
    ensures OfStatus(BeginTx(s, n, key, cap, now).rows, n, Orphaned) != {} ==>
      HistoryOf(BeginTx(s, n, key, cap, now).rows, n) != {}
  {
    MidSets(s, n, key, now);
    EvictKeepsSome(MidRows(s, n, key, now), n, cap);
  }

  lemma BeginKeepsActive(s: Db, n: NodeId, key: Key, cap: nat, now: nat)
    requires RowsFit(s) && ActiveHasRow(s) && n in s.nodes
    ensures ActiveHasRow(BeginTx(s, n, key, cap, now))
  {
    forall m | m != n ensures OfStatus(BeginTx(s, n, key, cap, now).rows, m, Active) == OfStatus(s.rows, m, Active) {
      BeginOtherNodes(s, n, key, cap, now, m, Active);
    }
  }

  lemma BeginKeepsWaiting(s: Db, n: NodeId, key: Key, cap: nat, now: nat)
    requires RowsFit(s) && ActiveHasRow(s) && WaitingHasHistory(s) && n in s.nodes && s.nodes[n] != OrphanedNode
    requires VersionsUnique(MidRows(s, n, key, now)) && OfStatus(MidRows(s, n, key, now), n, Active) == {}
    ensures WaitingHasHistory(BeginTx(s, n, key, cap, now))
  {
    BeginKeepsHistory(s, n, key, cap, now);
    forall m, st | m != n ensures OfStatus(BeginTx(s, n, key, cap, now).rows, m, st) == OfStatus(s.rows, m, st) {
      BeginOtherNodes(s, n, key, cap, now, m, st);
    }
  }

  lemma BeginKeepsInv(s: Db, n: NodeId, key: Key, cap: nat, now: nat)
    requires CoreInv(s) && n in s.nodes && s.nodes[n] != OrphanedNode && OfStatus(s.rows, n, Pending) == {}
    requires forall id :: id in s.rows ==> s.rows[id].key != key
    ensures InvKept(s, BeginTx(s, n, key, cap, now))
  {
    MidIdentified(s, n, key, now);
    BeginIdentified(s, n, key, cap, now);
    BeginOneOfEach(s, n, key, cap, now);
    BeginKeepsActive(s, n, key, cap, now);
    if WaitingHasHistory(s) {
      BeginKeepsWaiting(s, n, key, cap, now);
    }
  }

  /** After TX1 the node has no more managed versions than the cap allows, and the newest ones. */
  lemma BeginRespectsCap(s: Db, n: NodeId, key: Key, cap: nat, now: nat)
    requires CoreInv(s) && n in s.nodes && cap > 0 && forall id :: id in s.rows ==> s.rows[id].key != key
    ensures var all := |OfStatus(s.rows, n, Active) + HistoryOf(s.rows, n)|;
      |HistoryOf(BeginTx(s, n, key, cap, now).rows, n)| == if all <= cap then all else cap
    ensures forall gone, kept ::
      gone in Evicted(MidRows(s, n, key, now), n, cap) && kept in HistoryOf(BeginTx(s, n, key, cap, now).rows, n)
      ==> MidRows(s, n, key, now)[gone].version < MidRows(s, n, key, now)[kept].version
  {
    var mid := MidRows(s, n, key, now);
    assert Identified(s.rows, s.nextRow, s.nodes.Keys);
    MidIdentified(s, n, key, now);
    MidSets(s, n, key, now);
    EvictLeavesCap(mid, n, cap);
    EvictedLeave(mid, n, cap);
    forall gone, kept | gone in Evicted(mid, n, cap) && kept in HistoryOf(Evict(mid, n, cap), n)
      ensures mid[gone].version < mid[kept].version
    {
      if mid[kept].version < mid[gone].version {
        EvictOldestFirst(mid, n, cap, gone, kept);
      }
    }
  }

  // ---------------------------------------------------------------- TX2 and rollback

  lemma StuckKey(s: Db, u: Db, n: NodeId, prev: RowId, key: Key, now: nat)
    requires CoreInv(u) && StuckOverwrite(s, u, n, prev, key, now)
    ensures s.nextRow in u.rows && u.rows[s.nextRow].key == key && u.rows[s.nextRow].status == Pending
      && u.rows[s.nextRow].node == n
    ensures ByKey(u.rows, key) == {s.nextRow} && prev in u.rows && prev != s.nextRow
  {
  }

  lemma CompletedDemoted(s: Db, u: Db, w: Db, n: NodeId, prev: RowId, added: ObjRow, size: nat)
    requires DemotedWith(s, u, n, prev, added) && prev != s.nextRow
    requires w.rows == u.rows[s.nextRow := added.(status := Active, size := Some(size))]
    ensures DemotedWith(s, w, n, prev, added.(status := Active, size := Some(size)))
  {
  }

  lemma CompleteCommits(s: Db, u: Db, n: NodeId, prev: RowId, key: Key, now: nat, size: nat, mime: string)
    requires CoreInv(u) && StuckOverwrite(s, u, n, prev, key, now) && n in s.nodes && s.nodes[n] == SyncActive
    ensures OverwriteCommitted(s, CompleteTx(u, n, key, size, mime), n, prev, key, CacheRow(size, mime, None), now)
  {
    StuckKey(s, u, n, prev, key, now);
    CompletedRows(u, n, key, s.nextRow, size, mime);
    CompletedAll(s, u, CompleteTx(u, n, key, size, mime), n, prev, key, CacheRow(size, mime, None), now);
  }

  lemma CompletedAll(s: Db, u: Db, w: Db, n: NodeId, prev: RowId, key: Key, row: CacheRow, now: nat)
    requires StuckOverwrite(s, u, n, prev, key, now) && n in s.nodes && s.nodes[n] == SyncActive && prev != s.nextRow
    requires w.rows == u.rows[s.nextRow := u.rows[s.nextRow].(status := Active, size := Some(row.size))]
    requires w.nodes == u.nodes[n := SyncActive] && w.cache == u.cache[n := row] && w.trashed == u.trashed
    ensures OverwriteCommitted(s, w, n, prev, key, row, now)
  {
    CompletedDemoted(s, u, w, n, prev, u.rows[s.nextRow], row.size);
  }

  /** Activating the pending row of a waiting node keeps every invariant. */
  lemma CompleteKeepsInv(u: Db, n: NodeId, key: Key, id: RowId, size: nat, mime: string)
    requires CoreInv(u) && n in u.nodes && u.nodes[n] == PendingUpload
    requires id in u.rows && u.rows[id].key == key && u.rows[id].status == Pending && u.rows[id].node == n
    ensures InvKept(u, CompleteTx(u, n, key, size, mime))
  {
    var w := CompleteTx(u, n, key, size, mime);
    CompletedRows(u, n, key, id, size, mime);
    ActivatedKeepsInv(u, w, n, id);
  }

  lemma CompletedRows(u: Db, n: NodeId, key: Key, id: RowId, size: nat, mime: string)
    requires CoreInv(u) && id in u.rows && u.rows[id].key == key && u.rows[id].status == Pending && u.rows[id].node == n
    ensures CompleteTx(u, n, key, size, mime).rows == u.rows[id := u.rows[id].(status := Active, size := Some(size))]
    ensures forall i :: i in u.rows && i != id && u.rows[i].node == n ==> u.rows[i].status != Pending
  {
  }

  /** One row of a waiting node becomes its active row; a pending row beside it is gone. */
  ghost predicate Activated(u: Db, w: Db, n: NodeId, id: RowId) {
    && n in u.nodes && u.nodes[n] == PendingUpload
    && w.nodes == u.nodes[n := SyncActive] && w.nextRow == u.nextRow
    && id in u.rows && u.rows[id].node == n && id in w.rows && w.rows[id].status == Active
    && SameIdentity(u.rows, w.rows)
    && (forall i :: i in u.rows && i !in w.rows ==> u.rows[i].node == n)
    && forall i :: i in w.rows && i != id ==>
      w.rows[i] == u.rows[i] && !(w.rows[i].node == n && w.rows[i].status == Pending)
  }

  lemma ActivatedKeepsInv(u: Db, w: Db, n: NodeId, id: RowId)
    requires CoreInv(u) && Activated(u, w, n, id)
    ensures InvKept(u, w)
  {
    assert Identified(u.rows, u.nextRow, u.nodes.Keys);
    IdentityKept(u.rows, w.rows, u.nextRow, u.nodes.Keys);
    ActivatedOneOfEach(u, w, n, id);
    ActivatedStatuses(u, w, n, id);
  }

  lemma ActivatedOneOfEach(u: Db, w: Db, n: NodeId, id: RowId)
    requires OneOfEach(u.rows) && StatusFits(u) && Activated(u, w, n, id)
    ensures OneOfEach(w.rows) && StatusFits(w)
  {
    assert forall i :: i in u.rows && u.rows[i].node == n ==> u.rows[i].status != Active;
  }

  lemma ActivatedStatuses(u: Db, w: Db, n: NodeId, id: RowId)
    requires ActiveHasRow(u) && Activated(u, w, n, id)
    ensures ActiveHasRow(w) && (WaitingHasHistory(u) ==> WaitingHasHistory(w))
  {
    forall m | m in w.nodes && w.nodes[m] == SyncActive ensures OfStatus(w.rows, m, Active) != {} {
      if m == n {
        assert id in OfStatus(w.rows, m, Active);
      } else {
        var a :| a in OfStatus(u.rows, m, Active);
        assert a in OfStatus(w.rows, m, Active);
      }
    }
    forall m | WaitingHasHistory(u) && m in w.nodes && w.nodes[m] == PendingUpload
      && OfStatus(w.rows, m, Orphaned) != {}
      ensures HistoryOf(w.rows, m) != {}
    {
      var o :| o in OfStatus(w.rows, m, Orphaned);
      assert o in OfStatus(u.rows, m, Orphaned);
      var h :| h in HistoryOf(u.rows, m);
      assert h in HistoryOf(w.rows, m);
    }
  }

  lemma RollbackShape(u: Db, n: NodeId, prev: RowId, key: Key, added: RowId)
    requires prev in u.rows && u.rows[prev].status in {History, Orphaned} && u.rows[prev].key != key
    requires ByKey(u.rows, key) == {added} && n in u.nodes
    ensures RollbackTx(u, n, Some(prev), key) ==
      u.(rows := DeleteRows(u.rows, {added})[prev := u.rows[prev].(status := Active)],
        nodes := u.nodes[n := SyncActive])
  {
  }

  lemma RollbackRestores(s: Db, u: Db, n: NodeId, prev: RowId, key: Key, now: nat)
    requires CoreInv(u) && StuckOverwrite(s, u, n, prev, key, now) && n in s.nodes && s.nodes[n] == SyncActive
    requires IsActiveRow(s, n, prev)
    ensures PreStateRestored(s, RollbackTx(u, n, Some(prev), key), n)
    ensures InvKept(u, RollbackTx(u, n, Some(prev), key))
  {
    StuckKey(s, u, n, prev, key, now);
    assert u.rows[prev].key != key;
    RollbackShape(u, n, prev, key, s.nextRow);
    var w := RollbackTx(u, n, Some(prev), key);
    RollbackSame(s, u, w, n, prev, u.rows[s.nextRow]);
    assert u.rows[prev].node == n;
    RollbackKeepsInv(u, w, n, prev, s.nextRow);
  }

  lemma RollbackSame(s: Db, u: Db, w: Db, n: NodeId, prev: RowId, added: ObjRow)
    requires DemotedWith(s, u, n, prev, added) && n in s.nodes && s.nodes[n] == SyncActive && IsActiveRow(s, n, prev)
    requires u.nodes == s.nodes[n := PendingUpload] && u.cache == s.cache && u.trashed == s.trashed
    requires w
      == u.(rows := DeleteRows(u.rows, {s.nextRow})[prev := u.rows[prev].(status := Active)],
      nodes := u.nodes[n := SyncActive])
    ensures PreStateRestored(s, w, n)
  {
  }

  lemma RollbackKeepsInv(u: Db, w: Db, n: NodeId, prev: RowId, added: RowId)
    requires CoreInv(u) && n in u.nodes && u.nodes[n] == PendingUpload
    requires added in u.rows && u.rows[added].node == n && u.rows[added].status == Pending
    requires prev in u.rows && prev != added && u.rows[prev].node == n
    requires w
      == u.(rows := DeleteRows(u.rows, {added})[prev := u.rows[prev].(status := Active)],
      nodes := u.nodes[n := SyncActive])
    ensures InvKept(u, w)
  {
    ActivatedKeepsInv(u, w, n, prev);
  }

  /**
   * A rollback leaves the node in status active in any case. It has an active row again exactly when
   * it had one before the overwrite began.
   */
  lemma RollbackNeedsActiveStart(s: Db, n: NodeId, previousActive: Option<RowId>, key: Key, cap: nat, now: nat)
    requires CoreInv(s) && n in s.nodes && forall id :: id in s.rows ==> s.rows[id].key != key
    requires previousActive.Some? ==> IsActiveRow(s, n, previousActive.value)
    requires previousActive.None? ==> OfStatus(s.rows, n, Active) == {}
    ensures var w := RollbackTx(BeginTx(s, n, key, cap, now), n, previousActive, key);
      w.nodes[n] == SyncActive && (OfStatus(w.rows, n, Active) != {} <==> OfStatus(s.rows, n, Active) != {})
  {
    var u := BeginTx(s, n, key, cap, now);
    BegunStatuses(s, n, key, cap, now);
    if previousActive.Some? {
      assert previousActive.value in OfStatus(s.rows, n, Active);
      assert previousActive.value in OfStatus(RollbackTx(u, n, previousActive, key).rows, n, Active);
    } else {
      assert forall id :: id in RollbackTx(u, n, None, key).rows ==>
        id in u.rows && RollbackTx(u, n, None, key).rows[id] == u.rows[id];
    }
  }

  lemma BegunStatuses(s: Db, n: NodeId, key: Key, cap: nat, now: nat)
    requires CoreInv(s) && n in s.nodes && forall id :: id in s.rows ==> s.rows[id].key != key
    ensures var u := BeginTx(s, n, key, cap, now);
      && OfStatus(u.rows, n, Active) == {} && s.rows.Keys <= u.rows.Keys
      && (forall id :: id in s.rows ==> u.rows[id].node == s.rows[id].node && u.rows[id].key == s.rows[id].key)
      && (forall id :: IsActiveRow(s, n, id) ==> u.rows[id].status in {History, Orphaned})
  {
    var mid := MidRows(s, n, key, now);
    MidIdentified(s, n, key, now);
    MidDemoted(s, n, key, now);
    EvictedStatuses(mid, n, cap);
    forall id | id in BeginTx(s, n, key, cap, now).rows && BeginTx(s, n, key, cap, now).rows[id].status == Active
      ensures mid[id].status == Active
    {
    }
  }

  lemma MidDemoted(s: Db, n: NodeId, key: Key, now: nat)
    requires RowsFit(s)
    ensures var mid := MidRows(s, n, key, now);
      && s.rows.Keys <= mid.Keys
      && (forall id :: id in s.rows ==> mid[id].node == s.rows[id].node && mid[id].key == s.rows[id].key)
      && (forall id :: IsActiveRow(s, n, id) ==> mid[id].status == History)
  {
  }

  lemma EvictedStatuses(rows: Rows, n: NodeId, cap: nat)
    ensures Evict(rows, n, cap).Keys == rows.Keys
    ensures forall id :: id in rows ==>
      || Evict(rows, n, cap)[id] == rows[id]
      || (rows[id].status == History && Evict(rows, n, cap)[id] == rows[id].(status := Orphaned))
  {
  }

  // ---------------------------------------------------------------- which version a repair restores

  ghost predicate IsNewestHistory(rows: Rows, n: NodeId, id: RowId) {
    id in HistoryOf(rows, n) && forall h :: h in HistoryOf(rows, n) ==> rows[h].version <= rows[id].version
  }

  /** The row a repair falls back to: the newest managed version, or else the newest evicted one. */
  ghost predicate IsLastGood(rows: Rows, n: NodeId, last: RowId) {
    || IsNewestHistory(rows, n, last)
    || (HistoryOf(rows, n) == {} && last in OfStatus(rows, n, Orphaned)
        && forall id :: id in OfStatus(rows, n, Orphaned) ==> rows[id].version <= rows[last].version)
  }

  /**
   * The repair of a stuck overwrite takes the newest managed version. That is the version that was
   * active exactly when no managed version was newer, which a version restore can make false.
   */
  lemma RepairRestoresPreviousIff(s: Db, n: NodeId, prev: RowId, key: Key, cap: nat, now: nat)
    requires CoreInv(s) && n in s.nodes && IsActiveRow(s, n, prev)
    requires forall id :: id in s.rows ==> s.rows[id].key != key
    ensures IsNewestHistory(BeginTx(s, n, key, cap, now).rows, n, prev) <==>
      (forall h :: h in HistoryOf(s.rows, n) ==> s.rows[h].version < s.rows[prev].version)
  {
    var mid := MidRows(s, n, key, now);
    assert Identified(s.rows, s.nextRow, s.nodes.Keys);
    MidIdentified(s, n, key, now);
    MidSets(s, n, key, now);
    assert prev in HistoryOf(mid, n);
    EvictNewest(mid, n, cap, prev);
    MidNewest(s, n, prev, key, now);
  }

  lemma EvictNewest(rows: Rows, n: NodeId, cap: nat, id: RowId)
    requires VersionsUnique(rows) && OfStatus(rows, n, Active) == {} && id in HistoryOf(rows, n)
    ensures IsNewestHistory(Evict(rows, n, cap), n, id) <==> IsNewestHistory(rows, n, id)
  {
    var top := NewestExists(rows, HistoryOf(rows, n));
    EvictKeepsNewest(rows, n, cap, top);
    assert HistoryOf(Evict(rows, n, cap), n) <= HistoryOf(rows, n);
  }

  lemma MidNewest(s: Db, n: NodeId, prev: RowId, key: Key, now: nat)
    requires RowsFit(s) && VersionsUnique(s.rows) && IsActiveRow(s, n, prev)
    requires OneOfEach(s.rows)
    ensures IsNewestHistory(MidRows(s, n, key, now), n, prev) <==>
      (forall h :: h in HistoryOf(s.rows, n) ==> s.rows[h].version < s.rows[prev].version)
  {
    var mid := MidRows(s, n, key, now);
    MidSets(s, n, key, now);
    assert OfStatus(s.rows, n, Active) == {prev};
    assert forall id :: id in s.rows ==> mid[id].version == s.rows[id].version;
  }

  // ---------------------------------------------------------------- the failing cases

  /** A file stuck since its first upload, overwritten in vain: it ends in status active with no version at all. */
  lemma RollbackWithoutVersion() returns (s: Db, w: Db)
    ensures DbInv(s) && s.nodes == map[1 := PendingUpload]
    ensures w == RollbackTx(BeginTx(s, 1, 5, 0, 0), 1, None, 5) && w.nodes[1] == SyncActive
      && OfStatus(w.rows, 1, Active) == {}
  {
    s := Db(map[1 := PendingUpload], map[], map[], 0, {});
    w := RollbackTx(BeginTx(s, 1, 5, 0, 0), 1, None, 5);
    RollbackNeedsActiveStart(s, 1, None, 5, 0, 0);
  }

  /** After the older version was restored, a repair of a stuck overwrite brings back the newer one. */
  lemma RepairRestoresAnother() returns (s: Db)
    ensures DbInv(s) && IsActiveRow(s, 1, 0)
    ensures !IsNewestHistory(BeginTx(s, 1, 5, 0, 0).rows, 1, 0)
  {
    var older, newer := ObjRow(1, 3, 1, Active, Some(8), 0), ObjRow(1, 4, 2, History, Some(9), 1);
    s := Db(map[1 := SyncActive], map[0 := older, 1 := newer], map[], 2, {});
    assert 0 in OfStatus(s.rows, 1, Active) && 1 in HistoryOf(s.rows, 1);
    RepairRestoresPreviousIff(s, 1, 0, 5, 0, 0);
  }
}
