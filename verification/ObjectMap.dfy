/** The object_map, filecache and file_nodes statements behind uploads, as functions on one database value. */
module ObjectMap {
  import opened Common
  import opened Tree

  type Key = nat
  type RowId = nat

  datatype RowStatus = Pending | Active | History | Orphaned

  datatype ObjRow = ObjRow(node: NodeId, key: Key, version: nat, status: RowStatus, size: Option<nat>, created: nat)

  datatype SyncStatus = SyncActive | PendingUpload | OrphanedNode

  datatype CacheRow = CacheRow(size: nat, mime: string, hash: Option<string>)

  type Rows = map<RowId, ObjRow>

  /**
   * File nodes with their sync status, object rows, cache rows; `nextRow` is the row id sequence, `trashed` are the
   * nodes with a deletion stamp.
   */
  datatype Db = Db(nodes: map<NodeId, SyncStatus>, rows: Rows, cache: map<NodeId, CacheRow>, nextRow: RowId,
      trashed: set<NodeId>)

  datatype Blob = Blob(bytes: seq<bv8>, mime: string)

  type Blobs = map<Key, Blob>

  // ---------------------------------------------------------------- row sets

  function OfStatus(rows: Rows, n: NodeId, st: RowStatus): set<RowId> {
    set id | id in rows && rows[id].node == n && rows[id].status == st
  }

  function HistoryOf(rows: Rows, n: NodeId): set<RowId> {
    OfStatus(rows, n, History)
  }

  ghost function PendingKeys(db: Db, n: NodeId): set<Key> {
    set id | id in OfStatus(db.rows, n, Pending) :: db.rows[id].key
  }

  function Older(rows: Rows, among: set<RowId>, version: nat): set<RowId>
    requires among <= rows.Keys
  {
    set id | id in among && rows[id].version < version
  }

  /** UNIQUE (file_node_id, version_number). */
  ghost predicate VersionsUnique(rows: Rows) {
    forall i, j :: i in rows && j in rows && i != j && rows[i].node == rows[j].node ==>
      rows[i].version != rows[j].version
  }

  lemma {:induction false} MaxOf(s: set<nat>) returns (m: nat)
    requires s != {}
    ensures m in s && forall x :: x in s ==> x <= m
  {
    var e :| e in s;
    m := e;
    if s != {e} {
      var g := MaxOf(s - {e});
      m := if e >= g then e else g;
      forall x | x in s ensures x <= m {
        assert x == e || x in s - {e};
      }
    } else {
      assert forall x :: x in s ==> x == e;
    }
  }

  lemma MaxExists(s: set<nat>)
    requires s != {}
    ensures exists m :: m in s && forall x :: x in s ==> x <= m
  {
    var m := MaxOf(s);
  }

  function NextVersion(rows: Rows, n: NodeId): (v: nat)
    ensures forall id :: id in rows && rows[id].node == n ==> rows[id].version < v
    ensures v == 1 || exists id :: id in rows && rows[id].node == n && rows[id].version == v - 1
  {
    var versions := set id | id in rows && rows[id].node == n :: rows[id].version;
    assert forall id :: id in rows && rows[id].node == n ==> rows[id].version in versions;
    if versions == {} then 1
    else
      MaxExists(versions);
      var m: nat :| m in versions && forall x :: x in versions ==> x <= m;
      assert exists id :: id in rows && rows[id].node == n && rows[id].version == m;
      m + 1
  }

  /** The number depends on the version numbers of the node alone. */
  lemma NextVersionSame(a: Rows, b: Rows, n: NodeId)
    requires a.Keys == b.Keys && forall id :: id in a ==> a[id].node == b[id].node && a[id].version == b[id].version
    ensures NextVersion(a, n) == NextVersion(b, n)
  {
  }

  // ---------------------------------------------------------------- statements

  function Demote(rows: Rows, n: NodeId): Rows {
    map id | id in rows ::
      if rows[id].node == n && rows[id].status == Active then rows[id].(status := History) else rows[id]
  }

  /** upsertObjectMap: the active row becomes history, the new row gets the next version number. */
  function Upsert(db: Db, n: NodeId, key: Key, status: RowStatus, size: Option<nat>, now: nat): Db {
    var rows := Demote(db.rows, n);
    db.(rows := rows[db.nextRow := ObjRow(n, key, NextVersion(rows, n), status, size, now)], nextRow := db.nextRow + 1)
  }

  /** How many of the oldest history rows exceed the cap; 0 means unbounded. */
  function Excess(rows: Rows, n: NodeId, cap: nat): nat {
    var total := |OfStatus(rows, n, Active) + HistoryOf(rows, n)|;
    if cap == 0 || total <= cap then 0 else total - cap
  }

  function Evicted(rows: Rows, n: NodeId, cap: nat): set<RowId> {
    set id | id in HistoryOf(rows, n) && |Older(rows, HistoryOf(rows, n), rows[id].version)| < Excess(rows, n, cap)
  }

  /** evictVersionsBeyondCap */
  function Evict(rows: Rows, n: NodeId, cap: nat): Rows {
    var gone := Evicted(rows, n, cap);
    map id | id in rows :: if id in gone then rows[id].(status := Orphaned) else rows[id]
  }

  function Activate(rows: Rows, key: Key, size: nat): Rows {
    map id | id in rows ::
      if rows[id].key == key && rows[id].status == Pending then rows[id].(status := Active, size := Some(size))
        else rows[id]
  }

  function Reactivate(rows: Rows, id: RowId): Rows {
    if id in rows && rows[id].status in {History, Orphaned} then rows[id := rows[id].(status := Active)] else rows
  }

  function DeleteRows(rows: Rows, ids: set<RowId>): Rows {
    map id | id in rows && id !in ids :: rows[id]
  }

  /** getObjectMapByS3Key: pending or active rows only. */
  function ByKey(rows: Rows, key: Key): set<RowId> {
    set id | id in rows && rows[id].key == key && rows[id].status in {Pending, Active}
  }

  function SetSync(db: Db, n: NodeId, status: SyncStatus): Db {
    if n in db.nodes then db.(nodes := db.nodes[n := status]) else db
  }

  function PutCache(db: Db, n: NodeId, row: CacheRow): Db {
    db.(cache := db.cache[n := row])
  }

  /** deleteNode: object_map and filecache rows cascade. */
  function RemoveNode(db: Db, n: NodeId): Db {
    Db(db.nodes - {n}, map id | id in db.rows && db.rows[id].node != n :: db.rows[id], db.cache - {n}, db.nextRow,
      db.trashed - {n})
  }

  /** The delete of a whole subtree. */
  function RemoveNodes(db: Db, gone: set<NodeId>): Db {
    Db(db.nodes - gone, map id | id in db.rows && db.rows[id].node !in gone :: db.rows[id], db.cache - gone, db.nextRow,
      db.trashed - gone)
  }

  /** getKeptObjectMapKeys: everything but a pending row whose node left pending_upload. */
  function KeptObjectKeys(db: Db): set<Key> {
    set id | id in db.rows && (db.rows[id].status != Pending
      || (db.rows[id].node in db.nodes && db.nodes[db.rows[id].node] == PendingUpload)) :: db.rows[id].key
  }

  // ---------------------------------------------------------------- transactions

  /** TX1 of an overwrite, and the prepare of a new file: new pending row, eviction, node pending_upload. */
  function PrepareTx(db: Db, n: NodeId, key: Key, cap: nat, now: nat): Db {
    var u := Upsert(db, n, key, Pending, None, now);
    u.(rows := Evict(u.rows, n, cap))
  }

  function BeginTx(db: Db, n: NodeId, key: Key, cap: nat, now: nat): Db {
    SetSync(PrepareTx(db, n, key, cap, now), n, PendingUpload)
  }

  /** TX2: pending becomes active, the cache row is written, the node is active. */
  function CompleteTx(db: Db, n: NodeId, key: Key, size: nat, mime: string): Db {
    SetSync(PutCache(db.(rows := Activate(db.rows, key, size)), n, CacheRow(size, mime, None)), n, SyncActive)
  }

  /** The rollback of a failed overwrite, run as one transaction. */
  function RollbackTx(db: Db, n: NodeId, previousActive: Option<RowId>, key: Key): Db {
    var rows := if previousActive.Some? then Reactivate(db.rows, previousActive.value) else db.rows;
    SetSync(db.(rows := DeleteRows(rows, ByKey(rows, key))), n, SyncActive)
  }

  // ---------------------------------------------------------------- eviction is oldest first

  lemma SubsetSize<T>(a: set<T>, b: set<T>)
    requires a <= b
    ensures |a| <= |b|
    ensures a != b ==> |a| < |b|
  {
    assert b == a + (b - a);
  }

  /** A row older than an evicted one is evicted too. */
  lemma EvictOldestFirst(rows: Rows, n: NodeId, cap: nat, id: RowId, older: RowId)
    requires id in Evicted(rows, n, cap) && older in HistoryOf(rows, n) && rows[older].version < rows[id].version
    ensures older in Evicted(rows, n, cap)
  {
    SubsetSize(Older(rows, HistoryOf(rows, n), rows[older].version), Older(rows, HistoryOf(rows, n), rows[id].version));
  }

  function LowRank(rows: Rows, among: set<RowId>, m: nat): set<RowId>
    requires among <= rows.Keys
  {
    set id | id in among && |Older(rows, among, rows[id].version)| < m
  }

  lemma NewestExists(rows: Rows, among: set<RowId>) returns (top: RowId)
    requires among != {} && among <= rows.Keys
    ensures top in among && forall id :: id in among ==> rows[id].version <= rows[top].version
  {
    var versions := set id | id in among :: rows[id].version;
    var e :| e in among;
    assert rows[e].version in versions;
    MaxExists(versions);
    var m :| m in versions && forall x :: x in versions ==> x <= m;
    top :| top in among && rows[top].version == m;
    assert forall id :: id in among ==> rows[id].version in versions;
  }

  /** With distinct versions exactly min(m, all) rows have fewer than m older ones. */
  lemma {:induction false} LowRankCount(rows: Rows, among: set<RowId>, m: nat)
    requires among <= rows.Keys
    requires forall i, j :: i in among && j in among && i != j ==> rows[i].version != rows[j].version
    ensures |LowRank(rows, among, m)| == if m <= |among| then m else |among|
    decreases |among|
  {
    if among == {} {
      assert LowRank(rows, among, m) == {};
    } else {
      var top := NewestExists(rows, among);
      var rest := among - {top};
      LowRankCount(rows, rest, m);
      LowRankTop(rows, among, top, m);
      assert top !in LowRank(rows, rest, m);
    }
  }

  /** The newest row has all others below it and is below none. */
  lemma LowRankTop(rows: Rows, among: set<RowId>, top: RowId, m: nat)
    requires among <= rows.Keys && top in among
    requires forall id :: id in among && id != top ==> rows[id].version < rows[top].version
    ensures LowRank(rows, among, m) == LowRank(rows, among - {top}, m) + (if |among - {top}| < m then {top} else {})
  {
    var rest := among - {top};
    assert Older(rows, among, rows[top].version) == rest;
    forall id | id in rest ensures Older(rows, among, rows[id].version) == Older(rows, rest, rows[id].version) {
    }
  }

  /** With nothing active, eviction leaves exactly min(cap, all) history rows, the newest ones; no cap leaves all. */
  lemma EvictLeavesCap(rows: Rows, n: NodeId, cap: nat)
    requires VersionsUnique(rows) && OfStatus(rows, n, Active) == {}
    ensures |HistoryOf(Evict(rows, n, cap), n)|
      == if cap == 0 || |HistoryOf(rows, n)| <= cap then |HistoryOf(rows, n)| else cap
  {
    var all := HistoryOf(rows, n);
    var gone := Evicted(rows, n, cap);
    assert OfStatus(rows, n, Active) + all == all;
    LowRankCount(rows, all, Excess(rows, n, cap));
    assert gone == LowRank(rows, all, Excess(rows, n, cap));
    EvictedLeave(rows, n, cap);
    assert all == (all - gone) + gone;
  }

  lemma EvictedLeave(rows: Rows, n: NodeId, cap: nat)
    ensures HistoryOf(Evict(rows, n, cap), n) == HistoryOf(rows, n) - Evicted(rows, n, cap)
  {
  }

  /** Whatever the cap, the newest history row survives while nothing is active. */
  lemma EvictKeepsNewest(rows: Rows, n: NodeId, cap: nat, top: RowId)
    requires VersionsUnique(rows) && OfStatus(rows, n, Active) == {}
    requires top in HistoryOf(rows, n) && forall id :: id in HistoryOf(rows, n) ==>
      rows[id].version <= rows[top].version
    ensures top in HistoryOf(Evict(rows, n, cap), n)
  {
    var all := HistoryOf(rows, n);
    assert OfStatus(rows, n, Active) + all == all;
    assert Older(rows, all, rows[top].version) == all - {top};
  }
}
