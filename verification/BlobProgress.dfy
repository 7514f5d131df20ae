/** From every reachable state a file that waits can be repaired, and an active one can be overwritten. */
module BlobProgress {
  import opened Common
  import opened Tree
  import opened ObjectMap
  import opened UploadStates
  import opened Uploads
  import opened FailSafe
  import opened Gc
  import opened BlobRuns
  import opened BlobSafety

  /** The next two steps, both timely. */
  ghost predicate TwoSteps(s: Sys, e: Event, m: Sys, f: Event, u: Sys) {
    Next(s, e, m) && Timely(s, e) && Next(m, f, u) && Timely(m, f)
  }

  lemma NewestOfNode(rows: Rows, n: NodeId) returns (last: RowId)
    requires HistoryOf(rows, n) + OfStatus(rows, n, Orphaned) != {}
    ensures IsLastGood(rows, n, last) && last in rows && rows[last].status in {History, Orphaned}
  {
    if HistoryOf(rows, n) != {} {
      last := NewestExists(rows, HistoryOf(rows, n));
    } else {
      last := NewestExists(rows, OfStatus(rows, n, Orphaned));
    }
  }

  /** The one active row is the last good one of before, and its blob is there. */
  ghost predicate FellBack(s: Sys, u: Sys, n: NodeId) {
    exists last: RowId :: IsLastGood(s.db.rows, n, last) && OfStatus(u.db.rows, n, Active) == {last}
      && last in u.db.rows && u.db.rows[last].key in u.blobs
  }

  /**
   * A live node that waits without a request can leave that state in two steps, whatever the collector and the other
   * nodes are doing: its last good row is active again with its blob there, or it has none and is deleted.
   */
  lemma StuckNodeCanLeave(s: Sys, n: NodeId) returns (e: Event, m: Sys, f: Event, u: Sys)
    requires SysInv(s) && Settled(s, n, PendingUpload)
    ensures TwoSteps(s, e, m, f, u) && SysInv(u)
    ensures if HasGoodRow(s.db, n) then n in u.db.nodes && u.db.nodes[n] == SyncActive && FellBack(s, u, n)
            else n !in u.db.nodes
  {
    NotHurt(s, n);
    if HasGoodRow(s.db, n) {
      var last := NewestOfNode(s.db.rows, n);
      e, f := RepairRead(n, last), RepairRestore(n);
      m := SetJob(s, n, Restoring(last, OfStatus(s.db.rows, n, Pending), PendingKeys(s.db, n)));
      u := SetJob(m.(db := RestoreTx(m.db, n, last, OfStatus(s.db.rows, n, Pending))), n,
        Cleaning(PendingKeys(s.db, n)));
    } else {
      e, f := RepairDrop(n), RepairDelete(n);
      m := SetJob(s, n, Dropping(PendingKeys(s.db, n)));
      u := EndJob(m.(db := RemoveNode(m.db, n)), n);
    }
    StepKeepsInv(s, e, m);
    StepKeepsInv(m, f, u);
    if HasGoodRow(s.db, n) {
      var active := OnlyActive(u, n);
      assert active in OfStatus(u.db.rows, n, Active);
      assert active == e.last;
    }
  }

  /** When the pending blob is there it can be completed instead: the upload it waited for is the active version. */
  lemma StuckUploadCanComplete(s: Sys, n: NodeId, id: RowId) returns (e: Event, m: Sys, f: Event, u: Sys)
    requires SysInv(s) && Settled(s, n, PendingUpload) && !SelectedByTier1(s, id)
    requires id in OfStatus(s.db.rows, n, Pending) && s.db.rows[id].key in s.blobs
    ensures TwoSteps(s, e, m, f, u) && SysInv(u) && u.blobs == s.blobs
    ensures n in u.db.nodes && u.db.nodes[n] == SyncActive && OfStatus(u.db.rows, n, Active) == {id}
    ensures u.db.rows[id] == s.db.rows[id].(status := Active, size := Some(|s.blobs[s.db.rows[id].key].bytes|))
  {
    var key := s.db.rows[id].key;
    var head := s.blobs[key];
    e, f := RepairProbe(n, id), RepairCommit(n);
    m := SetJob(s, n, Completing(id, key, |head.bytes|, head.mime));
    u := EndJob(m.(db := CompleteTx(m.db, n, key, |head.bytes|, head.mime)), n);
    StepKeepsInv(s, e, m);
    StepKeepsInv(m, f, u);
    CompletedRow(s, u, n, id, key, |head.bytes|, head.mime);
  }

  lemma CompletedRow(s: Sys, u: Sys, n: NodeId, id: RowId, key: Key, size: nat, mime: string)
    requires DbInv(u.db) && n in s.db.nodes && id in s.db.rows && s.db.rows[id].key == key
    requires s.db.rows[id].status == Pending && s.db.rows[id].node == n
    requires u.db == CompleteTx(s.db, n, key, size, mime)
    ensures u.db.rows[id] == s.db.rows[id].(status := Active, size := Some(size))
    ensures OfStatus(u.db.rows, n, Active) == {id}
  {
    assert id in OfStatus(u.db.rows, n, Active);
  }

  /** A live active file can always be overwritten: the demoted version is there until the new one is committed. */
  lemma ActiveFileCanBeOverwritten(s: Sys, n: NodeId, key: Key, cap: nat, now: nat) returns (prev: RowId, u: Sys)
    requires SysInv(s) && Settled(s, n, SyncActive) && key !in s.used
    ensures Next(s, Begin(n, prev, key, cap, now), u) && SysInv(u) && Uploading(u, n)
    ensures LastGood(u, n, prev) && HasPending(u.db, n, key)
  {
    NotHurt(s, n);
    prev := OnlyActive(s, n);
    assert prev in OfStatus(s.db.rows, n, Active);
    u := SetJob(s.(db := BeginTx(s.db, n, key, cap, now), used := s.used + {key}), n,
      Upload(Some(key), Some(prev), false));
    StepKeepsInv(s, Begin(n, prev, key, cap, now), u);
    assert JobOk(u, n);
  }
}
