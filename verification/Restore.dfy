/** Crash recovery as it runs: the latest checkpoint is loaded into the table, the later records are replayed
    over it one by one, and the zone manager is reconciled with the device (internal/journal/recovery.go). */
module Restore {
  import opened Errors
  import opened Segment
  import L = Log
  import F = Frames
  import R = Recovery
  import C = Crash
  import P = Pool
  import X = Restored
  import opened Tables
  import opened ZoneManagerClass
  import opened Wal

  /** The table and the zone manager end as recovery over the bytes says; an error is the first one met. In the
      manager every zone has the condition and the pointer of the device, the zones of the replayed resets end the
      free list in order and count nothing, and the others keep their counts (`Restored.Recovered`). */
  method Recover(j: Journal, l2p: L2PTable, zm: ZoneManager) returns (r: Status)
    requires zm.Valid()
    modifies l2p.entries, zm
    ensures zm.Valid()
    ensures var recovered := F.RecoverFile(j.crc, old(l2p.View()), j.file, |old(zm.zones)|);
      match recovered
      case Success(t) =>
        && r == Ok && l2p.View() == t
        && zm.View() == C.Reconcile(C.Remark(old(zm.View()), F.Replayed(j.crc, j.file)), zm.device.View())
      case Failure(e) => r == e
    ensures r == Ok ==>
      X.Recovered(old(zm.View()), zm.View(), zm.device.View(), X.ResetZones(F.Replayed(j.crc, j.file)))
  {
    hide F.ScanCheckpoints, F.ReadRecords, C.Remark, C.Reconcile, P.MarkEmpty, P.Listed, L.ReplayOne, L.Replay;
    ghost var zones := |zm.zones|;
    var latest := ReadLatestCheckpoint(j.crc, j.file);
    X.ScanFails(j.crc, j.file, None);
    if latest.Failure? { return latest.error; }
    var checkpointLSN := 0;
    if latest.value.Some? {
      var cp := latest.value.value;
      var loaded := l2p.LoadSnapshot(cp.table);
      if loaded != Ok { return loaded; }
      checkpointLSN := cp.rec.lsn;
    }
    ghost var start := l2p.View();
    var records := j.ReadAllRecords(checkpointLSN);
    assert records == F.Replayed(j.crc, j.file);
    hide F.RecoverFile, F.Replayed, X.Recovered, X.ResetZones;
    ghost var was := zm.View();
    r := ApplyAll(records, l2p, zm);
    if r == Ok {
      zm.ReconcileFromDevice();
      X.FileKnows(j.crc, old(l2p.View()), j.file, zones);
      X.RecoveredManager(was, zm.device.View(), records);
    }
  }

  /** The records one by one; an error stops the replay. */
  method ApplyAll(records: seq<L.Record>, l2p: L2PTable, zm: ZoneManager) returns (r: Status)
    requires zm.Valid()
    modifies l2p.entries, zm
    ensures zm.Valid() && |zm.zones| == |old(zm.zones)|
    ensures match L.Replay(old(l2p.View()), records, |old(zm.zones)|)
      case Success(t) => r == Ok && l2p.View() == t && zm.View() == C.Remark(old(zm.View()), records)
      case Failure(e) => r == e != Ok
  {
    hide C.Remark, P.MarkEmpty, P.Listed, L.ReplayOne;
    ghost var start, zones := l2p.View(), |zm.zones|;
    RemarkNothing(zm.View());
    for i := 0 to |records|
      invariant zm.Valid() && |zm.zones| == zones
      invariant L.Replay(start, records[..i], zones) == Success(l2p.View())
      invariant zm.View() == C.Remark(old(zm.View()), records[..i])
    {
      ReplayNext(start, records, i, zones);
      RemarkNext(old(zm.View()), records, i);
      hide L.Replay;
      r := Apply(records[i], l2p, zm);
      if r != Ok { return r; }
    }
    assert records[..|records|] == records;
    r := Ok;
  }

  /** One record: a segment's new address, or a zone to mark empty. */
  method Apply(rec: L.Record, l2p: L2PTable, zm: ZoneManager) returns (r: Status)
    requires zm.Valid()
    modifies l2p.entries, zm
    ensures zm.Valid() && |zm.zones| == |old(zm.zones)|
    ensures match L.ReplayOne(old(l2p.View()), rec, |old(zm.zones)|)
      case Success(t) =>
        && r == Ok && l2p.View() == t
        && zm.View() == if rec.kind == L.ZONE_RESET then P.MarkEmpty(old(zm.View()), rec.id % 0x1_0000_0000).0
                        else old(zm.View())
      case Failure(e) => r == e != Ok
  {
    hide P.MarkEmpty, P.Listed;
    r := Ok;
    if rec.kind == L.L2P_UPDATE {
      r := l2p.Set(rec.id, rec.newPhys % TWO_64);
    } else if rec.kind == L.ZONE_RESET {
      MarkOutcome(zm.View(), rec.id % 0x1_0000_0000);
      r := zm.MarkEmpty(rec.id % 0x1_0000_0000);
    }
  }

  lemma RemarkNothing(zm: P.Manager)
    ensures C.Remark(zm, []) == zm
  {
  }

  /** One more record: it decides, and if it fails the whole replay fails with it. */
  lemma ReplayNext(t: seq<PhysAddr>, rs: seq<L.Record>, i: nat, zones: nat)
    requires i < |rs| && L.Replay(t, rs[..i], zones).Success?
    ensures L.Replay(t, rs[..i + 1], zones) == L.ReplayOne(L.Replay(t, rs[..i], zones).value, rs[i], zones)
    ensures L.Replay(t, rs[..i + 1], zones).Failure? ==> L.Replay(t, rs, zones) == L.Replay(t, rs[..i + 1], zones)
  {
    hide L.ReplayOne;
    assert rs[..i + 1][..i] == rs[..i];
    if L.Replay(t, rs[..i + 1], zones).Failure? { FailureStays(t, rs, i + 1, zones); }
  }

  lemma {:induction false} FailureStays(t: seq<PhysAddr>, rs: seq<L.Record>, n: nat, zones: nat)
    requires n <= |rs| && L.Replay(t, rs[..n], zones).Failure?
    ensures L.Replay(t, rs, zones) == L.Replay(t, rs[..n], zones)
  {
    if n < |rs| {
      assert rs[..|rs| - 1][..n] == rs[..n];
      FailureStays(t, rs[..|rs| - 1], n, zones);
    } else {
      assert rs[..n] == rs;
    }
  }

  lemma RemarkNext(zm: P.Manager, rs: seq<L.Record>, i: nat)
    requires i < |rs|
    ensures C.Remark(zm, rs[..i + 1]) ==
            if rs[i].kind == L.ZONE_RESET then P.MarkEmpty(C.Remark(zm, rs[..i]), rs[i].id % 0x1_0000_0000).0
            else C.Remark(zm, rs[..i])
  {
    assert rs[..i + 1][..i] == rs[..i];
  }

  lemma MarkOutcome(zm: P.Manager, z: nat)
    ensures P.MarkEmpty(zm, z).1 == if z < |zm.zones| then Ok else NoSuchZone
    ensures |P.MarkEmpty(zm, z).0.zones| == |zm.zones|
  {
  }
}
