/** The life of a layer from its creation: no flush of an admissible run is ever refused, so admissible operations
    are all that the law of the disk asks for. There are two cases. Where zones hold a whole number of segments no
    zone is ever closed (`Aligned`); where they do not, no zone is ever full. */
module FlatArray {
  import opened Arith
  import opened Errors
  import opened Segment
  import opened Pool
  import opened Log
  import opened Ztl
  import opened Coherence
  import opened PoolSteps
  import opened FlushSteps
  import opened WriteSteps
  import opened GcSteps
  import opened Collect
  import opened Bookkeeping
  import opened OpenZones
  import opened History
  import opened FlatDisk
  import opened Run
  import opened Wedge
  import opened Aligned
  import D = Device

  /** Every operation is admissible when it starts; any of them may be refused. */
  ghost predicate AllAdmissible(s: Ztl, ops: seq<Op>)
    requires Ready(s.base)
  {
    ops != [] ==>
      AllAdmissible(s, ops[..|ops| - 1]) && Admissible(Execute(s, ops[..|ops| - 1]), ops[|ops| - 1])
  }

  // ---------- zones that do not hold whole segments ----------

  ghost predicate Ragged(s: Ztl) {
    s.base.spp > 0 && s.base.pool.dev.zoneSectors % s.base.spp != 0
  }

  /** Zones are filled in whole segments, so none is ever filled to its end. */
  lemma NeverFull(s: Ztl, z: nat)
    requires Core(s) && Exact(s.base) && Ragged(s) && z < |s.base.pool.dev.zones|
    ensures |s.base.pool.zm.zones| == |s.base.pool.dev.zones|
    ensures s.base.pool.dev.zones[z].cond != D.Full && s.base.pool.zm.zones[z].wp < s.base.pool.dev.End(z)
  {
    hide D.Sane, Covers, ReverseExact, AllLocated, FreeIsEmpty;
    var p, info := s.base.pool, s.base.pool.zm.zones[z];
    assert Counted(s.base, z);
    DivMod(info.total, 0, s.base.spp);
    if p.dev.zones[z].cond == D.Full { FullPointer(p.dev, z); }
  }

  /** So room can always be made. */
  lemma NeverStuck(s: Ztl)
    requires Inv(s) && Ragged(s)
    ensures forall k :: 0 <= k < |s.base.pool.zm.openList| ==> s.base.pool.zm.openList[k] < |s.base.pool.dev.zones|
    ensures !Stuck(s.base.pool)
  {
    hide Core, Exact, Logged, Lru;
    InvReady(s);
    StuckDefined(s.base.pool);
    if s.base.pool.zm.openList != [] { NeverFull(s, s.base.pool.zm.openList[0]); }
  }

  lemma FlushZoneHolds(s: Ztl, z: nat)
    requires Inv(s) && Ragged(s) && Ready(s.base)
    ensures FlushZone(s.bufs, s.base.pool, z).2 == Ok
  {
    hide Core, Exact, Logged, Lru, Stuck, FlushZone;
    InvReady(s);
    NeverStuck(s);
    if z in s.bufs { FlushZoneLru(s, z); } else { FlushNothing(s, z); }
  }

  lemma {:induction false} FlushEachHolds(s: Ztl, zones: seq<nat>)
    requires Inv(s) && Ragged(s) && Ready(s.base)
    ensures FlushEach(s.bufs, s.base.pool, zones).2 == Ok
  {
    hide Inv, FlushZone, Disk;
    if zones != [] {
      var last := |zones| - 1;
      FlushEachHolds(s, zones[..last]);
      FlushInv(s, zones[..last]);
      FlushZoneHolds(FlushState(s, zones[..last]), zones[last]);
    }
  }

  /** A segment that finds a zone does not fill it. */
  lemma WriteSegmentHolds(s: Ztl, seg: nat, data: seq<D.Sector>)
    requires Inv(s) && Ragged(s) && Ready(s.base) && seg < |s.base.l2p| && |data| == s.base.spp
    ensures WriteSegment(s, seg, data).1 == Ok <==> GetWriteZone(s).1.Success?
  {
    hide Core, Exact, Lru, Logged, WriteInto, FlushZone, Content, GetWriteZone;
    InvReady(s);
    if GetWriteZone(s).1.Success? {
      GetWriteZoneCore(s);
      GetWriteZoneExact(s);
      var (s1, zone) := GetWriteZone(s);
      var z := zone.value;
      WritableExists(s1, z);
      CoreReady(s1);
      WriteIntoMoves(s1, z, seg, data);
      WriteIntoCore(s1, z, seg, data);
      WriteIntoExact(s1, z, seg, data);
      var s2 := WriteInto(s1, z, seg, data).0;
      NeverFull(s2, z);
      CoreConfig(s2);
    }
  }

  lemma {:induction false} WriteFromHolds(s: Ztl, seg: nat, n: nat, lba: nat, data: seq<D.Sector>)
    requires Inv(s) && Ragged(s) && Ready(s.base) && seg + n <= |s.base.l2p|
    requires lba == seg * s.base.spp && |data| == n * s.base.spp
    ensures Fills(s, lba, data)
    decreases n
  {
    hide Inv, Ready, WriteSegment, GetWriteZone;
    if n == 0 {
      assert data == [];
    } else {
      ReadyPositive(s.base);
      WholePiece(seg, n, lba, |data|, s.base.spp);
      WriteFromSplits(s, lba, data);
      var head := data[..s.base.spp];
      WriteSegmentHolds(s, seg, head);
      WriteSegmentInv(s, seg, head);
      if WriteSegment(s, seg, head).1 == Ok {
        WriteFromHolds(WriteSegment(s, seg, head).0, seg + 1, n - 1, lba + s.base.spp, data[s.base.spp..]);
      }
    }
  }

  // ---------- zones that do ----------

  /** The same where every zone is filled to its end: the flush of the zone being filled is not refused. */
  lemma {:induction false} WriteFromFills(s: Ztl, seg: nat, n: nat, lba: nat, data: seq<D.Sector>)
    requires Inv(s) && Filling(s) && Ready(s.base) && seg + n <= |s.base.l2p|
    requires lba == seg * s.base.spp && |data| == n * s.base.spp
    ensures Fills(s, lba, data)
    ensures Filling(WriteFrom(s, lba, data).0)
    decreases n
  {
    hide Inv, Filling, Ready, WriteSegment, WriteFrom, GetWriteZone;
    if n == 0 {
      WriteFromNothing(s, lba);
      assert data == [];
    } else {
      ReadyPositive(s.base);
      WholePiece(seg, n, lba, |data|, s.base.spp);
      WriteFromSplits(s, lba, data);
      var head := data[..s.base.spp];
      WriteSegmentFilling(s, seg, head);
      if WriteSegment(s, seg, head).1 == Ok {
        WriteFromFills(WriteSegment(s, seg, head).0, seg + 1, n - 1, lba + s.base.spp, data[s.base.spp..]);
      }
    }
  }

  // ---------- either ----------

  /** What every state of a layer's life has. */
  ghost predicate Living(s: Ztl) {
    Inv(s) && (Ragged(s) || Filling(s))
  }

  lemma CutWhole(lba: nat, data: seq<D.Sector>, segs: nat, spp: nat)
    requires spp > 0 && lba % spp == 0 && |data| % spp == 0 && lba + |data| <= segs * spp
    ensures lba == lba / spp * spp && |data| == |data| / spp * spp && lba / spp + |data| / spp <= segs
  {
    DivBounds(lba, spp);
    DivBounds(|data|, spp);
    SegmentsFit(lba / spp, |data| / spp, segs, spp);
  }

  lemma WriteHolds(s: Ztl, lba: nat, data: seq<D.Sector>, reserve: int, orders: seq<seq<nat>>)
    requires Living(s) && Ready(s.base) && Admissible(s, WriteOp(lba, data, reserve, orders))
    ensures FlushesHold(s, WriteOp(lba, data, reserve, orders))
    ensures Filling(s) ==> Filling(Write(s, lba, data, reserve, orders).0)
  {
    hide Inv, Filling, Fills, WriteFrom, RunEmergencyGC, EmergencyHarmless, Disk, Lands;
    var (b, cleared) := RunEmergencyGC(s.base, reserve, orders);
    var g, spp := s.(base := b), s.base.spp;
    ReadyPositive(s.base);
    CutWhole(lba, data, |s.base.l2p|, spp);
    EmergencyInv(s, reserve, orders);
    if Filling(s) {
      EmergencyFilling(s, reserve, orders);
      assert g == s;
      WriteFromFills(g, lba / spp, |data| / spp, lba, data);
      var t := WriteFrom(g, lba, data).0;
      LogFilling(t, GroupCommit(t.base.log));
    } else {
      WriteFromHolds(g, lba / spp, |data| / spp, lba, data);
    }
  }

  /** No flush of an admissible operation is refused. */
  lemma StepHolds(s: Ztl, op: Op)
    requires Living(s) && Ready(s.base) && Admissible(s, op)
    ensures FlushesHold(s, op) && Living(Step(s, op).0)
  {
    hide Inv, Filling, Write, UnmapRange, FlushEach, FlushZone, SelectGCVictim, CollectZone, LastLBA, Disk, FlushesHold, Admissible, GroupCommit;
    match op {
      case WriteOp(lba, data, reserve, orders) => WriteHolds(s, lba, data, reserve, orders);
      case _ =>
        OtherHolds(s, op);
    }
    StepInv(s, op);
  }

  lemma OtherHolds(s: Ztl, op: Op)
    requires Living(s) && Ready(s.base) && !op.WriteOp?
    ensures FlushesHold(s, op)
    ensures Filling(s) ==> Filling(Step(s, op).0)
  {
    hide Inv, Filling, UnmapRange, FlushEach, FlushZone, SelectGCVictim, CollectZone, LastLBA, GroupCommit, WriteCheckpoint;
    match op {
      case UnmapOp(lba, count) =>
        if Filling(s) { UnmapRangeFilling(s, lba / s.base.spp, LastLBA(lba, count) / s.base.spp + 1); }
      case FlushOp(zones) =>
        if Filling(s) {
          FlushEachFilling(s, zones);
          LogFilling(FlushState(s, zones), GroupCommit(s.base.log));
        } else {
          FlushEachHolds(s, zones);
        }
      case FlushZoneOp(zone) =>
        if Filling(s) { FlushZoneFilling(s, zone); } else { FlushZoneHolds(s, zone); }
      case CollectOp(order) =>
        if Filling(s) { NoVictimFilling(s); }
      case CommitOp | CheckpointOp | TickOp(_) =>
        if Filling(s) { LogFilling(s, Step(s, op).0.base.log); }
    }
  }

  lemma {:induction false} LifeHolds(s: Ztl, ops: seq<Op>)
    requires Living(s) && Ready(s.base) && AllAdmissible(s, ops)
    ensures Runs(s, ops) && Living(Execute(s, ops))
  {
    hide Living, Step, Admissible, FlushesHold;
    if ops != [] {
      var last := |ops| - 1;
      LifeHolds(s, ops[..last]);
      StepHolds(Execute(s, ops[..last]), ops[last]);
    }
  }

  lemma StartLives(zoneCount: nat, zoneSectors: nat, maxOpen: nat, spp: nat)
    requires Configured(zoneCount, zoneSectors, maxOpen, spp)
    ensures Living(Start(zoneCount, zoneSectors, maxOpen, spp)) && Ready(Start(zoneCount, zoneSectors, maxOpen, spp).base)
  {
    hide Inv, Filling, Disk;
    StartInv(zoneCount, zoneSectors, maxOpen, spp);
    StartSizes(zoneCount, zoneSectors, maxOpen);
    if zoneSectors % spp == 0 { StartFilling(zoneCount, zoneSectors, maxOpen, spp); }
  }

  /** Over the whole life of a layer, in any configuration, no flush is refused: neither one that is asked for nor
      that of a zone which a write fills up. Admissible operations are runs as they are. */
  lemma NoFlushRefused(zoneCount: nat, zoneSectors: nat, maxOpen: nat, spp: nat, ops: seq<Op>)
    requires Configured(zoneCount, zoneSectors, maxOpen, spp)
    requires Ready(Start(zoneCount, zoneSectors, maxOpen, spp).base)
    requires AllAdmissible(Start(zoneCount, zoneSectors, maxOpen, spp), ops)
    ensures Runs(Start(zoneCount, zoneSectors, maxOpen, spp), ops)
  {
    hide Living, Start, Runs, AllAdmissible;
    StartLives(zoneCount, zoneSectors, maxOpen, spp);
    LifeHolds(Start(zoneCount, zoneSectors, maxOpen, spp), ops);
  }

  /** The law of the disk. After any admissible operations from the start, refused ones among them, reading any
      range inside the disk, aligned or not, returns that slice of the flat array the operations describe. */
  lemma ReadsTheFlatArray(zoneCount: nat, zoneSectors: nat, maxOpen: nat, spp: nat, ops: seq<Op>, lba: nat, count: nat)
    requires Configured(zoneCount, zoneSectors, maxOpen, spp)
    requires Ready(Start(zoneCount, zoneSectors, maxOpen, spp).base)
    requires AllAdmissible(Start(zoneCount, zoneSectors, maxOpen, spp), ops)
    requires lba + count <= zoneCount * zoneSectors / spp * spp
    ensures var s := Start(zoneCount, zoneSectors, maxOpen, spp);
      Read(Execute(s, ops), lba, count)
      == Success(Flat(D.Zeros(zoneCount * zoneSectors / spp * spp), ops, TakenAll(s, ops), spp)[lba..lba + count])
  {
    hide Inv, Disk, Runs, Execute, Flat, Report, D.Fresh, Read, TakenAll, AllAdmissible;
    NoFlushRefused(zoneCount, zoneSectors, maxOpen, spp, ops);
    StartInv(zoneCount, zoneSectors, maxOpen, spp);
    RunReads(Start(zoneCount, zoneSectors, maxOpen, spp), ops, lba, count);
  }
}
