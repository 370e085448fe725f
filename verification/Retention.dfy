/** No zone that a crash could still need is ever reset: whatever part of the pending log entries a crash lets
    through, every address of the table they describe lies in a zone in use, in every sequential run. */
module Retention {
  import Arith
  import opened Bookkeeping
  import opened Errors
  import opened Segment
  import opened Pool
  import opened Log
  import opened Ztl
  import opened Coherence
  import opened PoolSteps
  import opened FlushSteps
  import opened WriteSteps
  import opened GcSteps
  import opened Collect
  import opened OpenZones
  import opened History
  import opened FlatDisk
  import opened Run
  import FlatArray
  import R = Recovery
  import D = Device

  /** The address a segment has after the first `k` entries of the log. */
  function AddressAt(b: Base, k: nat, seg: nat): PhysAddr
    requires k <= |b.log.History()|
  {
    R.Final(UNMAPPED, Records(b.log.History()[..k]), seg)
  }

  /** The address is unmapped, or in a zone in use. */
  predicate Backed(d: D.Device, phys: PhysAddr) {
    phys == UNMAPPED || (ZoneID(phys) < |d.zones| && d.zones[ZoneID(phys)].cond != D.Empty)
  }

  /** Every table that a crash could recover, with all the durable entries and some of the pending ones, is of
      zones in use. */
  ghost predicate Retained(b: Base) {
    forall k: nat, seg: nat :: |b.log.durable| <= k <= |b.log.History()| && seg < |b.l2p| ==> Backed(b.pool.dev, AddressAt(b, k, seg))
  }

  /** Zones in use stay in use. */
  ghost predicate StaysUsed(d: D.Device, e: D.Device) {
    && |e.zones| == |d.zones|
    && forall z :: 0 <= z < |d.zones| && d.zones[z].cond != D.Empty ==> e.zones[z].cond != D.Empty
  }

  /** A table of a coherent state is of zones in use. */
  lemma LiveBacked(s: Ztl, seg: nat)
    requires Core(s) && Logged(s.base) && seg < |s.base.l2p|
    ensures Backed(s.base.pool.dev, AddressAt(s.base, |s.base.log.History()|, seg))
  {
    hide Core, ZoneID, OffsetSectors, Snapshots, Replay, R.Final;
    LastAddress(s.base, seg);
    if s.base.l2p[seg] != UNMAPPED {
      MappedLocated(s, seg);
      LocatedInUse(s, s.base.l2p[seg]);
    }
  }

  lemma LastAddress(b: Base, seg: nat)
    requires Logged(b) && seg < |b.l2p|
    ensures AddressAt(b, |b.log.History()|, seg) == b.l2p[seg]
  {
    hide R.Final, Replay, Snapshots;
    assert b.log.History()[..|b.log.History()|] == b.log.History();
    R.ReplayFinal(Unmapped(|b.l2p|), Records(b.log.History()), |b.pool.zm.zones|);
  }

  lemma SamePrefix(b: Base, c: Base, k: nat, seg: nat)
    requires b.log.History() <= c.log.History() && k <= |b.log.History()|
    ensures AddressAt(c, k, seg) == AddressAt(b, k, seg)
  {
    hide R.Final;
    assert c.log.History()[..k] == b.log.History()[..k];
  }

  /** A step that appends at most one entry and resets nothing. */
  lemma RetainedStep(s: Ztl, t: Ztl)
    requires Retained(s.base) && Core(t) && Logged(t.base) && |t.base.l2p| == |s.base.l2p|
    requires s.base.log.History() <= t.base.log.History() && |t.base.log.History()| <= |s.base.log.History()| + 1
    requires |s.base.log.durable| <= |t.base.log.durable|
    requires StaysUsed(s.base.pool.dev, t.base.pool.dev)
    ensures Retained(t.base)
  {
    hide Core, Logged, AddressAt, ZoneID;
    forall k: nat, seg: nat | |t.base.log.durable| <= k <= |t.base.log.History()| && seg < |t.base.l2p|
      ensures Backed(t.base.pool.dev, AddressAt(t.base, k, seg)) {
      if k <= |s.base.log.History()| {
        SamePrefix(s.base, t.base, k, seg);
        assert Backed(s.base.pool.dev, AddressAt(s.base, k, seg));
      } else {
        LiveBacked(t, seg);
      }
    }
  }

  /** With nothing pending only the live table can be recovered. */
  lemma RetainedCommitted(s: Ztl)
    requires Core(s) && Logged(s.base) && s.base.log.pending == []
    ensures Retained(s.base)
  {
    hide Core, Logged, AddressAt;
    forall k: nat, seg: nat | |s.base.log.durable| <= k <= |s.base.log.History()| && seg < |s.base.l2p|
      ensures Backed(s.base.pool.dev, AddressAt(s.base, k, seg)) {
      LiveBacked(s, seg);
    }
  }

  lemma InvCore(s: Ztl)
    requires Inv(s)
    ensures Core(s) && Logged(s.base) && Lru(s.base.pool)
  {
  }

  lemma StaysTrans(d: D.Device, e: D.Device, f: D.Device)
    requires StaysUsed(d, e) && StaysUsed(e, f)
    ensures StaysUsed(d, f)
  {
  }

  // ---------- writes ----------

  lemma GetWriteZoneRetained(s: Ztl)
    requires Inv(s) && Ready(s.base) && Retained(s.base)
    ensures Inv(GetWriteZone(s).0) && Retained(GetWriteZone(s).0.base)
  {
    hide Core, Exact, Lru, Logged, GetWriteZone, Content, Retained, Inv, StaysUsed;
    InvCore(s);
    InvReady(s);
    GetWriteZoneCore(s);
    GetWriteZoneExactly(s);
    var t := GetWriteZone(s).0;
    InvCore(t);
    GetWriteZoneUses(s);
    RetainedStep(s, t);
  }

  lemma GetWriteZoneExactly(s: Ztl)
    requires Inv(s) && Ready(s.base)
    ensures Inv(GetWriteZone(s).0)
  {
    hide Core, Exact, Lru, Logged, GetWriteZone, Content;
    GetWriteZoneCore(s);
    GetWriteZoneExact(s);
    GetWriteZoneLru(s);
    GetWriteZoneLogged(s);
  }

  lemma GetWriteZoneUses(s: Ztl)
    requires Core(s) && Ready(s.base)
    ensures var t := GetWriteZone(s).0;
      && StaysUsed(s.base.pool.dev, t.base.pool.dev)
      && s.base.log.History() <= t.base.log.History() && |t.base.log.History()| <= |s.base.log.History()| + 1
      && t.base.log.durable == s.base.log.durable
  {
    hide AllLocated, AllocateFree, D.Sane;
    AllocateFreeMoves(s.base.pool, s.base.spp);
  }

  lemma FlushUses(s: Ztl, z: nat)
    requires Core(s) && Ready(s.base) && FlushZone(s.bufs, s.base.pool, z).2 == Ok
    ensures StaysUsed(s.base.pool.dev, FlushZone(s.bufs, s.base.pool, z).1.dev)
  {
    hide D.Sane, D.Store;
    if z in s.bufs {
      FlushZoneMoves(s, z);
      hide FlushZone;
    }
  }

  lemma WriteSegmentRetained(s: Ztl, seg: nat, data: seq<D.Sector>)
    requires Inv(s) && Ready(s.base) && Retained(s.base) && seg < |s.base.l2p| && |data| == s.base.spp
    requires WriteSegment(s, seg, data).1 == Ok || GetWriteZone(s).1.Failure?
    ensures Retained(WriteSegment(s, seg, data).0.base)
  {
    hide Core, Lru, Logged, Exact, Content, WriteInto, GetWriteZone, Writable, FlushZone, Retained, Inv, StaysUsed, LogL2PUpdate;
    WriteSegmentInv(s, seg, data);
    GetWriteZoneRetained(s);
    if WriteSegment(s, seg, data).1 == Ok {
      InvCore(s);
      GetWriteZoneCore(s);
      var (s1, zone) := GetWriteZone(s);
      var z := zone.value;
      WritableExists(s1, z);
      InvCore(s1);
      WriteIntoMoves(s1, z, seg, data);
      WriteIntoCore(s1, z, seg, data);
      var s2 := WriteInto(s1, z, seg, data).0;
      LoggedUpdate(s1.base, s2.base, seg, Get(s1.base.l2p, seg), NextAddr(s1.base.pool.zm, z));
      UpdateDurable(s1.base.log, seg, Get(s1.base.l2p, seg), NextAddr(s1.base.pool.zm, z));
      SameUses(s1.base.pool.dev);
      RetainedStep(s1, s2);
      var t := WriteSegment(s, seg, data).0;
      InvCore(t);
      FlushIfFullUses(s2, z);
      RetainedStep(s2, t);
    }
  }

  lemma UpdateDurable(l: Log, seg: nat, p: PhysAddr, q: PhysAddr)
    ensures LogL2PUpdate(l, seg, p, q).durable == l.durable
    ensures l.History() <= LogL2PUpdate(l, seg, p, q).History()
    ensures |LogL2PUpdate(l, seg, p, q).History()| == |l.History()| + 1
  {
    AppendHistory(l, L2P_UPDATE, seg, p, q);
  }

  lemma SameUses(d: D.Device)
    ensures StaysUsed(d, d)
  {
  }

  lemma FlushIfFullUses(s: Ztl, z: nat)
    requires Core(s) && Ready(s.base) && z < |s.base.pool.zm.zones| && FlushIfFull(s, z).1 == Ok
    ensures var t := FlushIfFull(s, z).0;
      StaysUsed(s.base.pool.dev, t.base.pool.dev) && t.base.log == s.base.log && t.base.l2p == s.base.l2p
  {
    hide Core, FlushZone;
    if s.base.pool.zm.zones[z].wp >= s.base.pool.zm.zones[z].start + s.base.pool.zm.zones[z].size {
      FlushUses(s, z);
    }
  }

  lemma {:induction false} WriteFromRetained(s: Ztl, seg: nat, n: nat, lba: nat, data: seq<D.Sector>)
    requires Inv(s) && seg + n <= |s.base.l2p| && Ready(s.base) && lba == seg * s.base.spp && |data| == n * s.base.spp
    requires Fills(s, lba, data) && Retained(s.base)
    ensures Retained(WriteFrom(s, lba, data).0.base)
    decreases n
  {
    hide Inv, Ready, WriteSegment, WriteFrom, LandedFrom, Stored, Fills, GetWriteZone, Retained, Lands, NextAddr;
    if n == 0 {
      WriteFromNothing(s, lba);
      assert data == [];
    } else {
      ReadyPositive(s.base);
      WholePiece(seg, n, lba, |data|, s.base.spp);
      WriteFromSplits(s, lba, data);
      var head := data[..s.base.spp];
      WriteSegmentInv(s, seg, head);
      WriteSegmentRetained(s, seg, head);
      if WriteSegment(s, seg, head).1 == Ok {
        WriteFromRetained(WriteSegment(s, seg, head).0, seg + 1, n - 1, lba + s.base.spp, data[s.base.spp..]);
      }
    }
  }

  // ---------- collections ----------

  lemma {:induction false} MigrateAllRetained(s: Ztl, victim: nat, live: seq<(nat, nat)>)
    requires Inv(s) && Ready(s.base) && Retained(s.base) && MigrateAll(s.base, victim, live).1 == Ok
    requires forall k :: 0 <= k < |live| ==> StillThere(s.base, victim, live[k].0, live[k].1)
    requires forall i, j :: 0 <= i < j < |live| ==> live[i].0 != live[j].0
    ensures Retained(MigrateAll(s.base, victim, live).0)
  {
    hide Core, Exact, Lru, Logged, Content, MigrateSegment, EncodePhysAddr, ZoneID, OffsetSectors, Behind, Retained, Inv, StaysUsed, LogL2PUpdate;
    if live != [] {
      var n := |live| - 1;
      MigrateAllRetained(s, victim, live[..n]);
      MigratedInv(s, victim, live[..n]);
      MigratedInv(s, victim, live);
      var c := MigrateAll(s.base, victim, live[..n]).0;
      var m, t := s.(base := c), s.(base := MigrateAll(s.base, victim, live).0);
      InvCore(m);
      InvCore(t);
      assert live[n].0 !in Segs(live[..n]);
      assert Get(c.l2p, live[n].0) == Get(s.base.l2p, live[n].0);
      MigrateSegmentCore(m, victim, live[n].0, live[n].1);
      UpdateDurable(c.log, live[n].0, c.l2p[live[n].0], Destination(c));
      UntouchedUses(c.pool, t.base.pool);
      RetainedStep(m, t);
    }
  }

  lemma UntouchedUses(p: Pool, q: Pool)
    requires Untouched(p, q)
    ensures StaysUsed(p.dev, q.dev)
  {
  }

  /** Changes of frozen zones alone. */
  lemma FrozenRetained(s: Ztl, t: Ztl)
    requires Retained(s.base) && t == s.(base := s.base.(pool := s.base.pool.(zm := t.base.pool.zm)))
    ensures Retained(t.base)
  {
    hide R.Final;
    forall k: nat, seg: nat | |t.base.log.durable| <= k <= |t.base.log.History()| && seg < |t.base.l2p|
      ensures Backed(t.base.pool.dev, AddressAt(t.base, k, seg)) {
      assert Backed(s.base.pool.dev, AddressAt(s.base, k, seg));
    }
  }

  /** A reset comes only after everything pending was committed. */
  lemma CollectRetained(s: Ztl, victim: nat, order: seq<nat>)
    requires Inv(s) && Ready(s.base) && Harmless(s, victim, order) && Retained(s.base)
    ensures Retained(CollectZone(s.base, victim, order).0)
  {
    hide Core, Exact, Lru, Logged, Content, CollectZone, Gather, MigrateAll, EncodePhysAddr, OffsetSectors, StillThere, Ordered, MappedIn, Disk, Inv, Retained;
    CollectInv(s, victim, order);
    var t := s.(base := CollectZone(s.base, victim, order).0);
    InvCore(t);
    if CollectZone(s.base, victim, order).1 == Ok {
      CollectCommits(s.base, victim, order);
      RetainedCommitted(t);
    } else {
      var k := CollectRefused(s, victim, order);
      var c := s.(base := Freeze(s.base, victim));
      FrozenRetained(s, c);
      FrozenInv(s, c);
      var live := Gather(s.base, victim, order)[..k];
      MigrateAllRetained(c, victim, live);
      FrozenRetained(s.(base := MigrateAll(c.base, victim, live).0), t);
    }
  }

  lemma CollectCommits(b: Base, victim: nat, order: seq<nat>)
    requires Ready(b) && CollectZone(b, victim, order).1 == Ok
    ensures CollectZone(b, victim, order).0.log.pending == []
  {
    hide MigrateAll, Gather, D.ResetZone, MarkEmpty, Reclaim;
    CollectUnfolds(b, victim, order);
    var m := MigrateAll(Freeze(b, victim), victim, Gather(b, victim, order)).0;
    ReclaimLog(Seal(m, victim), victim);
  }

  lemma {:induction false} EmergencyRetained(s: Ztl, reserve: int, orders: seq<seq<nat>>)
    requires Inv(s) && Ready(s.base) && EmergencyHarmless(s, reserve, orders) && Retained(s.base)
    ensures Retained(RunEmergencyGC(s.base, reserve, orders).0)
    decreases |orders|
  {
    hide Inv, CollectZone, Disk, Harmless, SelectGCVictim, Retained;
    if |s.base.pool.zm.freeList| < reserve && orders != [] && SelectGCVictim(s.base.pool.zm).Success? {
      var victim := SelectGCVictim(s.base.pool.zm).value;
      CollectInv(s, victim, orders[0]);
      CollectRetained(s, victim, orders[0]);
      var t := s.(base := CollectZone(s.base, victim, orders[0]).0);
      if CollectZone(s.base, victim, orders[0]).1 == Ok {
        InvReady(t);
        EmergencyRetained(t, reserve, orders[1..]);
      }
    }
  }

  // ---------- other operations ----------

  lemma {:induction false} UnmapRangeRetained(s: Ztl, first: nat, end: nat)
    requires Inv(s) && Ready(s.base) && Retained(s.base)
    ensures Retained(UnmapRange(s.base, first, end))
    decreases end - first
  {
    hide Core, Exact, Lru, Logged, UnmapSegment, Retained, Inv, StaysUsed;
    if first < end {
      UnmapRangeRetained(s, first, end - 1);
      InvCore(s);
      var m := s.(base := UnmapRange(s.base, first, end - 1));
      UnmapRangeCore(s, first, end - 1);
      UnmapRangeLogged(s, first, end - 1);
      UnmapRangeCore(s, first, end);
      UnmapRangeLogged(s, first, end);
      var t := s.(base := UnmapRange(s.base, first, end));
      assert t.base == UnmapSegment(m.base, end - 1);
      UnmapSegmentUses(m, end - 1);
      RetainedStep(m, t);
    }
  }

  lemma UnmapSegmentUses(s: Ztl, seg: nat)
    requires Ready(s.base)
    ensures var c := UnmapSegment(s.base, seg);
      && StaysUsed(s.base.pool.dev, c.pool.dev)
      && s.base.log.History() <= c.log.History() && |c.log.History()| <= |s.base.log.History()| + 1
      && c.log.durable == s.base.log.durable && |c.l2p| == |s.base.l2p|
  {
    hide ZoneID, OffsetSectors;
  }

  lemma {:induction false} FlushEachUses(s: Ztl, zones: seq<nat>)
    requires Core(s) && Ready(s.base) && FlushEach(s.bufs, s.base.pool, zones).2 == Ok
    ensures StaysUsed(s.base.pool.dev, FlushState(s, zones).base.pool.dev)
  {
    hide Core, Content, FlushZone, StaysUsed;
    if zones == [] {
      SameUses(s.base.pool.dev);
    } else {
      var last := |zones| - 1;
      FlushEachUses(s, zones[..last]);
      FlushEachCore(s, zones[..last]);
      var m := FlushState(s, zones[..last]);
      FlushUses(m, zones[last]);
      StaysTrans(s.base.pool.dev, m.base.pool.dev, FlushState(s, zones).base.pool.dev);
    }
  }

  /** Committing, or passing time, leaves fewer tables to recover, not other ones. */
  lemma LogRetained(s: Ztl, t: Ztl)
    requires Inv(t) && Retained(s.base) && t == s.(base := s.base.(log := t.base.log))
    requires t.base.log.History() == s.base.log.History() && |t.base.log.durable| >= |s.base.log.durable|
    ensures Retained(t.base)
  {
    hide Inv, StaysUsed, Retained;
    InvCore(t);
    SameUses(s.base.pool.dev);
    RetainedStep(s, t);
  }

  lemma CommitRetained(s: Ztl)
    requires Inv(s) && Ready(s.base) && Retained(s.base)
    ensures Retained(s.base.(log := GroupCommit(s.base.log)))
  {
    hide Inv, Retained, Disk;
    CommitInv(s);
    CommitHistory(s.base.log);
    LogRetained(s, s.(base := s.base.(log := GroupCommit(s.base.log))));
  }

  lemma WriteRetained(s: Ztl, lba: nat, data: seq<D.Sector>, reserve: int, orders: seq<seq<nat>>)
    requires var op := WriteOp(lba, data, reserve, orders);
      Inv(s) && Ready(s.base) && Admissible(s, op) && FlushesHold(s, op)
    requires Retained(s.base)
    ensures Retained(Write(s, lba, data, reserve, orders).0.base)
  {
    hide Inv, WriteFrom, RunEmergencyGC, Disk, Lands, EmergencyHarmless, LandedFrom, D.Store, Fills, Retained;
    if data != [] {
      EmergencyInv(s, reserve, orders);
      EmergencyRetained(s, reserve, orders);
      var (b, cleared) := RunEmergencyGC(s.base, reserve, orders);
      if cleared == Ok {
        var g := s.(base := b);
        ClearedWrite(g, lba, data);
        ClearedRetained(g, lba, data);
        CommitRetained(WriteFrom(g, lba, data).0);
      }
    }
  }

  lemma ClearedRetained(g: Ztl, lba: nat, data: seq<D.Sector>)
    requires Inv(g) && Ready(g.base) && lba % g.base.spp == 0 && |data| % g.base.spp == 0 && Retained(g.base)
    requires lba + |data| <= |g.base.l2p| * g.base.spp && Fills(g, lba, data)
    ensures Retained(WriteFrom(g, lba, data).0.base)
  {
    hide Inv, WriteFrom, Fills, Retained;
    var spp := g.base.spp;
    Arith.DivBounds(lba, spp);
    Arith.DivBounds(|data|, spp);
    SegmentsFit(lba / spp, |data| / spp, |g.base.l2p|, spp);
    WriteFromRetained(g, lba / spp, |data| / spp, lba, data);
  }

  lemma FlushRetained(s: Ztl, zones: seq<nat>)
    requires Inv(s) && Ready(s.base) && Retained(s.base) && FlushEach(s.bufs, s.base.pool, zones).2 == Ok
    ensures Retained(FlushState(s, zones).base)
  {
    hide Inv, Retained, StaysUsed, FlushEach, Disk;
    FlushInv(s, zones);
    InvCore(s);
    InvCore(FlushState(s, zones));
    FlushEachUses(s, zones);
    RetainedStep(s, FlushState(s, zones));
  }

  lemma StepRetained(s: Ztl, op: Op)
    requires Inv(s) && Ready(s.base) && Admissible(s, op) && FlushesHold(s, op) && Retained(s.base)
    ensures Retained(Step(s, op).0.base)
  {
    hide Inv, Disk, Write, UnmapRange, FlushEach, FlushZone, CollectZone, GroupCommit, Harmless, SelectGCVictim, LastLBA, Retained;
    StepInv(s, op);
    match op {
      case WriteOp(lba, data, reserve, orders) => WriteRetained(s, lba, data, reserve, orders);
      case UnmapOp(lba, count) => UnmapRangeRetained(s, lba / s.base.spp, LastLBA(lba, count) / s.base.spp + 1);
      case FlushOp(zones) =>
        FlushRetained(s, zones);
        FlushInv(s, zones);
        CommitRetained(FlushState(s, zones));
      case FlushZoneOp(zone) =>
        FlushOne(s, zone);
        FlushRetained(s, [zone]);
      case CollectOp(order) =>
        if SelectGCVictim(s.base.pool.zm).Success? {
          CollectRetained(s, SelectGCVictim(s.base.pool.zm).value, order);
        }
      case CommitOp => CommitRetained(s);
      case CheckpointOp =>
        InvCore(Step(s, op).0);
        CheckpointCommits(s.base.log, s.base.l2p);
        RetainedCommitted(Step(s, op).0);
      case TickOp(now) => LogRetained(s, Step(s, op).0);
    }
  }

  lemma CheckpointCommits(l: Log, table: Table)
    ensures WriteCheckpoint(l, table).pending == []
  {
  }

  /** In every run, no zone that a crash could still need has been reset. */
  lemma {:induction false} RunRetained(s: Ztl, ops: seq<Op>)
    requires Inv(s) && Ready(s.base) && Runs(s, ops) && Retained(s.base)
    ensures Retained(Execute(s, ops).base)
  {
    hide Inv, Retained, Step, Admissible, FlushesHold, Disk, Flat, TakenAll;
    if ops != [] {
      var last := |ops| - 1;
      RunRetained(s, ops[..last]);
      RunInv(s, ops[..last]);
      StepRetained(Execute(s, ops[..last]), ops[last]);
    }
  }

  lemma StartRetained(zoneCount: nat, zoneSectors: nat, maxOpen: nat, spp: nat)
    requires Configured(zoneCount, zoneSectors, maxOpen, spp)
    ensures Retained(Start(zoneCount, zoneSectors, maxOpen, spp).base)
  {
    hide Inv, Retained, Disk;
    StartInv(zoneCount, zoneSectors, maxOpen, spp);
    InvCore(Start(zoneCount, zoneSectors, maxOpen, spp));
    RetainedCommitted(Start(zoneCount, zoneSectors, maxOpen, spp));
  }

  /** Over the whole life of a layer: after any admissible operations no zone that a crash could still need has been
      reset. */
  lemma LifeRetained(zoneCount: nat, zoneSectors: nat, maxOpen: nat, spp: nat, ops: seq<Op>)
    requires Configured(zoneCount, zoneSectors, maxOpen, spp)
    requires Ready(Start(zoneCount, zoneSectors, maxOpen, spp).base)
    requires FlatArray.AllAdmissible(Start(zoneCount, zoneSectors, maxOpen, spp), ops)
    ensures Retained(Execute(Start(zoneCount, zoneSectors, maxOpen, spp), ops).base)
  {
    hide Inv, Retained, Start, Runs, Execute, FlatArray.AllAdmissible, Disk;
    StartInv(zoneCount, zoneSectors, maxOpen, spp);
    StartRetained(zoneCount, zoneSectors, maxOpen, spp);
    FlatArray.NoFlushRefused(zoneCount, zoneSectors, maxOpen, spp, ops);
    RunRetained(Start(zoneCount, zoneSectors, maxOpen, spp), ops);
  }
}
