/** Sequential runs of the translation layer, operations that are refused included. Every run keeps the whole
    invariant, and after every run of admissible operations the disk is the flat array the operations describe,
    whatever coherent state it began in. */
module Run {
  import opened Arith
  import opened Errors
  import opened Segment
  import opened Pool
  import opened Log
  import opened Ztl
  import opened Coherence
  import opened PoolSteps
  import opened FlushSteps
  import opened WriteSteps
  import opened GcSteps
  import opened Collect
  import opened Bookkeeping
  import opened OpenZones
  import opened History
  import opened FlatDisk
  import D = Device

  ghost predicate Inv(s: Ztl) {
    Core(s) && Exact(s.base) && Lru(s.base.pool) && Logged(s.base)
  }

  datatype Op =
    | WriteOp(lba: nat, data: seq<D.Sector>, reserve: int, orders: seq<seq<nat>>)
    | UnmapOp(lba: nat, count: nat)
    | FlushOp(zones: seq<nat>)
    | FlushZoneOp(zone: nat)
    | CollectOp(order: seq<nat>)
    | CommitOp
    | CheckpointOp
    | TickOp(now: nat)

  function Step(s: Ztl, op: Op): (r: (Ztl, Status))
    requires Ready(s.base)
    ensures Same(s.base, r.0.base)
  {
    match op
    case WriteOp(lba, data, reserve, orders) => Write(s, lba, data, reserve, orders)
    case UnmapOp(lba, count) => (Unmap(s, lba, count), Ok)
    case FlushOp(zones) => Flush(s, zones)
    case FlushZoneOp(zone) =>
      var (bufs, p, r) := FlushZone(s.bufs, s.base.pool, zone);
      (s.(base := s.base.(pool := p), bufs := bufs), r)
    case CollectOp(order) =>
      var (b, r) := RunCycle(s.base, order);
      (s.(base := b), r)
    case CommitOp => (s.(base := s.base.(log := GroupCommit(s.base.log))), Ok)
    case CheckpointOp => (s.(base := s.base.(log := WriteCheckpoint(s.base.log, s.base.l2p))), Ok)
    case TickOp(now) => (s.(base := s.base.(log := s.base.log.(clock := now))), Ok)
  }

  /** A collection that loses nothing: the victim has nothing buffered and is not being written, and no segment
      of it would move to the start of zone 0. */
  ghost predicate Harmless(s: Ztl, victim: nat, order: seq<nat>) {
    var f := s.base.pool.zm.freeList;
    && Collectable(s, victim)
    && Ordered(s.base, victim, order)
    && 0 !in f[|f| - Min(MappedIn(s.base, victim), |f|)..]
  }

  /** Every collection an emergency runs is harmless. */
  ghost predicate EmergencyHarmless(s: Ztl, reserve: int, orders: seq<seq<nat>>)
    requires Ready(s.base)
    decreases |orders|
  {
    if |s.base.pool.zm.freeList| >= reserve || orders == [] then true else
    match SelectGCVictim(s.base.pool.zm)
    case Failure(_) => true
    case Success(victim) =>
      var (c, r) := CollectZone(s.base, victim, orders[0]);
      && Harmless(s, victim, orders[0])
      && (r == Ok ==> EmergencyHarmless(s.(base := c), reserve, orders[1..]))
  }

  /** What a caller must see to: writes of whole segments inside the disk that avoid the unmapped address, and
      harmless collections. */
  ghost predicate Admissible(s: Ztl, op: Op)
    requires Ready(s.base)
  {
    match op
    case WriteOp(lba, data, reserve, orders) =>
      && lba % s.base.spp == 0 && |data| % s.base.spp == 0
      && lba + |data| <= |s.base.l2p| * s.base.spp
      && EmergencyHarmless(s, reserve, orders)
      && Lands(s.(base := RunEmergencyGC(s.base, reserve, orders).0), lba, data)
    case CollectOp(order) =>
      SelectGCVictim(s.base.pool.zm).Success? ==> Harmless(s, SelectGCVictim(s.base.pool.zm).value, order)
    case _ => true
  }

  /** No flush is refused, neither one asked for nor that of a zone which a write fills up. In the whole life of a
      layer none is (`FlatArray.NoFlushRefused`); from an arbitrary coherent state one may be. */
  predicate FlushesHold(s: Ztl, op: Op)
    requires Ready(s.base)
  {
    match op
    case WriteOp(lba, data, reserve, orders) =>
      var (b, r) := RunEmergencyGC(s.base, reserve, orders);
      r == Ok ==> Fills(s.(base := b), lba, data)
    case FlushOp(_) => Step(s, op).1 == Ok
    case FlushZoneOp(_) => Step(s, op).1 == Ok
    case _ => true
  }

  /** How many sectors of a write are stored: all of them, or those before the piece that is refused. */
  function Taken(s: Ztl, op: Op): nat
    requires Ready(s.base)
  {
    match op
    case WriteOp(lba, data, reserve, orders) =>
      if data == [] then 0 else
      var (b, r) := RunEmergencyGC(s.base, reserve, orders);
      if r == Ok then |LandedFrom(s.(base := b), lba, data)| else 0
    case _ => 0
  }

  /** What an operation does to the flat array, given how many sectors of it were stored. */
  function FlatStep(d: seq<D.Sector>, op: Op, taken: nat, spp: nat): (r: seq<D.Sector>)
    requires spp > 0
    ensures |r| == |d|
  {
    match op
    case WriteOp(lba, data, _, _) => D.Store(d, lba, data[..Min(taken, |data|)])
    case UnmapOp(lba, count) => Zeroed(d, lba / spp, LastLBA(lba, count) / spp + 1, spp)
    case _ => d
  }

  // ---------- one operation ----------

  lemma InvReady(s: Ztl)
    requires Inv(s)
    ensures Ready(s.base) && Core(s) && Exact(s.base) && Lru(s.base.pool) && Logged(s.base) && Covers(s.base)
  {
  }

  lemma InvWhole(s: Ztl)
    requires Core(s) && Exact(s.base) && Lru(s.base.pool) && Logged(s.base)
    ensures Inv(s)
  {
  }

  /** Freezing or unfreezing a zone changes nothing that matters. */
  lemma FrozenInv(s: Ztl, t: Ztl)
    requires Inv(s) && t == s.(base := s.base.(pool := s.base.pool.(zm := s.base.pool.zm.(frozen := t.base.pool.zm.frozen))))
    ensures Inv(t)
    ensures forall seg :: Content(t, seg) == Content(s, seg)
  {
    hide Core, Exact, Lru, Logged, Content;
    InvReady(s);
    FrozenCore(s, t);
    SameCountsExact(s.base, t.base);
    CountersLru(s.base.pool, t.base.pool.zm);
    LoggedSame(s.base, t.base);
    InvWhole(t);
  }

  lemma MigratedInv(s: Ztl, victim: nat, live: seq<(nat, nat)>)
    requires Inv(s) && Ready(s.base) && MigrateAll(s.base, victim, live).1 == Ok
    requires forall k :: 0 <= k < |live| ==> StillThere(s.base, victim, live[k].0, live[k].1)
    requires forall i, j :: 0 <= i < j < |live| ==> live[i].0 != live[j].0
    ensures Inv(s.(base := MigrateAll(s.base, victim, live).0))
    ensures MovedAll(s, s.(base := MigrateAll(s.base, victim, live).0), live)
  {
    hide Core, Exact, Lru, Logged, Content, MigrateAll, EncodePhysAddr, OffsetSectors, StillThere, Behind;
    InvReady(s);
    MigrateAllCore(s, victim, live);
    MigrateAllExact(s, victim, live);
    MigrateAllLru(s, victim, live);
    MigrateAllLogged(s, victim, live);
    InvWhole(s.(base := MigrateAll(s.base, victim, live).0));
  }

  /** Where the migration after `k` others goes. */
  function Target(f: seq<nat>, k: nat): PhysAddr
    requires k < |f|
  {
    EncodePhysAddr(f[|f| - 1 - k], 0)
  }

  /** Segments moved from an unbuffered victim to zones other than zone 0 keep their data. */
  lemma MovedContent(s: Ztl, m: Ztl, victim: nat, live: seq<(nat, nat)>)
    requires MovedAll(s, m, live) && victim !in s.bufs
    requires forall k :: 0 <= k < |live| ==> StillThere(s.base, victim, live[k].0, live[k].1)
    requires |live| <= |s.base.pool.zm.freeList|
    requires forall k :: 0 <= k < |live| ==> Target(s.base.pool.zm.freeList, k) != UNMAPPED
    ensures forall seg :: Content(m, seg) == Content(s, seg)
  {
    hide Core, Behind, Untouched, EncodePhysAddr, OffsetSectors, ZoneID;
    forall seg: nat ensures Content(m, seg) == Content(s, seg) {
      if seg in Segs(live) {
        var k :| 0 <= k < |live| && live[k].0 == seg;
        assert m.base.l2p[seg] == Target(s.base.pool.zm.freeList, k);
        BehindUnbuffered(s.base.pool.dev, s.bufs, s.base.spp, Get(s.base.l2p, seg));
      }
    }
  }

  /** Where a collection is refused: before one of its migrations, for want of a zone. */
  lemma CollectRefused(s: Ztl, victim: nat, order: seq<nat>) returns (k: nat)
    requires Inv(s) && Ready(s.base) && Collectable(s, victim) && Ordered(s.base, victim, order)
    requires CollectZone(s.base, victim, order).1 != Ok
    ensures var c, live := Freeze(s.base, victim), Gather(s.base, victim, order);
      && k < |live| == MappedIn(s.base, victim)
      && (forall i :: 0 <= i < k ==> StillThere(c, victim, live[..k][i].0, live[..k][i].1))
      && (forall i, j :: 0 <= i < j < k ==> live[..k][i].0 != live[..k][j].0)
      && MigrateAll(c, victim, live[..k]).1 == Ok
      && CollectZone(s.base, victim, order).0 == Unfreeze(MigrateAll(c, victim, live[..k]).0, victim)
  {
    hide Core, Exact, Lru, Logged, Content, Covers, Ordered, Gather, MigrateAll, Reclaim, EncodePhysAddr, OffsetSectors, ZoneID, Inv;
    InvReady(s);
    var c := s.(base := Freeze(s.base, victim));
    FrozenInv(s, c);
    InvReady(c);
    CoversFrozen(s.base, victim, victim, order);
    GatherFrozen(s.base, victim, victim, order);
    OrderDistinct(c.base, victim, order);
    GatherLive(c.base, victim, order);
    GatherIsSegsIn(s.base, victim, order);
    var live := Gather(s.base, victim, order);
    MigratedReclaims(c, victim, live);
    hide CollectZone;
    k := MigrateAllRefused(c, victim, live);
    assert forall i :: 0 <= i < k ==> live[..k][i] == live[i];
  }

  /** Once every segment has moved, the reset is not refused, and neither is the collection. */
  lemma MigratedReclaims(s: Ztl, victim: nat, live: seq<(nat, nat)>)
    requires Inv(s) && Ready(s.base) && victim < |s.base.pool.dev.zones|
    requires forall k :: 0 <= k < |live| ==> StillThere(s.base, victim, live[k].0, live[k].1)
    requires forall i, j :: 0 <= i < j < |live| ==> live[i].0 != live[j].0
    ensures var (m, r) := MigrateAll(s.base, victim, live);
      r == Ok ==> Ready(Seal(m, victim)) && Reclaim(Seal(m, victim), victim).1 == Ok
  {
    hide Core, Exact, Lru, Logged, Content, MigrateAll, EncodePhysAddr, OffsetSectors, ZoneID, StillThere, Reclaim, Seal, Inv;
    var (m, r) := MigrateAll(s.base, victim, live);
    if r == Ok {
      MigratedInv(s, victim, live);
      var t := s.(base := m);
      InvReady(t);
      MovedSizes(s, t, live);
      SealLogOnly(m, victim);
      LogOnly(t, Seal(m, victim).log);
      CoreReady(t.(base := Seal(m, victim)));
      ReclaimMoves(t.(base := Seal(m, victim)), victim);
    }
  }

  lemma MovedSizes(s: Ztl, m: Ztl, live: seq<(nat, nat)>)
    requires MovedAll(s, m, live)
    ensures |m.base.pool.dev.zones| == |s.base.pool.dev.zones|
  {
    hide Core, Content;
  }

  lemma SealLogOnly(b: Base, victim: nat)
    ensures Seal(b, victim) == b.(log := Seal(b, victim).log)
  {
  }

  /** A harmless collection, whether it succeeds or is refused part way, keeps the invariant and the disk. */
  lemma CollectInv(s: Ztl, victim: nat, order: seq<nat>)
    requires Inv(s) && Ready(s.base) && Harmless(s, victim, order)
    ensures var t := s.(base := CollectZone(s.base, victim, order).0);
      Inv(t) && Disk(t) == Disk(s)
  {
    hide Inv, CollectZone, Disk, Harmless;
    if CollectZone(s.base, victim, order).1 == Ok {
      CollectedInv(s, victim, order);
    } else {
      RefusedInv(s, victim, order);
    }
  }

  lemma RefusedInv(s: Ztl, victim: nat, order: seq<nat>)
    requires Inv(s) && Ready(s.base) && Harmless(s, victim, order) && CollectZone(s.base, victim, order).1 != Ok
    ensures var t := s.(base := CollectZone(s.base, victim, order).0);
      Inv(t) && Disk(t) == Disk(s)
  {
    hide Core, Exact, Lru, Logged, Content, CollectZone, Gather, MigrateAll, EncodePhysAddr, OffsetSectors, StillThere, Ordered, MappedIn, MovedAll, Disk, Inv;
    var k := CollectRefused(s, victim, order);
    var c := s.(base := Freeze(s.base, victim));
    var live := Gather(s.base, victim, order)[..k];
    FrozenInv(s, c);
    InvReady(c);
    MigratedInv(c, victim, live);
    var m := s.(base := MigrateAll(c.base, victim, live).0);
    MovedWithin(c, m, live);
    SparesZero(c, |Gather(s.base, victim, order)|, k);
    MovedContent(c, m, victim, live);
    FrozenInv(m, s.(base := CollectZone(s.base, victim, order).0));
    DiskSame(s, s.(base := CollectZone(s.base, victim, order).0));
  }

  lemma MovedWithin(s: Ztl, m: Ztl, live: seq<(nat, nat)>)
    requires MovedAll(s, m, live)
    ensures |live| <= |s.base.pool.zm.freeList| && |m.base.l2p| == |s.base.l2p| && m.base.spp == s.base.spp > 0
  {
    hide Content, D.Sane, Pointers, AllLocated, FreeIsEmpty;
  }

  /** Zones at the end of the free list, zone 0 not among them, do not start at the unmapped address. */
  lemma SparesZero(s: Ztl, n: nat, k: nat)
    requires Core(s) && k <= n && k <= |s.base.pool.zm.freeList|
    requires var f := s.base.pool.zm.freeList; 0 !in f[|f| - Min(n, |f|)..]
    ensures forall i :: 0 <= i < k ==> Target(s.base.pool.zm.freeList, i) != UNMAPPED
  {
    hide Core, EncodePhysAddr;
    FreeInRange(s);
    var f := s.base.pool.zm.freeList;
    forall i | 0 <= i < k ensures Target(f, i) != UNMAPPED {
      assert f[|f| - Min(n, |f|)..][Min(n, |f|) - 1 - i] == f[|f| - 1 - i];
      PackedUnmapped(f[|f| - 1 - i], 0);
    }
  }

  lemma CollectedInv(s: Ztl, victim: nat, order: seq<nat>)
    requires Inv(s) && Harmless(s, victim, order)
    requires Ready(s.base) && CollectZone(s.base, victim, order).1 == Ok
    ensures var t := s.(base := CollectZone(s.base, victim, order).0);
      Inv(t) && Disk(t) == Disk(s)
  {
    hide Inv, Core, Exact, Lru, Logged, Content, CollectZone, EncodePhysAddr, OffsetSectors, OnDevice, Covers, Ordered, Disk;
    InvReady(s);
    CollectZoneCore(s, victim, order);
    CollectZoneExact(s, victim, order);
    CollectZoneLru(s, victim, order);
    CollectZoneLogged(s, victim, order);
    var t := s.(base := CollectZone(s.base, victim, order).0);
    InvWhole(t);
    CollectContent(s, t, victim);
    DiskSame(s, t);
  }

  /** With the victim unbuffered and zone 0 spared, no segment's data changes. */
  lemma CollectContent(s: Ztl, t: Ztl, victim: nat)
    requires Core(s) && Collectable(s, victim) && Collected(s, t, victim)
    requires var f, n := s.base.pool.zm.freeList, MappedIn(s.base, victim); 0 !in f[|f| - n..]
    ensures forall seg :: Content(t, seg) == Content(s, seg)
  {
    hide Core, Behind, EncodePhysAddr, OffsetSectors, MappedIn;
    assert ZoneID(UNMAPPED) == 0;
    forall seg: nat ensures Content(t, seg) == Content(s, seg) {
      if seg < |s.base.l2p| {
        if InZone(s.base, seg, victim) {
          if IsUnmapped(t.base.l2p[seg]) {
            assert false;
          } else {
            BehindUnbuffered(s.base.pool.dev, s.bufs, s.base.spp, s.base.l2p[seg]);
          }
        }
      } else {
        BehindUnmapped(s.base.pool.dev, s.bufs, s.base.spp);
        BehindUnmapped(t.base.pool.dev, t.bufs, s.base.spp);
      }
    }
  }

  /** Harmless emergency collections, however they end. */
  lemma {:induction false} EmergencyInv(s: Ztl, reserve: int, orders: seq<seq<nat>>)
    requires Inv(s) && Ready(s.base) && EmergencyHarmless(s, reserve, orders)
    ensures var t := s.(base := RunEmergencyGC(s.base, reserve, orders).0);
      Inv(t) && Disk(t) == Disk(s)
    decreases |orders|
  {
    hide Inv, CollectZone, Disk, Harmless, SelectGCVictim;
    if |s.base.pool.zm.freeList| < reserve && orders != [] && SelectGCVictim(s.base.pool.zm).Success? {
      var victim := SelectGCVictim(s.base.pool.zm).value;
      CollectInv(s, victim, orders[0]);
      var t := s.(base := CollectZone(s.base, victim, orders[0]).0);
      if CollectZone(s.base, victim, orders[0]).1 == Ok {
        InvReady(t);
        EmergencyInv(t, reserve, orders[1..]);
      }
    }
  }

  lemma VictimErrors(zm: Manager)
    ensures SelectGCVictim(zm).Failure? ==> SelectGCVictim(zm).error != Ok
  {
    VictimAmongErrors(zm, |zm.zones|);
  }

  lemma {:induction false} VictimAmongErrors(zm: Manager, n: nat)
    requires n <= |zm.zones|
    ensures VictimAmong(zm, n).Failure? ==> VictimAmong(zm, n).error != Ok
  {
    hide GCScore;
    if n > 0 { VictimAmongErrors(zm, n - 1); }
  }

  /** One whole segment of a write, stored or refused for want of a zone. */
  lemma WriteSegmentInv(s: Ztl, seg: nat, data: seq<D.Sector>)
    requires Inv(s) && seg < |s.base.l2p| && Ready(s.base) && |data| == s.base.spp
    requires WriteSegment(s, seg, data).1 == Ok || GetWriteZone(s).1.Failure?
    ensures Inv(WriteSegment(s, seg, data).0)
  {
    hide Core, Exact, Lru, Logged, Content, WriteSegment, Stored, GetWriteZone;
    if WriteSegment(s, seg, data).1 == Ok {
      WriteSegmentCore(s, seg, data);
      WriteSegmentExact(s, seg, data);
      WriteSegmentLru(s, seg, data);
      WriteSegmentLogged(s, seg, data);
      InvWhole(WriteSegment(s, seg, data).0);
    } else {
      NoZoneInv(s, seg, data);
    }
  }

  /** Finding no zone closes the write zone, and that is all. */
  lemma NoZoneInv(s: Ztl, seg: nat, data: seq<D.Sector>)
    requires Inv(s) && Ready(s.base) && GetWriteZone(s).1.Failure?
    ensures WriteSegment(s, seg, data).0 == s.(curOpen := false) && WriteSegment(s, seg, data).1 != Ok
    ensures Inv(WriteSegment(s, seg, data).0)
  {
    hide Core, Exact, Lru, Logged, AllocateFree, WriteInto;
    InvReady(s);
    CoreFree(s);
    AllocateFreeLru(s.base.pool);
    ClosedCore(s);
    InvWhole(s.(curOpen := false));
  }

  lemma {:induction false} WriteFromInv(s: Ztl, seg: nat, n: nat, lba: nat, data: seq<D.Sector>)
    requires Inv(s) && seg + n <= |s.base.l2p| && Ready(s.base) && lba == seg * s.base.spp && |data| == n * s.base.spp
    requires Fills(s, lba, data)
    ensures Inv(WriteFrom(s, lba, data).0)
    decreases n
  {
    hide Inv, Ready, WriteSegment, WriteFrom, LandedFrom, Stored, Fills, GetWriteZone;
    if n == 0 {
      WriteFromNothing(s, lba);
      assert data == [];
    } else {
      ReadyPositive(s.base);
      WholePiece(seg, n, lba, |data|, s.base.spp);
      WriteFromSplits(s, lba, data);
      var head := data[..s.base.spp];
      WriteSegmentInv(s, seg, head);
      if WriteSegment(s, seg, head).1 == Ok {
        WriteFromInv(WriteSegment(s, seg, head).0, seg + 1, n - 1, lba + s.base.spp, data[s.base.spp..]);
      }
    }
  }

  lemma CommitInv(s: Ztl)
    requires Inv(s)
    ensures Ready(s.base)
    ensures var t := s.(base := s.base.(log := GroupCommit(s.base.log))); Inv(t) && Disk(t) == Disk(s)
  {
    hide Core, Exact, Lru, Logged, Content, Disk;
    InvReady(s);
    var t := s.(base := s.base.(log := GroupCommit(s.base.log)));
    CommitHistory(s.base.log);
    LoggedSame(s.base, t.base);
    LogOnly(s, t.base.log);
    SameCountsExact(s.base, t.base);
    DiskSame(s, t);
  }

  /** A write stores a beginning of its data, in whole segments: all of it exactly when it is accepted. */
  lemma WriteInv(s: Ztl, lba: nat, data: seq<D.Sector>, reserve: int, orders: seq<seq<nat>>)
    requires var op := WriteOp(lba, data, reserve, orders);
      Inv(s) && Ready(s.base) && Admissible(s, op) && FlushesHold(s, op)
    ensures var (t, r) := Write(s, lba, data, reserve, orders);
      var taken := Taken(s, WriteOp(lba, data, reserve, orders));
      && Inv(t)
      && taken <= |data| && taken % s.base.spp == 0
      && (r == Ok <==> taken == |data|)
      && Disk(t) == D.Store(Disk(s), lba, data[..taken])
  {
    hide Inv, WriteFrom, RunEmergencyGC, Disk, Lands, EmergencyHarmless, LandedFrom, D.Store, Fills;
    StoreNothing(Disk(s), lba);
    if data == [] {
      assert data[..0] == [];
    } else {
      EmergencyInv(s, reserve, orders);
      var (b, cleared) := RunEmergencyGC(s.base, reserve, orders);
      if cleared != Ok {
        assert data[..0] == [];
      } else {
        ClearedWrite(s.(base := b), lba, data);
        CommitInv(WriteFrom(s.(base := b), lba, data).0);
      }
    }
  }

  lemma ClearedWrite(g: Ztl, lba: nat, data: seq<D.Sector>)
    requires Inv(g) && Ready(g.base) && lba % g.base.spp == 0 && |data| % g.base.spp == 0
    requires lba + |data| <= |g.base.l2p| * g.base.spp && Lands(g, lba, data) && Fills(g, lba, data)
    ensures var (t, r) := WriteFrom(g, lba, data);
      var taken := |LandedFrom(g, lba, data)|;
      && Inv(t)
      && taken <= |data| && taken % g.base.spp == 0
      && (r == Ok <==> taken == |data|)
      && Disk(t) == D.Store(Disk(g), lba, data[..taken])
  {
    hide Inv, WriteFrom, Disk, Lands, LandedFrom, D.Store, Fills;
    var spp := g.base.spp;
    var seg, n := lba / spp, |data| / spp;
    DivBounds(lba, spp);
    DivBounds(|data|, spp);
    SegmentsFit(seg, n, |g.base.l2p|, spp);
    InvReady(g);
    WriteFromInv(g, seg, n, lba, data);
    WriteFromDisk(g, seg, n, lba, data);
    LandsKeeps(g, lba, data);
    assert LandedFrom(g, lba, data) == data[..|LandedFrom(g, lba, data)|];
  }

  lemma SegmentsFit(seg: nat, n: nat, segs: nat, spp: nat)
    requires spp > 0 && seg * spp + n * spp <= segs * spp
    ensures seg + n <= segs
  {
    if seg + n > segs {
      MulGap(segs, seg + n, spp);
    }
  }

  lemma FlushInv(s: Ztl, zones: seq<nat>)
    requires Inv(s)
    ensures Ready(s.base)
    ensures FlushEach(s.bufs, s.base.pool, zones).2 == Ok ==>
              Inv(FlushState(s, zones)) && Disk(FlushState(s, zones)) == Disk(s)
  {
    hide Core, Exact, Lru, Logged, Content, Disk;
    InvReady(s);
    if FlushEach(s.bufs, s.base.pool, zones).2 == Ok {
      FlushEachCore(s, zones);
      FlushEachExact(s, zones);
      FlushEachLru(s, zones);
      var t := FlushState(s, zones);
      LoggedSame(s.base, t.base);
      DiskSame(s, t);
    }
  }

  lemma FlushZoneInv(s: Ztl, zone: nat)
    requires Inv(s)
    ensures Ready(s.base)
    ensures FlushZone(s.bufs, s.base.pool, zone).2 == Ok ==>
              var t := Step(s, FlushZoneOp(zone)).0;
              Inv(t) && Disk(t) == Disk(s)
  {
    hide Inv, FlushZone, Disk;
    InvReady(s);
    FlushInv(s, [zone]);
    FlushOne(s, zone);
  }

  lemma FlushOne(s: Ztl, zone: nat)
    requires Ready(s.base)
    ensures FlushEach(s.bufs, s.base.pool, [zone]) == FlushZone(s.bufs, s.base.pool, zone)
  {
    hide FlushZone;
    assert [zone][..0] == [];
  }

  lemma UnmapInv(s: Ztl, lba: nat, count: nat)
    requires Inv(s)
    ensures Ready(s.base)
    ensures var t := Unmap(s, lba, count);
      Inv(t) && Disk(t) == Zeroed(Disk(s), lba / s.base.spp, LastLBA(lba, count) / s.base.spp + 1, s.base.spp)
  {
    hide Core, Exact, Lru, Logged, Disk, UnmapRange, LastLBA;
    InvReady(s);
    var first, end := lba / s.base.spp, LastLBA(lba, count) / s.base.spp + 1;
    UnmapDisk(s, first, end);
    UnmapRangeExact(s, first, end);
    UnmapRangeLru(s, first, end);
    UnmapRangeLogged(s, first, end);
  }

  lemma LogInv(s: Ztl, log: Log)
    requires Inv(s) && Logged(s.base.(log := log))
    ensures Ready(s.base)
    ensures var t := s.(base := s.base.(log := log)); Inv(t) && Disk(t) == Disk(s)
  {
    hide Core, Exact, Lru, Logged, Content, Disk;
    InvReady(s);
    var t := s.(base := s.base.(log := log));
    LogOnly(s, log);
    SameCountsExact(s.base, t.base);
    DiskSame(s, t);
  }

  /** One admissible operation, accepted or refused, keeps the invariant and does to the disk what it does to
      the flat array. */
  lemma StepInv(s: Ztl, op: Op)
    requires Inv(s) && Ready(s.base) && Admissible(s, op) && FlushesHold(s, op)
    ensures Inv(Step(s, op).0)
    ensures Disk(Step(s, op).0) == FlatStep(Disk(s), op, Taken(s, op), s.base.spp)
  {
    hide Inv, Disk, Write, Unmap, FlushEach, FlushZone, CollectZone, GroupCommit, WriteCheckpoint, Harmless, SelectGCVictim, Taken;
    match op {
      case WriteOp(lba, data, reserve, orders) => WriteInv(s, lba, data, reserve, orders);
      case UnmapOp(lba, count) => UnmapInv(s, lba, count);
      case FlushOp(zones) =>
        FlushInv(s, zones);
        CommitInv(FlushState(s, zones));
      case FlushZoneOp(zone) => FlushZoneInv(s, zone);
      case CollectOp(order) =>
        match SelectGCVictim(s.base.pool.zm) {
          case Failure(_) =>
          case Success(victim) => CollectInv(s, victim, order);
        }
      case CommitOp => CommitInv(s);
      case CheckpointOp =>
        InvReady(s);
        LoggedCheckpoint(s.base);
        LogInv(s, WriteCheckpoint(s.base.log, s.base.l2p));
      case TickOp(now) =>
        InvReady(s);
        TickLogged(s.base, now);
        LogInv(s, s.base.log.(clock := now));
    }
  }

  lemma TickLogged(b: Base, now: nat)
    requires Logged(b)
    ensures Logged(b.(log := b.log.(clock := now)))
  {
    assert b.log.(clock := now).History() == b.log.History();
    LoggedSame(b, b.(log := b.log.(clock := now)));
  }

  // ---------- runs ----------

  function Execute(s: Ztl, ops: seq<Op>): (t: Ztl)
    requires Ready(s.base)
    ensures Same(s.base, t.base)
  {
    if ops == [] then s else Step(Execute(s, ops[..|ops| - 1]), ops[|ops| - 1]).0
  }

  /** Every operation of the run is admissible when it starts, and no flush is refused; any other operation may
      be, and the run goes on. */
  ghost predicate Runs(s: Ztl, ops: seq<Op>)
    requires Ready(s.base)
  {
    ops == [] ||
    var m, op := Execute(s, ops[..|ops| - 1]), ops[|ops| - 1];
    Runs(s, ops[..|ops| - 1]) && Admissible(m, op) && FlushesHold(m, op)
  }

  /** How much of each operation of a run was stored. */
  function TakenAll(s: Ztl, ops: seq<Op>): (taken: seq<nat>)
    requires Ready(s.base)
    ensures |taken| == |ops|
  {
    if ops == [] then [] else
    TakenAll(s, ops[..|ops| - 1]) + [Taken(Execute(s, ops[..|ops| - 1]), ops[|ops| - 1])]
  }

  function Flat(d: seq<D.Sector>, ops: seq<Op>, taken: seq<nat>, spp: nat): (r: seq<D.Sector>)
    requires spp > 0 && |taken| == |ops|
    ensures |r| == |d|
    decreases |ops|
  {
    if ops == [] then d else
    var last := |ops| - 1;
    FlatStep(Flat(d, ops[..last], taken[..last], spp), ops[last], taken[last], spp)
  }

  lemma {:induction false} RunInv(s: Ztl, ops: seq<Op>)
    requires Inv(s) && Ready(s.base) && Runs(s, ops)
    ensures Inv(Execute(s, ops))
    ensures Disk(Execute(s, ops)) == Flat(Disk(s), ops, TakenAll(s, ops), s.base.spp)
  {
    hide Inv, Disk, Step, Admissible, FlatStep, Taken, FlushesHold;
    if ops != [] {
      var last := |ops| - 1;
      RunInv(s, ops[..last]);
      StepInv(Execute(s, ops[..last]), ops[last]);
      assert TakenAll(s, ops)[..last] == TakenAll(s, ops[..last]);
    }
  }

  /** A write of a run is refused exactly when not all of it was stored, and then whole segments of it were. */
  lemma RunTakes(s: Ztl, ops: seq<Op>, op: Op)
    requires Inv(s) && Ready(s.base) && Runs(s, ops + [op]) && op.WriteOp?
    ensures TakenAll(s, ops + [op]) == TakenAll(s, ops) + [Taken(Execute(s, ops), op)]
    ensures var taken, r := Taken(Execute(s, ops), op), Step(Execute(s, ops), op).1;
      && taken <= |op.data| && taken % s.base.spp == 0
      && (r == Ok <==> taken == |op.data|)
  {
    hide Inv, Disk, Write, Admissible, Taken, FlushesHold;
    assert (ops + [op])[..|ops|] == ops;
    RunInv(s, ops);
    WriteInv(Execute(s, ops), op.lba, op.data, op.reserve, op.orders);
  }

  // ---------- the start ----------

  /** A layer just created over a fresh device and an empty journal. */
  function Start(zoneCount: nat, zoneSectors: nat, maxOpen: nat, spp: nat): Ztl
    requires spp > 0
  {
    var d := D.Fresh(zoneCount, zoneSectors, maxOpen);
    Ztl(Base(Unmapped(zoneCount * zoneSectors / spp), map[], Pool(Report(d), d), Log([], [], 0, 0), spp), map[], 0, false)
  }

  lemma {:induction false} SelectAll(zones: seq<D.Zone>, n: nat, chosen: D.Condition -> bool)
    requires n <= |zones| && forall i :: 0 <= i < n ==> chosen(zones[i].cond)
    ensures Select(zones, n, chosen) == seq(n, i => i)
  {
    if n > 0 { SelectAll(zones, n - 1, chosen); }
  }

  lemma {:induction false} SelectNone(zones: seq<D.Zone>, n: nat, chosen: D.Condition -> bool)
    requires n <= |zones| && forall i :: 0 <= i < n ==> !chosen(zones[i].cond)
    ensures Select(zones, n, chosen) == []
  {
    if n > 0 { SelectNone(zones, n - 1, chosen); }
  }

  ghost predicate Configured(zoneCount: nat, zoneSectors: nat, maxOpen: nat, spp: nat) {
    0 < spp <= zoneSectors <= OFFSET_SPAN && zoneCount <= ZONE_SPAN && maxOpen >= 1
  }

  lemma FreshReport(zoneCount: nat, zoneSectors: nat, maxOpen: nat)
    ensures var d := D.Fresh(zoneCount, zoneSectors, maxOpen);
      var zm := Report(d);
      && zm.freeList == seq(zoneCount, i => i) && zm.openList == [] && zm.openSet == {} && zm.maxOpen == maxOpen
      && |zm.zones| == zoneCount
      && forall z :: 0 <= z < zoneCount ==>
           d.zones[z].cond == D.Empty && d.zones[z].wp == d.Start(z) &&
           zm.zones[z] == ZoneInfo(D.Empty, d.Start(z), d.Start(z), zoneSectors, 0, 0)
  {
    var d := D.Fresh(zoneCount, zoneSectors, maxOpen);
    assert forall i :: 0 <= i < zoneCount ==> d.zones[i].cond == D.Empty;
    SelectAll(d.zones, zoneCount, D.IsEmpty);
    SelectNone(d.zones, zoneCount, D.IsOpen);
  }

  lemma StartInv(zoneCount: nat, zoneSectors: nat, maxOpen: nat, spp: nat)
    requires Configured(zoneCount, zoneSectors, maxOpen, spp)
    ensures Inv(Start(zoneCount, zoneSectors, maxOpen, spp))
    ensures Ready(Start(zoneCount, zoneSectors, maxOpen, spp).base)
    ensures Disk(Start(zoneCount, zoneSectors, maxOpen, spp)) == D.Zeros(zoneCount * zoneSectors / spp * spp)
  {
    var s := Start(zoneCount, zoneSectors, maxOpen, spp);
    hide Core, Exact, Lru, Logged, Content, Report, D.Fresh, Start, Disk;
    StartCore(zoneCount, zoneSectors, maxOpen, spp);
    StartExact(zoneCount, zoneSectors, maxOpen, spp);
    StartLru(zoneCount, zoneSectors, maxOpen, spp);
    StartLogged(zoneCount, zoneSectors, maxOpen, spp);
    CoreReady(s);
    StartDisk(zoneCount, zoneSectors, maxOpen, spp);
  }

  lemma StartLogged(zoneCount: nat, zoneSectors: nat, maxOpen: nat, spp: nat)
    requires Configured(zoneCount, zoneSectors, maxOpen, spp)
    ensures Logged(Start(zoneCount, zoneSectors, maxOpen, spp).base)
  {
    FreshReport(zoneCount, zoneSectors, maxOpen);
    hide Report, D.Fresh;
    assert Records([]) == [];
  }

  lemma StartDisk(zoneCount: nat, zoneSectors: nat, maxOpen: nat, spp: nat)
    requires spp > 0
    ensures Disk(Start(zoneCount, zoneSectors, maxOpen, spp)) == D.Zeros(zoneCount * zoneSectors / spp * spp)
  {
    hide Content, Report, D.Fresh;
    var s := Start(zoneCount, zoneSectors, maxOpen, spp);
    forall i | 0 <= i < |Disk(s)| ensures Disk(s)[i] == D.ZERO {
      StartContent(s, i / spp);
    }
  }

  lemma StartContent(s: Ztl, seg: nat)
    requires Get(s.base.l2p, seg) == UNMAPPED
    ensures Content(s, seg) == D.Zeros(s.base.spp)
  {
  }

  lemma StartCore(zoneCount: nat, zoneSectors: nat, maxOpen: nat, spp: nat)
    requires Configured(zoneCount, zoneSectors, maxOpen, spp)
    ensures Core(Start(zoneCount, zoneSectors, maxOpen, spp))
  {
    FreshReport(zoneCount, zoneSectors, maxOpen);
    D.FreshSane(zoneCount, zoneSectors, maxOpen);
    hide Report, D.Fresh, D.Sane, Select;
    var p := Start(zoneCount, zoneSectors, maxOpen, spp).base.pool;
    assert forall z :: z in p.zm.freeList <==> 0 <= z < zoneCount by {
      forall z | 0 <= z < zoneCount ensures z in p.zm.freeList { assert p.zm.freeList[z] == z; }
    }
    StartSizes(zoneCount, zoneSectors, maxOpen);
  }

  lemma StartSizes(zoneCount: nat, zoneSectors: nat, maxOpen: nat)
    ensures var d := D.Fresh(zoneCount, zoneSectors, maxOpen);
      |d.zones| == zoneCount && d.zoneSectors == zoneSectors && d.maxOpen == maxOpen
  {
  }

  lemma StartExact(zoneCount: nat, zoneSectors: nat, maxOpen: nat, spp: nat)
    requires Configured(zoneCount, zoneSectors, maxOpen, spp)
    ensures Exact(Start(zoneCount, zoneSectors, maxOpen, spp).base)
  {
    FreshReport(zoneCount, zoneSectors, maxOpen);
    hide Report, D.Fresh, D.Sane, Select;
    var b := Start(zoneCount, zoneSectors, maxOpen, spp).base;
    forall z | 0 <= z < |b.pool.zm.zones| ensures Counted(b, z) {
      assert SegsIn(b, z) == {};
    }
  }

  lemma StartLru(zoneCount: nat, zoneSectors: nat, maxOpen: nat, spp: nat)
    requires Configured(zoneCount, zoneSectors, maxOpen, spp)
    ensures Lru(Start(zoneCount, zoneSectors, maxOpen, spp).base.pool)
  {
    FreshReport(zoneCount, zoneSectors, maxOpen);
    D.FreshSane(zoneCount, zoneSectors, maxOpen);
    StartSizes(zoneCount, zoneSectors, maxOpen);
    hide Report, D.Fresh, D.Sane, Select;
  }

  /** Reading after a run. */
  lemma RunReads(s: Ztl, ops: seq<Op>, lba: nat, count: nat)
    requires Inv(s) && Ready(s.base) && Runs(s, ops) && lba + count <= |s.base.l2p| * s.base.spp
    ensures Read(Execute(s, ops), lba, count) == Success(Flat(Disk(s), ops, TakenAll(s, ops), s.base.spp)[lba..lba + count])
  {
    hide Inv, Disk, DiskAt, Runs, Execute, Flat, Read, Core, TakenAll;
    RunInv(s, ops);
    var t := Execute(s, ops);
    InvReady(t);
    ReadDisk(t, lba, count);
    DiskSlice(t, lba, count);
  }

  lemma DiskSlice(s: Ztl, lba: nat, count: nat)
    requires s.base.spp > 0 && lba + count <= |s.base.l2p| * s.base.spp
    ensures Slice(s, lba, count) == Disk(s)[lba..lba + count]
  {
    hide DiskAt;
  }
}
