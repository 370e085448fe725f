/** Runs from a layer just created: one in which an accepted write is lost without a crash, because the layer's own
    background cycle collects the zone being written, and one whose log brings back what was unmapped. */
module Lost {
  import opened Arith
  import opened Errors
  import opened Segment
  import opened Pool
  import opened Log
  import opened Ztl
  import opened Coherence
  import opened PoolSteps
  import opened WriteSteps
  import opened GcSteps
  import opened Collect
  import opened Bookkeeping
  import opened OpenZones
  import opened History
  import opened FlatDisk
  import opened FlushSteps
  import opened Run
  import opened Wedge
  import opened FlatArray
  import opened Limits
  import opened Rounds
  import opened WriteZone
  import opened Endless
  import opened Witness
  import opened Interleave
  import opened Overtaken
  import D = Device

  lemma CommitAstray(s: Ztl, log: Log)
    requires Astray(s)
    ensures Astray(s.(base := s.base.(log := log)))
  {
    hide Lru, D.Sane;
  }

  /** A segment at the start of a zone, read from the buffer. */
  lemma ReadsBuffered(s: Ztl, z: nat, seg: nat, data: seq<D.Sector>, lba: nat)
    requires Ready(s.base) && seg < |s.base.l2p| && lba == seg * s.base.spp && |data| == s.base.spp
    requires z < |s.base.pool.zm.zones| && z < ZONE_SPAN && s.base.l2p[seg] == EncodePhysAddr(z, 0) != UNMAPPED
    requires z in s.bufs && s.bufs[z] == ZoneBuffer(s.base.pool.zm.zones[z].start, data)
    ensures Read(s, lba, |data|) == Success(data)
  {
    hide EncodePhysAddr, ZoneID, OffsetSectors, Read;
    StartUnpacks(z);
    DivMod(seg, 0, s.base.spp);
    assert data[0..|data|] == data;
    assert ReadPiece(s, lba, |data|) == Success(data);
    OnePiece(s, seg, 0, |data|);
  }

  /** Read from the device. */
  lemma ReadsBlank(s: Ztl, z: nat, seg: nat, lba: nat)
    requires Ready(s.base) && D.Sane(s.base.pool.dev) && seg < |s.base.l2p| && lba == seg * s.base.spp
    requires z < |s.base.pool.zm.zones| && z < ZONE_SPAN && s.base.l2p[seg] == EncodePhysAddr(z, 0) != UNMAPPED
    requires z !in s.bufs && z < |s.base.pool.dev.zones| && s.base.pool.zm.zones[z].start == s.base.pool.dev.Start(z)
    requires s.base.pool.dev.zones[z].data == D.Zeros(s.base.pool.dev.zoneSectors) && s.base.spp <= s.base.pool.dev.zoneSectors
    ensures Read(s, lba, s.base.spp) == Success(D.Zeros(s.base.spp))
  {
    hide EncodePhysAddr, ZoneID, OffsetSectors, Read, D.Sane, D.ReadSectors;
    StartUnpacks(z);
    DivMod(seg, 0, s.base.spp);
    ReadsZone(s.base.pool.dev, z, 0, s.base.spp);
    assert s.base.pool.dev.zones[z].data[0..s.base.spp] == D.Zeros(s.base.spp);
    assert ReadPiece(s, lba, s.base.spp) == Success(D.Zeros(s.base.spp));
    OnePiece(s, seg, 0, s.base.spp);
  }

  // ---------- the run ----------

  function Before(): seq<Op> { [Ops()[0], Ops()[1], FlushOp([3, 4])] }

  const L2P: Table := [EncodePhysAddr(4, 0), EncodePhysAddr(3, 0), 0, 0, 0, 0, 0]

  /** Two segments in zones 4 and 3, on the device; zone 3, the write zone, is closed and zone 4 open. */
  ghost predicate Laid(s: Ztl) {
    && Small(s, [0, 1, 2], [N, N, N, Y, Y]) && s.bufs == map[] && s.cur == 3 && s.curOpen && NoRoom(s)
    && s.base.l2p == L2P && 4 in s.base.pool.zm.openSet
  }

  lemma AfterFlush()
    ensures Ready(Start(5, 3, 1, 2).base) && AllAccepted(Start(5, 3, 1, 2), Before())
    ensures Laid(Execute(Start(5, 3, 1, 2), Before()))
  {
    hide Step, Admissible, Start, EncodePhysAddr, Inv, Execute, AllAccepted;
    TwoWrites();
    assert [3] + [4] == [3, 4];
    SmallFlush(At(2), [0, 1, 2], [N, N, N, Y, Y], [3], 4);
    assert Before()[..2] == Ops()[..2] && Before()[..3] == Before();
    OneMore(Start(5, 3, 1, 2), Before(), 2);
    assert Execute(Start(5, 3, 1, 2), Before()).bufs.Keys == {};
  }

  lemma WriteZoneIsVictim(s: Ztl)
    requires Laid(s)
    ensures SelectGCVictim(s.base.pool.zm) == Success(3)
  {
    hide Core, Exact, Lru, Logged, Inv;
    InvReady(s);
    var p := s.base.pool;
    LruSizes(p);
    CoreFree(s);
    SizeWithout(p.zm.openSet, 4);
    assert p.zm.openSet - {4} == {};
    UnlistedClosed(p, 3);
    assert p.zm.zones[4].cond == D.ExplicitOpen by { assert Lru(p); ListedTracked(p, 4); }
    VictimIsBest(p.zm, 5);
  }

  lemma ListedTracked(p: Pool, z: nat)
    requires Lru(p) && z in p.zm.openSet && z < |p.zm.zones|
    ensures p.zm.zones[z].cond == D.ExplicitOpen
  {
    assert Tracks(p, z);
  }

  /** The layer's own background cycle then collects the write zone. */
  lemma CollectsWriteZone(s: Ztl)
    requires Laid(s)
    ensures Ready(s.base)
    ensures var (t, r) := Step(s, CollectOp([0]));
      && r == Ok && Astray(t) && !StuckPool(t.base.pool) && t.cur == 3 && t.bufs == map[]
      && t.base.spp == 2 && t.base.pool.dev.zoneSectors == 3 && |t.base.l2p| == 7
  {
    hide Core, Exact, Lru, Logged, Inv, EncodePhysAddr, MappedIn, CollectZone, SelectGCVictim, Ordered, Covers, ReverseExact, ZoneID, OffsetSectors, Stuck;
    WriteZoneIsVictim(s);
    InvReady(s);
    ExactParts(s.base);
    OneEachRagged(s);
    StartUnpacks(3);
    PackedUnmapped(3, 0);
    CountedAt(s.base, 3);
    OneOrder(s.base, 3, 1);
    WriteZoneInUse(s);
    CollectsIff(s, 3, [0]);
    GoesAstray(s, 3, [0]);
    NotStuckAfter(s);
  }

  /** Collection does not look at the write zone: but for it the state after is coherent. */
  lemma NotStuckAfter(s: Ztl)
    requires Inv(s) && Ready(s.base) && Ragged(s) && Ordered(s.base, 3, [0]) && CollectZone(s.base, 3, [0]).1 == Ok
    requires s.bufs == map[] && 3 < |s.base.pool.dev.zones| && s.base.pool.dev.zones[3].cond != D.Empty
    ensures !StuckPool(CollectZone(s.base, 3, [0]).0.pool)
  {
    hide Core, Exact, Lru, Logged, Inv, CollectZone, Ordered, Stuck, Content;
    var u := s.(curOpen := false);
    InvReady(s);
    ClosedCore(s);
    InvWhole(u);
    InvariantIff(u, 3, [0]);
    var t := u.(base := CollectZone(s.base, 3, [0]).0);
    StillRagged(s, t);
    NeverStuck(t);
  }

  /** The next write of a segment is accepted, and reads back. */
  lemma AcceptsNext(s: Ztl)
    requires Ready(s.base) && Astray(s) && !StuckPool(s.base.pool) && s.cur == 3 && s.bufs == map[]
    requires s.base.spp == 2 && s.base.pool.dev.zoneSectors == 3 && |s.base.l2p| == 7
    ensures var (t, r) := Step(s, WriteOp(4, [5, 5], 0, []));
      && r == Ok && Read(t, 4, 2) == Success([5, 5])
      && Astray(t) && !StuckPool(t.base.pool) && t.cur == 3 && Remaining(t) == 1
      && t.base.spp == 2 && |t.base.l2p| == 7 && t.base.l2p[2] == EncodePhysAddr(3, 0)
  {
    hide WriteSegment, EncodePhysAddr, Lru, D.Sane, StuckPool, NextAddr, Read;
    OneSegmentStep(s, 2, [5, 5], 4);
    AstrayAccepts(s, 2, [5, 5]);
    NextStart(s.base.pool.zm, 3);
    PackedUnmapped(3, 0);
    var u := WriteSegment(s, 2, [5, 5]).0;
    CommitAstray(u, GroupCommit(u.base.log));
    var t := Step(s, WriteOp(4, [5, 5], 0, [])).0;
    assert t.bufs[3].data == [] + [5, 5] == [5, 5];
    ReadsBuffered(t, 3, 2, [5, 5], 4);
  }

  /** And the one after loses it. */
  lemma LosesBoth(s: Ztl)
    requires Ready(s.base) && Astray(s) && !StuckPool(s.base.pool) && s.cur == 3 && Remaining(s) == 1
    requires s.base.spp == 2 && |s.base.l2p| == 7 && s.base.l2p[2] == EncodePhysAddr(3, 0)
    ensures var (t, r) := Step(s, WriteOp(6, [6, 6], 0, []));
      r == CrossesZone && Read(t, 4, 2) == Success([D.ZERO, D.ZERO])
  {
    hide WriteSegment, EncodePhysAddr, Lru, D.Sane, StuckPool, NextAddr, Read, Content;
    OneSegmentStep(s, 3, [6, 6], 6);
    AstrayLoses(s, 3, [6, 6]);
    PackedUnmapped(3, 0);
    ReadsBlank(Step(s, WriteOp(6, [6, 6], 0, [])).0, 3, 2, 4);
    assert D.Zeros(2) == [D.ZERO, D.ZERO];
  }

  /** From a layer just created: two writes and a flush, all admissible and accepted; the background cycle, whose
      victim is the write zone; a write, accepted; and a write, refused, after which the accepted one reads as
      zeros. */
  lemma AcceptedThenLost()
    ensures Ready(Start(5, 3, 1, 2).base) && AllAccepted(Start(5, 3, 1, 2), Before())
    ensures var s := Execute(Start(5, 3, 1, 2), Before());
      var (collected, r1) := Step(s, CollectOp([0]));
      var (written, r2) := Step(collected, WriteOp(4, [5, 5], 0, []));
      var (lost, r3) := Step(written, WriteOp(6, [6, 6], 0, []));
      && SelectGCVictim(s.base.pool.zm) == Success(s.cur) && s.curOpen && s.cur !in s.bufs
      && r1 == Ok && r2 == Ok && r3 == CrossesZone
      && Read(written, 4, 2) == Success([5, 5])
      && Read(lost, 4, 2) == Success([D.ZERO, D.ZERO])
  {
    hide Step, Start, Execute, AllAccepted, Read, Astray, StuckPool, Remaining, SelectGCVictim, EncodePhysAddr, Before;
    AfterFlush();
    var s := Execute(Start(5, 3, 1, 2), Before());
    WriteZoneIsVictim(s);
    CollectsWriteZone(s);
    var collected := Step(s, CollectOp([0])).0;
    AcceptsNext(collected);
    LosesBoth(Step(collected, WriteOp(4, [5, 5], 0, [])).0);
  }

  // ---------- what was unmapped comes back ----------

  /** The one segment of a zone is gathered. */
  lemma OneGathered(b: Base, z: nat, seg: nat)
    requires Covers(b) && ReverseExact(b) && MappedIn(b, z) == 1 && z != 0 && seg < |b.l2p| && InZone(b, seg, z)
    ensures Ordered(b, z, [OffsetSectors(b.l2p[seg])])
    ensures Gather(b, z, [OffsetSectors(b.l2p[seg])]) == [(seg, OffsetSectors(b.l2p[seg]))]
  {
    hide ZoneID, OffsetSectors, Gather, Covers, Ordered, ReverseExact;
    OneOrder(b, z, seg);
    var order := [OffsetSectors(b.l2p[seg])];
    OrderDistinct(b, z, order);
    GatherLive(b, z, order);
    GatherIsSegsIn(b, z, order);
    var live := Gather(b, z, order);
    assert live[0].0 in SegsIn(b, z);
    SizeWithout(SegsIn(b, z), seg);
    assert live[0].0 !in SegsIn(b, z) - {seg};
  }

  /** Three writes and a flush: zones 4, 3 and 2 hold a segment each, and zone 2 is open. */
  function Three(): Ztl
    requires Ready(Start(5, 3, 1, 2).base) && Ready(At(3).base)
  {
    Step(At(3), FlushOp([4, 3, 2])).0
  }

  /** A collection of zone 3 begins; between its claim and its announcement segment 1, which is there, is unmapped;
      the collection ends. The segment is unmapped, and the log says that it is in zone 1. */
  lemma UnmappedComesBack()
    ensures Ready(Start(5, 3, 1, 2).base) && Through(3) && Ready(At(3).base) && Ready(Three().base)
    ensures var s, acts := Three(), Opening(3, [0]) + Losing(1) + Ending();
      var b := After(World(s, Idle), acts).s.base;
      && AllAllowed(World(s, Idle), acts) && After(World(s, Idle), acts).gc == Idle
      && 1 < |s.base.l2p| == |b.l2p| && b.l2p[1] == UNMAPPED
      && Replay(Unmapped(|b.l2p|), Records(b.log.History()), |b.pool.zm.zones|) == Success(b.l2p[1 := EncodePhysAddr(1, 0)])
      && EncodePhysAddr(1, 0) != UNMAPPED
  {
    hide Core, Exact, Lru, Logged, Inv, EncodePhysAddr, MappedIn, Ordered, Covers, ReverseExact, ZoneID, OffsetSectors, StuckPool, Gather, After, AllAllowed, Step, Admissible, Execute, Start, Through, Replay, Opening, Losing, Ending, At;
    ThreeWrites();
    assert [4, 3] + [2] == [4, 3, 2];
    SmallFlush(At(3), [0, 1], [N, N, Y, Y, Y], [4, 3], 2);
    var s := Three();
    InvReady(s);
    ExactParts(s.base);
    StartUnpacks(3);
    PackedUnmapped(3, 0);
    PackedUnmapped(1, 0);
    CountedAt(s.base, 3);
    OneGathered(s.base, 3, 1);
    InUse(s, 3);
    OneEachRagged(s);
    NeverStuckPool(s);
    ReplayBringsBack(s, 3, [0], 1, 0);
    assert s.base.l2p[1 := UNMAPPED][1 := EncodePhysAddr(1, 0)] == s.base.l2p[1 := EncodePhysAddr(1, 0)];
  }

  lemma InUse(s: Ztl, z: nat)
    requires Core(s) && z < |s.base.pool.zm.zones| && z !in s.base.pool.zm.freeList && z !in s.bufs && s.cur != z
    ensures Collectable(s, z)
  {
    hide Pointers, AllLocated, D.Sane;
  }

  lemma NeverStuckPool(s: Ztl)
    requires Inv(s) && Ragged(s)
    ensures !StuckPool(s.base.pool)
  {
    hide Inv, Stuck, Ragged;
    NeverStuck(s);
  }
}
