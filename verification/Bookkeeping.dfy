/** The reverse map inverts the table, and the counters of each zone count: what every sequential step keeps. */
module Bookkeeping {
  import Arith
  import opened Errors
  import opened Segment
  import opened Pool
  import opened Log
  import opened Ztl
  import opened Coherence
  import opened PoolSteps
  import opened FlushSteps
  import opened WriteSteps
  import opened GcSteps
  import opened Collect
  import D = Device

  /** Every entry of the reverse map, except one at the location whose address means unmapped, is the
      location of the segment it names. */
  ghost predicate ReverseExact(b: Base) {
    forall k :: k in b.p2l && k != (0, 0) ==>
      b.p2l[k] < |b.l2p| && b.l2p[b.p2l[k]] != UNMAPPED && Key(b.l2p[b.p2l[k]]) == k
  }

  /** The first segment written to zone 0 is counted as valid although it cannot be mapped. */
  function Phantom(info: ZoneInfo, z: nat): nat {
    if z == 0 && info.total > 0 then 1 else 0
  }

  ghost predicate Counted(b: Base, z: nat)
    requires z < |b.pool.zm.zones|
  {
    var info := b.pool.zm.zones[z];
    && info.valid == MappedIn(b, z) + Phantom(info, z)
    && info.valid <= info.total
    && info.start + info.total * b.spp == info.wp
  }

  ghost predicate AllCounted(b: Base) {
    forall z :: 0 <= z < |b.pool.zm.zones| ==> Counted(b, z)
  }

  ghost predicate Exact(b: Base) {
    Covers(b) && ReverseExact(b) && AllCounted(b)
  }

  /** No segment other than `seg` is at address `p`. */
  ghost predicate Vacant(b: Base, seg: nat, p: PhysAddr) {
    forall i :: 0 <= i < |b.l2p| && i != seg && b.l2p[i] != UNMAPPED ==> b.l2p[i] != p
  }

  lemma SameKey(p: PhysAddr, q: PhysAddr)
    requires Key(p) == Key(q)
    ensures p == q
  {
    UnpackPack(p);
    UnpackPack(q);
  }

  lemma KeyOfUnmapped(p: PhysAddr)
    ensures Key(p) == (0, 0) <==> p == UNMAPPED
  {
    UnpackPack(p);
    assert ZoneID(UNMAPPED) == 0 && OffsetSectors(UNMAPPED) == 0;
  }

  /** Moving one segment to a vacant address, with the reverse map following, keeps both directions exact. */
  lemma RemapExact(b: Base, c: Base, seg: nat, p: PhysAddr)
    requires Covers(b) && ReverseExact(b) && seg < |b.l2p| && Vacant(b, seg, p)
    requires c.l2p == b.l2p[seg := p]
    requires c.p2l == (if b.l2p[seg] == UNMAPPED then b.p2l else b.p2l - {Key(b.l2p[seg])})[Key(p) := seg]
    ensures Covers(c) && ReverseExact(c)
  {
    hide EncodePhysAddr, ZoneID, OffsetSectors;
    KeyOfUnmapped(p);
    forall i | 0 <= i < |c.l2p| && c.l2p[i] != UNMAPPED
      ensures Key(c.l2p[i]) in c.p2l && c.p2l[Key(c.l2p[i])] == i {
      if i != seg {
        if Key(b.l2p[i]) == Key(p) { SameKey(b.l2p[i], p); }
      }
    }
  }

  lemma UnmapExact(b: Base, c: Base, seg: nat)
    requires Covers(b) && ReverseExact(b) && seg < |b.l2p| && b.l2p[seg] != UNMAPPED
    requires c.l2p == b.l2p[seg := UNMAPPED] && c.p2l == b.p2l - {Key(b.l2p[seg])}
    ensures Covers(c) && ReverseExact(c)
  {
    hide EncodePhysAddr, ZoneID, OffsetSectors, Key;
  }

  // ---------- counting ----------

  lemma SizeWithout(s: set<nat>, x: nat)
    ensures |s| == |s - {x}| + (if x in s then 1 else 0)
  {
    if x in s {
      assert s == (s - {x}) + {x};
    } else {
      assert s == s - {x};
    }
  }

  lemma MappedUpdate(b: Base, c: Base, seg: nat, p: PhysAddr, z: nat)
    requires seg < |b.l2p| && c.l2p == b.l2p[seg := p]
    ensures MappedIn(c, z) == MappedIn(b, z) - (if InZone(b, seg, z) then 1 else 0) + (if InZone(c, seg, z) then 1 else 0)
    ensures InZone(b, seg, z) ==> MappedIn(b, z) > 0
  {
    hide ZoneID;
    var s, t := SegsIn(b, z), SegsIn(c, z);
    forall i ensures i in t - {seg} <==> i in s - {seg} {
    }
    assert t - {seg} == s - {seg};
    SizeWithout(s, seg);
    SizeWithout(t, seg);
  }

  lemma NoneMapped(b: Base, z: nat)
    ensures MappedIn(b, z) == 0 <==> NoneIn(b.l2p, z)
  {
    hide ZoneID;
    if MappedIn(b, z) == 0 {
      forall seg | 0 <= seg < |b.l2p| && b.l2p[seg] != UNMAPPED ensures ZoneID(b.l2p[seg]) != z {
        assert seg !in SegsIn(b, z);
      }
    } else {
      var seg :| seg in SegsIn(b, z);
    }
  }

  /** The counters after one segment left zone `from` (none if `from` is -1) and one was written to `to`
      (none if -1), whose pointer advanced by a segment. */
  ghost predicate Recounted(b: Base, c: Base, from: int, to: int)
  {
    && |c.pool.zm.zones| == |b.pool.zm.zones| && c.spp == b.spp
    && forall z :: 0 <= z < |b.pool.zm.zones| ==>
         var i, j := c.pool.zm.zones[z], b.pool.zm.zones[z];
         && i.start == j.start
         && i.valid == j.valid - (if z == from then 1 else 0) + (if z == to then 1 else 0)
         && i.total == j.total + (if z == to then 1 else 0)
         && i.wp == j.wp + (if z == to then b.spp else 0)
  }

  lemma RecountedExact(b: Base, c: Base, seg: nat, p: PhysAddr, from: int, to: int)
    requires AllCounted(b) && b.spp > 0 && seg < |b.l2p| && c.l2p == b.l2p[seg := p]
    requires from == if b.l2p[seg] == UNMAPPED then -1 else ZoneID(b.l2p[seg])
    requires to >= -1 && (to == -1 ==> p == UNMAPPED)
    requires to >= 0 ==> to < |b.pool.zm.zones| && ZoneID(p) == to
    requires to >= 0 ==> (p == UNMAPPED <==> to == 0 && b.pool.zm.zones[0].wp == b.pool.zm.zones[0].start)
    requires Recounted(b, c, from, to)
    ensures AllCounted(c)
  {
    hide AllCounted, ZoneID, EncodePhysAddr, OffsetSectors;
    forall z | 0 <= z < |c.pool.zm.zones| ensures Counted(c, z) {
      RecountedZone(b, c, seg, p, from, to, z);
    }
    AllCountedIntro(c);
  }

  lemma AllCountedIntro(b: Base)
    requires forall z :: 0 <= z < |b.pool.zm.zones| ==> Counted(b, z)
    ensures AllCounted(b)
  {
  }

  lemma RecountedZone(b: Base, c: Base, seg: nat, p: PhysAddr, from: int, to: int, z: nat)
    requires AllCounted(b) && b.spp > 0 && seg < |b.l2p| && c.l2p == b.l2p[seg := p]
    requires from == if b.l2p[seg] == UNMAPPED then -1 else ZoneID(b.l2p[seg])
    requires to >= -1 && (to == -1 ==> p == UNMAPPED)
    requires to >= 0 ==> to < |b.pool.zm.zones| && ZoneID(p) == to
    requires to >= 0 ==> (p == UNMAPPED <==> to == 0 && b.pool.zm.zones[0].wp == b.pool.zm.zones[0].start)
    requires Recounted(b, c, from, to) && z < |c.pool.zm.zones|
    ensures Counted(c, z)
  {
    hide ZoneID, EncodePhysAddr, OffsetSectors, MappedIn;
    assert Counted(b, z);
    MappedUpdate(b, c, seg, p, z);
    hide AllCounted;
    var i, j := c.pool.zm.zones[z], b.pool.zm.zones[z];
    TotalStep(j.total, i.total, b.spp, z == to);
    assert InZone(b, seg, z) <==> z == from;
    assert InZone(c, seg, z) <==> z == to && p != UNMAPPED;
    hide InZone;
    assert Phantom(i, z) == Phantom(j, z) + (if z == to && p == UNMAPPED then 1 else 0);
    hide Phantom;
    assert i.valid == MappedIn(c, z) + Phantom(i, z) && i.valid <= i.total;
  }

  lemma TotalStep(before: nat, after: nat, spp: nat, step: bool)
    requires spp > 0 && after == before + (if step then 1 else 0)
    ensures after * spp == before * spp + (if step then spp else 0)
    ensures before * spp > 0 <==> before > 0
  {
    if before > 0 { Arith.MulMono(1, before, spp); }
  }

  // ---------- steps ----------

  /** Counters, pointers and starts of every zone are the same. */
  ghost predicate SameCounts(p: Pool, q: Pool) {
    && |q.zm.zones| == |p.zm.zones|
    && forall z :: 0 <= z < |p.zm.zones| ==>
         var i, j := q.zm.zones[z], p.zm.zones[z];
         i.valid == j.valid && i.total == j.total && i.wp == j.wp && i.start == j.start
  }

  lemma SameCountsExact(b: Base, c: Base)
    requires Exact(b) && c.l2p == b.l2p && c.p2l == b.p2l && c.spp == b.spp && SameCounts(b.pool, c.pool)
    ensures Exact(c)
  {
    hide ZoneID, EncodePhysAddr, OffsetSectors;
    forall z | 0 <= z < |c.pool.zm.zones| ensures Counted(c, z) {
      assert Counted(b, z);
      assert SegsIn(c, z) == SegsIn(b, z);
    }
  }

  lemma MakeRoomSameCounts(p: Pool)
    requires Listed(p)
    ensures SameCounts(p, MakeRoom(p).0)
  {
    hide D.CloseZone;
  }

  lemma AllocateSameCounts(p: Pool)
    requires Listed(p)
    ensures SameCounts(p, AllocateFree(p).0)
  {
    MakeRoomSameCounts(p);
    hide D.CloseZone, D.OpenZone, MakeRoom;
  }

  lemma FlushSameCounts(s: Ztl, z: nat)
    requires Core(s) && FlushZone(s.bufs, s.base.pool, z).2 == Ok
    ensures SameCounts(s.base.pool, FlushZone(s.bufs, s.base.pool, z).1)
  {
    if z in s.bufs {
      FlushZoneMoves(s, z);
      hide D.CloseZone, D.OpenZone, D.WriteSectors, D.Sane;
      GetOrOpenSameCounts(s.base.pool, z);
    }
  }

  lemma GetOrOpenSameCounts(p: Pool, z: nat)
    requires Listed(p)
    ensures SameCounts(p, GetOrOpen(p, z).0)
  {
    MakeRoomSameCounts(p);
    hide D.CloseZone, D.OpenZone, MakeRoom;
  }

  /** A whole-segment write to a zone with room. */
  lemma WriteIntoExact(s: Ztl, z: nat, seg: nat, data: seq<D.Sector>)
    requires Core(s) && Exact(s.base) && Writable(s, z) && seg < |s.base.l2p| && |data| == s.base.spp
    ensures Exact(WriteInto(s, z, seg, data).0.base)
  {
    hide Covers, ReverseExact, AllCounted, EncodePhysAddr, ZoneID, OffsetSectors, NextAddr, BufferAdd;
    CoreReady(s);
    var b, c := s.base, WriteInto(s, z, seg, data).0.base;
    var p := NextAddr(b.pool.zm, z);
    NextAddrVacant(s, z, seg);
    RemapExact(b, c, seg, p);
    WriteIntoRecounts(s, z, seg, data);
    NextAddrUnpacks(b.pool, s.bufs, b.spp, z);
    StartOfZero(s);
    RecountedExact(b, c, seg, p, if b.l2p[seg] == UNMAPPED then -1 else ZoneID(b.l2p[seg]), z);
  }

  lemma StartOfZero(s: Ztl)
    requires Core(s) && 0 < |s.base.pool.zm.zones|
    ensures s.base.pool.zm.zones[0].start == 0
  {
    assert s.base.pool.zm.zones[0].start == s.base.pool.dev.Start(0);
  }

  lemma NextAddrVacant(s: Ztl, z: nat, seg: nat)
    requires Core(s) && Writable(s, z)
    ensures Vacant(s.base, seg, NextAddr(s.base.pool.zm, z))
  {
    hide NextAddr, EncodePhysAddr, ZoneID, OffsetSectors;
    NextAddrUnpacks(s.base.pool, s.bufs, s.base.spp, z);
    forall i | 0 <= i < |s.base.l2p| && i != seg && s.base.l2p[i] != UNMAPPED
      ensures s.base.l2p[i] != NextAddr(s.base.pool.zm, z) {
      assert Located(s.base.pool, s.base.spp, s.base.l2p[i]);
    }
  }

  /** A mapped segment is counted in its zone. */
  lemma CountedValid(b: Base, seg: nat)
    requires AllCounted(b) && seg < |b.l2p| && b.l2p[seg] != UNMAPPED && ZoneID(b.l2p[seg]) < |b.pool.zm.zones|
    ensures b.pool.zm.zones[ZoneID(b.l2p[seg])].valid > 0
  {
    hide ZoneID;
    MappedUpdate(b, b, seg, b.l2p[seg], ZoneID(b.l2p[seg]));
    assert Counted(b, ZoneID(b.l2p[seg]));
  }

  lemma WriteIntoRecounts(s: Ztl, z: nat, seg: nat, data: seq<D.Sector>)
    requires Core(s) && AllCounted(s.base) && Writable(s, z) && seg < |s.base.l2p| && |data| == s.base.spp
    ensures Recounted(s.base, WriteInto(s, z, seg, data).0.base,
                      if s.base.l2p[seg] == UNMAPPED then -1 else ZoneID(s.base.l2p[seg]), z)
  {
    hide AllCounted, EncodePhysAddr, ZoneID, OffsetSectors, NextAddr, BufferAdd, AllLocated, FreeIsEmpty, Pointers;
    CoreReady(s);
    if s.base.l2p[seg] != UNMAPPED {
      MappedLocated(s, seg);
      CountedValid(s.base, seg);
    }
  }

  lemma UnmapSegmentExact(s: Ztl, seg: nat)
    requires Core(s) && Exact(s.base)
    ensures Exact(UnmapSegment(s.base, seg))
  {
    hide Covers, ReverseExact, AllCounted, EncodePhysAddr, ZoneID, OffsetSectors, AllLocated, FreeIsEmpty, Pointers;
    var b := s.base;
    if seg < |b.l2p| && b.l2p[seg] != UNMAPPED {
      var c := UnmapSegment(b, seg);
      MappedLocated(s, seg);
      CountedValid(b, seg);
      UnmapExact(b, c, seg);
      RecountedExact(b, c, seg, UNMAPPED, ZoneID(b.l2p[seg]), -1);
    }
  }

  lemma {:induction false} UnmapRangeExact(s: Ztl, first: nat, end: nat)
    requires Core(s) && Exact(s.base)
    ensures Exact(UnmapRange(s.base, first, end))
    decreases end - first
  {
    hide Core, Exact, UnmapSegment;
    CoreReady(s);
    if first < end {
      UnmapRangeExact(s, first, end - 1);
      UnmapRangeCore(s, first, end - 1);
      UnmapSegmentExact(s.(base := UnmapRange(s.base, first, end - 1)), end - 1);
    }
  }

  lemma GetWriteZoneExact(s: Ztl)
    requires Core(s) && Exact(s.base)
    ensures Exact(GetWriteZone(s).0.base)
  {
    hide Exact, AllocateFree;
    AllocateSameCounts(s.base.pool);
    SameCountsExact(s.base, GetWriteZone(s).0.base);
  }

  lemma WriteSegmentExact(s: Ztl, seg: nat, data: seq<D.Sector>)
    requires Core(s) && Exact(s.base) && seg < |s.base.l2p| && |data| == s.base.spp
    requires WriteSegment(s, seg, data).1 == Ok
    ensures Exact(WriteSegment(s, seg, data).0.base)
  {
    hide Core, Exact, Content, WriteInto, GetWriteZone, Writable, FlushZone;
    CoreReady(s);
    GetWriteZoneCore(s);
    GetWriteZoneExact(s);
    var (s1, zone) := GetWriteZone(s);
    WritableExists(s1, zone.value);
    CoreReady(s1);
    WriteIntoMoves(s1, zone.value, seg, data);
    WriteIntoCore(s1, zone.value, seg, data);
    WriteIntoExact(s1, zone.value, seg, data);
    var s2 := WriteInto(s1, zone.value, seg, data).0;
    CoreReady(s2);
    var info := s2.base.pool.zm.zones[zone.value];
    if info.wp >= info.start + info.size {
      FlushSameCounts(s2, zone.value);
      SameCountsExact(s2.base, FlushIfFull(s2, zone.value).0.base);
    } else {
      SameCountsExact(s2.base, s2.base);
    }
  }

  lemma {:induction false} FlushEachExact(s: Ztl, zones: seq<nat>)
    requires Core(s) && Exact(s.base) && FlushEach(s.bufs, s.base.pool, zones).2 == Ok
    ensures Exact(FlushState(s, zones).base)
  {
    hide Core, Exact, Content, FlushZone;
    CoreReady(s);
    if zones == [] {
      SameCountsExact(s.base, FlushState(s, zones).base);
    } else {
      var last := |zones| - 1;
      FlushEachExact(s, zones[..last]);
      FlushEachCore(s, zones[..last]);
      var m := FlushState(s, zones[..last]);
      CoreReady(m);
      FlushSameCounts(m, zones[last]);
      SameCountsExact(m.base, FlushState(s, zones).base);
    }
  }

  // ---------- collection ----------

  lemma SwapRecounts(b: Base, spp: nat, m: Move)
    requires Config(b.pool, spp) && m.seg < |b.l2p| && b.l2p[m.seg] == m.from && m.zone < |b.pool.zm.zones|
    requires ZoneID(m.from) < |b.pool.zm.zones| && b.pool.zm.zones[ZoneID(m.from)].valid > 0
    ensures var c := Swap(b, m);
      && c.l2p == b.l2p[m.seg := m.to]
      && c.p2l == (b.p2l - {Key(m.from)})[Key(m.to) := m.seg]
      && |c.pool.zm.zones| == |b.pool.zm.zones| && c.spp == b.spp
      && forall z :: 0 <= z < |b.pool.zm.zones| ==>
           var i, j := c.pool.zm.zones[z], b.pool.zm.zones[z];
           && i.start == j.start && i.wp == j.wp
           && i.valid == j.valid - (if z == ZoneID(m.from) then 1 else 0) + (if z == m.zone then 1 else 0)
           && i.total == j.total + (if z == m.zone then 1 else 0)
  {
    hide ZoneID, OffsetSectors;
  }

  /** A migration takes one from the victim's count and gives one to the zone it claimed. */
  lemma MigrateRecounts(s: Ztl, victim: nat, seg: nat, off: nat) returns (zone: nat)
    requires Core(s) && Exact(s.base) && StillThere(s.base, victim, seg, off)
    requires MigrateSegment(s.base, victim, seg, off).1 == Ok
    ensures var b, c := s.base, MigrateSegment(s.base, victim, seg, off).0;
      && seg < |b.l2p| && b.l2p[seg] != UNMAPPED
      && c.l2p == b.l2p[seg := Destination(b)]
      && c.p2l == (b.p2l - {Key(b.l2p[seg])})[Key(Destination(b)) := seg]
      && Recounted(b, c, ZoneID(b.l2p[seg]), zone)
      && zone < |b.pool.zm.zones| && ZoneID(Destination(b)) == zone
      && (Destination(b) == UNMAPPED <==> zone == 0)
      && b.pool.zm.zones[zone].wp == b.pool.zm.zones[zone].start
      && NoneIn(b.l2p, zone)
  {
    hide Core, Exact, Content, Claim, Copy, Swap, EncodePhysAddr, ZoneID, OffsetSectors, Quiet, Config, Copied, Allocated, MigrateSegment, Counted, Located, Covers, ReverseExact, AllCounted, Announce, AllocateFree;
    var b1, m, b3 := MigrateUnfolds(s, victim, seg, off);
    zone := m.zone;
    var b, c := s.base, Swap(b3, m);
    AllocateSameCounts(b.pool);
    ClaimSameCounts(b, m, b1);
    MappedLocated(s, seg);
    ExactParts(b);
    CountedValid(b, seg);
    assert Config(b3.pool, b3.spp) by { CoreConfig(s.(base := b3)); }
    CopySameCounts(b1, b3, m);
    SwapRecounts(b3, b3.spp, m);
    CopiedBehind(s.(base := b3), m);
    AllocatedBlank(s, b1, m.zone);
  }

  lemma MigrateSegmentExact(s: Ztl, victim: nat, seg: nat, off: nat)
    requires Core(s) && Exact(s.base) && StillThere(s.base, victim, seg, off)
    requires MigrateSegment(s.base, victim, seg, off).1 == Ok
    ensures Exact(MigrateSegment(s.base, victim, seg, off).0)
  {
    CoreReady(s);
    hide Core, Exact, EncodePhysAddr, ZoneID, OffsetSectors, MigrateSegment, Destination, Covers, ReverseExact, AllCounted;
    var zone := MigrateRecounts(s, victim, seg, off);
    var b, c := s.base, MigrateSegment(s.base, victim, seg, off).0;
    ExactParts(b);
    StartOfZero(s);
    VacantBlank(b, seg, Destination(b), zone);
    RemapExact(b, c, seg, Destination(b));
    RecountedExact(b, c, seg, Destination(b), ZoneID(b.l2p[seg]), zone);
    ExactWhole(c);
  }

  lemma ExactParts(b: Base)
    requires Exact(b)
    ensures Covers(b) && ReverseExact(b) && AllCounted(b)
  {
  }

  lemma ExactWhole(b: Base)
    requires Covers(b) && ReverseExact(b) && AllCounted(b)
    ensures Exact(b)
  {
  }

  lemma CoreConfig(s: Ztl)
    requires Core(s)
    ensures Config(s.base.pool, s.base.spp)
  {
  }

  lemma ClaimSameCounts(b: Base, m: Move, b1: Base)
    requires Ready(b) && Claim(b, m.seg, m.from, m.data) == (b1, Success(m))
    ensures b1.pool == AllocateFree(b.pool).0
  {
  }

  /** The copy advances the pointer of its zone and touches no counter. */
  lemma CopySameCounts(b: Base, c: Base, m: Move)
    requires Ready(b) && Copy(Announce(b, m), m) == (c, Ok) && m.zone < |b.pool.dev.zones|
    requires Direct(b.pool, c.pool, m.zone, m.data) && |m.data| == b.spp
    ensures |c.pool.zm.zones| == |b.pool.zm.zones|
    ensures forall z :: 0 <= z < |b.pool.zm.zones| ==>
              var i, j := c.pool.zm.zones[z], b.pool.zm.zones[z];
              && i.valid == j.valid && i.total == j.total && i.start == j.start
              && i.wp == j.wp + (if z == m.zone then b.spp else 0)
    ensures c.l2p == b.l2p && c.p2l == b.p2l && c.spp == b.spp
  {
    hide D.Store, D.Sane;
  }

  /** A zone just allocated starts at its first sector and has no segment. */
  lemma AllocatedBlank(s: Ztl, b1: Base, z: nat)
    requires Core(s) && Allocated(s.base.pool, b1.pool, z)
    ensures z < |s.base.pool.zm.zones|
    ensures s.base.pool.zm.zones[z].wp == s.base.pool.zm.zones[z].start
    ensures NoneIn(s.base.l2p, z)
    ensures 0 < |s.base.pool.zm.zones| && s.base.pool.zm.zones[0].start == 0
  {
    hide D.Sane, AllLocated;
    assert z in s.base.pool.zm.freeList;
    FreeZoneBlank(s, z);
    assert s.base.pool.zm.zones[0].start == s.base.pool.dev.Start(0);
  }

  lemma VacantBlank(b: Base, seg: nat, p: PhysAddr, z: nat)
    requires NoneIn(b.l2p, z) && ZoneID(p) == z
    ensures Vacant(b, seg, p)
  {
    hide ZoneID;
  }

  lemma {:induction false} MigrateAllExact(s: Ztl, victim: nat, live: seq<(nat, nat)>)
    requires Core(s) && Ready(s.base) && Exact(s.base)
    requires forall k :: 0 <= k < |live| ==> StillThere(s.base, victim, live[k].0, live[k].1)
    requires forall i, j :: 0 <= i < j < |live| ==> live[i].0 != live[j].0
    requires MigrateAll(s.base, victim, live).1 == Ok
    ensures Exact(MigrateAll(s.base, victim, live).0)
  {
    hide Core, Exact, Content, MigrateSegment, Behind, EncodePhysAddr, ZoneID, OffsetSectors;
    if live == [] {
    } else {
      var n := |live| - 1;
      MigrateAllExact(s, victim, live[..n]);
      MigrateAllCore(s, victim, live[..n]);
      var c := MigrateAll(s.base, victim, live[..n]).0;
      assert live[n].0 !in Segs(live[..n]);
      assert Get(c.l2p, live[n].0) == Get(s.base.l2p, live[n].0);
      MigrateSegmentExact(s.(base := c), victim, live[n].0, live[n].1);
    }
  }

  lemma ReclaimExact(s: Ztl, z: nat)
    requires Core(s) && Exact(s.base) && z < |s.base.pool.dev.zones| && NoneIn(s.base.l2p, z)
    ensures Exact(Reclaim(s.base, z).0)
  {
    hide Core, EncodePhysAddr, ZoneID, OffsetSectors, Recycled, Covers, ReverseExact, D.ResetZone;
    CoreReady(s);
    CoreSizes(s);
    ReclaimMoves(s, z);
    var b, c := s.base, Reclaim(s.base, z).0;
    assert Covers(c) && ReverseExact(c) by { SameMapsExact(b, c); }
    forall i | 0 <= i < |c.pool.zm.zones| ensures Counted(c, i) {
      assert Counted(b, i);
      assert SegsIn(c, i) == SegsIn(b, i);
      if i == z { assert SegsIn(b, z) == {}; }
    }
  }

  lemma SameMapsExact(b: Base, c: Base)
    requires Covers(b) && ReverseExact(b) && c.l2p == b.l2p && c.p2l == b.p2l
    ensures Covers(c) && ReverseExact(c)
  {
    hide EncodePhysAddr, ZoneID, OffsetSectors, Key;
  }

  /** A successful collection of a zone in use, whatever is buffered for it. */
  lemma CollectZoneExact(s: Ztl, victim: nat, order: seq<nat>)
    requires Core(s) && Exact(s.base) && Ordered(s.base, victim, order)
    requires victim < |s.base.pool.dev.zones| && s.base.pool.dev.zones[victim].cond != D.Empty
    requires CollectZone(s.base, victim, order).1 == Ok
    ensures Exact(CollectZone(s.base, victim, order).0)
  {
    hide Core, Exact, Content, CollectZone, MigrateAll, Gather, Reclaim, Ordered, EncodePhysAddr, ZoneID, OffsetSectors, OnDevice, NoneIn, Evacuated, Covers, Untouched;
    CoreReady(s);
    ExactParts(s.base);
    CollectUnfolds(s.base, victim, order);
    var c := s.(base := Freeze(s.base, victim));
    FrozenCore(s, c);
    CoversFrozen(s.base, victim, victim, order);
    CoreReady(c);
    SameCountsExact(s.base, c.base);
    OrderDistinct(c.base, victim, order);
    GatherLive(c.base, victim, order);
    MigrationOutcome(c, victim, order);
    MigrateAllExact(c, victim, Gather(s.base, victim, order));
    var m := s.(base := MigrateAll(c.base, victim, Gather(s.base, victim, order)).0);
    EvacuatedNone(c, m, victim);
    var sealed := m.(base := Seal(m.base, victim));
    LogOnly(m, sealed.base.log);
    SameCountsExact(m.base, sealed.base);
    assert victim < |sealed.base.pool.dev.zones| by { EvacuatedZones(c, m); }
    ReclaimExact(sealed, victim);
    var r := Reclaim(sealed.base, victim).0;
    SameCountsExact(r, Unfreeze(r, victim));
  }

  lemma EvacuatedZones(s: Ztl, m: Ztl)
    requires Untouched(s.base.pool, m.base.pool)
    ensures |m.base.pool.dev.zones| == |s.base.pool.dev.zones|
  {
  }
}
