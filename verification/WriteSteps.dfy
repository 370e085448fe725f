/** A whole-segment write puts its data behind its segment and behind no other; an unmap puts zeros. */
module WriteSteps {
  import opened Errors
  import opened Segment
  import opened Pool
  import opened Log
  import opened Ztl
  import opened Coherence
  import opened PoolSteps
  import opened FlushSteps
  import D = Device

  /** The manager after `n` sectors were accepted for zone `z`: only its pointer, and some counters, changed. */
  ghost predicate Accepted(zm: Manager, zm': Manager, z: nat, n: nat)
  {
    && zm'.freeList == zm.freeList && zm'.openList == zm.openList && zm'.openSet == zm.openSet
    && zm'.maxOpen == zm.maxOpen && zm'.frozen == zm.frozen
    && |zm'.zones| == |zm.zones|
    && forall i :: 0 <= i < |zm.zones| ==>
         var a, b := zm'.zones[i], zm.zones[i];
         a.start == b.start && a.size == b.size && a.cond == b.cond && a.wp == if i == z then b.wp + n else b.wp
  }

  lemma WriteIntoMoves(s: Ztl, z: nat, seg: nat, data: seq<D.Sector>)
    requires Ready(s.base) && z < |s.base.pool.zm.zones| && seg < |s.base.l2p|
    ensures var (t, r) := WriteInto(s, z, seg, data);
      && r == Ok
      && t.base.l2p == s.base.l2p[seg := NextAddr(s.base.pool.zm, z)]
      && t.base.pool.dev == s.base.pool.dev
      && Accepted(s.base.pool.zm, t.base.pool.zm, z, |data|)
      && t.bufs == BufferAdd(s.bufs, z, data, s.base.pool.zm.zones[z].wp)
      && t.cur == s.cur && t.curOpen == s.curOpen
      && t.base.log == LogL2PUpdate(s.base.log, seg, Get(s.base.l2p, seg), NextAddr(s.base.pool.zm, z))
  {
    hide NextAddr, ZoneID, OffsetSectors;
  }

  lemma AcceptedConfig(p: Pool, zm': Manager, spp: nat, z: nat, n: nat)
    requires Config(p, spp) && Accepted(p.zm, zm', z, n)
    ensures Config(p.(zm := zm'), spp)
  {
    hide D.Sane;
  }

  lemma AcceptedPointers(p: Pool, zm': Manager, bufs: Buffers, z: nat, data: seq<D.Sector>)
    requires |p.zm.zones| == |p.dev.zones| && Pointers(p, bufs) && Accepted(p.zm, zm', z, |data|)
    requires z < |p.dev.zones| && p.dev.zones[z].cond != D.Empty && data != [] && p.zm.zones[z].wp + |data| <= p.dev.End(z)
    ensures Pointers(p.(zm := zm'), BufferAdd(bufs, z, data, p.zm.zones[z].wp))
  {
  }

  lemma AcceptedLocated(b: Base, zm': Manager, z: nat, n: nat)
    requires |b.pool.zm.zones| == |b.pool.dev.zones| && AllLocated(b) && Accepted(b.pool.zm, zm', z, n)
    ensures AllLocated(b.(pool := b.pool.(zm := zm')))
  {
    hide ZoneID, OffsetSectors;
    forall seg | 0 <= seg < |b.l2p| && b.l2p[seg] != UNMAPPED ensures Located(b.pool.(zm := zm'), b.spp, b.l2p[seg]) {
      assert Located(b.pool, b.spp, b.l2p[seg]);
    }
  }

  /** The next address of a zone that has room for a sector unpacks to the zone and its fill. */
  lemma NextAddrUnpacks(p: Pool, bufs: Buffers, spp: nat, z: nat)
    requires Config(p, spp) && Pointers(p, bufs) && z < |p.dev.zones| && p.zm.zones[z].wp < p.dev.End(z)
    ensures var phys := NextAddr(p.zm, z);
      && ZoneID(phys) == z
      && p.dev.Start(z) + OffsetSectors(phys) == p.zm.zones[z].wp
      && (phys == UNMAPPED <==> z == 0 && p.zm.zones[z].wp == 0)
  {
    assert D.SaneZone(p.dev, z);
    var off := p.zm.zones[z].wp - p.dev.Start(z);
    PackUnpack(z, off);
    PackedUnmapped(z, off);
    assert z == 0 ==> p.dev.Start(z) == 0;
  }

  lemma StoreAppend(contents: seq<D.Sector>, at: int, first: seq<D.Sector>, second: seq<D.Sector>)
    ensures D.Store(contents, at, first + second) == D.Store(D.Store(contents, at, first), at + |first|, second)
  {
  }

  lemma StoreNothing(contents: seq<D.Sector>, at: int)
    ensures D.Store(contents, at, []) == contents
  {
  }

  /** Appending to a zone's buffer appends to its image. */
  lemma ImageAppends(p: Pool, bufs: Buffers, z: nat, data: seq<D.Sector>, i: nat)
    requires |p.zm.zones| == |p.dev.zones| && Pointers(p, bufs) && z < |p.dev.zones| && i < |p.dev.zones|
    ensures var bufs' := BufferAdd(bufs, z, data, p.zm.zones[z].wp);
      Image(p.dev, bufs', i) ==
      if i == z then D.Store(Image(p.dev, bufs, z), p.zm.zones[z].wp - p.dev.Start(z), data) else Image(p.dev, bufs, i)
  {
    if z in bufs {
      assert p.zm.zones[z].wp == bufs[z].wp + |bufs[z].data|;
    }
    hide Pointers, D.Store, Image, BufferAdd;
    BufferAppends(p.dev, bufs, z, data, p.zm.zones[z].wp, p.dev.Start(z), i);
  }

  lemma BufferAppends(d: D.Device, bufs: Buffers, z: nat, data: seq<D.Sector>, wp: nat, start: int, i: nat)
    requires z < |d.zones| && i < |d.zones| && start == d.Start(z)
    requires z in bufs ==> wp == bufs[z].wp + |bufs[z].data|
    ensures Image(d, BufferAdd(bufs, z, data, wp), i) ==
            if i == z then D.Store(Image(d, bufs, z), wp - start, data) else Image(d, bufs, i)
  {
    hide D.Store;
    if i == z {
      if data == [] {
        StoreNothing(Image(d, bufs, z), wp - start);
      } else if z in bufs {
        StoreAppend(d.zones[z].data, bufs[z].wp - start, bufs[z].data, data);
      }
    }
  }

  lemma StoreElsewhere(image: seq<D.Sector>, at: int, data: seq<D.Sector>, off: nat, spp: nat)
    requires off + spp <= at
    ensures forall k :: off <= k < off + spp && k < |image| ==> D.Store(image, at, data)[k] == image[k]
  {
  }

  /** Sectors below the fill of a zone are not disturbed by appending to it. */
  lemma BehindKept(p: Pool, bufs: Buffers, spp: nat, z: nat, data: seq<D.Sector>, phys: PhysAddr)
    requires Config(p, spp) && Pointers(p, bufs) && z < |p.dev.zones|
    requires phys == UNMAPPED || Located(p, spp, phys)
    ensures Behind(p.dev, BufferAdd(bufs, z, data, p.zm.zones[z].wp), spp, phys) == Behind(p.dev, bufs, spp, phys)
  {
    hide D.Sane, D.Store, BufferAdd, Image;
    if phys != UNMAPPED {
      var i := ZoneID(phys);
      ImageAppends(p, bufs, z, data, i);
      if i == z {
        StoreElsewhere(Image(p.dev, bufs, z), p.zm.zones[z].wp - p.dev.Start(z), data, OffsetSectors(phys), spp);
      }
    }
  }

  /** What was just accepted is behind the address it was accepted for. */
  lemma BehindNew(p: Pool, bufs: Buffers, spp: nat, z: nat, data: seq<D.Sector>)
    requires Config(p, spp) && Pointers(p, bufs) && z < |p.dev.zones|
    requires |data| == spp && p.zm.zones[z].wp + spp <= p.dev.End(z)
    requires NextAddr(p.zm, z) != UNMAPPED
    ensures Behind(p.dev, BufferAdd(bufs, z, data, p.zm.zones[z].wp), spp, NextAddr(p.zm, z)) == data
  {
    hide BufferAdd, NextAddr;
    NextAddrUnpacks(p, bufs, spp, z);
    ImageAppends(p, bufs, z, data, z);
    assert D.SaneZone(p.dev, z);
    assert |Image(p.dev, bufs, z)| == p.dev.zoneSectors;
  }

  /** What a whole-segment write to zone `z` leaves behind its segment: the data, except at the one address
      that means unmapped. */
  function Landed(zm: Manager, z: nat, data: seq<D.Sector>): seq<D.Sector> {
    if NextAddr(zm, z) == UNMAPPED then D.Zeros(|data|) else data
  }

  ghost predicate Writable(s: Ztl, z: nat)
    requires Ready(s.base)
  {
    && z < |s.base.pool.zm.zones| && z < |s.base.pool.dev.zones|
    && s.base.pool.dev.zones[z].cond != D.Empty
    && s.base.pool.zm.zones[z].wp + s.base.spp <= s.base.pool.dev.End(z)
  }

  lemma WriteIntoCore(s: Ztl, z: nat, seg: nat, data: seq<D.Sector>)
    requires Core(s) && Writable(s, z) && seg < |s.base.l2p| && |data| == s.base.spp
    ensures Core(WriteInto(s, z, seg, data).0)
  {
    hide D.Sane, Config, AllLocated, FreeIsEmpty, Pointers, BufferAdd, WriteInto, NextAddr, ZoneID, OffsetSectors;
    CoreReady(s);
    var p := s.base.pool;
    WriteIntoMoves(s, z, seg, data);
    var t := WriteInto(s, z, seg, data).0;
    ConfigSizes(p, s.base.spp);
    AcceptedConfig(p, t.base.pool.zm, s.base.spp, z, |data|);
    assert s.base.spp > 0;
    AcceptedPointers(p, t.base.pool.zm, s.bufs, z, data);
    AcceptedLocated(s.base, t.base.pool.zm, z, |data|);
    assert FreeIsEmpty(t.base.pool) by { SameFree(p, t.base.pool); }
    NextAddrLocated(s, z, t.base.pool.zm);
    assert AllLocated(t.base) by {
      LocatedUpdate(s.base.(pool := t.base.pool), t.base, seg);
    }
  }

  lemma SameFree(p: Pool, q: Pool)
    requires FreeIsEmpty(p) && q.zm.freeList == p.zm.freeList && q.dev == p.dev
    ensures FreeIsEmpty(q)
  {
  }

  lemma NextAddrLocated(s: Ztl, z: nat, zm': Manager)
    requires Core(s) && Writable(s, z) && Accepted(s.base.pool.zm, zm', z, s.base.spp)
    ensures Located(s.base.pool.(zm := zm'), s.base.spp, NextAddr(s.base.pool.zm, z))
  {
    hide NextAddr, FreeIsEmpty, AllLocated, ZoneID, OffsetSectors;
    NextAddrUnpacks(s.base.pool, s.bufs, s.base.spp, z);
  }

  lemma LocatedUpdate(b: Base, c: Base, seg: nat)
    requires |b.pool.zm.zones| == |b.pool.dev.zones| && AllLocated(b) && c.pool == b.pool && c.spp == b.spp
    requires seg < |b.l2p| && |c.l2p| == |b.l2p|
    requires forall i :: 0 <= i < |b.l2p| && i != seg ==> c.l2p[i] == b.l2p[i]
    requires c.l2p[seg] == UNMAPPED || Located(b.pool, b.spp, c.l2p[seg])
    ensures AllLocated(c)
  {
    hide Located;
  }

  lemma WriteIntoContent(s: Ztl, z: nat, seg: nat, data: seq<D.Sector>, other: nat)
    requires Core(s) && Writable(s, z) && seg < |s.base.l2p| && |data| == s.base.spp
    ensures Content(WriteInto(s, z, seg, data).0, other) ==
            if other == seg then Landed(s.base.pool.zm, z, data) else Content(s, other)
  {
    hide D.Sane, Behind, FreeIsEmpty, BufferAdd, WriteInto, NextAddr, ZoneID, OffsetSectors;
    WriteIntoMoves(s, z, seg, data);
    var p, spp := s.base.pool, s.base.spp;
    if other != seg {
      var phys := Get(s.base.l2p, other);
      BehindKept(p, s.bufs, spp, z, data, phys);
    } else if NextAddr(p.zm, z) == UNMAPPED {
      assert Behind(p.dev, BufferAdd(s.bufs, z, data, p.zm.zones[z].wp), spp, UNMAPPED) == D.Zeros(spp) by { BehindUnmapped(p.dev, BufferAdd(s.bufs, z, data, p.zm.zones[z].wp), spp); }
    } else {
      BehindNew(p, s.bufs, spp, z, data);
    }
  }

  lemma BehindUnmapped(d: D.Device, bufs: Buffers, spp: nat)
    ensures Behind(d, bufs, spp, UNMAPPED) == D.Zeros(spp)
  {
  }

  // ---------- whole operations ----------

  lemma ClosedCore(s: Ztl)
    requires Core(s)
    ensures Core(s.(curOpen := false))
    ensures forall seg :: Content(s.(curOpen := false), seg) == Content(s, seg)
  {
  }

  lemma GetWriteZoneCore(s: Ztl)
    requires Core(s)
    ensures var (t, zone) := GetWriteZone(s);
      && Core(t)
      && t.base.l2p == s.base.l2p && t.base.spp == s.base.spp && t.bufs == s.bufs
      && (forall seg :: Content(t, seg) == Content(s, seg))
      && (zone.Success? ==> Writable(t, zone.value))
  {
    var p, spp := s.base.pool, s.base.spp;
    if !(s.curOpen && Remaining(s) >= spp) {
      hide D.Sane, AllLocated, AllocateFree, Content, Image, Behind;
      AllocateFreeMoves(p, spp);
      var (q, alloc) := AllocateFree(p);
      match alloc
      case Failure(_) =>
        QuietCore(s, q);
        ClosedCore(s.(base := s.base.(pool := q)));
      case Success(z) =>
        assert z in p.zm.freeList;
        FreeZoneBlank(s, z);
        AllocatedCore(s, q, z);
        Chosen(s.(base := s.base.(pool := q)), z);
        var t := GetWriteZone(s).0;
        assert t == s.(base := s.base.(pool := q, log := t.base.log), cur := z, curOpen := true);
    }
  }

  lemma Chosen(s: Ztl, z: nat)
    requires Core(s) && z < |s.base.pool.dev.zones| && s.base.pool.dev.zones[z].cond != D.Empty
    ensures forall log :: Core(s.(base := s.base.(log := log), cur := z, curOpen := true))
    ensures forall log, seg :: Content(s.(base := s.base.(log := log), cur := z, curOpen := true), seg) == Content(s, seg)
  {
  }

  /** What a successful write of one whole segment leaves behind it. */
  function Stored(s: Ztl, data: seq<D.Sector>): seq<D.Sector>
    requires Ready(s.base)
  {
    var (t, zone) := GetWriteZone(s);
    if zone.Success? then Landed(t.base.pool.zm, zone.value, data) else data
  }

  lemma FlushIfFullCore(s: Ztl, z: nat)
    requires Core(s) && z < |s.base.pool.zm.zones|
    requires FlushIfFull(s, z).1 == Ok
    ensures Core(FlushIfFull(s, z).0)
    ensures forall seg :: Content(FlushIfFull(s, z).0, seg) == Content(s, seg)
    ensures FlushIfFull(s, z).0.base.l2p == s.base.l2p
  {
    hide Core, Content;
    CoreReady(s);
    var info := s.base.pool.zm.zones[z];
    if info.wp >= info.start + info.size {
      FlushCore(s, z);
      var (bufs, q, r) := FlushZone(s.bufs, s.base.pool, z);
      ClosedCore(s.(base := s.base.(pool := q), bufs := bufs));
    }
  }

  /** A whole-segment write that succeeds keeps the invariant and replaces the data behind its segment only;
      one that finds no zone changes nothing behind any segment. */
  lemma WriteSegmentCore(s: Ztl, seg: nat, data: seq<D.Sector>)
    requires Core(s) && seg < |s.base.l2p| && |data| == s.base.spp
    ensures var (t, r) := WriteSegment(s, seg, data);
      && (r == Ok ==>
            && Core(t)
            && |Stored(s, data)| == s.base.spp
            && Content(t, seg) == Stored(s, data)
            && forall other :: other != seg ==> Content(t, other) == Content(s, other))
      && (GetWriteZone(s).1.Failure? ==>
            Core(t) && forall other :: Content(t, other) == Content(s, other))
  {
    hide Core, Content, WriteInto, FlushIfFull, GetWriteZone, Writable, Landed;
    CoreReady(s);
    GetWriteZoneCore(s);
    var (s1, zone) := GetWriteZone(s);
    if zone.Success? {
      var z := zone.value;
      assert z < |s1.base.pool.zm.zones| by { WritableExists(s1, z); }
      WriteIntoCore(s1, z, seg, data);
      WriteIntoMoves(s1, z, seg, data);
      forall other: nat ensures Content(WriteInto(s1, z, seg, data).0, other) ==
        if other == seg then Landed(s1.base.pool.zm, z, data) else Content(s1, other) {
        WriteIntoContent(s1, z, seg, data, other);
      }
      var s2 := WriteInto(s1, z, seg, data).0;
      LandedLength(s1.base.pool.zm, z, data);
      if FlushIfFull(s2, z).1 == Ok {
        FlushIfFullCore(s2, z);
      }
    }
  }

  lemma WritableExists(s: Ztl, z: nat)
    requires Ready(s.base) && Writable(s, z)
    ensures z < |s.base.pool.zm.zones|
  {
  }

  lemma LandedLength(zm: Manager, z: nat, data: seq<D.Sector>)
    ensures |Landed(zm, z, data)| == |data|
  {
  }

  lemma UnmapSegmentCore(s: Ztl, seg: nat)
    requires Core(s)
    ensures var t := s.(base := UnmapSegment(s.base, seg));
      && Core(t)
      && (forall other :: Content(t, other) == if other == seg then D.Zeros(s.base.spp) else Content(s, other))
  {
    hide D.Sane, EncodePhysAddr, ZoneID, OffsetSectors, D.Store, Image;
    var b := s.base;
    var oldPhys := Get(b.l2p, seg);
    var c := UnmapSegment(b, seg);
    if !IsUnmapped(oldPhys) {
      assert Quiet(b.pool, c.pool) by { ForgetQuiet(b, b.spp, oldPhys); }
      QuietCore(s, c.pool);
      LocatedUpdate(b.(pool := c.pool), c, seg);
    }
  }

  lemma ForgetQuiet(b: Base, spp: nat, phys: PhysAddr)
    requires Config(b.pool, spp)
    ensures Quiet(b.pool, Forget(b, phys).pool)
  {
    hide ZoneID, OffsetSectors;
  }

  lemma {:induction false} UnmapRangeCore(s: Ztl, first: nat, end: nat)
    requires Core(s)
    ensures var t := s.(base := UnmapRange(s.base, first, end));
      && Core(t)
      && (forall seg: nat :: Content(t, seg) == if first <= seg < end then D.Zeros(s.base.spp) else Content(s, seg))
    decreases end - first
  {
    hide Core, Content, UnmapSegment;
    CoreReady(s);
    if first < end {
      UnmapRangeCore(s, first, end - 1);
      var m := s.(base := UnmapRange(s.base, first, end - 1));
      UnmapSegmentCore(m, end - 1);
    }
  }
}
