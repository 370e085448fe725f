/** The steps of a migration, one at a time, each from any coherent state: what it keeps, and what it does to
    the data behind the segments. */
module GcSteps {
  import Arith
  import opened Errors
  import opened Segment
  import opened Pool
  import opened Log
  import opened Ztl
  import opened Coherence
  import opened PoolSteps
  import opened FlushSteps
  import opened WriteSteps
  import D = Device

  const NOTHING: Buffers := map[]

  /** The migration's own zone: opened for it, blank, and known to no one else. */
  ghost predicate Held(s: Ztl, m: Move)
    requires |s.base.pool.zm.zones| == |s.base.pool.dev.zones|
  {
    && m.zone < |s.base.pool.dev.zones|
    && s.base.pool.dev.zones[m.zone].cond != D.Empty
    && m.zone !in s.bufs
    && !(s.curOpen && s.cur == m.zone)
    && s.base.pool.zm.zones[m.zone].wp == m.wp == s.base.pool.dev.Start(m.zone)
    && m.to == EncodePhysAddr(m.zone, 0)
    && |m.data| == s.base.spp
    && NoneIn(s.base.l2p, m.zone)
  }

  /** The migration's zone once the copy is on the device. */
  ghost predicate Copied(s: Ztl, m: Move)
    requires |s.base.pool.zm.zones| == |s.base.pool.dev.zones|
  {
    && m.zone < |s.base.pool.dev.zones|
    && s.base.pool.dev.zones[m.zone].cond != D.Empty
    && m.zone !in s.bufs
    && !(s.curOpen && s.cur == m.zone)
    && s.base.pool.dev.zones[m.zone].wp == s.base.pool.dev.Start(m.zone) + s.base.spp
    && m.to == EncodePhysAddr(m.zone, 0)
    && |m.data| == s.base.spp
    && s.base.spp <= |s.base.pool.dev.zones[m.zone].data|
    && s.base.pool.dev.zones[m.zone].data[..s.base.spp] == m.data
    && NoneIn(s.base.l2p, m.zone)
  }

  /** No segment is mapped into a zone. */
  ghost predicate NoneIn(t: Table, z: nat) {
    forall seg :: 0 <= seg < |t| && t[seg] != UNMAPPED ==> ZoneID(t[seg]) != z
  }

  /** Every zone in use keeps its data, its pointer and its place out of the free list. */
  ghost predicate Untouched(p: Pool, q: Pool) {
    && |q.dev.zones| == |p.dev.zones|
    && q.dev.zoneSectors == p.dev.zoneSectors
    && forall z :: 0 <= z < |p.dev.zones| && p.dev.zones[z].cond != D.Empty ==>
         var i, j := q.dev.zones[z], p.dev.zones[z]; i.wp == j.wp && i.data == j.data && i.cond != D.Empty
  }

  lemma QuietUntouched(p: Pool, q: Pool)
    requires Quiet(p, q)
    ensures Untouched(p, q)
  {
    hide D.Sane;
  }

  lemma AllocatedUntouched(p: Pool, q: Pool, z: nat)
    requires Allocated(p, q, z)
    ensures Untouched(p, q)
  {
    hide D.Sane;
  }

  // ---------- reading the victim ----------

  /** A migration reads what the device holds at the address; buffered sectors are not looked at. */
  lemma FetchReads(s: Ztl, victim: nat, phys: PhysAddr)
    requires Core(s) && phys != UNMAPPED && Located(s.base.pool, s.base.spp, phys) && ZoneID(phys) == victim
    ensures Fetch(s.base, victim, OffsetSectors(phys)) ==
            Success(Behind(s.base.pool.dev, NOTHING, s.base.spp, phys))
  {
    hide AllLocated, FreeIsEmpty, Pointers;
    var d, off, spp := s.base.pool.dev, OffsetSectors(phys), s.base.spp;
    assert s.base.pool.zm.zones[victim].wp <= d.End(victim) by { PointerInZone(s, victim); }
    ReadsZone(d, victim, off, spp);
    var read := D.ReadSectors(d, d.Start(victim) + off, spp).value;
    assert read == Behind(d, NOTHING, spp, phys);
  }

  lemma PointerInZone(s: Ztl, z: nat)
    requires Core(s) && z < |s.base.pool.dev.zones|
    ensures s.base.pool.zm.zones[z].wp <= s.base.pool.dev.End(z)
  {
  }

  lemma SectorInZone(d: D.Device, z: nat, k: nat)
    requires D.Sane(d) && z < |d.zones| && k < d.zoneSectors
    ensures D.SectorAt(d, d.Start(z) + k) == d.zones[z].data[k]
  {
    ZoneIndexAt(d, z, k);
  }

  lemma ReadsZone(d: D.Device, z: nat, off: nat, n: nat)
    requires D.Sane(d) && z < |d.zones| && 0 < n && off + n <= d.zoneSectors
    ensures D.ReadSectors(d, d.Start(z) + off, n) == Success(d.zones[z].data[off..off + n])
  {
    hide D.Sane, D.SectorAt;
    ZoneInCapacity(d, z);
    var r := D.ReadSectors(d, d.Start(z) + off, n).value;
    assert |d.zones[z].data| == d.zoneSectors by { SaneAt(d, z); }
    forall i | 0 <= i < n ensures r[i] == d.zones[z].data[off + i] {
      SectorInZone(d, z, off + i);
    }
    assert r == d.zones[z].data[off..off + n];
  }

  lemma ZoneInCapacity(d: D.Device, z: nat)
    requires z < |d.zones|
    ensures d.End(z) <= d.Capacity()
  {
    Arith.MulGap(z, |d.zones|, d.zoneSectors);
  }

  /** With nothing buffered for its zone, an address stands for what the device holds. */
  lemma BehindUnbuffered(d: D.Device, bufs: Buffers, spp: nat, phys: PhysAddr)
    requires ZoneID(phys) !in bufs
    ensures Behind(d, bufs, spp, phys) == Behind(d, NOTHING, spp, phys)
  {
  }

  lemma BehindUntouched(p: Pool, q: Pool, spp: nat, phys: PhysAddr)
    requires Untouched(p, q)
    requires phys != UNMAPPED && ZoneID(phys) < |p.dev.zones| ==> p.dev.zones[ZoneID(phys)].cond != D.Empty
    ensures Behind(q.dev, NOTHING, spp, phys) == Behind(p.dev, NOTHING, spp, phys)
  {
    hide ZoneID;
  }

  /** A mapped address is never in an empty zone. */
  lemma LocatedInUse(s: Ztl, phys: PhysAddr)
    requires Core(s) && Located(s.base.pool, s.base.spp, phys)
    ensures s.base.pool.dev.zones[ZoneID(phys)].cond != D.Empty
  {
    hide AllLocated, FreeIsEmpty;
    assert D.SaneZone(s.base.pool.dev, ZoneID(phys));
  }

  // ---------- claim ----------

  lemma ClaimCore(s: Ztl, seg: nat, from: PhysAddr, data: seq<D.Sector>)
    requires Core(s) && |data| == s.base.spp
    ensures var (b, claim) := Claim(s.base, seg, from, data);
      var t := s.(base := b);
      && Core(t)
      && b.l2p == s.base.l2p && b.p2l == s.base.p2l && b.log == s.base.log && b.spp == s.base.spp
      && Untouched(s.base.pool, b.pool)
      && (forall other :: Content(t, other) == Content(s, other))
      && (claim.Success? ==>
            && claim.value.seg == seg && claim.value.from == from && claim.value.data == data
            && Held(t, claim.value)
            && D.IsOpen(b.pool.dev.zones[claim.value.zone].cond)
            && s.base.pool.dev.zones[claim.value.zone].cond == D.Empty
            && Allocated(s.base.pool, b.pool, claim.value.zone))
      && (claim.Failure? ==> Quiet(s.base.pool, b.pool))
  {
    hide D.Sane, AllLocated, AllocateFree, Content, Image, Behind, EncodePhysAddr, ZoneID, OffsetSectors;
    AllocateFreeMoves(s.base.pool, s.base.spp);
    var (q, alloc) := AllocateFree(s.base.pool);
    match alloc
    case Failure(_) =>
      QuietCore(s, q);
      QuietUntouched(s.base.pool, q);
    case Success(z) =>
      assert z in s.base.pool.zm.freeList;
      FreeZoneBlank(s, z);
      AllocatedCore(s, q, z);
      AllocatedUntouched(s.base.pool, q, z);
      assert q.zm.zones[z].wp == q.zm.zones[z].start;
  }

  // ---------- copy ----------

  lemma LogOnly(s: Ztl, log: Log)
    requires Core(s)
    ensures Core(s.(base := s.base.(log := log)))
    ensures forall other :: Content(s.(base := s.base.(log := log)), other) == Content(s, other)
  {
  }

  /** The pool after `data` went straight to the pointer of zone `z`, and the tracked pointer followed. */
  ghost predicate Direct(p: Pool, q: Pool, z: nat, data: seq<D.Sector>)
    requires z < |p.dev.zones|
  {
    && Kept(p, q)
    && Accepted(p.zm, q.zm, z, |data|)
    && Wrote(p.dev, q.dev, z, data)
  }

  lemma CopyMoves(s: Ztl, m: Move)
    requires Core(s) && Held(s, m)
    ensures s.base.pool.dev.zones[m.zone].wp == m.wp
    ensures var (b, r) := Copy(s.base, m);
      && (D.IsOpen(s.base.pool.dev.zones[m.zone].cond) ==> r == Ok)
      && (r != Ok ==> b == s.base)
      && (r == Ok ==>
            && b == s.base.(pool := b.pool)
            && Direct(s.base.pool, b.pool, m.zone, m.data))
  {
    hide D.Sane, D.WriteSectors, AllLocated, FreeIsEmpty, EncodePhysAddr, ZoneID, OffsetSectors;
    WriteAtPointer(s.base.pool.dev, m.zone, m.data);
  }

  lemma DirectConfig(p: Pool, q: Pool, spp: nat, z: nat, data: seq<D.Sector>)
    requires Config(p, spp) && z < |p.dev.zones| && Direct(p, q, z, data)
    ensures Config(q, spp)
  {
    hide D.Sane, D.Store;
  }

  lemma DirectPointers(p: Pool, q: Pool, z: nat, data: seq<D.Sector>, bufs: Buffers)
    requires |p.zm.zones| == |p.dev.zones| && Pointers(p, bufs) && z !in bufs && z < |p.dev.zones|
    requires Direct(p, q, z, data) && p.zm.zones[z].wp + |data| <= p.dev.End(z)
    ensures Pointers(q, bufs)
  {
    hide D.Sane, D.Store;
  }

  lemma DirectLocated(b: Base, q: Pool, z: nat, data: seq<D.Sector>)
    requires |b.pool.zm.zones| == |b.pool.dev.zones| && AllLocated(b) && z < |b.pool.dev.zones|
    requires NoneIn(b.l2p, z) && Direct(b.pool, q, z, data)
    ensures AllLocated(b.(pool := q))
  {
    hide D.Sane, D.Store, ZoneID, OffsetSectors;
    forall seg | 0 <= seg < |b.l2p| && b.l2p[seg] != UNMAPPED ensures Located(q, b.spp, b.l2p[seg]) {
      assert Located(b.pool, b.spp, b.l2p[seg]);
    }
  }

  lemma DirectFree(p: Pool, q: Pool, z: nat, data: seq<D.Sector>)
    requires FreeIsEmpty(p) && z < |p.dev.zones| && p.dev.zones[z].cond != D.Empty && Direct(p, q, z, data)
    ensures FreeIsEmpty(q)
  {
    hide D.Sane, D.Store;
  }

  lemma DirectContent(s: Ztl, q: Pool, z: nat, data: seq<D.Sector>, seg: nat)
    requires z < |s.base.pool.dev.zones| && NoneIn(s.base.l2p, z) && Direct(s.base.pool, q, z, data)
    ensures Content(s.(base := s.base.(pool := q)), seg) == Content(s, seg)
  {
    hide D.Sane, OffsetSectors, D.Store, ZoneID;
    var phys := Get(s.base.l2p, seg);
    if phys != UNMAPPED {
      BehindSame(s.base.pool.dev, q.dev, s.bufs, s.bufs, s.base.spp, phys);
    }
  }

  lemma CopyCore(s: Ztl, m: Move)
    requires Core(s) && Held(s, m)
    ensures var (b, r) := Copy(s.base, m);
      var t := s.(base := b);
      && (D.IsOpen(s.base.pool.dev.zones[m.zone].cond) ==> r == Ok)
      && Core(t)
      && b.l2p == s.base.l2p && b.p2l == s.base.p2l && b.log == s.base.log && b.spp == s.base.spp
      && (forall other :: Content(t, other) == Content(s, other))
      && (r == Ok ==> Copied(t, m) && Direct(s.base.pool, b.pool, m.zone, m.data))
      && (r != Ok ==> b == s.base)
  {
    hide D.Sane, Config, Pointers, AllLocated, FreeIsEmpty, Copy, Content, EncodePhysAddr, D.Store, NoneIn;
    CoreReady(s);
    CopyMoves(s, m);
    var (b, r) := Copy(s.base, m);
    if r == Ok {
      var p, z := s.base.pool, m.zone;
      ConfigSizes(p, s.base.spp);
      RoomForSegment(s, z);
      DirectConfig(p, b.pool, s.base.spp, z, m.data);
      DirectPointers(p, b.pool, z, m.data, s.bufs);
      DirectLocated(s.base, b.pool, z, m.data);
      DirectFree(p, b.pool, z, m.data);
      forall other: nat ensures Content(s.(base := b), other) == Content(s, other) {
        DirectContent(s, b.pool, z, m.data, other);
      }
      StoreAtStart(p.dev.zones[z].data, m.data);
    }
  }

  lemma StoreAtStart(contents: seq<D.Sector>, data: seq<D.Sector>)
    requires |data| <= |contents|
    ensures D.Store(contents, 0, data)[..|data|] == data
  {
  }

  lemma RoomForSegment(s: Ztl, z: nat)
    requires Core(s) && z < |s.base.pool.dev.zones|
    ensures s.base.pool.dev.Start(z) + s.base.spp <= s.base.pool.dev.End(z)
    ensures |s.base.pool.dev.zones[z].data| == s.base.pool.dev.zoneSectors
    ensures s.base.spp > 0
  {
  }

  // ---------- swap ----------

  lemma CopiedBehind(s: Ztl, m: Move)
    requires Core(s) && Copied(s, m)
    ensures ZoneID(m.to) == m.zone && OffsetSectors(m.to) == 0
    ensures m.to == UNMAPPED <==> m.zone == 0
    ensures m.to != UNMAPPED ==> Behind(s.base.pool.dev, s.bufs, s.base.spp, m.to) == m.data
    ensures Located(s.base.pool, s.base.spp, m.to)
  {
    hide D.Sane, AllLocated, FreeIsEmpty;
    PackUnpack(m.zone, 0);
    PackedUnmapped(m.zone, 0);
    var data, spp := s.base.pool.dev.zones[m.zone].data, s.base.spp;
    forall k | 0 <= k < spp ensures data[k] == m.data[k] {
      assert data[k] == data[..spp][k];
    }
  }

  lemma SwapMoves(b: Base, spp: nat, m: Move)
    requires Config(b.pool, spp)
    ensures Quiet(b.pool, Swap(b, m).pool)
    ensures Swap(b, m) == Swap(b, m).(spp := b.spp, log := b.log)
    ensures Swap(b, m).pool.dev == b.pool.dev
    ensures Swap(b, m).l2p == if m.seg < |b.l2p| && b.l2p[m.seg] == m.from then b.l2p[m.seg := m.to] else b.l2p
  {
    hide ZoneID, OffsetSectors;
  }

  /** The swap installs the copy if the segment is still where it was read from, and otherwise changes nothing
      behind any segment. */
  lemma SwapCore(s: Ztl, m: Move)
    requires Core(s) && Copied(s, m)
    ensures var t := s.(base := Swap(s.base, m));
      && Core(t)
      && t.base.l2p == (if m.seg < |s.base.l2p| && s.base.l2p[m.seg] == m.from then s.base.l2p[m.seg := m.to] else s.base.l2p)
      && t.base.log == s.base.log && t.base.spp == s.base.spp
      && Quiet(s.base.pool, t.base.pool) && t.base.pool.dev == s.base.pool.dev
      && forall other :: Content(t, other) ==
           if other == m.seg && m.seg < |s.base.l2p| && s.base.l2p[m.seg] == m.from
           then (if m.to == UNMAPPED then D.Zeros(s.base.spp) else m.data)
           else Content(s, other)
  {
    hide D.Sane, Config, Pointers, AllLocated, FreeIsEmpty, Swap, Behind, EncodePhysAddr, ZoneID, OffsetSectors, Quiet, Copied;
    var b := s.base;
    CopiedBehind(s, m);
    SwapMoves(b, b.spp, m);
    var c := Swap(b, m);
    QuietCore(s, c.pool);
    assert b.(pool := c.pool).l2p == b.l2p;
    ConfigSizes(b.pool, b.spp);
    var q := s.(base := b.(pool := c.pool));
    assert |q.base.pool.zm.zones| == |q.base.pool.dev.zones| by { ConfigSizes(q.base.pool, q.base.spp); }
    if m.seg < |b.l2p| && b.l2p[m.seg] == m.from {
      QuietLocatedAddr(b.pool, c.pool, b.spp, m.to);
      LocatedUpdate(q.base, c, m.seg);
    } else {
      LocatedTable(q.base, c);
    }
    BehindUnmapped(b.pool.dev, s.bufs, b.spp);
  }

  lemma LocatedTable(b: Base, c: Base)
    requires |b.pool.zm.zones| == |b.pool.dev.zones| && AllLocated(b)
    requires c.pool == b.pool && c.spp == b.spp && c.l2p == b.l2p
    ensures AllLocated(c)
  {
    hide Located;
  }

  lemma QuietLocatedAddr(p: Pool, q: Pool, spp: nat, phys: PhysAddr)
    requires |p.zm.zones| == |p.dev.zones| && Located(p, spp, phys) && Quiet(p, q)
    ensures Located(q, spp, phys)
  {
    hide D.Sane, ZoneID, OffsetSectors;
  }

  // ---------- reclaim ----------

  /** The pool after zone `z` was reset and went to the end of the free list. */
  ghost predicate Recycled(p: Pool, q: Pool, z: nat)
    requires z < |p.dev.zones|
  {
    && Kept(p, q)
    && D.Sane(q.dev)
    && q.zm.maxOpen == p.zm.maxOpen && q.dev.maxOpen == p.dev.maxOpen
    && q.zm.freeList == p.zm.freeList + [z]
    && q.dev.zones[z].cond == D.Empty && q.dev.zones[z].wp == q.dev.Start(z)
    && (forall i :: 0 <= i < |q.zm.zones| ==>
          var a, b := q.zm.zones[i], p.zm.zones[i];
          a.start == b.start && a.size == b.size && a.wp == if i == z then b.start else b.wp)
    && (forall i :: 0 <= i < |q.dev.zones| && i != z ==> q.dev.zones[i] == p.dev.zones[i])
  }

  lemma ReclaimMoves(s: Ztl, z: nat)
    requires Core(s) && z < |s.base.pool.dev.zones|
    ensures var (b, r) := Reclaim(s.base, z);
      && r == Ok
      && b == s.base.(pool := b.pool)
      && Recycled(s.base.pool, b.pool, z)
      && b.pool.zm == MarkEmpty(s.base.pool.zm, z).0
  {
    hide AllLocated, FreeIsEmpty, Pointers, ZoneID, OffsetSectors, EncodePhysAddr;
    var d := s.base.pool.dev;
    ZoneIndexAt(d, z, 0);
    D.PerformSane(d, D.Reset(d.Start(z)));
  }

  lemma RecycledConfig(p: Pool, q: Pool, spp: nat, z: nat)
    requires Config(p, spp) && z < |p.dev.zones| && Recycled(p, q, z)
    ensures Config(q, spp)
  {
    hide D.Sane;
  }

  lemma RecycledPointers(p: Pool, q: Pool, spp: nat, z: nat, bufs: Buffers)
    requires Config(p, spp) && Pointers(p, bufs) && z < |p.dev.zones| && z !in bufs && Recycled(p, q, z)
    ensures Pointers(q, bufs)
  {
    hide D.Sane;
  }

  lemma RecycledLocated(b: Base, q: Pool, z: nat)
    requires |b.pool.zm.zones| == |b.pool.dev.zones| && AllLocated(b) && z < |b.pool.dev.zones|
    requires NoneIn(b.l2p, z) && Recycled(b.pool, q, z)
    ensures AllLocated(b.(pool := q))
  {
    hide D.Sane, ZoneID, OffsetSectors;
    forall seg | 0 <= seg < |b.l2p| && b.l2p[seg] != UNMAPPED ensures Located(q, b.spp, b.l2p[seg]) {
      assert Located(b.pool, b.spp, b.l2p[seg]);
    }
  }

  lemma RecycledFree(p: Pool, q: Pool, z: nat)
    requires FreeIsEmpty(p) && z < |p.dev.zones| && p.dev.zones[z].cond != D.Empty && Recycled(p, q, z)
    ensures FreeIsEmpty(q)
  {
    hide D.Sane;
  }

  lemma RecycledContent(s: Ztl, q: Pool, z: nat, seg: nat)
    requires z < |s.base.pool.dev.zones| && NoneIn(s.base.l2p, z) && Recycled(s.base.pool, q, z)
    ensures Content(s.(base := s.base.(pool := q)), seg) == Content(s, seg)
  {
    hide D.Sane, OffsetSectors, D.Store, ZoneID;
    var phys := Get(s.base.l2p, seg);
    if phys != UNMAPPED {
      BehindSame(s.base.pool.dev, q.dev, s.bufs, s.bufs, s.base.spp, phys);
    }
  }

  /** Resetting a zone that nothing maps into, nothing is buffered for and nothing writes to disturbs no data. */
  lemma ReclaimCore(s: Ztl, z: nat)
    requires Core(s) && z < |s.base.pool.dev.zones| && s.base.pool.dev.zones[z].cond != D.Empty
    requires z !in s.bufs && !(s.curOpen && s.cur == z) && NoneIn(s.base.l2p, z)
    ensures var (b, r) := Reclaim(s.base, z);
      var t := s.(base := b);
      && r == Ok
      && Core(t)
      && t.base.l2p == s.base.l2p
      && forall other :: Content(t, other) == Content(s, other)
  {
    hide D.Sane, Config, Pointers, AllLocated, FreeIsEmpty, Reclaim, Content, NoneIn;
    CoreReady(s);
    ReclaimMoves(s, z);
    var q := Reclaim(s.base, z).0.pool;
    ConfigSizes(s.base.pool, s.base.spp);
    RecycledConfig(s.base.pool, q, s.base.spp, z);
    RecycledPointers(s.base.pool, q, s.base.spp, z, s.bufs);
    RecycledLocated(s.base, q, z);
    RecycledFree(s.base.pool, q, z);
    forall other: nat ensures Content(s.(base := s.base.(pool := q)), other) == Content(s, other) {
      RecycledContent(s, q, z, other);
    }
  }
}
