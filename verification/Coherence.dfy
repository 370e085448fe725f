/** The invariant that ties the table, the write buffers, the tracked pointers and the device together,
    and what every step of the translation layer does to the data behind each segment. */
module Coherence {
  import opened Arith
  import opened Errors
  import opened Segment
  import opened Pool
  import opened Log
  import opened Ztl
  import D = Device

  /** Segments fit zones, and zones and offsets fit the packed address. */
  ghost predicate Config(p: Pool, spp: nat) {
    && Listed(p)
    && D.Sane(p.dev)
    && 0 < spp <= p.dev.zoneSectors <= OFFSET_SPAN
    && |p.zm.zones| == |p.dev.zones| <= ZONE_SPAN
    && forall z :: 0 <= z < |p.dev.zones| ==>
         p.zm.zones[z].start == p.dev.Start(z) && p.zm.zones[z].size == p.dev.zoneSectors
  }

  function Buffered(bufs: Buffers, z: nat): nat {
    if z in bufs then |bufs[z].data| else 0
  }

  /** The tracked pointer of a zone is the device pointer plus what is buffered for the zone. */
  ghost predicate Pointers(p: Pool, bufs: Buffers)
    requires |p.zm.zones| == |p.dev.zones|
  {
    && (forall z :: 0 <= z < |p.dev.zones| ==>
          p.zm.zones[z].wp == p.dev.zones[z].wp + Buffered(bufs, z) && p.zm.zones[z].wp <= p.dev.End(z))
    && (forall z :: z in bufs ==>
          z < |p.dev.zones| && bufs[z].wp == p.dev.zones[z].wp && bufs[z].data != [] && p.dev.zones[z].cond != D.Empty)
  }

  /** A mapped address names a whole written segment, on the device or in the buffer but not across both. */
  ghost predicate Located(p: Pool, spp: nat, phys: PhysAddr)
    requires |p.zm.zones| == |p.dev.zones|
  {
    var z := ZoneID(phys);
    && z < |p.dev.zones|
    && var at := p.dev.Start(z) + OffsetSectors(phys);
      && at + spp <= p.zm.zones[z].wp
      && (at + spp <= p.dev.zones[z].wp || p.dev.zones[z].wp <= at)
  }

  ghost predicate AllLocated(b: Base)
    requires |b.pool.zm.zones| == |b.pool.dev.zones|
  {
    forall seg :: 0 <= seg < |b.l2p| && b.l2p[seg] != UNMAPPED ==> Located(b.pool, b.spp, b.l2p[seg])
  }

  ghost predicate Distinct(list: seq<nat>) {
    forall i, j :: 0 <= i < j < |list| ==> list[i] != list[j]
  }

  /** The free list names exactly the empty zones, each once. */
  ghost predicate FreeIsEmpty(p: Pool) {
    && Distinct(p.zm.freeList)
    && (forall z :: z in p.zm.freeList <==> 0 <= z < |p.dev.zones| && p.dev.zones[z].cond == D.Empty)
  }

  ghost predicate Core(s: Ztl) {
    && Config(s.base.pool, s.base.spp)
    && Pointers(s.base.pool, s.bufs)
    && AllLocated(s.base)
    && FreeIsEmpty(s.base.pool)
    && (s.curOpen ==> s.cur < |s.base.pool.dev.zones| && s.base.pool.dev.zones[s.cur].cond != D.Empty)
  }

  // ---------- data behind a segment ----------

  /** A zone as it will be once its buffer is flushed. */
  function Image(d: D.Device, bufs: Buffers, z: nat): seq<D.Sector>
    requires z < |d.zones|
  {
    if z in bufs then D.Store(d.zones[z].data, bufs[z].wp - d.Start(z), bufs[z].data) else d.zones[z].data
  }

  /** The sectors an address stands for; zeros past what exists. */
  function Behind(d: D.Device, bufs: Buffers, spp: nat, phys: PhysAddr): (r: seq<D.Sector>)
    ensures |r| == spp
  {
    var z, off := ZoneID(phys), OffsetSectors(phys);
    if IsUnmapped(phys) || z >= |d.zones| then D.Zeros(spp)
    else
      var image := Image(d, bufs, z);
      seq(spp, k requires 0 <= k < spp => if off + k < |image| then image[off + k] else D.ZERO)
  }

  function Content(s: Ztl, seg: nat): (r: seq<D.Sector>)
    ensures |r| == s.base.spp
  {
    Behind(s.base.pool.dev, s.bufs, s.base.spp, Get(s.base.l2p, seg))
  }

  // ---------- steps that move no data ----------

  /** `q` differs from `p` in zone conditions, counters and lists other than the free list at most. */
  ghost predicate Quiet(p: Pool, q: Pool) {
    && Kept(p, q)
    && D.Sane(q.dev)
    && q.zm.freeList == p.zm.freeList
    && q.zm.maxOpen == p.zm.maxOpen && q.dev.maxOpen == p.dev.maxOpen
    && (forall z :: 0 <= z < |q.zm.zones| ==>
          var i, j := q.zm.zones[z], p.zm.zones[z]; i.wp == j.wp && i.start == j.start && i.size == j.size)
    && (forall z :: 0 <= z < |q.dev.zones| ==>
          var i, j := q.dev.zones[z], p.dev.zones[z];
          i.wp == j.wp && i.data == j.data && (i.cond == D.Empty <==> j.cond == D.Empty))
  }

  lemma QuietConfig(p: Pool, q: Pool, spp: nat)
    requires Config(p, spp) && Quiet(p, q)
    ensures Config(q, spp)
  {
    hide D.Sane;
  }

  lemma QuietPointers(p: Pool, q: Pool, bufs: Buffers)
    requires |p.zm.zones| == |p.dev.zones| && Pointers(p, bufs) && Quiet(p, q)
    ensures Pointers(q, bufs)
  {
    hide D.Sane;
  }

  lemma QuietLocated(b: Base, q: Pool)
    requires |b.pool.zm.zones| == |b.pool.dev.zones| && AllLocated(b) && Quiet(b.pool, q)
    ensures AllLocated(b.(pool := q))
  {
    hide D.Sane, ZoneID, OffsetSectors;
    forall seg | 0 <= seg < |b.l2p| && b.l2p[seg] != UNMAPPED ensures Located(q, b.spp, b.l2p[seg]) {
      assert Located(b.pool, b.spp, b.l2p[seg]);
    }
  }

  lemma QuietFree(p: Pool, q: Pool)
    requires FreeIsEmpty(p) && Quiet(p, q)
    ensures FreeIsEmpty(q)
  {
    hide D.Sane;
  }

  lemma QuietContent(s: Ztl, q: Pool, seg: nat)
    requires Quiet(s.base.pool, q)
    ensures Content(s.(base := s.base.(pool := q)), seg) == Content(s, seg)
  {
    hide D.Sane, OffsetSectors, D.Store;
    BehindSame(s.base.pool.dev, q.dev, s.bufs, s.bufs, s.base.spp, Get(s.base.l2p, seg));
  }

  lemma QuietCore(s: Ztl, q: Pool)
    requires Core(s) && Quiet(s.base.pool, q)
    ensures Core(s.(base := s.base.(pool := q)))
    ensures forall seg :: Content(s.(base := s.base.(pool := q)), seg) == Content(s, seg)
  {
    hide *;
    hide Core, Content;
    QuietParts(s, q);
    forall seg: nat ensures Content(s.(base := s.base.(pool := q)), seg) == Content(s, seg) {
      QuietContent(s, q, seg);
    }
  }

  lemma QuietParts(s: Ztl, q: Pool)
    requires Core(s) && Quiet(s.base.pool, q)
    ensures Core(s.(base := s.base.(pool := q)))
  {
    hide D.Sane, Config, Pointers, AllLocated, FreeIsEmpty;
    assert Config(s.base.pool, s.base.spp);
    QuietConfig(s.base.pool, q, s.base.spp);
    assert |s.base.pool.zm.zones| == |s.base.pool.dev.zones| by { ConfigSizes(s.base.pool, s.base.spp); }
    QuietPointers(s.base.pool, q, s.bufs);
    QuietLocated(s.base, q);
    QuietFree(s.base.pool, q);
  }

  lemma ConfigSizes(p: Pool, spp: nat)
    requires Config(p, spp)
    ensures |p.zm.zones| == |p.dev.zones|
  {
  }

  /** What is behind an address depends only on the image of its zone. */
  lemma BehindSame(d: D.Device, e: D.Device, bufs: Buffers, bufs': Buffers, spp: nat, phys: PhysAddr)
    requires |d.zones| == |e.zones|
    requires ZoneID(phys) < |d.zones| ==> Image(d, bufs, ZoneID(phys)) == Image(e, bufs', ZoneID(phys))
    ensures Behind(d, bufs, spp, phys) == Behind(e, bufs', spp, phys)
  {
  }

  lemma ZoneIndexAt(d: D.Device, z: nat, off: nat)
    requires d.zoneSectors > 0 && off < d.zoneSectors
    ensures d.ZoneIndex(d.Start(z) + off) == z
    ensures (d.Start(z) + off) % d.zoneSectors == off
  {
    DivMod(z, off, d.zoneSectors);
  }
}
