/** A collection whose victim is the zone being written. Nothing keeps the collector off that zone once it is
    closed: choosing a write zone does not look at the frozen zones, and choosing a victim does not look at the
    write zone. The collection succeeds, and from then on the layer goes on writing into a zone that is on the
    free list and reset on the device. */
module WriteZone {
  import opened Arith
  import opened Errors
  import opened Segment
  import opened Pool
  import opened Log
  import opened Ztl
  import opened Coherence
  import opened PoolSteps
  import opened FlushSteps
  import opened WriteSteps
  import opened GcSteps
  import opened Collect
  import opened Bookkeeping
  import opened OpenZones
  import opened History
  import opened FlatDisk
  import opened Run
  import opened Wedge
  import D = Device

  // ---------- when the invariant survives a collection ----------

  /** A successful collection of a zone in use keeps the state coherent exactly when the zone had nothing buffered
      and was not being written. */
  lemma CoherentIff(s: Ztl, victim: nat, order: seq<nat>)
    requires Core(s) && Covers(s.base) && Ordered(s.base, victim, order)
    requires victim < |s.base.pool.dev.zones| && s.base.pool.dev.zones[victim].cond != D.Empty
    requires CollectZone(s.base, victim, order).1 == Ok
    ensures Core(s.(base := CollectZone(s.base, victim, order).0)) <==> Collectable(s, victim)
  {
    hide Content, CollectZone, Covers, Ordered, Collected, Reclaim, NoneIn, AllLocated, FreeIsEmpty, Config, D.Sane;
    if Collectable(s, victim) {
      CollectZoneCore(s, victim, order);
    } else {
      var sealed := CollectZoneEffect(s, victim, order);
      ReclaimMoves(sealed, victim);
    }
  }

  lemma InvariantIff(s: Ztl, victim: nat, order: seq<nat>)
    requires Inv(s) && Ordered(s.base, victim, order)
    requires victim < |s.base.pool.dev.zones| && s.base.pool.dev.zones[victim].cond != D.Empty
    requires Ready(s.base) && CollectZone(s.base, victim, order).1 == Ok
    ensures Inv(s.(base := CollectZone(s.base, victim, order).0)) <==> Collectable(s, victim)
  {
    hide Core, Exact, Lru, Logged, Content, CollectZone, Covers, Ordered, Collectable, Disk;
    InvReady(s);
    CoherentIff(s, victim, order);
    CollectZoneExact(s, victim, order);
    CollectZoneLru(s, victim, order);
    if Collectable(s, victim) { CollectZoneLogged(s, victim, order); }
  }

  // ---------- writing into a free zone ----------

  /** The write zone is the last free zone, and whatever was accepted for it since it was reset is only buffered. */
  ghost predicate Astray(s: Ztl) {
    var p, z := s.base.pool, s.cur;
    && Config(p, s.base.spp) && Lru(p) && FreeIsEmpty(p)
    && s.curOpen && z < |p.zm.zones|
    && p.zm.freeList != [] && p.zm.freeList[|p.zm.freeList| - 1] == z
    && p.zm.zones[z].wp == p.dev.Start(z) + Buffered(s.bufs, z) <= p.dev.End(z)
    && (z in s.bufs ==> s.bufs[z].wp == p.dev.Start(z))
  }

  /** Collecting the write zone leads there, with the whole zone still to write. */
  lemma GoesAstray(s: Ztl, victim: nat, order: seq<nat>)
    requires Inv(s) && Ready(s.base) && Ordered(s.base, victim, order) && CollectZone(s.base, victim, order).1 == Ok
    requires s.curOpen && s.cur == victim && victim !in s.bufs
    ensures var t := s.(base := CollectZone(s.base, victim, order).0);
      Astray(t) && Remaining(t) == t.base.pool.dev.zoneSectors
  {
    hide Core, Exact, Lru, Logged, Content, CollectZone, Covers, Ordered, Collected, Reclaim, NoneIn, D.Sane;
    InvReady(s);
    WriteZoneInUse(s);
    var sealed := CollectZoneEffect(s, victim, order);
    CollectZoneLru(s, victim, order);
    ReclaimMoves(sealed, victim);
    CoreConfig(sealed);
    CoreFree(sealed);
    var q := Reclaim(sealed.base, victim).0.pool;
    RecycledConfig(sealed.base.pool, q, s.base.spp, victim);
    RecycledFree(sealed.base.pool, q, victim);
    Unfrozen(Reclaim(sealed.base, victim).0, s.base.spp, victim);
  }

  lemma WriteZoneInUse(s: Ztl)
    requires Core(s) && s.curOpen
    ensures s.cur < |s.base.pool.dev.zones| && s.base.pool.dev.zones[s.cur].cond != D.Empty
  {
  }

  lemma Unfrozen(b: Base, spp: nat, z: nat)
    requires Config(b.pool, spp) && FreeIsEmpty(b.pool)
    ensures Config(Unfreeze(b, z).pool, spp) && FreeIsEmpty(Unfreeze(b, z).pool)
  {
    hide D.Sane;
  }

  /** While there is room writes are accepted, but the zone stays on the free list and empty on the device. */
  lemma AstrayAccepts(s: Ztl, seg: nat, data: seq<D.Sector>)
    requires Astray(s) && Ready(s.base) && Remaining(s) > s.base.spp && seg < |s.base.l2p| && |data| == s.base.spp
    ensures var (t, r) := WriteSegment(s, seg, data);
      && r == Ok && Astray(t) && t.cur == s.cur && Remaining(t) == Remaining(s) - s.base.spp
      && t.base.pool.dev == s.base.pool.dev && t.base.pool.zm.freeList == s.base.pool.zm.freeList
      && t.base.l2p == s.base.l2p[seg := NextAddr(s.base.pool.zm, s.cur)]
      && (StuckPool(t.base.pool) <==> StuckPool(s.base.pool))
      && s.cur in t.bufs && t.bufs[s.cur].data == (if s.cur in s.bufs then s.bufs[s.cur].data else []) + data
  {
    hide WriteInto, NextAddr, FlushZone, Lru, D.Sane;
    assert GetWriteZone(s) == (s, Success(s.cur));
    WriteIntoMoves(s, s.cur, seg, data);
    var t := WriteInto(s, s.cur, seg, data).0;
    AcceptedConfig(s.base.pool, t.base.pool.zm, s.base.spp, s.cur, |data|);
    CountersLru(s.base.pool, t.base.pool.zm);
  }

  /** When the room runs out the next allocation, unless the layer is stuck, hands out the same zone again, with the
      pointer where it was; the write goes past its end, the flush is refused, and everything accepted for the zone
      since its reset is gone, without a crash. */
  lemma AstrayLoses(s: Ztl, seg: nat, data: seq<D.Sector>)
    requires Astray(s) && Ready(s.base) && Remaining(s) < s.base.spp && seg < |s.base.l2p| && |data| == s.base.spp
    requires !StuckPool(s.base.pool)
    ensures var (t, r) := WriteSegment(s, seg, data);
      && r == CrossesZone && t.cur == s.cur && s.cur !in t.bufs
      && t.base.l2p == s.base.l2p[seg := NextAddr(s.base.pool.zm, s.cur)] && t.base.spp == s.base.spp
      && Config(t.base.pool, t.base.spp)
      && t.base.pool.dev.zones[s.cur].data == D.Zeros(t.base.pool.dev.zoneSectors)
      && forall i :: InZone(t.base, i, s.cur) ==> Content(t, i) == D.Zeros(s.base.spp)
  {
    hide Lru, D.Sane, AllocateFree, WriteInto, NextAddr, ZoneID, OffsetSectors, Stuck, Content, FlushZone;
    var p, z := s.base.pool, s.cur;
    AllocateFreeLru(p);
    AllocateFreeMoves(p, s.base.spp);
    var q := AllocateFree(p).0;
    AllocatedConfig(p, q, s.base.spp, z);
    assert z < |q.dev.zones|;
    var s1 := GetWriteZone(s).0;
    WriteIntoMoves(s1, z, seg, data);
    var s2 := WriteInto(s1, z, seg, data).0;
    AcceptedConfig(q, s2.base.pool.zm, s.base.spp, z, |data|);
    NextAddrSame(p.zm, q.zm, z);
    EmptyBlank(p.dev, z);
    ListedOpen(q, z);
    RefusedPastEnd(s2, z);
    var t := WriteSegment(s, seg, data).0;
    forall i | InZone(t.base, i, z) ensures Content(t, i) == D.Zeros(s.base.spp) {
      BlankBehind(t, z, i);
    }
  }

  /** The pointer is then past the end of the zone, and the zone is kept for the next write all the same. */
  lemma AstrayStays(s: Ztl, seg: nat, data: seq<D.Sector>)
    requires Astray(s) && Ready(s.base) && Remaining(s) < s.base.spp && seg < |s.base.l2p| && |data| == s.base.spp
    requires !StuckPool(s.base.pool)
    ensures var t := WriteSegment(s, seg, data).0;
      && s.cur < |t.base.pool.zm.zones|
      && t.base.pool.zm.zones[s.cur].wp > t.base.pool.zm.zones[s.cur].start + t.base.pool.zm.zones[s.cur].size
      && Ready(t.base) && GetWriteZone(t) == (t, Success(s.cur))
  {
    hide Lru, D.Sane, AllocateFree, WriteInto, NextAddr, ZoneID, OffsetSectors, Stuck, FlushZone;
    var p, z := s.base.pool, s.cur;
    AstrayLoses(s, seg, data);
    AllocateFreeLru(p);
    AllocateFreeMoves(p, s.base.spp);
    var q := AllocateFree(p).0;
    AllocatedConfig(p, q, s.base.spp, z);
    var s1 := GetWriteZone(s).0;
    WriteIntoMoves(s1, z, seg, data);
    var s2 := WriteInto(s1, z, seg, data).0;
    AcceptedConfig(q, s2.base.pool.zm, s.base.spp, z, |data|);
    EmptyBlank(p.dev, z);
    ListedOpen(q, z);
    RefusedPastEnd(s2, z);
    hide GetWriteZone, Config;
    KeptPastEnd(WriteSegment(s, seg, data).0);
  }

  /** Past the end of the write zone the room left, an unsigned number, wraps around, so the zone is kept. */
  lemma KeptPastEnd(s: Ztl)
    requires Config(s.base.pool, s.base.spp) && s.curOpen && s.cur < |s.base.pool.zm.zones|
    requires s.base.pool.dev.End(s.cur) < s.base.pool.zm.zones[s.cur].wp <= s.base.pool.dev.End(s.cur) + s.base.spp
    ensures Ready(s.base) && GetWriteZone(s) == (s, Success(s.cur))
  {
    hide D.Sane, AllocateFree;
  }

  lemma NextAddrSame(zm: Manager, zm': Manager, z: nat)
    requires z < |zm.zones| == |zm'.zones| && zm'.zones[z].wp == zm.zones[z].wp && zm'.zones[z].start == zm.zones[z].start
    ensures NextAddr(zm', z) == NextAddr(zm, z)
  {
  }

  lemma ListedOpen(p: Pool, z: nat)
    requires Lru(p) && z < |p.dev.zones| && p.dev.zones[z].cond == D.ExplicitOpen
    ensures z in p.zm.openSet
  {
    assert Tracks(p, z);
  }

  lemma EmptyBlank(d: D.Device, z: nat)
    requires D.Sane(d) && z < |d.zones| && d.zones[z].cond == D.Empty
    ensures d.zones[z].wp == d.Start(z) && d.zones[z].data == D.Zeros(d.zoneSectors)
  {
    assert D.SaneZone(d, z);
  }

  /** The flush of more than fits into an open zone. */
  lemma RefusedPastEnd(s: Ztl, z: nat)
    requires Ready(s.base) && z < |s.base.pool.dev.zones| && z in s.bufs && z in s.base.pool.zm.openSet && z < |s.base.pool.zm.zones|
    requires s.base.pool.dev.zones[z].cond == D.ExplicitOpen && s.base.pool.dev.zones[z].wp == s.base.pool.dev.Start(z)
    requires s.bufs[z].wp == s.base.pool.dev.Start(z) && |s.bufs[z].data| > s.base.pool.dev.zoneSectors
    ensures var (bufs, q, r) := FlushZone(s.bufs, s.base.pool, z);
      && r == CrossesZone && bufs == s.bufs - {z} && q.dev == s.base.pool.dev && q.zm.zones == s.base.pool.zm.zones
      && (Config(s.base.pool, s.base.spp) ==> Config(q, s.base.spp))
  {
    ZoneIndexAt(s.base.pool.dev, z, 0);
  }

  lemma BlankBehind(s: Ztl, z: nat, seg: nat)
    requires z < |s.base.pool.dev.zones| && z !in s.bufs && InZone(s.base, seg, z)
    requires s.base.pool.dev.zones[z].data == D.Zeros(s.base.pool.dev.zoneSectors)
    ensures Content(s, seg) == D.Zeros(s.base.spp)
  {
    hide ZoneID, OffsetSectors;
  }
}