/** What allocation, reopening and eviction do to the pool: no data moves, no pointer moves, and at most one
    zone leaves the free list. */
module PoolSteps {
  import opened Errors
  import opened Segment
  import opened Pool
  import opened Ztl
  import opened Coherence
  import D = Device

  lemma OpenAtStart(d: D.Device, z: nat)
    requires d.zoneSectors > 0 && z < |d.zones|
    ensures D.OpenZone(d, d.Start(z)) == D.OpenLocked(d, z, true)
  {
    ZoneIndexAt(d, z, 0);
  }

  lemma EvictQuiet(p: Pool, spp: nat)
    requires Config(p, spp)
    ensures Quiet(p, EvictOldest(p).0)
  {
    if p.zm.openList != [] {
      var z := p.zm.openList[0];
      assert p.zm.zones[z].start == p.dev.Start(z);
      ZoneIndexAt(p.dev, z, 0);
      D.PerformSane(p.dev, D.Close(p.dev.Start(z)));
    }
  }

  lemma MakeRoomQuiet(p: Pool, spp: nat)
    requires Config(p, spp)
    ensures Quiet(p, MakeRoom(p).0)
    ensures Config(MakeRoom(p).0, spp)
  {
    hide D.Sane;
    if |p.zm.openSet| >= p.zm.maxOpen {
      EvictQuiet(p, spp);
    } else {
      assert Quiet(p, p) by { QuietRefl(p, spp); }
    }
    QuietConfig(p, MakeRoom(p).0, spp);
  }

  lemma QuietRefl(p: Pool, spp: nat)
    requires Config(p, spp)
    ensures Quiet(p, p)
  {
  }

  /** `q` is `p` with the last free zone `z` opened and off the free list. */
  ghost predicate Allocated(p: Pool, q: Pool, z: nat) {
    && Kept(p, q)
    && D.Sane(q.dev)
    && p.zm.freeList != [] && z == p.zm.freeList[|p.zm.freeList| - 1]
    && q.zm.freeList == p.zm.freeList[..|p.zm.freeList| - 1]
    && q.zm.maxOpen == p.zm.maxOpen && q.dev.maxOpen == p.dev.maxOpen
    && z < |q.dev.zones| && q.dev.zones[z].cond == D.ExplicitOpen && p.dev.zones[z].cond == D.Empty
    && (forall i :: 0 <= i < |q.zm.zones| ==>
          var a, b := q.zm.zones[i], p.zm.zones[i]; a.wp == b.wp && a.start == b.start && a.size == b.size)
    && (forall i :: 0 <= i < |q.dev.zones| ==>
          var a, b := q.dev.zones[i], p.dev.zones[i];
          a.wp == b.wp && a.data == b.data && (i != z ==> (a.cond == D.Empty <==> b.cond == D.Empty)))
  }

  lemma OpenLockedMoves(d: D.Device, z: nat, explicit: bool)
    requires D.Sane(d) && z < |d.zones|
    ensures var e := D.OpenLocked(d, z, explicit).0;
      && D.Sane(e) && e.maxOpen == d.maxOpen && e.zoneSectors == d.zoneSectors && |e.zones| == |d.zones|
      && e.zones[z].wp == d.zones[z].wp && e.zones[z].data == d.zones[z].data
      && (forall i :: 0 <= i < |d.zones| && i != z ==> e.zones[i] == d.zones[i])
      && (D.OpenLocked(d, z, explicit).1 != Ok ==> e == d)
      && (D.OpenLocked(d, z, explicit).1 == Ok ==> D.IsOpen(e.zones[z].cond) && (explicit ==> e.zones[z].cond == D.ExplicitOpen))
  {
    D.OpenLockedSane(d, z, explicit);
    assert D.SaneZone(d, z);
  }

  lemma AllocateFreeMoves(p: Pool, spp: nat)
    requires Config(p, spp) && FreeIsEmpty(p)
    ensures var (q, alloc) := AllocateFree(p);
      match alloc
      case Failure(_) => Quiet(p, q)
      case Success(z) => Allocated(p, q, z)
  {
    if p.zm.freeList == [] {
      QuietRefl(p, spp);
    } else {
      MakeRoomQuiet(p, spp);
      var (q, made) := MakeRoom(p);
      if made == Ok {
        var last := |q.zm.freeList| - 1;
        var z := q.zm.freeList[last];
        QuietFree(p, q);
        assert z in q.zm.freeList;
        OpenAtStart(q.dev, z);
        AllocateOpened(p, q, z);
      }
    }
  }

  /** The opening itself, once there is room. */
  lemma AllocateOpened(p: Pool, q: Pool, z: nat)
    requires Quiet(p, q) && |p.zm.zones| == |p.dev.zones|
    requires q.zm.freeList != [] && z == q.zm.freeList[|q.zm.freeList| - 1]
    requires z < |q.dev.zones| && q.dev.zones[z].cond == D.Empty
    ensures var (d, r) := D.OpenLocked(q.dev, z, true);
      if r != Ok then Quiet(p, Pool(q.zm, d))
      else Allocated(p, Pool(Opened(q.zm.(freeList := q.zm.freeList[..|q.zm.freeList| - 1]), z), d), z)
  {
    hide D.OpenLocked, D.Sane;
    OpenLockedMoves(q.dev, z, true);
  }

  lemma GetOrOpenQuiet(p: Pool, spp: nat, z: nat)
    requires Config(p, spp) && z < |p.dev.zones| && p.dev.zones[z].cond != D.Empty
    ensures Quiet(p, GetOrOpen(p, z).0)
  {
    hide D.OpenLocked, D.Sane;
    if z in p.zm.openSet {
    } else {
      MakeRoomQuiet(p, spp);
      var (q, made) := MakeRoom(p);
      if made == Ok {
        OpenAtStart(q.dev, z);
        OpenLockedMoves(q.dev, z, true);
      }
    }
  }

  lemma AllocatedConfig(p: Pool, q: Pool, spp: nat, z: nat)
    requires Config(p, spp) && Allocated(p, q, z)
    ensures Config(q, spp)
  {
    hide D.Sane;
  }

  lemma AllocatedPointers(p: Pool, q: Pool, z: nat, bufs: Buffers)
    requires |p.zm.zones| == |p.dev.zones| && Pointers(p, bufs) && Allocated(p, q, z)
    ensures Pointers(q, bufs)
  {
    hide D.Sane;
  }

  lemma AllocatedLocated(b: Base, q: Pool, z: nat)
    requires |b.pool.zm.zones| == |b.pool.dev.zones| && AllLocated(b) && Allocated(b.pool, q, z)
    ensures AllLocated(b.(pool := q))
  {
    hide D.Sane, ZoneID, OffsetSectors;
    forall seg | 0 <= seg < |b.l2p| && b.l2p[seg] != UNMAPPED ensures Located(q, b.spp, b.l2p[seg]) {
      assert Located(b.pool, b.spp, b.l2p[seg]);
    }
  }

  lemma AllocatedFree(p: Pool, q: Pool, z: nat)
    requires FreeIsEmpty(p) && Allocated(p, q, z)
    ensures FreeIsEmpty(q)
  {
    hide D.Sane;
    var f, last := p.zm.freeList, |p.zm.freeList| - 1;
    forall i ensures i in q.zm.freeList <==> 0 <= i < |q.dev.zones| && q.dev.zones[i].cond == D.Empty {
      assert i in f <==> i in f[..last] || i == f[last];
    }
  }

  lemma AllocatedContent(s: Ztl, q: Pool, z: nat, seg: nat)
    requires Allocated(s.base.pool, q, z)
    ensures Content(s.(base := s.base.(pool := q)), seg) == Content(s, seg)
  {
    hide D.Sane, OffsetSectors, D.Store;
    BehindSame(s.base.pool.dev, q.dev, s.bufs, s.bufs, s.base.spp, Get(s.base.l2p, seg));
  }

  /** The allocated zone may become the current write zone; the state is otherwise as good as before. */
  lemma AllocatedCore(s: Ztl, q: Pool, z: nat)
    requires Core(s) && Allocated(s.base.pool, q, z)
    ensures Core(s.(base := s.base.(pool := q)))
    ensures forall seg :: Content(s.(base := s.base.(pool := q)), seg) == Content(s, seg)
  {
    hide D.Sane, Config, Pointers, AllLocated, FreeIsEmpty;
    hide Content;
    ConfigSizes(s.base.pool, s.base.spp);
    AllocatedConfig(s.base.pool, q, s.base.spp, z);
    AllocatedPointers(s.base.pool, q, z, s.bufs);
    AllocatedLocated(s.base, q, z);
    AllocatedFree(s.base.pool, q, z);
    forall seg: nat ensures Content(s.(base := s.base.(pool := q)), seg) == Content(s, seg) {
      AllocatedContent(s, q, z, seg);
    }
  }

  /** A zone that was free has nothing buffered and starts at its first sector. */
  lemma FreeZoneBlank(s: Ztl, z: nat)
    requires Core(s) && z in s.base.pool.zm.freeList
    ensures z < |s.base.pool.dev.zones| && s.base.pool.dev.zones[z].cond == D.Empty
    ensures z !in s.bufs
    ensures s.base.pool.zm.zones[z].wp == s.base.pool.dev.zones[z].wp == s.base.pool.dev.Start(z)
    ensures forall seg :: 0 <= seg < |s.base.l2p| && s.base.l2p[seg] != UNMAPPED ==> ZoneID(s.base.l2p[seg]) != z
  {
    assert D.SaneZone(s.base.pool.dev, z);
    forall seg | 0 <= seg < |s.base.l2p| && s.base.l2p[seg] != UNMAPPED ensures ZoneID(s.base.l2p[seg]) != z {
      assert Located(s.base.pool, s.base.spp, s.base.l2p[seg]);
    }
  }
}
