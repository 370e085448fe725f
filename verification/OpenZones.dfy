/** The list of open zones, the open set and the device agree in every sequential run; from this follow the
    exact conditions under which a zone can be opened. */
module OpenZones {
  import opened Errors
  import opened Segment
  import opened Pool
  import opened Log
  import opened Ztl
  import opened Coherence
  import opened PoolSteps
  import opened FlushSteps
  import opened WriteSteps
  import opened GcSteps
  import opened Collect
  import D = Device

  /** The list and the set hold the same zones, each once and at most the limit. */
  ghost predicate Lists(zm: Manager) {
    && Distinct(zm.openList)
    && (forall z :: z in zm.openList <==> z in zm.openSet)
    && |zm.openSet| == |zm.openList| <= zm.maxOpen
  }

  /** A listed zone is open or full on the device, any other is empty or closed, and the tracked condition
      follows: a full zone is still tracked as open. */
  ghost predicate Tracks(p: Pool, z: nat)
    requires z < |p.dev.zones| && |p.zm.zones| == |p.dev.zones|
  {
    && p.zm.zones[z].start == p.dev.Start(z)
    && (z in p.zm.openSet <==> p.dev.zones[z].cond in {D.ExplicitOpen, D.Full})
    && (z !in p.zm.openSet ==> p.dev.zones[z].cond in {D.Empty, D.Closed})
    && p.zm.zones[z].cond == if z in p.zm.openSet then D.ExplicitOpen else p.dev.zones[z].cond
  }

  ghost predicate Lru(p: Pool) {
    && Listed(p)
    && D.Sane(p.dev)
    && |p.zm.zones| == |p.dev.zones|
    && p.zm.maxOpen == p.dev.maxOpen >= 1
    && Lists(p.zm)
    && forall z :: 0 <= z < |p.dev.zones| ==> Tracks(p, z)
  }

  /** The least recently used zone is full: it holds its place in the open set for good. */
  predicate Stuck(p: Pool)
    requires forall k :: 0 <= k < |p.zm.openList| ==> p.zm.openList[k] < |p.dev.zones|
  {
    && |p.zm.openSet| >= p.zm.maxOpen
    && p.zm.openList != []
    && p.dev.zones[p.zm.openList[0]].cond == D.Full
  }

  lemma {:induction false} OpenBound(zones: seq<D.Zone>, s: set<nat>)
    requires forall i :: 0 <= i < |zones| && D.IsOpen(zones[i].cond) ==> i in s
    ensures D.CountOpen(zones) <= |s|
  {
    if zones != [] {
      var n := |zones| - 1;
      OpenBound(zones[..n], s - {n});
      if D.IsOpen(zones[n].cond) {
        assert s == (s - {n}) + {n};
      } else {
        OpenBound(zones[..n], s);
      }
    }
  }

  /** The device has no more zones open than the manager lists. */
  lemma DeviceWithin(p: Pool)
    requires Lru(p)
    ensures p.dev.openCount <= |p.zm.openSet|
  {
    forall i | 0 <= i < |p.dev.zones| && D.IsOpen(p.dev.zones[i].cond) ensures i in p.zm.openSet {
      assert Tracks(p, i);
    }
    OpenBound(p.dev.zones, p.zm.openSet);
  }

  lemma StuckDefined(p: Pool)
    requires Lru(p)
    ensures forall k :: 0 <= k < |p.zm.openList| ==> p.zm.openList[k] < |p.dev.zones|
  {
  }

  /** What making room and opening leave to say about a successful allocation or reopening. */
  ghost predicate Roomy(p: Pool, q: Pool) {
    && Lru(q)
    && |q.zm.openSet| < q.zm.maxOpen
    && q.zm.freeList == p.zm.freeList
    && q.zm.maxOpen == p.zm.maxOpen && |q.dev.zones| == |p.dev.zones| && q.dev.zoneSectors == p.dev.zoneSectors
    && (forall i :: 0 <= i < |p.dev.zones| ==>
          && (q.dev.zones[i].cond == D.Full <==> p.dev.zones[i].cond == D.Full)
          && (q.dev.zones[i].cond == D.Empty <==> p.dev.zones[i].cond == D.Empty))
    && q.zm.openSet <= p.zm.openSet
  }

  /** What eviction does, spelled out. */
  lemma EvictMoves(p: Pool)
    requires Lru(p) && p.zm.openList != []
    ensures p.zm.openList[0] < |p.dev.zones|
    ensures var z, (q, r) := p.zm.openList[0], EvictOldest(p);
      if p.dev.zones[z].cond == D.Full then q == p && r != Ok
      else
        && r == Ok && D.Sane(q.dev) && p.dev.zones[z].cond == D.ExplicitOpen
        && q.zm == SetInfo(p.zm, z, p.zm.zones[z].(cond := D.Closed)).(openList := p.zm.openList[1..], openSet := p.zm.openSet - {z})
        && q.dev == p.dev.Put(z, p.dev.zones[z].(cond := D.Closed), -1)
  {
    var z := p.zm.openList[0];
    assert z in p.zm.openList;
    assert Tracks(p, z);
    ZoneIndexAt(p.dev, z, 0);
    D.PerformSane(p.dev, D.Close(p.dev.Start(z)));
  }

  lemma ListsTail(zm: Manager)
    requires Lists(zm) && zm.openList != []
    ensures Lists(zm.(openList := zm.openList[1..], openSet := zm.openSet - {zm.openList[0]}))
    ensures |zm.openSet - {zm.openList[0]}| == |zm.openSet| - 1
  {
    var l := zm.openList;
    forall i ensures i in l[1..] <==> i in zm.openSet - {l[0]} {
      assert i in l <==> i == l[0] || i in l[1..];
    }
  }

  /** Eviction takes the front of the list, unless that zone is full. */
  lemma EvictLru(p: Pool)
    requires Lru(p) && p.zm.openList != []
    ensures p.zm.openList[0] < |p.dev.zones|
    ensures var (q, r) := EvictOldest(p);
      if p.dev.zones[p.zm.openList[0]].cond == D.Full then q == p && r != Ok
      else r == Ok && Roomy(p, q) && q.zm.openList == p.zm.openList[1..]
  {
    hide EvictOldest, D.Sane;
    EvictMoves(p);
    ListsTail(p.zm);
    var z, q := p.zm.openList[0], EvictOldest(p).0;
    if p.dev.zones[z].cond != D.Full {
      forall i | 0 <= i < |q.dev.zones| ensures Tracks(q, i) {
        assert Tracks(p, i);
      }
    }
  }

  /** Room can be made exactly when the pool is not stuck. */
  lemma MakeRoomLru(p: Pool)
    requires Lru(p)
    ensures forall k :: 0 <= k < |p.zm.openList| ==> p.zm.openList[k] < |p.dev.zones|
    ensures MakeRoom(p).1 == Ok <==> !Stuck(p)
    ensures MakeRoom(p).1 == Ok ==> Roomy(p, MakeRoom(p).0)
    ensures MakeRoom(p).1 != Ok ==> MakeRoom(p).0 == p
  {
    hide Lru, EvictOldest;
    StuckDefined(p);
    LruSizes(p);
    if |p.zm.openSet| >= p.zm.maxOpen {
      EvictLru(p);
      if !Stuck(p) {
        EvictSubset(p);
      }
    }
  }

  lemma LruSizes(p: Pool)
    requires Lru(p)
    ensures Listed(p) && |p.zm.openSet| == |p.zm.openList| <= p.zm.maxOpen && p.zm.maxOpen >= 1
    ensures |p.zm.zones| == |p.dev.zones|
  {
  }

  lemma EvictSubset(p: Pool)
    requires Listed(p)
    ensures EvictOldest(p).0.zm.openSet <= p.zm.openSet
  {
  }

  /** Opening a closed or empty zone when there is room succeeds, and the zone ends the list. */
  lemma OpenLru(p: Pool, f: seq<nat>, z: nat)
    requires Lru(p) && |p.zm.openSet| < p.zm.maxOpen && z < |p.dev.zones| && z !in p.zm.openSet
    requires forall k :: 0 <= k < |f| ==> f[k] < |p.zm.zones|
    ensures var (d, r) := D.OpenZone(p.dev, p.zm.zones[z].start);
      && r == Ok
      && Lru(Pool(Opened(p.zm.(freeList := f), z), d))
      && d.zones[z].cond == D.ExplicitOpen
      && |d.zones| == |p.dev.zones|
      && forall i :: 0 <= i < |d.zones| && i != z ==> d.zones[i] == p.dev.zones[i]
  {
    hide D.Sane, D.OpenZone;
    DeviceWithin(p);
    assert Tracks(p, z);
    OpenAtStart(p.dev, z);
    OpenLockedMoves(p.dev, z, true);
    ListsPush(p.zm, z);
    var q := Pool(Opened(p.zm.(freeList := f), z), D.OpenZone(p.dev, p.zm.zones[z].start).0);
    assert D.OpenLocked(p.dev, z, true).1 == Ok;
    hide D.OpenLocked, Lists;
    OpenTracks(p, q, z);
  }

  lemma OpenTracks(p: Pool, q: Pool, z: nat)
    requires z < |p.dev.zones| && |p.zm.zones| == |p.dev.zones| == |q.dev.zones| && q.dev.zoneSectors == p.dev.zoneSectors
    requires forall i :: 0 <= i < |p.dev.zones| ==> Tracks(p, i)
    requires q.zm.zones == p.zm.zones[z := p.zm.zones[z].(cond := D.ExplicitOpen)] && q.zm.openSet == p.zm.openSet + {z}
    requires q.dev.zones[z].cond == D.ExplicitOpen
    requires forall i :: 0 <= i < |p.dev.zones| && i != z ==> q.dev.zones[i] == p.dev.zones[i]
    ensures forall i :: 0 <= i < |q.dev.zones| ==> Tracks(q, i)
  {
    forall i | 0 <= i < |q.dev.zones| ensures Tracks(q, i) {
      assert Tracks(p, i);
    }
  }

  lemma ListsPush(zm: Manager, z: nat)
    requires Lists(zm) && |zm.openSet| < zm.maxOpen && z !in zm.openSet
    ensures Lists(zm.(openList := zm.openList + [z], openSet := zm.openSet + {z}))
  {
    var l := zm.openList + [z];
    forall i ensures i in l <==> i in zm.openSet + {z} {
      assert i in l <==> i in zm.openList || i == z;
    }
  }

  /** A zone can be allocated exactly when one is free and the pool is not stuck. */
  lemma AllocateFreeLru(p: Pool)
    requires Lru(p) && FreeIsEmpty(p)
    ensures forall k :: 0 <= k < |p.zm.openList| ==> p.zm.openList[k] < |p.dev.zones|
    ensures AllocateFree(p).1.Success? <==> p.zm.freeList != [] && !Stuck(p)
    ensures AllocateFree(p).1.Failure? ==> AllocateFree(p).0 == p
    ensures Lru(AllocateFree(p).0)
  {
    hide Stuck, Lru, D.Sane, D.OpenZone;
    StuckDefined(p);
    MakeRoomLru(p);
    LruSizes(p);
    if p.zm.freeList != [] && !Stuck(p) {
      var q := MakeRoom(p).0;
      var last := |q.zm.freeList| - 1;
      var z := q.zm.freeList[last];
      assert z in p.zm.freeList;
      LruSizes(q);
      EmptyUnlisted(q, z);
      OpenLru(q, q.zm.freeList[..last], z);
    }
  }

  lemma EmptyUnlisted(p: Pool, z: nat)
    requires Lru(p) && z < |p.dev.zones| && p.dev.zones[z].cond == D.Empty
    ensures z !in p.zm.openSet
  {
    assert Tracks(p, z);
  }

  lemma {:induction false} WithoutMembers(list: seq<nat>, z: nat)
    requires Distinct(list)
    ensures Distinct(Without(list, z))
    ensures forall i :: i in Without(list, z) <==> i in list && i != z
    ensures |Without(list, z)| == |list| - (if z in list then 1 else 0)
  {
    if list != [] {
      assert list == [list[0]] + list[1..];
      if list[0] == z {
        assert z !in list[1..];
      } else {
        WithoutMembers(list[1..], z);
        assert Without(list, z) == [list[0]] + Without(list[1..], z);
        assert list[0] !in list[1..];
      }
    }
  }

  /** A zone in use can be made ready for writing exactly when it is open already or the pool is not stuck. */
  lemma GetOrOpenLru(p: Pool, z: nat)
    requires Lru(p) && z < |p.dev.zones| && p.dev.zones[z].cond != D.Empty
    ensures forall k :: 0 <= k < |p.zm.openList| ==> p.zm.openList[k] < |p.dev.zones|
    ensures GetOrOpen(p, z).1 == Ok <==> z in p.zm.openSet || !Stuck(p)
    ensures Lru(GetOrOpen(p, z).0)
    ensures GetOrOpen(p, z).1 == Ok ==> z in GetOrOpen(p, z).0.zm.openSet
  {
    hide Stuck, Lru, D.Sane, D.OpenZone;
    StuckDefined(p);
    MakeRoomLru(p);
    LruSizes(p);
    if z in p.zm.openSet {
      TouchedLru(p, z);
    } else if !Stuck(p) {
      var q := MakeRoom(p).0;
      LruSizes(q);
      OpenLru(q, q.zm.freeList, z);
    }
  }

  lemma TouchedLru(p: Pool, z: nat)
    requires Lru(p) && z in p.zm.openSet
    ensures Lru(p.(zm := p.zm.(openList := Without(p.zm.openList, z) + [z])))
  {
    hide D.Sane, Lists;
    var q := p.(zm := p.zm.(openList := Without(p.zm.openList, z) + [z]));
    ListsTouch(p.zm, z);
    ListsWithin(p.zm, q.zm);
    forall i | 0 <= i < |q.dev.zones| ensures Tracks(q, i) {
      assert Tracks(p, i);
    }
  }

  lemma ListsTouch(zm: Manager, z: nat)
    requires Lists(zm) && z in zm.openSet
    ensures Lists(zm.(openList := Without(zm.openList, z) + [z]))
  {
    WithoutMembers(zm.openList, z);
    var l := Without(zm.openList, z) + [z];
    forall i ensures i in l <==> i in zm.openSet {
      assert i in l <==> i in Without(zm.openList, z) || i == z;
    }
  }

  /** Two lists of the same zones are both within bounds or neither is. */
  lemma ListsWithin(zm: Manager, zm': Manager)
    requires Lists(zm) && Lists(zm') && zm'.openSet == zm.openSet
    requires forall k :: 0 <= k < |zm.openList| ==> zm.openList[k] < |zm.zones|
    ensures forall k :: 0 <= k < |zm'.openList| ==> zm'.openList[k] < |zm.zones|
  {
    forall k | 0 <= k < |zm'.openList| ensures zm'.openList[k] < |zm.zones| {
      assert zm'.openList[k] in zm.openList;
    }
  }

  /** Advancing an open zone: it stays open or becomes full, and keeps its place. */
  lemma WroteLru(p: Pool, q: Pool, z: nat, data: seq<D.Sector>)
    requires Lru(p) && z < |p.dev.zones| && p.dev.zones[z].cond == D.ExplicitOpen
    requires Wrote(p.dev, q.dev, z, data) && SameLists(p.zm, q.zm)
    ensures Lru(q)
  {
    hide D.Store, D.Sane;
    assert D.SaneZone(q.dev, z) by { SaneAt(q.dev, z); }
    assert Lists(q.zm) by { SameListsLists(p.zm, q.zm); }
    forall i | 0 <= i < |q.dev.zones| ensures Tracks(q, i) {
      assert Tracks(p, i);
    }
  }

  /** Lists, limit, starts and conditions are the same; pointers and counters may differ. */
  ghost predicate SameLists(zm: Manager, zm': Manager) {
    && zm'.freeList == zm.freeList && zm'.openList == zm.openList && zm'.openSet == zm.openSet && zm'.maxOpen == zm.maxOpen
    && |zm'.zones| == |zm.zones|
    && forall i :: 0 <= i < |zm.zones| ==> zm'.zones[i].start == zm.zones[i].start && zm'.zones[i].cond == zm.zones[i].cond
  }

  lemma SameListsLru(p: Pool, q: Pool)
    requires Lru(p) && SameLists(p.zm, q.zm) && q.dev == p.dev
    ensures Lru(q)
  {
    hide D.Sane;
    forall i | 0 <= i < |q.dev.zones| ensures Tracks(q, i) {
      assert Tracks(p, i);
    }
  }

  /** A buffered zone's flush succeeds exactly when the zone can be made ready. */
  lemma FlushZoneLru(s: Ztl, z: nat)
    requires Core(s) && Lru(s.base.pool) && z in s.bufs
    ensures forall k :: 0 <= k < |s.base.pool.zm.openList| ==> s.base.pool.zm.openList[k] < |s.base.pool.dev.zones|
    ensures FlushZone(s.bufs, s.base.pool, z).2 == Ok <==> z in s.base.pool.zm.openSet || !Stuck(s.base.pool)
    ensures FlushZone(s.bufs, s.base.pool, z).2 == Ok ==> Lru(FlushZone(s.bufs, s.base.pool, z).1)
  {
    hide D.Sane, D.WriteSectors, GetOrOpen, AllLocated, FreeIsEmpty, Lru;
    var p, b := s.base.pool, s.bufs[z];
    GetOrOpenLru(p, z);
    GetOrOpenQuiet(p, s.base.spp, z);
    var (q, ready) := GetOrOpen(p, z);
    if ready == Ok {
      assert q.dev.End(z) == p.dev.End(z);
      WriteAtPointer(q.dev, z, b.data);
      OpenNotFull(q, z);
      var (d, r) := D.WriteSectors(q.dev, b.wp, b.data);
      LruSizes(q);
      WroteLru(q, Pool(UpdateWritePointer(q.zm, z, b.wp + |b.data|), d), z, b.data);
    }
  }

  lemma OpenNotFull(p: Pool, z: nat)
    requires Lru(p) && z < |p.dev.zones| && z in p.zm.openSet && p.dev.zones[z].wp < p.dev.End(z)
    ensures p.dev.zones[z].cond == D.ExplicitOpen
  {
    assert D.SaneZone(p.dev, z);
    assert Tracks(p, z);
  }

  // ---------- operations ----------

  lemma CountersLru(p: Pool, zm': Manager)
    requires Lru(p) && SameLists(p.zm, zm')
    ensures Lru(p.(zm := zm'))
  {
    SameListsLru(p, p.(zm := zm'));
  }

  lemma GetWriteZoneLru(s: Ztl)
    requires Core(s) && Lru(s.base.pool)
    ensures Lru(GetWriteZone(s).0.base.pool)
  {
    hide Lru;
    AllocateFreeLru(s.base.pool);
  }

  lemma WriteSegmentLru(s: Ztl, seg: nat, data: seq<D.Sector>)
    requires Core(s) && Lru(s.base.pool) && seg < |s.base.l2p| && |data| == s.base.spp
    requires WriteSegment(s, seg, data).1 == Ok
    ensures Lru(WriteSegment(s, seg, data).0.base.pool)
  {
    hide Core, Lru, Content, WriteInto, GetWriteZone, Writable;
    CoreReady(s);
    GetWriteZoneCore(s);
    GetWriteZoneLru(s);
    var (s1, zone) := GetWriteZone(s);
    var z := zone.value;
    WritableExists(s1, z);
    CoreReady(s1);
    WriteIntoMoves(s1, z, seg, data);
    WriteIntoCore(s1, z, seg, data);
    var s2 := WriteInto(s1, z, seg, data).0;
    CountersLru(s1.base.pool, s2.base.pool.zm);
    if z in s2.bufs {
      FlushZoneLru(s2, z);
    }
  }

  lemma {:induction false} FlushEachLru(s: Ztl, zones: seq<nat>)
    requires Core(s) && Lru(s.base.pool) && FlushEach(s.bufs, s.base.pool, zones).2 == Ok
    ensures Lru(FlushState(s, zones).base.pool)
  {
    hide Core, Lru, Content, FlushZone;
    CoreReady(s);
    if zones != [] {
      var last := |zones| - 1;
      FlushEachLru(s, zones[..last]);
      FlushEachCore(s, zones[..last]);
      var m := FlushState(s, zones[..last]);
      CoreReady(m);
      if zones[last] in m.bufs {
        FlushZoneLru(m, zones[last]);
      } else {
        FlushNothing(m, zones[last]);
      }
    }
  }

  lemma FlushNothing(s: Ztl, z: nat)
    requires Ready(s.base) && z !in s.bufs
    ensures FlushZone(s.bufs, s.base.pool, z) == (s.bufs, s.base.pool, Ok)
  {
  }

  lemma {:induction false} UnmapRangeLru(s: Ztl, first: nat, end: nat)
    requires Ready(s.base) && Lru(s.base.pool)
    ensures Lru(UnmapRange(s.base, first, end).pool)
    decreases end - first
  {
    hide Lru;
    if first < end {
      UnmapRangeLru(s, first, end - 1);
      var m := UnmapRange(s.base, first, end - 1);
      UnmapSegmentLists(m, end - 1);
      CountersLru(m.pool, UnmapSegment(m, end - 1).pool.zm);
    }
  }

  lemma UnmapSegmentLists(b: Base, seg: nat)
    requires Ready(b)
    ensures SameLists(b.pool.zm, UnmapSegment(b, seg).pool.zm)
    ensures UnmapSegment(b, seg).pool.dev == b.pool.dev
  {
    hide ZoneID, OffsetSectors, EncodePhysAddr;
  }

  /** A migration fails only for want of a zone, and then it changes nothing. */
  lemma MigrateSegmentLru(s: Ztl, victim: nat, seg: nat, off: nat)
    requires Core(s) && Lru(s.base.pool) && StillThere(s.base, victim, seg, off)
    ensures forall k :: 0 <= k < |s.base.pool.zm.openList| ==> s.base.pool.zm.openList[k] < |s.base.pool.dev.zones|
    ensures MigrateSegment(s.base, victim, seg, off).1 == Ok <==> s.base.pool.zm.freeList != [] && !Stuck(s.base.pool)
    ensures MigrateSegment(s.base, victim, seg, off).1 != Ok ==> MigrateSegment(s.base, victim, seg, off).0 == s.base
    ensures Lru(MigrateSegment(s.base, victim, seg, off).0.pool)
  {
    hide Core, Lru, Content, Behind, Fetch, Claim, Copy, Swap, EncodePhysAddr, Located, Untouched, Quiet, Direct, Config, Held, Copied, Allocated, Stuck;
    CoreReady(s);
    var b := s.base;
    CoreFree(s);
    AllocateFreeLru(b.pool);
    var from := b.l2p[seg];
    MappedLocated(s, seg);
    FetchReads(s, victim, from);
    var data := Behind(b.pool.dev, NOTHING, b.spp, from);
    ClaimCore(s, seg, from, data);
    ClaimPool(b, seg, from, data);
    var (b1, claim) := Claim(b, seg, from, data);
    if claim.Success? {
      var m := claim.value;
      var s1 := s.(base := b1);
      CoreReady(s1);
      var s2 := s1.(base := Announce(b1, m));
      LogOnly(s1, s2.base.log);
      HeldAfterLog(s1, s2, m);
      CopyCore(s2, m);
      var b3 := Copy(s2.base, m).0;
      CopyPoolOnly(s2.base, m);
      ClaimedOpen(b.pool, b1.pool, m.zone);
      CopyLru(b1.pool, b3.pool, m.zone, m.data);
      SwapLists(b3, m);
      CountersLru(b3.pool, Swap(b3, m).pool.zm);
    }
  }

  lemma CoreFree(s: Ztl)
    requires Core(s)
    ensures FreeIsEmpty(s.base.pool)
  {
  }

  lemma ClaimPool(b: Base, seg: nat, from: PhysAddr, data: seq<D.Sector>)
    requires Ready(b)
    ensures Claim(b, seg, from, data).0 == b.(pool := AllocateFree(b.pool).0)
    ensures Claim(b, seg, from, data).1.Success? <==> AllocateFree(b.pool).1.Success?
  {
  }

  lemma ClaimedOpen(p: Pool, q: Pool, z: nat)
    requires Allocated(p, q, z)
    ensures z < |q.dev.zones| && q.dev.zones[z].cond == D.ExplicitOpen
  {
  }

  lemma CopyLru(p: Pool, q: Pool, z: nat, data: seq<D.Sector>)
    requires Lru(p) && z < |p.dev.zones| && p.dev.zones[z].cond == D.ExplicitOpen && Direct(p, q, z, data)
    ensures Lru(q)
  {
    hide Lru, Wrote;
    WroteLru(p, q, z, data);
  }

  lemma SwapLists(b: Base, m: Move)
    ensures SameLists(b.pool.zm, Swap(b, m).pool.zm) && Swap(b, m).pool.dev == b.pool.dev
  {
    hide ZoneID, OffsetSectors;
  }

  lemma {:induction false} MigrateAllLru(s: Ztl, victim: nat, live: seq<(nat, nat)>)
    requires Core(s) && Ready(s.base) && Lru(s.base.pool)
    requires forall k :: 0 <= k < |live| ==> StillThere(s.base, victim, live[k].0, live[k].1)
    requires forall i, j :: 0 <= i < j < |live| ==> live[i].0 != live[j].0
    requires MigrateAll(s.base, victim, live).1 == Ok
    ensures Lru(MigrateAll(s.base, victim, live).0.pool)
  {
    hide Core, Lru, Content, MigrateSegment, Behind, EncodePhysAddr, ZoneID, OffsetSectors;
    if live != [] {
      var n := |live| - 1;
      MigrateAllLru(s, victim, live[..n]);
      MigrateAllCore(s, victim, live[..n]);
      var c := MigrateAll(s.base, victim, live[..n]).0;
      assert live[n].0 !in Segs(live[..n]);
      assert Get(c.l2p, live[n].0) == Get(s.base.l2p, live[n].0);
      MigrateSegmentLru(s.(base := c), victim, live[n].0, live[n].1);
    }
  }

  /** A batch of migrations that is refused ends as the successful one of those before the refusal. */
  lemma {:induction false} MigrateAllRefused(s: Ztl, victim: nat, live: seq<(nat, nat)>) returns (k: nat)
    requires Core(s) && Ready(s.base) && Lru(s.base.pool)
    requires forall k :: 0 <= k < |live| ==> StillThere(s.base, victim, live[k].0, live[k].1)
    requires forall i, j :: 0 <= i < j < |live| ==> live[i].0 != live[j].0
    requires MigrateAll(s.base, victim, live).1 != Ok
    ensures k < |live| && MigrateAll(s.base, victim, live[..k]).1 == Ok
    ensures MigrateAll(s.base, victim, live).0 == MigrateAll(s.base, victim, live[..k]).0
  {
    hide Core, Lru, Content, MigrateSegment, Behind, EncodePhysAddr, ZoneID, OffsetSectors;
    var n := |live| - 1;
    if MigrateAll(s.base, victim, live[..n]).1 != Ok {
      k := MigrateAllRefused(s, victim, live[..n]);
      assert live[..n][..k] == live[..k];
    } else {
      k := n;
      MigrateAllCore(s, victim, live[..n]);
      MigrateAllLru(s, victim, live[..n]);
      var c := MigrateAll(s.base, victim, live[..n]).0;
      assert live[n].0 !in Segs(live[..n]);
      assert Get(c.l2p, live[n].0) == Get(s.base.l2p, live[n].0);
      MigrateSegmentLru(s.(base := c), victim, live[n].0, live[n].1);
    }
  }

  lemma ListsWithout(zm: Manager, z: nat)
    requires Lists(zm)
    ensures Lists(Closing(zm, z))
    ensures z !in Closing(zm, z).openSet
    ensures forall i :: i != z ==> (i in Closing(zm, z).openSet <==> i in zm.openSet)
  {
    WithoutMembers(zm.openList, z);
    if z in zm.openSet {
      assert |zm.openSet - {z}| == |zm.openSet| - 1;
    }
  }

  lemma ReclaimLru(s: Ztl, z: nat)
    requires Core(s) && Lru(s.base.pool) && z < |s.base.pool.dev.zones|
    ensures Lru(Reclaim(s.base, z).0.pool)
  {
    hide Core, D.Sane, Lists;
    CoreReady(s);
    ReclaimMoves(s, z);
    hide Reclaim;
    var p, q := s.base.pool, Reclaim(s.base, z).0.pool;
    var info := p.zm.zones[z];
    var zm := SetInfo(p.zm, z, info.(cond := D.Empty, wp := info.start, valid := 0, total := 0));
    assert Lists(zm) by { SameListsLists(p.zm, zm); }
    ListsWithout(zm, z);
    SameListsLists(Closing(zm, z), q.zm);
    forall i | 0 <= i < |q.dev.zones| ensures Tracks(q, i) {
      assert Tracks(p, i);
    }
  }

  lemma SameListsLists(zm: Manager, zm': Manager)
    requires Lists(zm) && zm'.openList == zm.openList && zm'.openSet == zm.openSet && zm'.maxOpen == zm.maxOpen
    ensures Lists(zm')
  {
  }

  lemma CollectZoneLru(s: Ztl, victim: nat, order: seq<nat>)
    requires Core(s) && Lru(s.base.pool) && Covers(s.base) && Ordered(s.base, victim, order)
    requires victim < |s.base.pool.dev.zones| && s.base.pool.dev.zones[victim].cond != D.Empty
    requires CollectZone(s.base, victim, order).1 == Ok
    ensures Lru(CollectZone(s.base, victim, order).0.pool)
  {
    hide Core, Lru, Content, CollectZone, MigrateAll, Gather, Reclaim, Covers, Ordered, EncodePhysAddr, ZoneID, OffsetSectors, OnDevice, NoneIn, Evacuated, Untouched;
    CoreReady(s);
    CollectUnfolds(s.base, victim, order);
    var c := s.(base := Freeze(s.base, victim));
    FrozenCore(s, c);
    CoversFrozen(s.base, victim, victim, order);
    CoreReady(c);
    CountersLru(s.base.pool, c.base.pool.zm);
    OrderDistinct(c.base, victim, order);
    GatherLive(c.base, victim, order);
    MigrateAllLru(c, victim, Gather(s.base, victim, order));
    MigrationOutcome(c, victim, order);
    var m := s.(base := MigrateAll(c.base, victim, Gather(s.base, victim, order)).0);
    var sealed := m.(base := Seal(m.base, victim));
    LogOnly(m, sealed.base.log);
    UntouchedSizes(c.base.pool, m.base.pool);
    ReclaimLru(sealed, victim);
    var r := Reclaim(sealed.base, victim).0;
    CountersLru(r.pool, Unfreeze(r, victim).pool.zm);
  }

  lemma UntouchedSizes(p: Pool, q: Pool)
    requires Untouched(p, q)
    ensures |q.dev.zones| == |p.dev.zones|
  {
  }

  // ---------- a call that the layer never makes ----------

  /** Marking a zone full finishes it on the device and gives up its place in the list, which is what a full zone
      keeps otherwise. */
  lemma MarkFullReleases(p: Pool, z: nat)
    requires Lru(p) && z < |p.zm.zones| && p.dev.zones[z].cond in {D.ExplicitOpen, D.Closed, D.Empty, D.Full}
    ensures var (q, r) := MarkFull(p, z);
      && r == Ok && q.dev.zones[z].cond == D.Full && z !in q.zm.openSet && Lists(q.zm)
      && (forall y :: y != z ==> (y in q.zm.openSet <==> y in p.zm.openSet))
      && |q.zm.openSet| == |p.zm.openSet| - (if z in p.zm.openSet then 1 else 0)
      && q.zm.zones[z].cond == D.Full && q.zm.zones[z].wp == p.zm.zones[z].start + p.zm.zones[z].size
      && (forall y :: 0 <= y < |p.zm.zones| && y != z ==> q.zm.zones[y] == p.zm.zones[y] && q.dev.zones[y] == p.dev.zones[y])
      && q.zm.freeList == p.zm.freeList
  {
    FinishesAt(p, z);
    MarkFullIs(p, z);
    var info := p.zm.zones[z];
    var zm := SetInfo(p.zm, z, info.(cond := D.Full, wp := info.start + info.size));
    SameListsLists(p.zm, zm);
    ListsWithout(zm, z);
    TakenOut(zm.openSet, z);
    hide D.FinishZone, MarkFull, D.Sane, Without, Lru, Lists, Listed;
  }

  lemma TakenOut(s: set<nat>, z: nat)
    ensures |s - {z}| == |s| - (if z in s then 1 else 0)
  {
    if z in s { assert s == (s - {z}) + {z}; } else { assert s - {z} == s; }
  }

  lemma MarkFullIs(p: Pool, z: nat)
    requires Listed(p) && z < |p.zm.zones| && D.FinishZone(p.dev, p.zm.zones[z].start).1 == Ok
    ensures var info := p.zm.zones[z];
      MarkFull(p, z) ==
        (Pool(Closing(SetInfo(p.zm, z, info.(cond := D.Full, wp := info.start + info.size)), z), D.FinishZone(p.dev, info.start).0), Ok)
  {
    hide D.FinishZone, Closing, SetInfo;
  }

  lemma FinishesAt(p: Pool, z: nat)
    requires Lru(p) && z < |p.zm.zones| && p.dev.zones[z].cond in {D.ExplicitOpen, D.Closed, D.Empty, D.Full}
    ensures var (d, r) := D.FinishZone(p.dev, p.zm.zones[z].start);
      && r == Ok && |d.zones| == |p.dev.zones| && d.zones[z].cond == D.Full
      && forall y :: 0 <= y < |p.dev.zones| && y != z ==> d.zones[y] == p.dev.zones[y]
    ensures Listed(p) && Lists(p.zm)
  {
    hide D.Sane;
    assert Tracks(p, z);
    ZoneIndexAt(p.dev, z, 0);
  }
}
