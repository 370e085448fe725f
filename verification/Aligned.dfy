/** Zones that hold a whole number of segments, as in the default configuration. Every zone is then filled to its
    end before the next is taken, so no zone is ever closed, no collection ever has a victim, no flush is ever
    refused, and over its whole life the layer accepts exactly as many sectors as the zones that may be open hold.
    The law of the disk needs no condition on states here. */
module Aligned {
  import opened Arith
  import opened Errors
  import opened Segment
  import opened Pool
  import opened Log
  import opened Ztl
  import opened Coherence
  import opened PoolSteps
  import opened FlushSteps
  import opened WriteSteps
  import opened GcSteps
  import opened Collect
  import opened Bookkeeping
  import opened OpenZones
  import opened History
  import opened FlatDisk
  import opened Run
  import D = Device

  /** Zones are taken from the end of the free list, one after the other, each filled before the next. */
  ghost predicate Filling(s: Ztl) {
    var p := s.base.pool;
    && p.dev.zoneSectors > 0 && s.base.spp > 0 && p.dev.zoneSectors % s.base.spp == 0
    && |p.zm.zones| == |p.dev.zones|
    && (forall z :: 0 <= z < |p.dev.zones| ==> InTurn(s, z))
    && (s.curOpen ==> s.cur < |p.dev.zones| && p.dev.zones[s.cur].cond == D.ExplicitOpen)
    && (forall i :: 0 <= i < |p.zm.freeList| ==> p.zm.freeList[i] == i)
    && |p.zm.freeList| + |p.zm.openSet| == |p.dev.zones|
  }

  /** A zone is empty or full, or the one being filled, which has room. */
  ghost predicate InTurn(s: Ztl, z: nat)
    requires z < |s.base.pool.dev.zones| && |s.base.pool.zm.zones| == |s.base.pool.dev.zones|
  {
    var p := s.base.pool;
    p.dev.zones[z].cond in {D.Empty, D.Full} ||
    (p.dev.zones[z].cond == D.ExplicitOpen && s.curOpen && s.cur == z && p.zm.zones[z].wp < p.dev.End(z))
  }

  // ---------- no zone is closed ----------

  /** No zone is ever a candidate for collection. */
  lemma NoVictimFilling(s: Ztl)
    requires Inv(s) && Filling(s)
    ensures SelectGCVictim(s.base.pool.zm).Failure?
  {
    hide Core, Exact, Logged, D.Sane;
    var p := s.base.pool;
    forall v | 0 <= v < |p.zm.zones| ensures !Candidate(p.zm, v) {
      assert Tracks(p, v) && InTurn(s, v);
    }
  }

  lemma EmergencyFilling(s: Ztl, reserve: int, orders: seq<seq<nat>>)
    requires Inv(s) && Filling(s) && Ready(s.base)
    ensures RunEmergencyGC(s.base, reserve, orders).0 == s.base && EmergencyHarmless(s, reserve, orders)
    ensures RunEmergencyGC(s.base, reserve, orders).1 == Ok <==> |s.base.pool.zm.freeList| >= reserve
  {
    hide Inv, Filling, SelectGCVictim, CollectZone;
    NoVictimFilling(s);
    VictimErrors(s.base.pool.zm);
  }

  /** Only the zone being filled has anything buffered. */
  lemma BufferedIsCurrent(s: Ztl, z: nat)
    requires Inv(s) && Filling(s) && z in s.bufs
    ensures s.curOpen && s.cur == z && z < |s.base.pool.dev.zones| && z in s.base.pool.zm.openSet
  {
    hide Exact, Logged, D.Sane, AllLocated, FreeIsEmpty;
    var p := s.base.pool;
    SaneAt(p.dev, z);
    assert InTurn(s, z) && Tracks(p, z);
  }

  // ---------- choosing the write zone ----------

  lemma RoomLeft(q: nat, n: nat, spp: nat, size: nat)
    requires spp > 0 && size % spp == 0 && q * spp < size && n == size - q * spp
    ensures n >= spp
  {
    DivBounds(size, spp);
    if size / spp <= q { MulMono(size / spp, q, spp); }
    MulGap(q, size / spp, spp);
  }

  /** The zone being filled always has room for a segment. */
  lemma CurrentHasRoom(s: Ztl)
    requires Inv(s) && Filling(s) && s.curOpen
    ensures s.cur < |s.base.pool.zm.zones| == |s.base.pool.dev.zones| && Remaining(s) >= s.base.spp
    ensures s.base.pool.zm.zones[s.cur].wp + s.base.spp <= s.base.pool.dev.End(s.cur)
  {
    hide Logged, Lru, D.Sane, Covers, ReverseExact, MappedIn, AllLocated, FreeIsEmpty, Pointers;
    var p := s.base.pool;
    assert InTurn(s, s.cur);
    assert Counted(s.base, s.cur);
    var info := p.zm.zones[s.cur];
    assert info.start == p.dev.Start(s.cur) && info.size == p.dev.zoneSectors;
    RoomLeft(info.total, Remaining(s), s.base.spp, p.dev.zoneSectors);
  }

  /** With no zone being filled all listed zones are full, so no room can be made: a zone is found exactly when
      fewer zones are listed than may be open and one is free. */
  lemma AllListedFull(s: Ztl)
    requires Inv(s) && Filling(s) && !s.curOpen
    ensures forall z :: z in s.base.pool.zm.openSet && z < |s.base.pool.dev.zones| ==> s.base.pool.dev.zones[z].cond == D.Full
    ensures forall k :: 0 <= k < |s.base.pool.zm.openList| ==> s.base.pool.zm.openList[k] < |s.base.pool.dev.zones|
    ensures Stuck(s.base.pool) <==> |s.base.pool.zm.openSet| >= s.base.pool.zm.maxOpen
  {
    hide Core, Exact, Logged, D.Sane;
    var p := s.base.pool;
    StuckDefined(p);
    forall z | z in p.zm.openSet && z < |p.dev.zones| ensures p.dev.zones[z].cond == D.Full {
      assert Tracks(p, z) && InTurn(s, z);
    }
    if |p.zm.openSet| >= p.zm.maxOpen {
      assert p.zm.openList[0] in p.zm.openList;
    }
  }

  /** The state with a new zone to fill. */
  lemma AllocateFilling(s: Ztl)
    requires Inv(s) && Filling(s) && !s.curOpen && Ready(s.base)
    requires s.base.pool.zm.freeList != [] && |s.base.pool.zm.openSet| < s.base.pool.zm.maxOpen
    ensures var (t, zone) := GetWriteZone(s);
      && zone.Success?
      && Filling(t) && t.curOpen && t.cur == zone.value
      && t.base.pool.zm.openSet == s.base.pool.zm.openSet + {zone.value} && zone.value !in s.base.pool.zm.openSet
      && zone.value < |s.base.pool.zm.zones|
      && (forall z :: 0 <= z < |s.base.pool.zm.zones| ==>
            t.base.pool.zm.zones[z].wp == s.base.pool.zm.zones[z].wp && t.base.pool.zm.zones[z].start == s.base.pool.zm.zones[z].start)
  {
    hide Core, Exact, Logged, D.Sane, Lru, LogZoneAction, D.OpenZone, InTurn;
    InvReady(s);
    var p := s.base.pool;
    LruSizes(p);
    CoreSizes(s);
    var f := p.zm.freeList[..|p.zm.freeList| - 1];
    var z := p.zm.freeList[|p.zm.freeList| - 1];
    assert z in p.zm.freeList;
    FreeZoneBlank(s, z);
    EmptyUnlisted(p, z);
    OpenLru(p, f, z);
    assert MakeRoom(p) == (p, Ok);
    var t := GetWriteZone(s).0;
    assert |p.zm.openSet + {z}| == |p.zm.openSet| + 1;
    CoreConfig(s);
    forall i | 0 <= i < |t.base.pool.dev.zones| ensures InTurn(t, i) {
      assert InTurn(s, i);
      AllocatedTurn(s, t, z, i);
    }
  }

  lemma AllocatedTurn(s: Ztl, t: Ztl, z: nat, i: nat)
    requires |s.base.pool.zm.zones| == |s.base.pool.dev.zones| == |t.base.pool.dev.zones| == |t.base.pool.zm.zones|
    requires i < |s.base.pool.dev.zones| && z < |s.base.pool.dev.zones| && InTurn(s, i) && !s.curOpen && t.curOpen && t.cur == z
    requires t.base.pool.dev.zones[z].cond == D.ExplicitOpen
    requires t.base.pool.zm.zones[z].wp < t.base.pool.dev.End(z)
    requires i != z ==> t.base.pool.dev.zones[i] == s.base.pool.dev.zones[i]
    ensures InTurn(t, i)
  {
  }

  /** The write zone: the one being filled, or a new one, unless as many are full as may be open. */
  lemma GetWriteZoneFilling(s: Ztl)
    requires Inv(s) && Filling(s) && Ready(s.base)
    ensures var (t, zone) := GetWriteZone(s);
      && Filling(t)
      && (zone.Success? <==> s.curOpen || (s.base.pool.zm.freeList != [] && |s.base.pool.zm.openSet| < s.base.pool.zm.maxOpen))
      && (zone.Success? ==> t.curOpen && t.cur == zone.value < |s.base.pool.zm.zones|)
      && |t.base.pool.zm.zones| == |s.base.pool.zm.zones|
      && (forall z :: 0 <= z < |s.base.pool.zm.zones| ==>
            t.base.pool.zm.zones[z].wp == s.base.pool.zm.zones[z].wp && t.base.pool.zm.zones[z].start == s.base.pool.zm.zones[z].start)
  {
    if s.curOpen {
      CurrentHasRoom(s);
    } else if s.base.pool.zm.freeList != [] && |s.base.pool.zm.openSet| < s.base.pool.zm.maxOpen {
      AllocateFilling(s);
    } else {
      hide Core, Exact, Logged, AllocateFree, Lru;
      InvReady(s);
      CoreFree(s);
      AllListedFull(s);
      AllocateFreeLru(s.base.pool);
      ClosedFilling(s);
    }
  }

  lemma ClosedFilling(s: Ztl)
    requires Filling(s) && !s.curOpen
    ensures Filling(s.(curOpen := false))
  {
    assert s.(curOpen := false) == s;
  }

  // ---------- filling ----------

  /** A flush of an open zone: its place in the list changes, and its sectors reach the device. */
  lemma FlushOpen(s: Ztl, z: nat)
    requires Core(s) && Lru(s.base.pool) && z in s.bufs && z in s.base.pool.zm.openSet
    ensures z < |s.base.pool.dev.zones| && s.base.pool.dev.zones[z].cond == D.ExplicitOpen
    ensures FlushZone(s.bufs, s.base.pool, z).2 == Ok
    ensures var p, q := s.base.pool, FlushZone(s.bufs, s.base.pool, z).1;
      && q.zm.openSet == p.zm.openSet && q.zm.maxOpen == p.zm.maxOpen && q.zm.freeList == p.zm.freeList
      && |q.dev.zones| == |p.dev.zones| && q.dev.zoneSectors == p.dev.zoneSectors && |q.zm.zones| == |p.zm.zones|
      && (forall i :: 0 <= i < |p.dev.zones| && i != z ==> q.dev.zones[i] == p.dev.zones[i])
      && q.dev.zones[z].cond == (if p.zm.zones[z].wp < p.dev.End(z) then D.ExplicitOpen else D.Full)
      && (forall i :: 0 <= i < |p.zm.zones| ==> q.zm.zones[i].wp == p.zm.zones[i].wp && q.zm.zones[i].start == p.zm.zones[i].start)
  {
    FlushZoneLru(s, z);
    FlushZoneMoves(s, z);
    hide D.Sane, D.Store, D.WriteSectors, AllLocated, FreeIsEmpty;
    var p, b := s.base.pool, s.bufs[z];
    OpenNotFull(p, z);
    var q := GetOrOpen(p, z).0;
    assert q.dev == p.dev;
    hide GetOrOpen, Lru;
    WriteAtPointer(p.dev, z, b.data);
    SaneAt(p.dev, z);
  }

  /** The zone being filled, flushed: filled to its end it is full, and then nothing is being filled. */
  lemma FlushFilling(s: Ztl, z: nat)
    requires Inv(s) && Ready(s.base) && z in s.bufs && s.curOpen && s.cur == z && AlmostFilling(s)
    ensures var (bufs, q, r) := FlushZone(s.bufs, s.base.pool, z);
      var t := s.(base := s.base.(pool := q), bufs := bufs);
      && r == Ok
      && SamePointers(s.base.pool.zm, q.zm)
      && z < |s.base.pool.zm.zones|
      && (s.base.pool.zm.zones[z].wp < s.base.pool.dev.End(z) ==> Filling(t))
      && (s.base.pool.zm.zones[z].wp == s.base.pool.dev.End(z) ==> Filling(t.(curOpen := false)))
  {
    hide Exact, Logged, D.Sane, Core, FlushZone;
    var p := s.base.pool;
    CoreSizes(s);
    ListedWhenOpen(p, z);
    FlushOpen(s, z);
    var (bufs, q, r) := FlushZone(s.bufs, p, z);
    var t := s.(base := s.base.(pool := q), bufs := bufs);
    forall i | 0 <= i < |q.dev.zones|
      ensures p.zm.zones[z].wp < p.dev.End(z) ==> InTurn(t, i)
      ensures p.zm.zones[z].wp >= p.dev.End(z) ==> InTurn(t.(curOpen := false), i) {
      assert i != z ==> InTurn(s, i);
    }
  }

  lemma ListedWhenOpen(p: Pool, z: nat)
    requires Lru(p) && z < |p.dev.zones| && p.dev.zones[z].cond == D.ExplicitOpen
    ensures z in p.zm.openSet
  {
    assert Tracks(p, z);
  }

  /** Filling, except that the current zone may have no room left. */
  ghost predicate AlmostFilling(s: Ztl) {
    var p := s.base.pool;
    && p.dev.zoneSectors > 0 && s.base.spp > 0 && p.dev.zoneSectors % s.base.spp == 0
    && |p.zm.zones| == |p.dev.zones|
    && s.curOpen && s.cur < |p.dev.zones| && p.dev.zones[s.cur].cond == D.ExplicitOpen
    && (forall z :: 0 <= z < |p.dev.zones| && z != s.cur ==> InTurn(s, z))
    && (forall i :: 0 <= i < |p.zm.freeList| ==> p.zm.freeList[i] == i)
    && |p.zm.freeList| + |p.zm.openSet| == |p.dev.zones|
  }

  ghost predicate SamePointers(zm: Manager, zm': Manager) {
    && |zm'.zones| == |zm.zones|
    && forall z :: 0 <= z < |zm.zones| ==> zm'.zones[z].wp == zm.zones[z].wp && zm'.zones[z].start == zm.zones[z].start
  }

  /** One zone's pointer moved by a segment. */
  ghost predicate Advanced(zm: Manager, zm': Manager, z: nat, n: nat) {
    && |zm'.zones| == |zm.zones| && z < |zm.zones|
    && forall i :: 0 <= i < |zm.zones| ==>
         zm'.zones[i].start == zm.zones[i].start && zm'.zones[i].wp == if i == z then zm.zones[i].wp + n else zm.zones[i].wp
  }

  lemma WriteSegmentFilling(s: Ztl, seg: nat, data: seq<D.Sector>)
    requires Inv(s) && Filling(s) && Ready(s.base) && seg < |s.base.l2p| && |data| == s.base.spp
    ensures var (t, r) := WriteSegment(s, seg, data);
      && Inv(t) && Filling(t) && t.base.pool.zm.maxOpen == s.base.pool.zm.maxOpen
      && (r == Ok <==> GetWriteZone(s).1.Success?)
      && (r == Ok ==> Advanced(s.base.pool.zm, t.base.pool.zm, GetWriteZone(s).1.value, |data|))
      && (r != Ok ==> t.base == s.base)
  {
    hide Core, Exact, Lru, Logged, Inv, Filling, GetWriteZone, WriteInto, FlushZone, Content;
    InvReady(s);
    if GetWriteZone(s).1.Failure? {
      GetWriteZoneFilling(s);
      NoZoneInv(s, seg, data);
      NoZoneFilling(s);
    } else {
      StoredFilling(s, seg, data);
      WriteSegmentInv(s, seg, data);
    }
  }

  lemma NoZoneFilling(s: Ztl)
    requires Inv(s) && Filling(s) && Ready(s.base) && GetWriteZone(s).1.Failure?
    ensures Filling(s.(curOpen := false))
  {
    hide Inv, Filling, GetWriteZone;
    GetWriteZoneFilling(s);
    assert !s.curOpen;
    assert s.(curOpen := false) == s;
  }

  lemma StoredFilling(s: Ztl, seg: nat, data: seq<D.Sector>)
    requires Inv(s) && Filling(s) && Ready(s.base) && seg < |s.base.l2p| && |data| == s.base.spp && GetWriteZone(s).1.Success?
    ensures var (t, r) := WriteSegment(s, seg, data);
      && r == Ok && Filling(t) && t.base.pool.zm.maxOpen == s.base.pool.zm.maxOpen
      && Advanced(s.base.pool.zm, t.base.pool.zm, GetWriteZone(s).1.value, |data|)
  {
    hide Core, Exact, Lru, Logged, Filling, WriteInto, FlushZone, Content, Writable;
    InvReady(s);
    GetWriteZoneFilling(s);
    GetWriteZoneLimit(s);
    GetWriteZoneInv(s);
    var (s1, zone) := GetWriteZone(s);
    hide GetWriteZone, Inv;
    InvReady(s1);
    CurrentHasRoom(s1);
    var z := zone.value;
    WriteIntoFilling(s1, seg, data);
    WriteIntoMoves(s1, z, seg, data);
    var s2 := WriteInto(s1, z, seg, data).0;
    InvReady(s2);
    CoreConfig(s2);
    var info := s2.base.pool.zm.zones[z];
    assert info.start + info.size == s2.base.pool.dev.End(z);
    if info.wp >= info.start + info.size {
      PointerInZone(s2, z);
      FlushFilling(s2, z);
      FlushLimit(s2, z);
    } else {
      AlmostFilled(s2);
    }
  }

  lemma AlmostFilled(s: Ztl)
    requires AlmostFilling(s) && s.base.pool.zm.zones[s.cur].wp < s.base.pool.dev.End(s.cur)
    ensures Filling(s)
  {
    assert InTurn(s, s.cur);
  }

  lemma GetWriteZoneLimit(s: Ztl)
    requires Inv(s) && Ready(s.base)
    ensures GetWriteZone(s).0.base.pool.zm.maxOpen == s.base.pool.zm.maxOpen
  {
    hide D.OpenZone, D.CloseZone, Inv;
  }

  lemma FlushLimit(s: Ztl, z: nat)
    requires Ready(s.base)
    ensures FlushZone(s.bufs, s.base.pool, z).1.zm.maxOpen == s.base.pool.zm.maxOpen
  {
    hide D.OpenZone, D.CloseZone, D.WriteSectors;
  }

  lemma GetWriteZoneInv(s: Ztl)
    requires Inv(s) && Ready(s.base)
    ensures Inv(GetWriteZone(s).0)
  {
    hide Core, Exact, Lru, Logged, GetWriteZone, Content;
    GetWriteZoneCore(s);
    GetWriteZoneExact(s);
    GetWriteZoneLru(s);
    GetWriteZoneLogged(s);
  }

  /** A segment goes into the zone being filled, which has room for it. */
  lemma WriteIntoFilling(s: Ztl, seg: nat, data: seq<D.Sector>)
    requires Inv(s) && Filling(s) && Ready(s.base) && s.curOpen && seg < |s.base.l2p| && |data| == s.base.spp
    ensures var (t, r) := WriteInto(s, s.cur, seg, data);
      && r == Ok && Inv(t) && AlmostFilling(t) && s.cur in t.bufs && t.base.pool.zm.maxOpen == s.base.pool.zm.maxOpen
      && Advanced(s.base.pool.zm, t.base.pool.zm, s.cur, |data|)
  {
    hide Exact, Lru, Logged, WriteInto, AllLocated, FreeIsEmpty, D.Sane, NextAddr, Pointers;
    InvReady(s);
    CurrentHasRoom(s);
    CoreConfig(s);
    var z := s.cur;
    assert Writable(s, z);
    WriteIntoMoves(s, z, seg, data);
    var t := WriteInto(s, z, seg, data).0;
    WriteIntoCore(s, z, seg, data);
    WriteIntoExact(s, z, seg, data);
    CountersLru(s.base.pool, t.base.pool.zm);
    LoggedUpdate(s.base, t.base, seg, Get(s.base.l2p, seg), NextAddr(s.base.pool.zm, z));
    InvWhole(t);
    forall i | 0 <= i < |t.base.pool.dev.zones| && i != z ensures InTurn(t, i) {
      assert InTurn(s, i);
    }
  }

  // ---------- how much is used ----------

  /** The sectors accepted so far. */
  function Used(zones: seq<ZoneInfo>): int {
    if zones == [] then 0 else
    var last := |zones| - 1;
    Used(zones[..last]) + zones[last].wp - zones[last].start
  }

  lemma {:induction false} UsedSame(a: seq<ZoneInfo>, b: seq<ZoneInfo>)
    requires |a| == |b| && forall i :: 0 <= i < |a| ==> a[i].wp == b[i].wp && a[i].start == b[i].start
    ensures Used(a) == Used(b)
  {
    if a != [] { UsedSame(a[..|a| - 1], b[..|b| - 1]); }
  }

  lemma {:induction false} UsedAdvanced(a: seq<ZoneInfo>, b: seq<ZoneInfo>, z: nat, n: nat)
    requires |a| == |b| && z < |a|
    requires forall i :: 0 <= i < |a| ==> b[i].start == a[i].start && b[i].wp == if i == z then a[i].wp + n else a[i].wp
    ensures Used(b) == Used(a) + n
  {
    var last := |a| - 1;
    if z == last {
      UsedSame(a[..last], b[..last]);
    } else {
      UsedAdvanced(a[..last], b[..last], z, n);
    }
  }

  /** Zones outside a set are empty, zones in it hold at most `size`, or exactly that. */
  lemma {:induction false} UsedWithin(zones: seq<ZoneInfo>, s: set<nat>, size: nat)
    requires forall i :: 0 <= i < |zones| ==>
      zones[i].wp - zones[i].start <= size && (i !in s ==> zones[i].wp == zones[i].start)
    requires forall i :: i in s ==> i < |zones|
    ensures Used(zones) <= |s| * size
    ensures (forall i :: 0 <= i < |zones| && i in s ==> zones[i].wp - zones[i].start == size) ==> Used(zones) == |s| * size
  {
    if zones == [] {
      assert s == {};
    } else {
      var last := |zones| - 1;
      UsedWithin(zones[..last], s - {last}, size);
      assert forall i :: 0 <= i < last ==> zones[..last][i] == zones[i];
      if last in s {
        assert s == (s - {last}) + {last};
        OneMore(|s - {last}|, size);
      } else {
        assert s == s - {last};
      }
    }
  }

  lemma OneMore(n: nat, size: nat)
    ensures (n + 1) * size == n * size + size
  {
  }

  /** What the zones that may be open hold: all that the layer ever accepts. */
  function Capacity(p: Pool): int {
    p.zm.maxOpen * p.dev.zoneSectors
  }

  lemma ListsInRange(p: Pool)
    requires Lru(p)
    ensures |p.zm.openSet| <= p.zm.maxOpen && forall z :: z in p.zm.openSet ==> z < |p.zm.zones|
  {
    forall z | z in p.zm.openSet ensures z < |p.zm.zones| {
      assert z in p.zm.openList;
    }
  }

  lemma PointersInTurn(s: Ztl)
    requires Inv(s) && Filling(s)
    ensures forall i :: 0 <= i < |s.base.pool.zm.zones| ==>
      var info := s.base.pool.zm.zones[i];
      && info.wp - info.start <= s.base.pool.dev.zoneSectors
      && (i !in s.base.pool.zm.openSet ==> info.wp == info.start)
      && (s.base.pool.dev.zones[i].cond == D.Full ==> info.wp - info.start == s.base.pool.dev.zoneSectors)
  {
    hide Exact, Logged, AllLocated, D.Sane;
    var p := s.base.pool;
    forall i | 0 <= i < |p.zm.zones|
      ensures p.zm.zones[i].wp - p.zm.zones[i].start <= p.dev.zoneSectors
      ensures i !in p.zm.openSet ==> p.zm.zones[i].wp == p.zm.zones[i].start
      ensures p.dev.zones[i].cond == D.Full ==> p.zm.zones[i].wp - p.zm.zones[i].start == p.dev.zoneSectors {
      SaneAt(p.dev, i);
      assert Tracks(p, i) && InTurn(s, i);
      assert p.zm.zones[i].start == p.dev.Start(i);
      if i in s.bufs { BufferedIsCurrent(s, i); }
    }
  }

  /** A zone is found exactly when not all of the capacity is used. */
  lemma ZoneFoundIff(s: Ztl)
    requires Inv(s) && Filling(s) && Ready(s.base) && |s.base.pool.dev.zones| > s.base.pool.zm.maxOpen
    ensures Used(s.base.pool.zm.zones) <= Capacity(s.base.pool)
    ensures GetWriteZone(s).1.Success? <==> Used(s.base.pool.zm.zones) < Capacity(s.base.pool)
  {
    hide Core, Exact, Lru, Logged, GetWriteZone, Inv, InTurn;
    InvReady(s);
    var p := s.base.pool;
    ListsInRange(p);
    PointersInTurn(s);
    GetWriteZoneFilling(s);
    UsedWithin(p.zm.zones, p.zm.openSet, p.dev.zoneSectors);
    MulMono(|p.zm.openSet|, p.zm.maxOpen, p.dev.zoneSectors);
    if s.curOpen {
      CurrentLeaves(s);
    } else {
      AllListedFull(s);
      if |p.zm.openSet| < p.zm.maxOpen { MulGap(|p.zm.openSet|, p.zm.maxOpen, p.dev.zoneSectors); }
    }
  }

  /** While a zone is being filled, not all of the capacity is used. */
  lemma CurrentLeaves(s: Ztl)
    requires Inv(s) && Filling(s) && s.curOpen
    ensures Used(s.base.pool.zm.zones) < Capacity(s.base.pool)
  {
    hide Core, Exact, Logged, Used;
    InvReady(s);
    var p := s.base.pool;
    CoreConfig(s);
    ListedWhenOpen(p, s.cur);
    ListsInRange(p);
    PointersInTurn(s);
    assert InTurn(s, s.cur);
    var info := p.zm.zones[s.cur];
    var filled := p.zm.zones[s.cur := info.(wp := info.start + p.dev.zoneSectors)];
    assert info.start + p.dev.zoneSectors == p.dev.End(s.cur) by { StartAt(s, s.cur); }
    hide Lru, Inv, Filling;
    UsedAdvanced(p.zm.zones, filled, s.cur, p.dev.End(s.cur) - info.wp);
    UsedWithin(filled, p.zm.openSet, p.dev.zoneSectors);
    MulMono(|p.zm.openSet|, p.zm.maxOpen, p.dev.zoneSectors);
  }

  lemma StartAt(s: Ztl, z: nat)
    requires Core(s) && z < |s.base.pool.zm.zones|
    ensures s.base.pool.zm.zones[z].start == s.base.pool.dev.Start(z)
  {
  }

  // ---------- writes ----------

  /** With a zone to spare, zone 0 is never taken. */
  lemma NeverZero(s: Ztl)
    requires Inv(s) && Filling(s) && Spare(s.base.pool) && s.curOpen
    ensures s.cur < |s.base.pool.zm.zones| && NextAddr(s.base.pool.zm, s.cur) != UNMAPPED
  {
    hide Exact, Logged, D.Sane, AllLocated, NextAddr, Pointers;
    var p := s.base.pool;
    ListsInRange(p);
    assert p.zm.freeList[0] == 0;
    assert 0 in p.zm.freeList;
    assert InTurn(s, s.cur);
    NextAddrUnpacks(p, s.bufs, s.base.spp, s.cur);
  }

  /** One segment of a write. */
  lemma HeadFilling(s: Ztl, seg: nat, data: seq<D.Sector>)
    requires Inv(s) && Filling(s) && Ready(s.base) && Spare(s.base.pool) && seg < |s.base.l2p| && |data| == s.base.spp
    ensures var (t, r) := WriteSegment(s, seg, data);
      && Inv(t) && Filling(t) && Ready(t.base) && Spare(t.base.pool)
      && (r == Ok <==> Left(s) >= s.base.spp) && (r != Ok ==> Left(s) == 0 && GetWriteZone(s).1.Failure?)
      && Left(s) >= 0
      && Left(t) == (if r == Ok then Left(s) - s.base.spp else Left(s))
      && Used(t.base.pool.zm.zones) == Used(s.base.pool.zm.zones) + (if r == Ok then s.base.spp else 0)
      && t.base.pool.zm.maxOpen == s.base.pool.zm.maxOpen && t.base.pool.dev.zoneSectors == s.base.pool.dev.zoneSectors
      && |Stored(s, data)| == s.base.spp
      && (GetWriteZone(s).1.Success? ==> NextAddr(GetWriteZone(s).0.base.pool.zm, GetWriteZone(s).1.value) != UNMAPPED)
  {
    hide Inv, Filling, WriteSegment, GetWriteZone, Used, NextAddr, Landed, Content;
    WriteSegmentFilling(s, seg, data);
    var (t, r) := WriteSegment(s, seg, data);
    ZoneFoundIff(s);
    LeftSegments(s);
    WholeLeft(Left(s), s.base.spp);
    var (s1, zone) := GetWriteZone(s);
    if zone.Success? {
      UsedAdvanced(s.base.pool.zm.zones, t.base.pool.zm.zones, zone.value, |data|);
      ZoneNotZero(s);
      LandedLength(s1.base.pool.zm, zone.value, data);
    }
    InvReady(t);
  }

  lemma WholeLeft(left: int, spp: nat)
    requires spp > 0 && left >= 0 && left % spp == 0
    ensures left > 0 <==> left >= spp
  {
  }

  lemma ZoneNotZero(s: Ztl)
    requires Inv(s) && Filling(s) && Ready(s.base) && Spare(s.base.pool) && GetWriteZone(s).1.Success?
    ensures NextAddr(GetWriteZone(s).0.base.pool.zm, GetWriteZone(s).1.value) != UNMAPPED
  {
    hide Inv, Filling, GetWriteZone, NextAddr;
    GetWriteZoneFilling(s);
    GetWriteZoneInv(s);
    GetWriteZoneLimit(s);
    NeverZero(GetWriteZone(s).0);
  }

  /** A number of sectors, or what is left if that is less. */
  function Fit(n: nat, left: int): int {
    if left < n then left else n
  }

  /** A write stores as much of its data as the capacity still allows, in whole segments. */
  lemma {:induction false} WriteFromFilling(s: Ztl, seg: nat, n: nat, lba: nat, data: seq<D.Sector>)
    requires Inv(s) && Filling(s) && Ready(s.base) && Spare(s.base.pool) && seg + n <= |s.base.l2p|
    requires lba == seg * s.base.spp && |data| == n * s.base.spp
    ensures var (t, r) := WriteFrom(s, lba, data);
      && Inv(t) && Filling(t) && Spare(t.base.pool)
      && Fills(s, lba, data) && Lands(s, lba, data)
      && |LandedFrom(s, lba, data)| == Fit(|data|, Left(s))
      && Used(t.base.pool.zm.zones) == Used(s.base.pool.zm.zones) + |LandedFrom(s, lba, data)|
      && t.base.pool.zm.maxOpen == s.base.pool.zm.maxOpen && t.base.pool.dev.zoneSectors == s.base.pool.dev.zoneSectors
    decreases n
  {
    hide Inv, Filling, Ready, WriteSegment, WriteFrom, LandedFrom, Lands, Fills, GetWriteZone, Used, Stored, NextAddr, Left, Spare;
    if n == 0 {
      WriteFromNothing(s, lba);
      LeftNonnegative(s);
      assert data == [];
    } else {
      ReadyPositive(s.base);
      WholePiece(seg, n, lba, |data|, s.base.spp);
      WriteFromSplits(s, lba, data);
      var head, tail := data[..s.base.spp], data[s.base.spp..];
      HeadFilling(s, seg, head);
      var (t, r) := WriteSegment(s, seg, head);
      MulMono(1, n, s.base.spp);
      if r == Ok {
        WriteFromFilling(t, seg + 1, n - 1, lba + s.base.spp, tail);
      }
    }
  }

  /** More zones than may be open: one is always left over. */
  ghost predicate Spare(p: Pool) {
    |p.zm.zones| == |p.dev.zones| > p.zm.maxOpen
  }

  /** The sectors that can still be accepted. */
  function Left(s: Ztl): int {
    Capacity(s.base.pool) - Used(s.base.pool.zm.zones)
  }

  /** A whole number of segments is left. */
  lemma LeftSegments(s: Ztl)
    requires Inv(s) && Filling(s)
    ensures s.base.spp > 0 && Left(s) % s.base.spp == 0
  {
    hide Core, Lru, Logged, Used, Covers, ReverseExact;
    var p, spp := s.base.pool, s.base.spp;
    forall i | 0 <= i < |p.zm.zones| ensures (p.zm.zones[i].wp - p.zm.zones[i].start) % spp == 0 {
      assert Counted(s.base, i);
      DivMod(p.zm.zones[i].total, 0, spp);
    }
    UsedSegments(p.zm.zones, spp);
    hide Inv, Filling;
    DivBounds(p.dev.zoneSectors, spp);
    var k := p.dev.zoneSectors / spp;
    assert p.zm.maxOpen * (k * spp) == (p.zm.maxOpen * k) * spp;
    DifferenceSegments(p.zm.maxOpen * k, Used(p.zm.zones), spp);
  }

  lemma DifferenceSegments(q: int, u: int, spp: nat)
    requires spp > 0 && u % spp == 0
    ensures (q * spp - u) % spp == 0
  {
    var v := u / spp;
    assert q * spp - u == (q - v) * spp + 0;
    DivMod(q - v, 0, spp);
  }

  lemma {:induction false} UsedSegments(zones: seq<ZoneInfo>, spp: nat)
    requires spp > 0 && forall i :: 0 <= i < |zones| ==> (zones[i].wp - zones[i].start) % spp == 0
    ensures Used(zones) % spp == 0
  {
    if zones != [] {
      var last := |zones| - 1;
      UsedSegments(zones[..last], spp);
      SumSegments(Used(zones[..last]), zones[last].wp - zones[last].start, spp);
    }
  }

  lemma SumSegments(a: int, b: int, spp: nat)
    requires spp > 0 && a % spp == 0 && b % spp == 0
    ensures (a + b) % spp == 0
  {
    assert a + b == (a / spp + b / spp) * spp + 0;
    DivMod(a / spp + b / spp, 0, spp);
  }

  // ---------- runs ----------

  /** A write is of whole segments inside the disk; any other operation is as it may be. */
  predicate Whole(op: Op, segs: nat, spp: nat)
    requires spp > 0
  {
    op.WriteOp? ==> op.lba % spp == 0 && |op.data| % spp == 0 && op.lba + |op.data| <= segs * spp
  }

  lemma WriteFilling(s: Ztl, lba: nat, data: seq<D.Sector>, reserve: int, orders: seq<seq<nat>>)
    requires Inv(s) && Filling(s) && Ready(s.base) && Spare(s.base.pool)
    requires Whole(WriteOp(lba, data, reserve, orders), |s.base.l2p|, s.base.spp)
    ensures var op := WriteOp(lba, data, reserve, orders);
      var t := Step(s, op).0;
      && Admissible(s, op) && FlushesHold(s, op)
      && Filling(t) && Spare(t.base.pool)
      && Taken(s, op) == (if |s.base.pool.zm.freeList| >= reserve then Fit(|data|, Left(s)) else 0)
      && Left(t) == Left(s) - Taken(s, op)
      && t.base.pool.zm.maxOpen == s.base.pool.zm.maxOpen
  {
    hide Inv, Filling, Ready, WriteFrom, LandedFrom, Lands, Fills, Used, Spare, RunEmergencyGC, EmergencyHarmless;
    var spp := s.base.spp;
    EmergencyFilling(s, reserve, orders);
    ReadyPositive(s.base);
    DivBounds(lba, spp);
    DivBounds(|data|, spp);
    SegmentsFit(lba / spp, |data| / spp, |s.base.l2p|, spp);
    WriteFromFilling(s, lba / spp, |data| / spp, lba, data);
    LeftNonnegative(s);
    var t := WriteFrom(s, lba, data).0;
    LogFilling(t, GroupCommit(t.base.log));
    assert s.(base := s.base) == s;
    if data == [] { WriteFromNothing(s, lba); }
  }

  lemma LeftNonnegative(s: Ztl)
    requires Inv(s) && Filling(s) && Ready(s.base) && Spare(s.base.pool)
    ensures Left(s) >= 0
  {
    hide Inv, Filling, Used;
    ZoneFoundIff(s);
  }

  lemma LogFilling(s: Ztl, log: Log)
    requires Filling(s)
    ensures Filling(s.(base := s.base.(log := log)))
  {
    forall z | 0 <= z < |s.base.pool.dev.zones| ensures InTurn(s.(base := s.base.(log := log)), z) {
      assert InTurn(s, z);
    }
  }

  lemma FlushZoneFilling(s: Ztl, z: nat)
    requires Inv(s) && Filling(s) && Ready(s.base)
    ensures var (bufs, q, r) := FlushZone(s.bufs, s.base.pool, z);
      var t := s.(base := s.base.(pool := q), bufs := bufs);
      && r == Ok && Inv(t) && Filling(t) && SamePointers(s.base.pool.zm, q.zm) && q.zm.maxOpen == s.base.pool.zm.maxOpen
  {
    hide Inv, FlushZone;
    FlushZoneInv(s, z);
    FlushLimit(s, z);
    if z in s.bufs {
      BufferedIsCurrent(s, z);
      assert InTurn(s, z);
      FlushFilling(s, z);
    } else {
      FlushNothing(s, z);
      assert s.(base := s.base.(pool := s.base.pool), bufs := s.bufs) == s;
    }
  }

  lemma {:induction false} FlushEachFilling(s: Ztl, zones: seq<nat>)
    requires Inv(s) && Filling(s) && Ready(s.base)
    ensures FlushEach(s.bufs, s.base.pool, zones).2 == Ok
    ensures var t := FlushState(s, zones);
      Inv(t) && Filling(t) && SamePointers(s.base.pool.zm, t.base.pool.zm) && t.base.pool.zm.maxOpen == s.base.pool.zm.maxOpen
  {
    hide Inv, Filling, FlushZone;
    if zones == [] {
      assert FlushState(s, []) == s;
    } else {
      var last := |zones| - 1;
      FlushEachFilling(s, zones[..last]);
      FlushZoneFilling(FlushState(s, zones[..last]), zones[last]);
    }
  }

  lemma {:induction false} UnmapRangeFilling(s: Ztl, first: nat, end: nat)
    requires Filling(s) && Ready(s.base)
    ensures var t := s.(base := UnmapRange(s.base, first, end));
      Filling(t) && SamePointers(s.base.pool.zm, t.base.pool.zm) && t.base.pool.zm.maxOpen == s.base.pool.zm.maxOpen
    decreases end - first
  {
    hide Filling, UnmapSegment;
    if first < end {
      UnmapRangeFilling(s, first, end - 1);
      UnmapSegmentFilling(s.(base := UnmapRange(s.base, first, end - 1)), end - 1);
    } else {
      assert s.(base := s.base) == s;
    }
  }

  lemma UnmapSegmentFilling(s: Ztl, seg: nat)
    requires Filling(s) && Ready(s.base)
    ensures var t := s.(base := UnmapSegment(s.base, seg));
      Filling(t) && SamePointers(s.base.pool.zm, t.base.pool.zm) && t.base.pool.zm.maxOpen == s.base.pool.zm.maxOpen
  {
    var t := s.(base := UnmapSegment(s.base, seg));
    UnmapSegmentLists(s.base, seg);
    UnmapPointers(s.base, seg);
    hide UnmapSegment;
    forall z | 0 <= z < |t.base.pool.dev.zones| ensures InTurn(t, z) {
      assert InTurn(s, z);
    }
  }

  lemma UnmapPointers(b: Base, seg: nat)
    requires Ready(b)
    ensures SamePointers(b.pool.zm, UnmapSegment(b, seg).pool.zm)
  {
    hide ZoneID, OffsetSectors, EncodePhysAddr;
  }

  lemma SameLeft(s: Ztl, t: Ztl)
    requires SamePointers(s.base.pool.zm, t.base.pool.zm) && t.base.pool.zm.maxOpen == s.base.pool.zm.maxOpen
    requires t.base.pool.dev.zoneSectors == s.base.pool.dev.zoneSectors
    ensures Left(t) == Left(s)
  {
    UsedSame(s.base.pool.zm.zones, t.base.pool.zm.zones);
  }

  /** Every operation is harmless here, no flush is refused, and a write takes what is left of the capacity. */
  lemma StepFilling(s: Ztl, op: Op)
    requires Inv(s) && Filling(s) && Ready(s.base) && Spare(s.base.pool) && Whole(op, |s.base.l2p|, s.base.spp)
    ensures Admissible(s, op) && FlushesHold(s, op)
    ensures Inv(Step(s, op).0) && Filling(Step(s, op).0) && Spare(Step(s, op).0.base.pool)
    ensures Left(Step(s, op).0) == Left(s) - Taken(s, op)
    ensures Step(s, op).0.base.pool.zm.maxOpen == s.base.pool.zm.maxOpen
  {
    hide Inv, Filling, Spare, Left, UnmapRange, FlushEach, FlushZone, SelectGCVictim, LastLBA, WriteFrom, RunEmergencyGC, LandedFrom, Lands, Fills, EmergencyHarmless;
    var t := Step(s, op).0;
    match op {
      case WriteOp(lba, data, reserve, orders) => WriteFilling(s, lba, data, reserve, orders);
      case UnmapOp(lba, count) =>
        UnmapRangeFilling(s, lba / s.base.spp, LastLBA(lba, count) / s.base.spp + 1);
        SameSpare(s, t);
      case FlushOp(zones) =>
        FlushEachFilling(s, zones);
        LogFilling(FlushState(s, zones), GroupCommit(s.base.log));
        SameSpare(s, t);
      case FlushZoneOp(zone) =>
        FlushZoneFilling(s, zone);
        SameSpare(s, t);
      case CollectOp(order) =>
        NoVictimFilling(s);
        assert t == s;
      case _ =>
        LogFilling(s, t.base.log);
        SameSpare(s, t);
    }
    StepInv(s, op);
  }

  lemma SameSpare(s: Ztl, t: Ztl)
    requires SamePointers(s.base.pool.zm, t.base.pool.zm) && t.base.pool.zm.maxOpen == s.base.pool.zm.maxOpen
    requires Spare(s.base.pool) && Same(s.base, t.base)
    ensures Spare(t.base.pool) && Left(t) == Left(s)
  {
    SameLeft(s, t);
  }

  lemma StartFilling(zoneCount: nat, zoneSectors: nat, maxOpen: nat, spp: nat)
    requires Configured(zoneCount, zoneSectors, maxOpen, spp) && zoneSectors % spp == 0
    ensures Filling(Start(zoneCount, zoneSectors, maxOpen, spp))
    ensures maxOpen < zoneCount ==> Spare(Start(zoneCount, zoneSectors, maxOpen, spp).base.pool)
    ensures Left(Start(zoneCount, zoneSectors, maxOpen, spp)) == maxOpen * zoneSectors
  {
    FreshReport(zoneCount, zoneSectors, maxOpen);
    StartSizes(zoneCount, zoneSectors, maxOpen);
    hide Report, D.Fresh;
    var s := Start(zoneCount, zoneSectors, maxOpen, spp);
    UsedWithin(s.base.pool.zm.zones, {}, 0);
    UsedNothing(s.base.pool.zm.zones);
  }

  lemma {:induction false} UsedNothing(zones: seq<ZoneInfo>)
    requires forall i :: 0 <= i < |zones| ==> zones[i].wp == zones[i].start
    ensures Used(zones) == 0
  {
    if zones != [] { UsedNothing(zones[..|zones| - 1]); }
  }

  function Total(taken: seq<nat>): nat {
    if taken == [] then 0 else Total(taken[..|taken| - 1]) + taken[|taken| - 1]
  }

  lemma {:induction false} RunFilling(s: Ztl, ops: seq<Op>)
    requires Inv(s) && Filling(s) && Ready(s.base) && Spare(s.base.pool)
    requires forall i :: 0 <= i < |ops| ==> Whole(ops[i], |s.base.l2p|, s.base.spp)
    ensures Runs(s, ops)
    ensures var t := Execute(s, ops);
      && Inv(t) && Filling(t) && Spare(t.base.pool)
      && Left(t) == Left(s) - Total(TakenAll(s, ops))
      && t.base.pool.zm.maxOpen == s.base.pool.zm.maxOpen
  {
    hide Inv, Filling, Spare, Left, Step, Admissible, FlushesHold, Taken, Whole;
    if ops != [] {
      var last := |ops| - 1;
      assert forall i :: 0 <= i < last ==> ops[..last][i] == ops[i];
      RunFilling(s, ops[..last]);
      StepFilling(Execute(s, ops[..last]), ops[last]);
    }
  }

  // ---------- the law of the disk, without conditions ----------

  /** A layer just created, in a configuration whose zones hold whole segments, with more zones than may be
      open. The default configuration is one: 64 zones of 256 MiB, 14 of them open, segments of 8 KiB. */
  ghost predicate Begins(s: Ztl, zoneCount: nat, zoneSectors: nat, maxOpen: nat, spp: nat) {
    && Configured(zoneCount, zoneSectors, maxOpen, spp)
    && zoneSectors % spp == 0 && maxOpen < zoneCount
    && s == Start(zoneCount, zoneSectors, maxOpen, spp)
  }

  /** Writes of whole segments inside the disk, and any other operations. */
  predicate AllWhole(s: Ztl, ops: seq<Op>)
    requires Ready(s.base)
  {
    forall i :: 0 <= i < |ops| ==> Whole(ops[i], |s.base.l2p|, s.base.spp)
  }

  lemma BeginsFilling(s: Ztl, zoneCount: nat, zoneSectors: nat, maxOpen: nat, spp: nat)
    requires Begins(s, zoneCount, zoneSectors, maxOpen, spp)
    ensures Inv(s) && Filling(s) && Ready(s.base) && Spare(s.base.pool)
    ensures Left(s) == maxOpen * zoneSectors
    ensures |s.base.pool.dev.zones| == zoneCount && s.base.pool.zm.maxOpen == maxOpen && s.base.spp == spp
    ensures Disk(s) == D.Zeros(|s.base.l2p| * s.base.spp)
  {
    hide Inv, Filling, Spare, Left, Start, Disk;
    StartInv(zoneCount, zoneSectors, maxOpen, spp);
    StartFilling(zoneCount, zoneSectors, maxOpen, spp);
    StartSpp(zoneCount, zoneSectors, maxOpen, spp);
  }

  /** Any sequence of operations whose writes are of whole segments inside the disk is a run: nothing else is
      asked of it, and no flush is refused. */
  lemma AlignedRuns(s: Ztl, zoneCount: nat, zoneSectors: nat, maxOpen: nat, spp: nat, ops: seq<Op>)
    requires Begins(s, zoneCount, zoneSectors, maxOpen, spp) && Ready(s.base) && AllWhole(s, ops)
    ensures Runs(s, ops)
  {
    hide Inv, Filling, Runs, Whole, Spare, Left, Begins;
    BeginsFilling(s, zoneCount, zoneSectors, maxOpen, spp);
    RunFilling(s, ops);
  }

  /** So after any such operations every read returns the slice of the flat array. */
  lemma AlignedReads(s: Ztl, zoneCount: nat, zoneSectors: nat, maxOpen: nat, spp: nat, ops: seq<Op>, lba: nat, count: nat)
    requires Begins(s, zoneCount, zoneSectors, maxOpen, spp) && Ready(s.base) && AllWhole(s, ops)
    requires lba + count <= |s.base.l2p| * s.base.spp
    ensures Read(Execute(s, ops), lba, count)
            == Success(Flat(D.Zeros(|s.base.l2p| * s.base.spp), ops, TakenAll(s, ops), s.base.spp)[lba..lba + count])
  {
    hide *;
    BeginsFilling(s, zoneCount, zoneSectors, maxOpen, spp);
    AlignedRuns(s, zoneCount, zoneSectors, maxOpen, spp, ops);
    RunReads(s, ops, lba, count);
  }

  /** And over its whole life the layer stores `maxOpen` zones' worth of sectors and no more, however much is
      unmapped between: each write takes what is left of that, unless the free zones, of which `zoneCount -
      maxOpen` always remain, are fewer than the emergency reserve. */
  lemma LifetimeCapacity(s: Ztl, zoneCount: nat, zoneSectors: nat, maxOpen: nat, spp: nat, ops: seq<Op>, op: Op)
    requires Begins(s, zoneCount, zoneSectors, maxOpen, spp) && Ready(s.base) && AllWhole(s, ops + [op]) && op.WriteOp?
    ensures var left, t := maxOpen * zoneSectors - Total(TakenAll(s, ops)), Execute(s, ops);
      && left >= 0
      && (op.reserve <= |t.base.pool.zm.freeList| ==> Taken(t, op) == Fit(|op.data|, left))
      && (op.reserve > |t.base.pool.zm.freeList| ==> Taken(t, op) == 0)
      && |t.base.pool.zm.freeList| >= zoneCount - maxOpen
  {
    hide *;
    BeginsFilling(s, zoneCount, zoneSectors, maxOpen, spp);
    WholeLast(s, ops, op);
    WholeRun(s, ops);
    WriteTakes(Execute(s, ops), op);
  }

  lemma WholeLast(s: Ztl, ops: seq<Op>, op: Op)
    requires Ready(s.base) && AllWhole(s, ops + [op])
    ensures s.base.spp > 0 && AllWhole(s, ops) && Whole(op, |s.base.l2p|, s.base.spp)
  {
    hide Whole;
    assert forall i :: 0 <= i < |ops| ==> ops[i] == (ops + [op])[i];
    assert (ops + [op])[|ops|] == op;
  }

  lemma WholeRun(s: Ztl, ops: seq<Op>)
    requires Inv(s) && Filling(s) && Ready(s.base) && Spare(s.base.pool) && AllWhole(s, ops)
    ensures var t := Execute(s, ops);
      && Inv(t) && Filling(t) && Spare(t.base.pool) && Ready(t.base)
      && Left(t) == Left(s) - Total(TakenAll(s, ops))
      && t.base.pool.zm.maxOpen == s.base.pool.zm.maxOpen && |t.base.pool.dev.zones| == |s.base.pool.dev.zones|
      && |t.base.l2p| == |s.base.l2p| && t.base.spp == s.base.spp
  {
    hide Inv, Filling, Spare, Left, Whole, Execute;
    RunFilling(s, ops);
  }

  lemma WriteTakes(s: Ztl, op: Op)
    requires Inv(s) && Filling(s) && Ready(s.base) && Spare(s.base.pool) && op.WriteOp? && Whole(op, |s.base.l2p|, s.base.spp)
    ensures Left(s) >= 0 && |s.base.pool.zm.freeList| >= |s.base.pool.dev.zones| - s.base.pool.zm.maxOpen
    ensures Taken(s, op) == if op.reserve <= |s.base.pool.zm.freeList| then Fit(|op.data|, Left(s)) else 0
  {
    hide Inv, Filling, Whole, Taken, Left, Spare;
    LeftNonnegative(s);
    FreeLeft(s);
    WriteFilling(s, op.lba, op.data, op.reserve, op.orders);
  }

  /** No zone is ever closed, so none is ever collected, and at most `maxOpen` zones are ever taken. */
  lemma NeverCollects(s: Ztl, zoneCount: nat, zoneSectors: nat, maxOpen: nat, spp: nat, ops: seq<Op>)
    requires Begins(s, zoneCount, zoneSectors, maxOpen, spp) && Ready(s.base) && AllWhole(s, ops)
    ensures var t := Execute(s, ops);
      && (forall z :: 0 <= z < |t.base.pool.dev.zones| ==> t.base.pool.dev.zones[z].cond != D.Closed)
      && SelectGCVictim(t.base.pool.zm).Failure?
      && |t.base.pool.zm.freeList| >= zoneCount - maxOpen
  {
    hide *;
    BeginsFilling(s, zoneCount, zoneSectors, maxOpen, spp);
    WholeRun(s, ops);
    var t := Execute(s, ops);
    NoVictimFilling(t);
    FreeLeft(t);
  }

  lemma StartSpp(zoneCount: nat, zoneSectors: nat, maxOpen: nat, spp: nat)
    requires spp > 0
    ensures var s := Start(zoneCount, zoneSectors, maxOpen, spp);
      && s.base.spp == spp && |s.base.pool.dev.zones| == zoneCount && s.base.pool.zm.maxOpen == maxOpen
      && |s.base.l2p| == zoneCount * zoneSectors / spp
  {
  }

  lemma FreeLeft(s: Ztl)
    requires Inv(s) && Filling(s)
    ensures |s.base.pool.zm.freeList| >= |s.base.pool.dev.zones| - s.base.pool.zm.maxOpen
    ensures forall z :: 0 <= z < |s.base.pool.dev.zones| ==> s.base.pool.dev.zones[z].cond != D.Closed
  {
    hide Core, Exact, Logged, D.Sane;
    ListsInRange(s.base.pool);
    forall z | 0 <= z < |s.base.pool.dev.zones| ensures s.base.pool.dev.zones[z].cond != D.Closed {
      assert InTurn(s, z);
    }
  }
}
