/** Emergency collection that goes round for ever. Where zones do not hold whole segments, and every zone in use
    holds one live segment, each collection takes a free zone for the one it gives back. */
module Rounds {
  import opened Arith
  import opened Errors
  import opened Segment
  import opened Pool
  import opened Log
  import opened Ztl
  import opened Coherence
  import opened PoolSteps
  import opened FlushSteps
  import opened WriteSteps
  import opened GcSteps
  import opened Collect
  import opened Bookkeeping
  import opened OpenZones
  import opened History
  import opened FlatDisk
  import opened Run
  import opened Wedge
  import opened FlatArray
  import opened Limits
  import D = Device

  // ---------- when a collection succeeds ----------

  /** With a free zone for each, all segments can be moved. */
  lemma {:induction false} RaggedMigrates(s: Ztl, victim: nat, live: seq<(nat, nat)>)
    requires Inv(s) && Ragged(s) && Ready(s.base) && |live| <= |s.base.pool.zm.freeList|
    requires forall k :: 0 <= k < |live| ==> StillThere(s.base, victim, live[k].0, live[k].1)
    requires forall i, j :: 0 <= i < j < |live| ==> live[i].0 != live[j].0
    ensures MigrateAll(s.base, victim, live).1 == Ok
  {
    hide Inv, Core, Lru, Exact, Logged, MigrateSegment, StillThere, Ragged, Stuck, Disk, Content, MovedAll;
    if live != [] {
      var n := |live| - 1;
      RaggedMigrates(s, victim, live[..n]);
      MigratedInv(s, victim, live[..n]);
      var m := s.(base := MigrateAll(s.base, victim, live[..n]).0);
      NotYetMoved(s, m, victim, live);
      MovedFree(s, m, live[..n]);
      InvReady(m);
      StillRagged(s, m);
      NeverStuck(m);
      MigrateSegmentLru(m, victim, live[n].0, live[n].1);
    }
  }

  lemma StillRagged(s: Ztl, t: Ztl)
    requires Ragged(s) && Same(s.base, t.base)
    ensures Ragged(t)
  {
  }

  /** Where zones do not hold whole segments a collection succeeds exactly when there is a free zone for each
      live segment of its victim. */
  lemma CollectsIff(s: Ztl, victim: nat, order: seq<nat>)
    requires Inv(s) && Ragged(s) && Ready(s.base) && Ordered(s.base, victim, order)
    requires victim < |s.base.pool.dev.zones| && s.base.pool.dev.zones[victim].cond != D.Empty
    ensures CollectZone(s.base, victim, order).1 == Ok <==> MappedIn(s.base, victim) <= |s.base.pool.zm.freeList|
  {
    hide Core, Exact, Lru, Logged, Content, Covers, Ordered, Gather, MigrateAll, Reclaim, EncodePhysAddr, OffsetSectors, ZoneID, Inv, MappedIn, StillThere;
    InvReady(s);
    if CollectZone(s.base, victim, order).1 == Ok {
      var sealed := CollectZoneEffect(s, victim, order);
    }
    if MappedIn(s.base, victim) <= |s.base.pool.zm.freeList| {
      var c := s.(base := Freeze(s.base, victim));
      FrozenInv(s, c);
      InvReady(c);
      CoversFrozen(s.base, victim, victim, order);
      GatherFrozen(s.base, victim, victim, order);
      OrderDistinct(c.base, victim, order);
      GatherLive(c.base, victim, order);
      GatherIsSegsIn(s.base, victim, order);
      var live := Gather(s.base, victim, order);
      RaggedMigrates(c, victim, live);
      MigratedReclaims(c, victim, live);
    }
  }

  // ---------- a collection that moves one segment ----------

  /** What the collector sees of the pool besides conditions: the free list, the frozen zones, the limit, and how
      many segments each zone holds and ever held; `to` has gained one since, and `gone` has been emptied. */
  ghost predicate Tallied(zm: Manager, zm': Manager, to: int, gone: int) {
    && zm'.maxOpen == zm.maxOpen && |zm'.zones| == |zm.zones|
    && forall z :: 0 <= z < |zm.zones| && z != gone ==>
         && zm'.zones[z].valid == zm.zones[z].valid + (if z == to then 1 else 0)
         && zm'.zones[z].total == zm.zones[z].total + (if z == to then 1 else 0)
  }

  lemma AllocateLimits(p: Pool)
    requires Listed(p)
    ensures AllocateFree(p).0.zm.frozen == p.zm.frozen && AllocateFree(p).0.zm.maxOpen == p.zm.maxOpen
  {
    hide D.OpenZone, D.CloseZone;
  }

  lemma CopyLimits(b: Base, m: Move)
    requires Ready(b)
    ensures Copy(b, m).0.pool.zm.frozen == b.pool.zm.frozen && Copy(b, m).0.pool.zm.maxOpen == b.pool.zm.maxOpen
  {
    hide D.WriteSectors;
  }

  lemma SwapLimits(b: Base, m: Move)
    ensures Swap(b, m).pool.zm.frozen == b.pool.zm.frozen && Swap(b, m).pool.zm.maxOpen == b.pool.zm.maxOpen
  {
    hide ZoneID, OffsetSectors;
  }

  /** A migration neither freezes nor unfreezes a zone, and keeps the limit. */
  lemma MigrateLimits(b: Base, victim: nat, seg: nat, off: nat)
    requires Ready(b)
    ensures var c := MigrateSegment(b, victim, seg, off).0;
      c.pool.zm.frozen == b.pool.zm.frozen && c.pool.zm.maxOpen == b.pool.zm.maxOpen
  {
    hide Copy, Fetch, StillThere, Swap, AllocateFree, ZoneID, OffsetSectors, EncodePhysAddr, LogL2PUpdate;
    AllocateLimits(b.pool);
    if Fetch(b, victim, off).Success? && Claim(b, seg, Get(b.l2p, seg), Fetch(b, victim, off).value).1.Success? {
      var (b1, claim) := Claim(b, seg, Get(b.l2p, seg), Fetch(b, victim, off).value);
      CopyLimits(Announce(b1, claim.value), claim.value);
      SwapLimits(Copy(Announce(b1, claim.value), claim.value).0, claim.value);
    }
  }

  lemma ReclaimTally(s: Ztl, sealed: Base, victim: nat)
    requires Core(s) && victim < |s.base.pool.zm.zones| && sealed == s.base.(log := sealed.log) && Ready(sealed)
    ensures var zm, zm' := sealed.pool.zm, Unfreeze(Reclaim(sealed, victim).0, victim).pool.zm;
      && Tallied(zm, zm', -1, victim)
      && zm'.zones[victim].total == 0
      && zm'.freeList == zm.freeList + [victim] && zm'.frozen == zm.frozen - {victim}
  {
    CoreSizes(s);
    LogOnly(s, sealed.log);
    ReclaimMoves(s.(base := sealed), victim);
    hide Core, Reclaim;
  }

  /** One segment is moved to the last free zone, and the victim takes that zone's place. */
  lemma CollectOne(s: Ztl, victim: nat, order: seq<nat>)
    requires Inv(s) && Ragged(s) && Ready(s.base) && Harmless(s, victim, order)
    requires MappedIn(s.base, victim) == 1 && s.base.pool.zm.freeList != []
    ensures CollectZone(s.base, victim, order).1 == Ok
    ensures var f, zm, zm' := s.base.pool.zm.freeList, s.base.pool.zm, CollectZone(s.base, victim, order).0.pool.zm;
      && zm'.freeList == f[..|f| - 1] + [victim]
      && zm'.frozen == zm.frozen - {victim}
      && Tallied(zm, zm', f[|f| - 1], victim)
  {
    hide Core, Exact, Lru, Logged, Content, CollectZone, MigrateAll, MigrateSegment, Gather, Reclaim, Covers, Ordered, EncodePhysAddr, ZoneID, OffsetSectors, Inv, MappedIn, StillThere, Destination, MovedAll;
    CollectsIff(s, victim, order);
    InvReady(s);
    CoreSizes(s);
    CollectUnfolds(s.base, victim, order);
    var c := s.(base := Freeze(s.base, victim));
    FrozenInv(s, c);
    InvReady(c);
    CoversFrozen(s.base, victim, victim, order);
    OrderDistinct(c.base, victim, order);
    GatherLive(c.base, victim, order);
    GatherIsSegsIn(s.base, victim, order);
    var live := Gather(s.base, victim, order);
    var (seg, off) := live[0];
    MigrateNone(c.base, victim);
    assert live[..0] == [];
    MigrateStep(c.base, victim, live);
    var m := s.(base := MigrateSegment(c.base, victim, seg, off).0);
    var zone := MigrateRecounts(c, victim, seg, off);
    LastFree(c, zone);
    MigrateLimits(c.base, victim, seg, off);
    MigratedInv(c, victim, live);
    MovedFree(c, m, live);
    assert ZoneID(c.base.l2p[seg]) == victim by { assert StillThere(c.base, victim, seg, off); StillIn(c.base, victim, seg, off); }
    var sealed := Seal(m.base, victim);
    ReclaimTally(m, sealed, victim);
  }

  lemma StillIn(b: Base, victim: nat, seg: nat, off: nat)
    requires StillThere(b, victim, seg, off) && seg < |b.l2p|
    ensures ZoneID(b.l2p[seg]) == victim
  {
  }

  lemma LastFree(s: Ztl, zone: nat)
    requires Core(s) && s.base.pool.zm.freeList != [] && ZoneID(Destination(s.base)) == zone
    ensures zone == s.base.pool.zm.freeList[|s.base.pool.zm.freeList| - 1]
  {
    hide Core, EncodePhysAddr, ZoneID;
    FreeInRange(s);
    StartUnpacks(s.base.pool.zm.freeList[|s.base.pool.zm.freeList| - 1]);
  }

  // ---------- round and round ----------

  /** Zone 0 is free, and not the last free zone; every zone in use was written once and is still wholly live; more
      zones are in use than may be open, the write zone aside; and that one, if there is one, is the last zone and
      alone may have something buffered. */
  ghost predicate Spinning(s: Ztl) {
    var zm := s.base.pool.zm;
    var f := zm.freeList;
    && Inv(s) && Ragged(s)
    && zm.frozen == {}
    && (forall z :: z in s.bufs ==> s.curOpen && z == s.cur)
    && (s.curOpen ==> s.cur == |zm.zones| - 1)
    && |f| >= 2 && 0 in f[..|f| - 1]
    && (forall z :: 0 <= z < |zm.zones| && z !in f ==> zm.zones[z].valid == 1 && zm.zones[z].total == 1)
    && |zm.zones| > |f| + zm.maxOpen + 1
  }

  ghost function Members(list: seq<nat>): (r: set<nat>)
    ensures |r| <= |list|
    ensures forall x :: x in list ==> x in r
  {
    if list == [] then {} else
    var last := |list| - 1;
    UnionSize(Members(list[..last]), {list[last]});
    Members(list[..last]) + {list[last]}
  }

  lemma UnionSize(a: set<nat>, b: set<nat>)
    ensures |a + b| <= |a| + |b|
  {
    assert a + b == a + (b - a);
    SubsetSize(b - a, b);
  }

  /** Fewer numbers than there are zones leave out a zone. */
  lemma {:induction false} LeftOut(n: nat, s: set<nat>) returns (z: nat)
    requires |s| < n
    ensures z < n && z !in s
  {
    if n - 1 !in s {
      z := n - 1;
    } else {
      assert s == (s - {n - 1}) + {n - 1};
      z := LeftOut(n - 1, s - {n - 1});
    }
  }

  /** A zone in use, neither open nor the write zone, is closed. */
  lemma ClosedZone(s: Ztl) returns (z: nat)
    requires Spinning(s)
    ensures z < |s.base.pool.zm.zones| && z !in s.base.pool.zm.freeList && z != s.cur
    ensures Candidate(s.base.pool.zm, z)
  {
    hide Exact, Logged, Lru, Core;
    InvReady(s);
    var p := s.base.pool;
    LruSizes(p);
    z := Unlisted(p.zm.freeList, p.zm.openSet, s.cur, |p.zm.zones|);
    CoreFree(s);
    UnlistedClosed(p, z);
  }

  lemma Unlisted(f: seq<nat>, open: set<nat>, cur: nat, n: nat) returns (z: nat)
    requires n > |f| + |open| + 1
    ensures z < n && z !in f && z !in open && z != cur
  {
    UnionSize(Members(f), open);
    UnionSize(Members(f) + open, {cur});
    z := LeftOut(n, Members(f) + open + {cur});
  }

  lemma UnlistedClosed(p: Pool, z: nat)
    requires Lru(p) && FreeIsEmpty(p) && z < |p.dev.zones| && z !in p.zm.freeList && z !in p.zm.openSet
    ensures z < |p.zm.zones| && p.zm.zones[z].cond == D.Closed
  {
    hide D.Sane;
    assert Tracks(p, z);
  }

  /** So there is a victim, and it is neither the write zone nor buffered: all scores are the same, and of zones
      with the same score the first is chosen. */
  lemma SpinVictim(s: Ztl) returns (v: nat)
    requires Spinning(s)
    ensures SelectGCVictim(s.base.pool.zm) == Success(v)
    ensures v < |s.base.pool.zm.zones| && v !in s.base.pool.zm.freeList && v != 0
    ensures Collectable(s, v) && MappedIn(s.base, v) == 1
  {
    hide Exact, Logged, D.Sane, AllLocated, Inv, Core, Lru;
    var zm := s.base.pool.zm;
    InvReady(s);
    CoreSizes(s);
    CoreFree(s);
    var z := ClosedZone(s);
    forall i | 0 <= i < |zm.zones| ensures zm.zones[i].valid <= zm.zones[i].total { CountedAt(s.base, i); }
    VictimIsBest(zm, |zm.zones|);
    v := VictimAmong(zm, |zm.zones|).value;
    FullNeverVictim(s, v);
    hide GCScore;
    NoScore(zm.zones[v]);
    NoScore(zm.zones[z]);
    CountedAt(s.base, v);
  }

  lemma NoScore(info: ZoneInfo)
    requires info.total == info.valid
    ensures GCScore(info) == 0.0
  {
  }

  /** The reverse map has one entry for a zone with one segment. */
  lemma OneOrder(b: Base, z: nat, seg: nat)
    requires Covers(b) && ReverseExact(b) && MappedIn(b, z) == 1 && z != 0 && seg < |b.l2p| && InZone(b, seg, z)
    ensures Ordered(b, z, [OffsetSectors(b.l2p[seg])])
  {
    hide ZoneID, OffsetSectors;
    assert seg in SegsIn(b, z);
    SizeWithout(SegsIn(b, z), seg);
    assert SegsIn(b, z) - {seg} == {};
    var at := OffsetSectors(b.l2p[seg]);
    assert Key(b.l2p[seg]) == (z, at);
    forall off: nat ensures off in [at] <==> (z, off) in b.p2l {
      if (z, off) in b.p2l {
        var other := b.p2l[(z, off)];
        assert Key(b.l2p[other]) == (z, off);
        assert other in SegsIn(b, z);
        assert other in SegsIn(b, z) - {seg} || other == seg;
      }
    }
  }

  lemma OneMapped(b: Base, z: nat) returns (seg: nat)
    requires MappedIn(b, z) == 1
    ensures seg < |b.l2p| && InZone(b, seg, z)
  {
    hide ZoneID;
    seg :| seg in SegsIn(b, z);
  }

  /** One collection: all is as it was, with the victim and the zone it was moved to in each other's place. */
  lemma SpinStep(s: Ztl) returns (v: nat, order: seq<nat>)
    requires Spinning(s) && Ready(s.base)
    ensures SelectGCVictim(s.base.pool.zm) == Success(v) && Harmless(s, v, order)
    ensures var (c, r) := CollectZone(s.base, v, order);
      && r == Ok && Spinning(s.(base := c)) && |c.pool.zm.freeList| == |s.base.pool.zm.freeList|
  {
    hide Exact, Lru, Logged, Core, Inv, CollectZone, MappedIn, SelectGCVictim, Ordered, Disk, Covers, ReverseExact, Ragged;
    InvReady(s);
    v := SpinVictim(s);
    ExactParts(s.base);
    var seg := OneMapped(s.base, v);
    OneOrder(s.base, v, seg);
    order := [OffsetSectors(s.base.l2p[seg])];
    var f := s.base.pool.zm.freeList;
    LastNotZero(s);
    assert f[|f| - 1..] == [f[|f| - 1]];
    CollectOne(s, v, order);
    CollectInv(s, v, order);
    var t := s.(base := CollectZone(s.base, v, order).0);
    StillRagged(s, t);
    assert s.base.pool.zm.frozen - {v} == {};
    SpinTally(s, t, v);
  }

  lemma LastNotZero(s: Ztl)
    requires Spinning(s)
    ensures s.base.pool.zm.freeList[|s.base.pool.zm.freeList| - 1] != 0
  {
    hide Exact, Lru, Logged;
    var f := s.base.pool.zm.freeList;
    CoreFree(s);
    var k :| 0 <= k < |f| - 1 && f[..|f| - 1][k] == 0;
    assert f[k] == 0;
  }

  lemma SpinTally(s: Ztl, t: Ztl, v: nat)
    requires Spinning(s) && v < |s.base.pool.zm.zones|
    requires var f := s.base.pool.zm.freeList;
      && t.base.pool.zm.freeList == f[..|f| - 1] + [v]
      && Tallied(s.base.pool.zm, t.base.pool.zm, f[|f| - 1], v)
    requires Inv(t) && Ragged(t) && t.base.pool.zm.frozen == {} && t == s.(base := t.base)
    ensures Spinning(t)
  {
    hide Inv, Ragged;
    var f, g, zm := s.base.pool.zm.freeList, t.base.pool.zm.freeList, t.base.pool.zm;
    assert g[|g| - 1] == v && g[..|g| - 1] == f[..|f| - 1];
    forall z | 0 <= z < |zm.zones| && z !in g ensures zm.zones[z].valid == 1 && zm.zones[z].total == 1 {
      assert g[|f| - 1] == v && (z in f ==> z == f[|f| - 1]) by { assert f == f[..|f| - 1] + [f[|f| - 1]]; }
      if z in f { NothingWritten(s, z); }
    }
  }

  /** A free zone counts no segment. */
  lemma NothingWritten(s: Ztl, z: nat)
    requires Inv(s) && z in s.base.pool.zm.freeList
    ensures z < |s.base.pool.zm.zones| && s.base.pool.zm.zones[z].valid == 0 && s.base.pool.zm.zones[z].total == 0
  {
    hide Lru, Logged, D.Sane, AllLocated, Covers, ReverseExact, MappedIn;
    InvReady(s);
    FreeZoneBlank(s, z);
    CountedAt(s.base, z);
    var info := s.base.pool.zm.zones[z];
    if info.total > 0 { MulMono(1, info.total, s.base.spp); }
  }

  /** An emergency that asks for one zone more than are free collects for ever: for every number of cycles there
      are that many, each harmless and successful, after which as many zones are free as before. What has changed
      is the wear on the device and the length of the log; the disk is the same. */
  lemma {:induction false} EmergencyNeverEnds(s: Ztl, reserve: int, n: nat) returns (orders: seq<seq<nat>>)
    requires Spinning(s) && Ready(s.base) && reserve > |s.base.pool.zm.freeList|
    ensures |orders| == n && EmergencyHarmless(s, reserve, orders)
    ensures var (c, r) := RunEmergencyGC(s.base, reserve, orders);
      var t := s.(base := c);
      && r == Unfinished && Spinning(t) && |c.pool.zm.freeList| == |s.base.pool.zm.freeList| && Disk(t) == Disk(s)
    decreases n
  {
    hide Spinning, CollectZone, SelectGCVictim, Harmless, Disk, Inv;
    if n == 0 {
      orders := [];
      assert s.(base := s.base) == s;
    } else {
      var v, order := SpinStep(s);
      var t := s.(base := CollectZone(s.base, v, order).0);
      SpinInv(s);
      CollectInv(s, v, order);
      var rest := EmergencyNeverEnds(t, reserve, n - 1);
      orders := [order] + rest;
      assert orders[1..] == rest;
    }
  }

  lemma SpinInv(s: Ztl)
    requires Spinning(s)
    ensures Inv(s)
  {
  }

  // ---------- frozen zones ----------

  lemma {:induction false} MigrateAllLimits(b: Base, victim: nat, live: seq<(nat, nat)>)
    requires Ready(b)
    ensures var c := MigrateAll(b, victim, live).0;
      c.pool.zm.frozen == b.pool.zm.frozen && c.pool.zm.maxOpen == b.pool.zm.maxOpen
  {
    hide MigrateSegment;
    if live != [] {
      var n := |live| - 1;
      MigrateAllLimits(b, victim, live[..n]);
      MigrateLimits(MigrateAll(b, victim, live[..n]).0, victim, live[n].0, live[n].1);
    }
  }

  /** From its beginning to its end a collection keeps its victim from being chosen again, after any number of its
      migrations; and when it ends, refused or not, the victim is no longer frozen. */
  lemma CollectFreezes(b: Base, victim: nat, order: seq<nat>, k: nat)
    requires Ready(b) && k <= |Gather(Freeze(b, victim), victim, order)|
    ensures var c := MigrateAll(Freeze(b, victim), victim, Gather(Freeze(b, victim), victim, order)[..k]).0;
      c.pool.zm.frozen == b.pool.zm.frozen + {victim} && SelectGCVictim(c.pool.zm) != Success(victim)
    ensures CollectZone(b, victim, order).0.pool.zm.frozen == b.pool.zm.frozen - {victim}
  {
    hide MigrateAll, Gather, D.ResetZone;
    var live := Gather(Freeze(b, victim), victim, order);
    MigrateAllLimits(Freeze(b, victim), victim, live[..k]);
    MigrateAllLimits(Freeze(b, victim), victim, live);
    NeverFrozen(MigrateAll(Freeze(b, victim), victim, live[..k]).0.pool.zm);
  }

  lemma NeverFrozen(zm: Manager)
    ensures SelectGCVictim(zm).Success? ==> SelectGCVictim(zm).value !in zm.frozen
  {
  }

  // ---------- one cycle ----------

  /** A background cycle collects the eligible zone with the largest share of dead segments, the first of those; when
      no zone is eligible it succeeds and does nothing. */
  lemma CycleTakesFirst(b: Base, order: seq<nat>, v: nat)
    requires Ready(b) && CountsWithin(b.pool.zm)
    ensures FewestLive(b.pool.zm, Success(v)) ==> RunCycle(b, order) == CollectZone(b, v, order)
    ensures (forall i: nat :: !Eligible(b.pool.zm, i)) ==> RunCycle(b, order) == (b, Ok)
  {
    hide CollectZone, SelectGCVictim;
    VictimIsFewest(b.pool.zm);
  }

  /** What a migration does with a segment that is no longer where the reverse map said: nothing, except that for one
      that is unmapped it forgets what the reverse map has for offset 0 of zone 0. */
  lemma MovedAreSkipped(b: Base, victim: nat, seg: nat, off: nat)
    requires Ready(b) && victim < ZONE_SPAN && off < OFFSET_SPAN
    requires (seg >= |b.l2p| || b.l2p[seg] != EncodePhysAddr(victim, off)) && EncodePhysAddr(victim, off) != UNMAPPED
    ensures MigrateSegment(b, victim, seg, off)
            == (if Get(b.l2p, seg) == UNMAPPED then b.(p2l := b.p2l - {(0, 0)}) else b, Ok)
  {
    hide Claim, Copy, Fetch;
    UnpackPack(Get(b.l2p, seg));
    PackUnpack(victim, off);
  }
}
