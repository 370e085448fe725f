/** Sequential garbage collection: which segments it moves, where to, and what is behind them afterwards. */
module Collect {
  import opened Errors
  import opened Segment
  import opened Pool
  import opened Log
  import opened Ztl
  import opened Coherence
  import opened PoolSteps
  import opened FlushSteps
  import opened WriteSteps
  import opened GcSteps
  import D = Device

  /** Every mapped segment is found by the reverse map at its address. */
  ghost predicate Covers(b: Base) {
    forall seg :: 0 <= seg < |b.l2p| && b.l2p[seg] != UNMAPPED ==>
      Key(b.l2p[seg]) in b.p2l && b.p2l[Key(b.l2p[seg])] == seg
  }

  /** An iteration order of the reverse map's entries for a zone. */
  ghost predicate Ordered(b: Base, z: nat, order: seq<nat>) {
    && Distinct(order)
    && forall off: nat :: off in order <==> (z, off) in b.p2l
  }

  /** Where the next migrated segment goes: the start of the last free zone. */
  function Destination(b: Base): PhysAddr {
    if b.pool.zm.freeList == [] then UNMAPPED
    else EncodePhysAddr(b.pool.zm.freeList[|b.pool.zm.freeList| - 1], 0)
  }

  /** What the device alone holds for a segment. */
  function OnDevice(s: Ztl, seg: nat): seq<D.Sector> {
    Behind(s.base.pool.dev, NOTHING, s.base.spp, Get(s.base.l2p, seg))
  }

  function DropLast(f: seq<nat>): seq<nat> {
    if f == [] then [] else f[..|f| - 1]
  }

  /** `t` is `s` with one segment moved to the destination. */
  ghost predicate Moved(s: Ztl, t: Ztl, seg: nat)
  {
    && Core(t)
    && t == s.(base := t.base)
    && t.base.spp == s.base.spp
    && Untouched(s.base.pool, t.base.pool)
    && seg < |s.base.l2p|
    && s.base.pool.zm.freeList != []
    && t.base.pool.zm.freeList == DropLast(s.base.pool.zm.freeList)
    && t.base.l2p == s.base.l2p[seg := Destination(s.base)]
    && t.base.log == LogL2PUpdate(s.base.log, seg, s.base.l2p[seg], Destination(s.base))
    && Content(t, seg) == (if Destination(s.base) == UNMAPPED then D.Zeros(s.base.spp) else OnDevice(s, seg))
    && forall other :: other != seg ==> Content(t, other) == Content(s, other)
  }

  /** The states a successful migration of a live segment passes through: the zone is claimed, the move is
      logged, the copy is written, and the table is swapped. */
  lemma MigrateUnfolds(s: Ztl, victim: nat, seg: nat, off: nat) returns (b1: Base, m: Move, b3: Base)
    requires Core(s) && StillThere(s.base, victim, seg, off)
    requires MigrateSegment(s.base, victim, seg, off).1 == Ok
    ensures seg < |s.base.l2p| && m.seg == seg && m.from == s.base.l2p[seg] && m.data == OnDevice(s, seg)
    ensures m.to == Destination(s.base)
    ensures Ready(s.base) && Ready(b1) && Core(s.(base := b1)) && Allocated(s.base.pool, b1.pool, m.zone)
    ensures Claim(s.base, seg, m.from, m.data) == (b1, Success(m))
    ensures Copy(Announce(b1, m), m) == (b3, Ok)
    ensures b3 == Announce(b1, m).(pool := b3.pool)
    ensures m.zone < |b1.pool.dev.zones| && Direct(b1.pool, b3.pool, m.zone, m.data)
    ensures b1 == s.base.(pool := b1.pool)
    ensures Core(s.(base := b3)) && |b3.pool.zm.zones| == |b3.pool.dev.zones| && Copied(s.(base := b3), m)
    ensures MigrateSegment(s.base, victim, seg, off).0 == Swap(b3, m)
    ensures s.base.pool.dev.zones[m.zone].cond == D.Empty
    ensures forall other :: Content(s.(base := b3), other) == Content(s, other)
    ensures D.IsOpen(b1.pool.dev.zones[m.zone].cond)
  {
    hide Core, Content, Behind, Fetch, Claim, Copy, Swap, EncodePhysAddr, Located, Untouched, Quiet, Direct, Config, Held, Copied, Allocated;
    CoreReady(s);
    var b := s.base;
    var from := b.l2p[seg];
    MappedLocated(s, seg);
    FetchReads(s, victim, from);
    var data := Behind(b.pool.dev, NOTHING, b.spp, from);
    assert Fetch(b, victim, off) == Success(data);
    ClaimCore(s, seg, from, data);
    var claim: Result<Move>;
    b1, claim := Claim(b, seg, from, data).0, Claim(b, seg, from, data).1;
    m := claim.value;
    var s1 := s.(base := b1);
    ClaimedZone(b.pool, b1.pool, m.zone);
    assert m.to == Destination(b) by { HeldTo(s1, m); }
    var s2 := s1.(base := Announce(b1, m));
    LogOnly(s1, s2.base.log);
    HeldAfterLog(s1, s2, m);
    CopyCore(s2, m);
    b3 := Copy(s2.base, m).0;
    CoreReady(s1);
    CoreSizes(s.(base := b3));
    CopyPoolOnly(s2.base, m);
  }

  lemma CopyPoolOnly(b: Base, m: Move)
    requires Ready(b)
    ensures Copy(b, m).0 == b.(pool := Copy(b, m).0.pool)
  {
  }

  lemma CoreSizes(s: Ztl)
    requires Core(s)
    ensures |s.base.pool.zm.zones| == |s.base.pool.dev.zones|
  {
  }

  lemma MigrateSegmentCore(s: Ztl, victim: nat, seg: nat, off: nat)
    requires Core(s) && StillThere(s.base, victim, seg, off)
    requires MigrateSegment(s.base, victim, seg, off).1 == Ok
    ensures Moved(s, s.(base := MigrateSegment(s.base, victim, seg, off).0), seg)
  {
    hide Core, Content, Behind, Claim, Copy, Swap, EncodePhysAddr, Located, Untouched, Quiet, Direct, Config, Copied, Allocated, MigrateSegment;
    var b1, m, b3 := MigrateUnfolds(s, victim, seg, off);
    SwapCore(s.(base := b3), m);
    var t := s.(base := Swap(b3, m));
    AllocatedUntouched(s.base.pool, b1.pool, m.zone);
    ClaimedZone(s.base.pool, b1.pool, m.zone);
    MigrationUntouched(s.base.pool, b1.pool, b3.pool, t.base.pool, m);
  }

  lemma MappedLocated(s: Ztl, seg: nat)
    requires Core(s) && seg < |s.base.l2p| && s.base.l2p[seg] != UNMAPPED
    ensures |s.base.pool.zm.zones| == |s.base.pool.dev.zones|
    ensures Located(s.base.pool, s.base.spp, s.base.l2p[seg])
  {
  }

  lemma ClaimedZone(p: Pool, q: Pool, z: nat)
    requires Allocated(p, q, z)
    ensures p.zm.freeList != [] && z == p.zm.freeList[|p.zm.freeList| - 1] && q.zm.freeList == DropLast(p.zm.freeList)
  {
  }

  lemma HeldTo(s: Ztl, m: Move)
    requires |s.base.pool.zm.zones| == |s.base.pool.dev.zones| && Held(s, m)
    ensures m.to == EncodePhysAddr(m.zone, 0)
  {
  }

  lemma HeldAfterLog(s: Ztl, t: Ztl, m: Move)
    requires |s.base.pool.zm.zones| == |s.base.pool.dev.zones| && Held(s, m)
    requires t == s.(base := s.base.(log := t.base.log))
    ensures Held(t, m)
  {
  }

  lemma MigrationUntouched(p: Pool, q: Pool, r: Pool, u: Pool, m: Move)
    requires Untouched(p, q) && m.zone < |p.dev.zones| && p.dev.zones[m.zone].cond == D.Empty
    requires m.zone < |q.dev.zones| && Direct(q, r, m.zone, m.data) && Quiet(r, u)
    ensures Untouched(p, u)
    ensures u.zm.freeList == q.zm.freeList
  {
    hide D.Sane, D.Store;
  }

  // ---------- the gathered list ----------

  /** `live` lists the segments of zone `z` found at the offsets of `order`, each once. */
  ghost predicate LiveList(b: Base, z: nat, order: seq<nat>, live: seq<(nat, nat)>) {
    && (forall k :: 0 <= k < |live| ==> live[k].1 in order && StillThere(b, z, live[k].0, live[k].1))
    && (forall i, j :: 0 <= i < j < |live| ==> live[i].0 != live[j].0)
    && (forall off :: off in order && (z, off) in b.p2l && StillThere(b, z, b.p2l[(z, off)], off) ==>
          (b.p2l[(z, off)], off) in live)
  }

  lemma {:induction false} GatherLive(b: Base, z: nat, order: seq<nat>)
    requires Distinct(order)
    ensures LiveList(b, z, order, Gather(b, z, order))
  {
    hide ZoneID, OffsetSectors;
    if order != [] {
      var n := |order| - 1;
      GatherLive(b, z, order[..n]);
      var rest, off := Gather(b, z, order[..n]), order[n];
      assert forall o :: o in order <==> o in order[..n] || o == off;
      assert off !in order[..n];
      if (z, off) in b.p2l && StillThere(b, z, b.p2l[(z, off)], off) {
        LiveMore(b, z, order[..n], off, rest);
      }
    }
  }

  lemma LiveMore(b: Base, z: nat, order: seq<nat>, off: nat, live: seq<(nat, nat)>)
    requires LiveList(b, z, order, live) && off !in order
    requires (z, off) in b.p2l && StillThere(b, z, b.p2l[(z, off)], off)
    ensures LiveList(b, z, order + [off], live + [(b.p2l[(z, off)], off)])
  {
    hide ZoneID, OffsetSectors;
    forall i | 0 <= i < |live| ensures live[i].0 != b.p2l[(z, off)] {
      assert live[i].1 in order;
    }
  }

  /** With a covering reverse map, exactly the segments mapped into the zone are gathered. */
  lemma GatherComplete(b: Base, z: nat, order: seq<nat>, seg: nat)
    requires Covers(b) && Ordered(b, z, order)
    ensures (exists k :: 0 <= k < |Gather(b, z, order)| && Gather(b, z, order)[k].0 == seg) <==>
            !IsUnmapped(Get(b.l2p, seg)) && ZoneID(Get(b.l2p, seg)) == z
  {
    hide ZoneID, OffsetSectors;
    GatherLive(b, z, order);
    var phys := Get(b.l2p, seg);
    if !IsUnmapped(phys) && ZoneID(phys) == z {
      var off := OffsetSectors(phys);
      assert Key(phys) == (z, off);
      assert off in order;
      assert (seg, off) in Gather(b, z, order);
    }
  }

  // ---------- all of them ----------

  function Segs(live: seq<(nat, nat)>): set<nat> {
    set k | 0 <= k < |live| :: live[k].0
  }

  /** `t` is `s` with the listed segments moved, each to a free zone of its own. */
  ghost predicate MovedAll(s: Ztl, t: Ztl, live: seq<(nat, nat)>)
  {
    var f := s.base.pool.zm.freeList;
    && Core(t)
    && t == s.(base := t.base)
    && t.base.spp == s.base.spp
    && |t.base.l2p| == |s.base.l2p|
    && Untouched(s.base.pool, t.base.pool)
    && |live| <= |f|
    && t.base.pool.zm.freeList == f[..|f| - |live|]
    && t.base.log.durable == s.base.log.durable
    && (forall k :: 0 <= k < |live| ==>
          && live[k].0 < |s.base.l2p|
          && t.base.l2p[live[k].0] == EncodePhysAddr(f[|f| - 1 - k], 0)
          && Content(t, live[k].0) == if t.base.l2p[live[k].0] == UNMAPPED then D.Zeros(s.base.spp) else OnDevice(s, live[k].0))
    && (forall seg :: seg !in Segs(live) ==> Get(t.base.l2p, seg) == Get(s.base.l2p, seg) && Content(t, seg) == Content(s, seg))
  }

  lemma {:induction false} MigrateAllCore(s: Ztl, victim: nat, live: seq<(nat, nat)>)
    requires Core(s) && Ready(s.base)
    requires forall k :: 0 <= k < |live| ==> StillThere(s.base, victim, live[k].0, live[k].1)
    requires forall i, j :: 0 <= i < j < |live| ==> live[i].0 != live[j].0
    requires MigrateAll(s.base, victim, live).1 == Ok
    ensures MovedAll(s, s.(base := MigrateAll(s.base, victim, live).0), live)
  {
    hide Core, Content, MigrateSegment, Behind, EncodePhysAddr, ZoneID, OffsetSectors;
    if live == [] {
      UntouchedRefl(s.base.pool);
    } else {
      var n := |live| - 1;
      MigrateAllCore(s, victim, live[..n]);
      var c := MigrateAll(s.base, victim, live[..n]).0;
      var m := s.(base := c);
      var (seg, off) := live[n];
      assert seg !in Segs(live[..n]);
      assert Get(c.l2p, seg) == Get(s.base.l2p, seg);
      MigrateSegmentCore(m, victim, seg, off);
      var t := s.(base := MigrateSegment(c, victim, seg, off).0);
      OnDeviceKept(s, m, seg);
      MovedMore(s, m, t, live);
    }
  }

  lemma UntouchedRefl(p: Pool)
    ensures Untouched(p, p)
  {
  }

  lemma UntouchedTrans(p: Pool, q: Pool, r: Pool)
    requires Untouched(p, q) && Untouched(q, r)
    ensures Untouched(p, r)
  {
  }

  /** What the device holds for a segment that has not moved is as it was. */
  lemma OnDeviceKept(s: Ztl, t: Ztl, seg: nat)
    requires Core(s) && Untouched(s.base.pool, t.base.pool) && t.base.spp == s.base.spp
    requires Get(t.base.l2p, seg) == Get(s.base.l2p, seg)
    ensures OnDevice(t, seg) == OnDevice(s, seg)
  {
    hide ZoneID, OffsetSectors, EncodePhysAddr, Behind;
    var phys := Get(s.base.l2p, seg);
    if phys != UNMAPPED {
      MappedLocated(s, seg);
      LocatedInUse(s, phys);
      BehindUntouched(s.base.pool, t.base.pool, s.base.spp, phys);
    } else {
      BehindUnmapped(s.base.pool.dev, NOTHING, s.base.spp);
      BehindUnmapped(t.base.pool.dev, NOTHING, s.base.spp);
    }
  }

  lemma MovedMore(s: Ztl, m: Ztl, t: Ztl, live: seq<(nat, nat)>)
    requires live != [] && Ready(s.base)
    requires forall i, j :: 0 <= i < j < |live| ==> live[i].0 != live[j].0
    requires MovedAll(s, m, live[..|live| - 1]) && Moved(m, t, live[|live| - 1].0)
    requires OnDevice(m, live[|live| - 1].0) == OnDevice(s, live[|live| - 1].0)
    ensures MovedAll(s, t, live)
  {
    hide Core, Content, OnDevice, EncodePhysAddr;
    hide Untouched;
    var n := |live| - 1;
    var seg := live[n].0;
    UntouchedTrans(s.base.pool, m.base.pool, t.base.pool);
    forall k | 0 <= k < |live| ensures live[k].0 < |s.base.l2p| && (k < n ==> live[..n][k] == live[k] && live[k].0 != seg) {
      assert k < n ==> live[..n][k] == live[k];
    }
    forall other | other !in Segs(live)
      ensures Get(t.base.l2p, other) == Get(s.base.l2p, other) && Content(t, other) == Content(s, other) {
      assert other != seg by { assert live[n].0 in Segs(live); }
      assert other !in Segs(live[..n]) by { SegsGrow(live, other); }
    }
  }

  lemma SegsGrow(live: seq<(nat, nat)>, seg: nat)
    requires live != [] && seg !in Segs(live)
    ensures seg !in Segs(live[..|live| - 1])
  {
  }

  // ---------- the whole collection ----------

  predicate InZone(b: Base, seg: nat, z: nat) {
    !IsUnmapped(Get(b.l2p, seg)) && ZoneID(Get(b.l2p, seg)) == z
  }

  /** The number of segments mapped into a zone. */
  ghost function MappedIn(b: Base, z: nat): nat {
    |SegsIn(b, z)|
  }

  ghost function SegsIn(b: Base, z: nat): set<nat> {
    set seg | 0 <= seg < |b.l2p| && InZone(b, seg, z)
  }

  /** The effect of a collection that succeeds: each segment of the victim now starts a zone that was free, or
      is lost to the address that means unmapped; no other segment is touched; the victim ends the free list. */
  ghost predicate Collected(s: Ztl, t: Ztl, victim: nat) {
    var f, n := s.base.pool.zm.freeList, MappedIn(s.base, victim);
    && t == s.(base := t.base)
    && |t.base.l2p| == |s.base.l2p| && t.base.spp == s.base.spp
    && n <= |f|
    && t.base.pool.zm.freeList == f[..|f| - n] + [victim]
    && (forall seg :: 0 <= seg < |s.base.l2p| ==>
          if InZone(s.base, seg, victim) then
            && OffsetSectors(t.base.l2p[seg]) == 0 && ZoneID(t.base.l2p[seg]) in f[|f| - n..]
            && Content(t, seg) == if IsUnmapped(t.base.l2p[seg]) then D.Zeros(s.base.spp) else OnDevice(s, seg)
          else
            t.base.l2p[seg] == s.base.l2p[seg] && Content(t, seg) == Content(s, seg))
  }

  lemma FrozenCore(s: Ztl, t: Ztl)
    requires Core(s) && t == s.(base := s.base.(pool := s.base.pool.(zm := s.base.pool.zm.(frozen := t.base.pool.zm.frozen))))
    ensures Core(t)
    ensures forall seg :: Content(t, seg) == Content(s, seg)
    ensures forall seg :: OnDevice(t, seg) == OnDevice(s, seg)
  {
    hide Content;
    assert Quiet(s.base.pool, t.base.pool) by { hide *; FreezeQuiet(s, t); }
    QuietCore(s, t.base.pool);
  }

  lemma FreezeQuiet(s: Ztl, t: Ztl)
    requires Core(s) && t == s.(base := s.base.(pool := s.base.pool.(zm := s.base.pool.zm.(frozen := t.base.pool.zm.frozen))))
    ensures Quiet(s.base.pool, t.base.pool)
  {
  }

  lemma {:induction false} SegsCount(live: seq<(nat, nat)>)
    requires forall i, j :: 0 <= i < j < |live| ==> live[i].0 != live[j].0
    ensures |Segs(live)| == |live|
  {
    if live != [] {
      var n := |live| - 1;
      SegsCount(live[..n]);
      assert Segs(live) == Segs(live[..n]) + {live[n].0};
      assert live[n].0 !in Segs(live[..n]);
    }
  }

  lemma GatherIsSegsIn(b: Base, z: nat, order: seq<nat>)
    requires Covers(b) && Ordered(b, z, order)
    ensures Segs(Gather(b, z, order)) == SegsIn(b, z)
    ensures |Gather(b, z, order)| == MappedIn(b, z)
  {
    hide ZoneID, OffsetSectors, Covers, Ordered, Gather;
    var live := Gather(b, z, order);
    assert Distinct(order) by { OrderDistinct(b, z, order); }
    GatherLive(b, z, order);
    SegsCount(live);
    forall seg: nat ensures seg in Segs(live) <==> seg in SegsIn(b, z) {
      GatherComplete(b, z, order, seg);
    }
  }

  lemma OrderDistinct(b: Base, z: nat, order: seq<nat>)
    requires Ordered(b, z, order)
    ensures Distinct(order)
  {
  }

  /** Encoded starts of zones unpack to the zones. */
  lemma StartUnpacks(z: nat)
    requires z < ZONE_SPAN
    ensures ZoneID(EncodePhysAddr(z, 0)) == z && OffsetSectors(EncodePhysAddr(z, 0)) == 0
  {
    PackUnpack(z, 0);
  }

  lemma FreeInRange(s: Ztl)
    requires Core(s)
    ensures forall k :: 0 <= k < |s.base.pool.zm.freeList| ==>
              var z := s.base.pool.zm.freeList[k];
              z < ZONE_SPAN && z < |s.base.pool.dev.zones| && s.base.pool.dev.zones[z].cond == D.Empty
  {
    forall k | 0 <= k < |s.base.pool.zm.freeList|
      ensures var z := s.base.pool.zm.freeList[k];
              z < ZONE_SPAN && z < |s.base.pool.dev.zones| && s.base.pool.dev.zones[z].cond == D.Empty {
      assert s.base.pool.zm.freeList[k] in s.base.pool.zm.freeList;
    }
  }

  /** `m` is `s` with every segment of the victim moved out of it. */
  ghost predicate Evacuated(s: Ztl, m: Ztl, victim: nat) {
    var f, n := s.base.pool.zm.freeList, MappedIn(s.base, victim);
    && m == s.(base := m.base)
    && |m.base.l2p| == |s.base.l2p| && m.base.spp == s.base.spp
    && n <= |f|
    && m.base.pool.zm.freeList == f[..|f| - n]
    && (forall seg :: 0 <= seg < |s.base.l2p| ==>
          if InZone(s.base, seg, victim) then
            && OffsetSectors(m.base.l2p[seg]) == 0 && ZoneID(m.base.l2p[seg]) in f[|f| - n..]
            && Content(m, seg) == if IsUnmapped(m.base.l2p[seg]) then D.Zeros(s.base.spp) else OnDevice(s, seg)
          else
            m.base.l2p[seg] == s.base.l2p[seg] && Content(m, seg) == Content(s, seg))
  }

  /** After the migrations every segment of the victim starts a zone that was free. */
  lemma MovedAllEvacuates(s: Ztl, m: Ztl, victim: nat, order: seq<nat>)
    requires Core(s) && Covers(s.base) && Ordered(s.base, victim, order)
    requires MovedAll(s, m, Gather(s.base, victim, order))
    ensures Evacuated(s, m, victim)
  {
    hide Core, Content, EncodePhysAddr, ZoneID, OffsetSectors, Covers, Ordered, Gather, OnDevice, Untouched;
    var live, f := Gather(s.base, victim, order), s.base.pool.zm.freeList;
    GatherIsSegsIn(s.base, victim, order);
    FreeInRange(s);
    forall seg | 0 <= seg < |s.base.l2p| && InZone(s.base, seg, victim)
      ensures OffsetSectors(m.base.l2p[seg]) == 0 && ZoneID(m.base.l2p[seg]) in f[|f| - |live|..]
      ensures Content(m, seg) == if IsUnmapped(m.base.l2p[seg]) then D.Zeros(s.base.spp) else OnDevice(s, seg)
    {
      assert seg in Segs(live);
      var k :| 0 <= k < |live| && live[k].0 == seg;
      StartUnpacks(f[|f| - 1 - k]);
      assert f[|f| - |live|..][|live| - 1 - k] == f[|f| - 1 - k];
    }
    forall seg | 0 <= seg < |s.base.l2p| && !InZone(s.base, seg, victim)
      ensures m.base.l2p[seg] == s.base.l2p[seg] && Content(m, seg) == Content(s, seg) {
      assert seg !in Segs(live);
      assert Get(m.base.l2p, seg) == Get(s.base.l2p, seg);
    }
  }

  /** Nothing is mapped into an evacuated zone: a free zone is not the victim. */
  lemma EvacuatedNone(s: Ztl, m: Ztl, victim: nat)
    requires Core(s) && Evacuated(s, m, victim)
    requires victim < |s.base.pool.dev.zones| && s.base.pool.dev.zones[victim].cond != D.Empty
    ensures NoneIn(m.base.l2p, victim)
  {
    hide Core, Content, EncodePhysAddr, ZoneID, OffsetSectors, OnDevice;
    FreeInRange(s);
    var f, n := s.base.pool.zm.freeList, MappedIn(s.base, victim);
    forall seg | 0 <= seg < |m.base.l2p| && m.base.l2p[seg] != UNMAPPED ensures ZoneID(m.base.l2p[seg]) != victim {
      if InZone(s.base, seg, victim) {
        var k :| 0 <= k < |f[|f| - n..]| && f[|f| - n..][k] == ZoneID(m.base.l2p[seg]);
        assert f[|f| - n + k] == ZoneID(m.base.l2p[seg]);
      }
    }
  }

  lemma MigrationOutcome(s: Ztl, victim: nat, order: seq<nat>)
    requires Core(s) && Covers(s.base) && Ordered(s.base, victim, order) && Ready(s.base)
    requires MigrateAll(s.base, victim, Gather(s.base, victim, order)).1 == Ok
    ensures var m := s.(base := MigrateAll(s.base, victim, Gather(s.base, victim, order)).0);
      Core(m) && Evacuated(s, m, victim) && Untouched(s.base.pool, m.base.pool)
  {
    hide Core, Content, MigrateAll, Gather, Covers, Ordered, EncodePhysAddr, ZoneID, OffsetSectors, OnDevice, Evacuated;
    OrderDistinct(s.base, victim, order);
    GatherLive(s.base, victim, order);
    var live := Gather(s.base, victim, order);
    MigrateAllCore(s, victim, live);
    MovedAllEvacuates(s, s.(base := MigrateAll(s.base, victim, live).0), victim, order);
  }

  /** The states a successful collection passes through. */
  lemma CollectUnfolds(b: Base, victim: nat, order: seq<nat>)
    requires Ready(b)
    requires CollectZone(b, victim, order).1 == Ok
    ensures var c := Freeze(b, victim);
      var (moved, r) := MigrateAll(c, victim, Gather(b, victim, order));
      && Gather(c, victim, order) == Gather(b, victim, order)
      && r == Ok
      && Ready(Seal(moved, victim))
      && CollectZone(b, victim, order).0 == Unfreeze(Reclaim(Seal(moved, victim), victim).0, victim)
  {
    GatherFrozen(b, victim, victim, order);
  }

  lemma {:induction false} GatherFrozen(b: Base, z: nat, victim: nat, order: seq<nat>)
    ensures Gather(Freeze(b, z), victim, order) == Gather(b, victim, order)
  {
    if order != [] {
      GatherFrozen(b, z, victim, order[..|order| - 1]);
    }
  }

  /** Resetting the evacuated victim and returning it to the free list completes the collection. */
  lemma EvacuatedReclaimed(c: Ztl, m: Ztl, victim: nat)
    requires Core(m) && Evacuated(c, m, victim) && NoneIn(m.base.l2p, victim)
    requires victim < |m.base.pool.dev.zones| && Ready(Seal(m.base, victim))
    ensures Collected(c, c.(base := Unfreeze(Reclaim(Seal(m.base, victim), victim).0, victim)), victim)
  {
    hide Core, Content, Reclaim, EncodePhysAddr, ZoneID, OffsetSectors, OnDevice, NoneIn;
    var sealed := m.(base := Seal(m.base, victim));
    LogOnly(m, sealed.base.log);
    ReclaimMoves(sealed, victim);
    var r := sealed.(base := Reclaim(sealed.base, victim).0);
    forall seg: nat ensures Content(r, seg) == Content(m, seg) {
      RecycledContent(sealed, r.base.pool, victim, seg);
    }
    UnfrozenContent(r, c.(base := Unfreeze(r.base, victim)));
  }

  lemma CollectedFrozen(s: Ztl, c: Ztl, t: Ztl, victim: nat)
    requires Core(s) && c == s.(base := Freeze(s.base, victim)) && Collected(c, t, victim)
    ensures Collected(s, t, victim)
  {
    hide Core, Content, EncodePhysAddr, ZoneID, OffsetSectors, OnDevice;
    FrozenCore(s, c);
    assert SegsIn(c.base, victim) == SegsIn(s.base, victim);
    forall seg ensures InZone(c.base, seg, victim) == InZone(s.base, seg, victim) {
    }
  }

  /** What a successful collection does, whatever is buffered for the victim. */
  lemma CollectZoneEffect(s: Ztl, victim: nat, order: seq<nat>) returns (sealed: Ztl)
    requires Core(s) && Covers(s.base) && Ordered(s.base, victim, order)
    requires victim < |s.base.pool.dev.zones| && s.base.pool.dev.zones[victim].cond != D.Empty
    requires CollectZone(s.base, victim, order).1 == Ok
    ensures Collected(s, s.(base := CollectZone(s.base, victim, order).0), victim)
    ensures Core(sealed) && sealed == s.(base := sealed.base)
    ensures |sealed.base.pool.dev.zones| == |s.base.pool.dev.zones|
    ensures sealed.base.pool.dev.zones[victim].cond != D.Empty
    ensures NoneIn(sealed.base.l2p, victim)
    ensures Ready(sealed.base)
    ensures CollectZone(s.base, victim, order).0 == Unfreeze(Reclaim(sealed.base, victim).0, victim)
  {
    hide Core, Content, CollectZone, MigrateAll, Gather, Reclaim, Covers, Ordered, EncodePhysAddr, ZoneID, OffsetSectors, OnDevice, NoneIn, Collected, Evacuated;
    CoreReady(s);
    CollectUnfolds(s.base, victim, order);
    var c := s.(base := Freeze(s.base, victim));
    FrozenCore(s, c);
    CoversFrozen(s.base, victim, victim, order);
    CoreReady(c);
    MigrationOutcome(c, victim, order);
    var m := s.(base := MigrateAll(c.base, victim, Gather(s.base, victim, order)).0);
    EvacuatedNone(c, m, victim);
    sealed := m.(base := Seal(m.base, victim));
    LogOnly(m, sealed.base.log);
    EvacuatedReclaimed(c, m, victim);
    CollectedFrozen(s, c, s.(base := CollectZone(s.base, victim, order).0), victim);
  }

  lemma CoversFrozen(b: Base, z: nat, victim: nat, order: seq<nat>)
    requires Covers(b) && Ordered(b, victim, order)
    ensures Covers(Freeze(b, z)) && Ordered(Freeze(b, z), victim, order)
  {
  }

  lemma UnfrozenContent(s: Ztl, t: Ztl)
    requires t == s.(base := s.base.(pool := s.base.pool.(zm := t.base.pool.zm)))
    ensures forall seg :: Content(t, seg) == Content(s, seg)
  {
  }

  /** A zone that may be collected: in use, with nothing buffered for it, and not the current write zone. */
  ghost predicate Collectable(s: Ztl, z: nat) {
    && z < |s.base.pool.dev.zones| && s.base.pool.dev.zones[z].cond != D.Empty
    && z !in s.bufs
    && !(s.curOpen && s.cur == z)
  }

  /** A collection of a collectable zone keeps the invariant. */
  lemma CollectZoneCore(s: Ztl, victim: nat, order: seq<nat>)
    requires Core(s) && Covers(s.base) && Ordered(s.base, victim, order) && Collectable(s, victim)
    requires CollectZone(s.base, victim, order).1 == Ok
    ensures var t := s.(base := CollectZone(s.base, victim, order).0);
      && Core(t)
      && Collected(s, t, victim)
  {
    hide Core, Content, CollectZone, Covers, Ordered, Collected, Reclaim;
    CoreReady(s);
    var sealed := CollectZoneEffect(s, victim, order);
    CoreReady(sealed);
    ReclaimCore(sealed, victim);
    var r := sealed.(base := Reclaim(sealed.base, victim).0);
    FrozenCore(r, r.(base := Unfreeze(r.base, victim)));
  }

  /** Every segment keeps its data if and only if the device already held it for each segment of the victim,
      and the one segment that a collection may move to the unmapped address had none. */
  lemma CollectPreserves(s: Ztl, t: Ztl, victim: nat)
    requires Collected(s, t, victim)
    ensures (forall seg :: 0 <= seg < |s.base.l2p| ==> Content(t, seg) == Content(s, seg)) <==>
            (forall seg :: 0 <= seg < |s.base.l2p| && InZone(s.base, seg, victim) ==>
               Content(s, seg) == if IsUnmapped(t.base.l2p[seg]) then D.Zeros(s.base.spp) else OnDevice(s, seg))
  {
    hide Content, OnDevice, InZone;
  }
}
