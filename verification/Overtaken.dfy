/** A foreground unmap that comes between a migration's claim and its announcement: the swap is lost, and the
    announcement is the segment's last record, so that replaying the log brings back what was unmapped. */
module Overtaken {
  import opened Errors
  import opened Segment
  import opened Pool
  import opened Log
  import opened Ztl
  import opened Coherence
  import opened PoolSteps
  import opened FlushSteps
  import opened WriteSteps
  import opened GcSteps
  import opened Collect
  import opened Bookkeeping
  import opened OpenZones
  import opened History
  import opened Interleave
  import R = Recovery
  import Run
  import Wedge
  import D = Device

  /** The collector begins, checks the segment, reads it and claims a zone. */
  function Opening(victim: nat, order: seq<nat>): seq<Action> {
    [Begin(victim, order), Action.Collector, Action.Collector, Action.Collector]
  }

  /** What the claim leaves: nothing in the table or the log, a zone opened, and the copy in hand. */
  ghost predicate Claimed(s: Ztl, w: World, victim: nat, seg: nat, off: nat, zone: nat) {
    && Ready(w.s.base) && Steady(w) && seg < |s.base.l2p| && s.base.l2p[seg] != UNMAPPED
    && w.s.base.l2p == s.base.l2p && w.s.base.log == s.base.log && |w.s.base.pool.zm.zones| == |s.base.pool.zm.zones|
    && w.gc.Migrating? && w.gc.victim == victim && w.gc.live == [(seg, off)] && w.gc.stage.Announcing?
    && var m := w.gc.stage.move;
      && m.seg == seg && m.from == s.base.l2p[seg] && m.zone == zone && m.to == EncodePhysAddr(zone, 0)
      && zone < |w.s.base.pool.dev.zones| && D.IsOpen(w.s.base.pool.dev.zones[zone].cond)
  }

  lemma OpeningSteps(s: Ztl, victim: nat, order: seq<nat>) returns (w1: World, w2: World, w3: World, w4: World)
    requires Ready(s.base) && Collectable(s, victim) && Ordered(s.base, victim, order)
    ensures w1 == Act(World(s, Idle), Begin(victim, order)).0 && Ready(w1.s.base)
    ensures w2 == CollectorStep(w1) && Ready(w2.s.base)
    ensures w3 == CollectorStep(w2) && Ready(w3.s.base)
    ensures w4 == CollectorStep(w3) == After(World(s, Idle), Opening(victim, order)) && Ready(w4.s.base)
    ensures SparesZero(w1) && SparesZero(w2) && SparesZero(w3) ==> AllAllowed(World(s, Idle), Opening(victim, order))
  {
    hide CollectorStep, Gather, Collectable, Ordered, SparesZero;
    var w := World(s, Idle);
    w1 := Act(w, Begin(victim, order)).0;
    w2 := CollectorStep(w1);
    w3 := CollectorStep(w2);
    w4 := CollectorStep(w3);
    var c := Action.Collector;
    FourSteps(w, Begin(victim, order), c, c, c, w1, w2, w3, w4);
  }

  lemma GatheredThere(b: Base, victim: nat, order: seq<nat>, seg: nat, off: nat)
    requires Ordered(b, victim, order) && Gather(b, victim, order) == [(seg, off)]
    ensures Gather(Freeze(b, victim), victim, order) == [(seg, off)] && StillThere(Freeze(b, victim), victim, seg, off)
    ensures seg < |b.l2p| && b.l2p[seg] != UNMAPPED && ZoneID(b.l2p[seg]) == victim && OffsetSectors(b.l2p[seg]) == off
  {
    hide ZoneID, OffsetSectors, Gather, Ordered;
    GatherFrozen(b, victim, victim, order);
    OrderDistinct(b, victim, order);
    GatherLive(Freeze(b, victim), victim, order);
    assert Gather(Freeze(b, victim), victim, order)[0] == (seg, off);
  }

  lemma OpeningClaims(s: Ztl, victim: nat, order: seq<nat>, seg: nat, off: nat)
    requires Run.Inv(s) && Ready(s.base) && Collectable(s, victim) && Ordered(s.base, victim, order)
    requires Gather(s.base, victim, order) == [(seg, off)]
    requires s.base.pool.zm.freeList != [] && !Wedge.StuckPool(s.base.pool)
    ensures var w, acts := World(s, Idle), Opening(victim, order);
      && AllAllowed(w, acts)
      && Claimed(s, After(w, acts), victim, seg, off, s.base.pool.zm.freeList[|s.base.pool.zm.freeList| - 1])
  {
    hide Core, Exact, Lru, Logged, Fetch, Claim, Gather, StillThere, Ordered, Covers, EncodePhysAddr, OffsetSectors, ZoneID, Stuck, Content, AllocateFree, Collectable, Located, Run.Inv, AllAllowed, After, Behind, Quiet, Untouched;
    Run.InvReady(s);
    GatheredThere(s.base, victim, order, seg, off);
    var s1 := s.(base := Freeze(s.base, victim));
    Run.FrozenInv(s, s1);
    Run.InvReady(s1);
    var w1, w2, w3, w4 := OpeningSteps(s, victim, order);
    var from := s.base.l2p[seg];
    MappedLocated(s1, seg);
    FetchReads(s1, victim, from);
    assert w2 == World(s1, w1.gc.(stage := Fetching(from)));
    var data := Behind(s1.base.pool.dev, NOTHING, s1.base.spp, from);
    assert w3 == World(s1, w1.gc.(stage := Claiming(from, data)));
    FrozenStuck(s.base, victim);
    ClaimsLast(s1, seg, from, data);
    CollectorInvisible(World(s, Idle), Opening(victim, order));
  }

  lemma FrozenStuck(b: Base, victim: nat)
    ensures Wedge.StuckPool(Freeze(b, victim).pool) <==> Wedge.StuckPool(b.pool)
  {
  }

  /** A claim takes the last free zone and opens it. */
  lemma ClaimsLast(s: Ztl, seg: nat, from: PhysAddr, data: seq<D.Sector>)
    requires Run.Inv(s) && Ready(s.base) && s.base.pool.zm.freeList != [] && !Wedge.StuckPool(s.base.pool) && |data| == s.base.spp
    ensures var f := s.base.pool.zm.freeList;
      var (c, claim) := Claim(s.base, seg, from, data);
      && c == s.base.(pool := c.pool) && |c.pool.zm.zones| == |s.base.pool.zm.zones|
      && claim.Success?
      && var m := claim.value;
         && m.seg == seg && m.from == from && m.zone == f[|f| - 1] && m.to == EncodePhysAddr(f[|f| - 1], 0)
         && m.zone < |c.pool.dev.zones| && D.IsOpen(c.pool.dev.zones[m.zone].cond)
  {
    hide Core, Exact, Lru, Logged, Claim, EncodePhysAddr, Stuck, Content, AllocateFree, Run.Inv, Quiet, Untouched;
    Run.InvReady(s);
    ClaimCore(s, seg, from, data);
    ClaimPool(s.base, seg, from, data);
    CoreFree(s);
    AllocateFreeLru(s.base.pool);
    var c, m := Claim(s.base, seg, from, data).0, Claim(s.base, seg, from, data).1.value;
    ClaimedZone(s.base.pool, c.pool, m.zone);
    CoreSizes(s.(base := c));
    HeldTo(s.(base := c), m);
    HeldExists(s.(base := c), m);
  }

  lemma HeldExists(s: Ztl, m: Move)
    requires |s.base.pool.zm.zones| == |s.base.pool.dev.zones| && Held(s, m)
    ensures m.zone < |s.base.pool.dev.zones|
  {
  }

  // ---------- the rest ----------

  /** The unmap, the announcement, the copy and the swap. */
  function Losing(seg: nat): seq<Action> {
    [ForegroundUnmap(seg), Action.Collector, Action.Collector, Action.Collector]
  }

  /** The collector's steps to its end. */
  function Ending(): seq<Action> {
    [Action.Collector, Action.Collector, Action.Collector, Action.Collector]
  }

  /** The announcement after the unmap, whose copy is made and whose swap is lost. */
  lemma SwapLost(s: Ztl, w: World, victim: nat, seg: nat, off: nat, zone: nat) returns (w5: World, w6: World, w7: World, w8: World)
    requires Claimed(s, w, victim, seg, off, zone)
    ensures w5 == Act(w, ForegroundUnmap(seg)).0 && Ready(w5.s.base) && SparesZero(w5)
    ensures w6 == CollectorStep(w5) && Ready(w6.s.base) && SparesZero(w6)
    ensures w7 == CollectorStep(w6) && Ready(w7.s.base) && SparesZero(w7)
    ensures w8 == CollectorStep(w7) && Ready(w8.s.base) && SparesZero(w8)
    ensures w8.gc.Migrating? && w8.gc.victim == victim && w8.gc.live == [(seg, off)] && w8.gc.stage.Abandoning?
    ensures w8.s.base.l2p == s.base.l2p[seg := UNMAPPED] && |w8.s.base.pool.zm.zones| == |s.base.pool.zm.zones|
    ensures w8.s.base.log == LogL2PUpdate(LogL2PUpdate(s.base.log, seg, s.base.l2p[seg], UNMAPPED),
                                          seg, s.base.l2p[seg], EncodePhysAddr(zone, 0))
  {
    hide Core, Copy, EncodePhysAddr, OffsetSectors, ZoneID, Content, Private, Covers, Outstanding, Held, Located, LogL2PUpdate;
    w5 := Act(w, ForegroundUnmap(seg)).0;
    UnmapSegmentLists(w.s.base, seg);
    w6 := CollectorStep(w5);
    ActSteady(w, ForegroundUnmap(seg));
    ActSteady(w5, Action.Collector);
    w7 := CollectorStep(w6);
    CopyMoves(w6.s, w6.gc.stage.move);
    w8 := CollectorStep(w7);
  }

  /** The collector gives up the segment, seals and resets its victim, and is done. */
  lemma Finishes(w8: World) returns (w9: World, w10: World, w11: World, w12: World)
    requires Ready(w8.s.base) && w8.gc.Migrating? && |w8.gc.live| == 1 && w8.gc.stage.Abandoning?
    ensures w9 == CollectorStep(w8) && Ready(w9.s.base) && SparesZero(w9)
    ensures w10 == CollectorStep(w9) && Ready(w10.s.base) && SparesZero(w10)
    ensures w11 == CollectorStep(w10) && Ready(w11.s.base) && SparesZero(w11)
    ensures w12 == CollectorStep(w11) && Ready(w12.s.base) && w12.gc == Idle
    ensures w12.s.base.l2p == w8.s.base.l2p && |w12.s.base.pool.zm.zones| == |w8.s.base.pool.zm.zones|
    ensures w12.s.base.log == GroupCommit(LogZoneAction(w8.s.base.log, ZONE_RESET, w8.gc.victim))
  {
    hide Reclaim, GroupCommit, LogZoneAction;
    w9 := CollectorStep(w8);
    w10 := CollectorStep(w9);
    w11 := CollectorStep(w10);
    w12 := CollectorStep(w11);
    ReclaimTables(w11.s.base, w8.gc.victim);
    ReclaimLog(w11.s.base, w8.gc.victim);
  }

  lemma {:induction false} AfterAll(w: World, acts: seq<Action>, more: seq<Action>)
    requires Ready(w.s.base)
    ensures After(w, acts + more) == After(After(w, acts), more)
    ensures AllAllowed(w, acts + more) <==> AllAllowed(w, acts) && AllAllowed(After(w, acts), more)
  {
    hide Act, Allowed;
    if more == [] {
      assert acts + more == acts;
    } else {
      var last := |more| - 1;
      assert (acts + more)[..|acts + more| - 1] == acts + more[..last];
      AfterAll(w, acts, more[..last]);
    }
  }

  lemma LosingSteps(w: World, seg: nat, w5: World, w6: World, w7: World, w8: World)
    requires Ready(w.s.base) && w5 == Act(w, ForegroundUnmap(seg)).0 && Ready(w5.s.base) && SparesZero(w5)
    requires w6 == CollectorStep(w5) && Ready(w6.s.base) && SparesZero(w6)
    requires w7 == CollectorStep(w6) && Ready(w7.s.base) && SparesZero(w7)
    requires w8 == CollectorStep(w7)
    ensures After(w, Losing(seg)) == w8 && AllAllowed(w, Losing(seg))
  {
    hide CollectorStep, SparesZero, After, AllAllowed, Act, Allowed;
    var c, u := Action.Collector, ForegroundUnmap(seg);
    UnmapAllowed(w, seg);
    CollectorActs(w5);
    CollectorActs(w6);
    CollectorActs(w7);
    FourSteps(w, u, c, c, c, w5, w6, w7, w8);
  }

  lemma UnmapAllowed(w: World, seg: nat)
    requires Ready(w.s.base)
    ensures Allowed(w, ForegroundUnmap(seg))
  {
  }

  lemma CollectorActs(w: World)
    requires Ready(w.s.base)
    ensures Act(w, Action.Collector).0 == CollectorStep(w) && (Allowed(w, Action.Collector) <==> SparesZero(w))
  {
  }

  lemma EndingSteps(w8: World, w9: World, w10: World, w11: World, w12: World)
    requires Ready(w8.s.base) && SparesZero(w8)
    requires w9 == CollectorStep(w8) && Ready(w9.s.base) && SparesZero(w9)
    requires w10 == CollectorStep(w9) && Ready(w10.s.base) && SparesZero(w10)
    requires w11 == CollectorStep(w10) && Ready(w11.s.base) && SparesZero(w11)
    requires w12 == CollectorStep(w11)
    ensures After(w8, Ending()) == w12 && AllAllowed(w8, Ending())
  {
    hide CollectorStep, SparesZero, After, AllAllowed;
    var c := Action.Collector;
    FourSteps(w8, c, c, c, c, w9, w10, w11, w12);
  }

  lemma FourSteps(w: World, a: Action, b: Action, c: Action, d: Action, w1: World, w2: World, w3: World, w4: World)
    requires Ready(w.s.base) && w1 == Act(w, a).0 && w2 == Act(w1, b).0 && w3 == Act(w2, c).0 && w4 == Act(w3, d).0
    ensures After(w, [a, b, c, d]) == w4
    ensures Allowed(w, a) && Allowed(w1, b) && Allowed(w2, c) && Allowed(w3, d) ==> AllAllowed(w, [a, b, c, d])
  {
    hide *;
    AfterOne(w, a);
    AfterMore(w, [a], b);
    AfterMore(w, [a, b], c);
    AfterMore(w, [a, b, c], d);
    assert [a] + [b] == [a, b] && [a, b] + [c] == [a, b, c] && [a, b, c] + [d] == [a, b, c, d];
  }

  lemma AfterMore(w: World, acts: seq<Action>, a: Action)
    requires Ready(w.s.base)
    ensures After(w, acts + [a]) == Act(After(w, acts), a).0
    ensures AllAllowed(w, acts + [a]) <==> AllAllowed(w, acts) && Allowed(After(w, acts), a)
  {
    hide Act, Allowed;
    assert (acts + [a])[..|acts|] == acts;
  }

  lemma AfterOne(w: World, a: Action)
    requires Ready(w.s.base)
    ensures After(w, [a]) == Act(w, a).0 && (AllAllowed(w, [a]) <==> Allowed(w, a))
  {
    hide Act, Allowed;
    assert [a][..0] == [];
  }

  /** Replay of a log that described `t`, with the unmap, the announcement and the reset at its end. */
  lemma ReplaysCopy(l: Log, t: Table, zones: nat, seg: nat, from: PhysAddr, to: PhysAddr, victim: nat)
    requires Replay(Unmapped(|t|), Records(l.History()), zones) == Success(t) && seg < |t| && victim < zones <= ZONE_SPAN
    ensures var m := LogL2PUpdate(LogL2PUpdate(l, seg, from, UNMAPPED), seg, from, to);
      Replay(Unmapped(|t|), Records(GroupCommit(LogZoneAction(m, ZONE_RESET, victim)).History()), zones)
      == Success(t[seg := to])
  {
    hide Replay;
    var l5 := LogL2PUpdate(l, seg, from, UNMAPPED);
    var l6 := LogL2PUpdate(l5, seg, from, to);
    var l11 := LogZoneAction(l6, ZONE_RESET, victim);
    Adds(l, L2P_UPDATE, seg, from, UNMAPPED, |t|, zones);
    Adds(l5, L2P_UPDATE, seg, from, to, |t|, zones);
    Adds(l6, ZONE_RESET, victim, UNMAPPED, UNMAPPED, |t|, zones);
    CommitHistory(l11);
    assert t[seg := UNMAPPED][seg := to] == t[seg := to];
  }

  /** One more entry at the end of the history is one more record to replay. */
  lemma Adds(l: Log, kind: nat, id: nat, from: PhysAddr, to: PhysAddr, n: nat, zones: nat)
    ensures var before := Replay(Unmapped(n), Records(l.History()), zones);
      Replay(Unmapped(n), Records(Append(l, kind, id, from, to).History()), zones)
      == if before.Failure? then before else ReplayOne(before.value, Record(kind, l.lsn + 1, id, from, to, l.clock), zones)
  {
    hide ReplayOne;
    AppendHistory(l, kind, id, from, to);
    var r := Record(kind, l.lsn + 1, id, from, to, l.clock);
    RecordsSnoc(l.History(), Plain(r));
    ReplaySnoc(Unmapped(n), Records(l.History()), r, zones);
  }

  /** Whatever the coherent state, an unmap of the victim's one live segment between the claim and the announcement
      of its migration leaves the segment unmapped, while the log, replayed, puts it at the abandoned copy. */
  lemma ReplayBringsBack(s: Ztl, victim: nat, order: seq<nat>, seg: nat, off: nat)
    requires Run.Inv(s) && Ready(s.base) && Collectable(s, victim) && Ordered(s.base, victim, order)
    requires Gather(s.base, victim, order) == [(seg, off)]
    requires s.base.pool.zm.freeList != [] && !Wedge.StuckPool(s.base.pool)
    ensures var w, acts, f := World(s, Idle), Opening(victim, order) + Losing(seg) + Ending(), s.base.pool.zm.freeList;
      var b := After(w, acts).s.base;
      && AllAllowed(w, acts) && After(w, acts).gc == Idle
      && seg < |s.base.l2p| && b.l2p == s.base.l2p[seg := UNMAPPED]
      && Replay(Unmapped(|b.l2p|), Records(b.log.History()), |b.pool.zm.zones|)
         == Success(s.base.l2p[seg := EncodePhysAddr(f[|f| - 1], 0)])
  {
    hide Act, CollectorStep, AllAllowed, After, Allowed, Gather, Collectable, Ordered, Replay, EncodePhysAddr, Run.Inv, Wedge.StuckPool, Opening, Losing, Ending, SparesZero, GroupCommit, LogL2PUpdate, LogZoneAction;
    var w, zone := World(s, Idle), s.base.pool.zm.freeList[|s.base.pool.zm.freeList| - 1];
    OpeningClaims(s, victim, order, seg, off);
    var w4 := After(w, Opening(victim, order));
    var w5, w6, w7, w8 := SwapLost(s, w4, victim, seg, off, zone);
    var w9, w10, w11, w12 := Finishes(w8);
    LosingSteps(w4, seg, w5, w6, w7, w8);
    EndingSteps(w8, w9, w10, w11, w12);
    AfterAll(w, Opening(victim, order), Losing(seg));
    AfterAll(w, Opening(victim, order) + Losing(seg), Ending());
    DescribedBy(s, victim);
    ReplaysCopy(s.base.log, s.base.l2p, |s.base.pool.zm.zones|, seg, s.base.l2p[seg], EncodePhysAddr(zone, 0), victim);
  }

  lemma DescribedBy(s: Ztl, victim: nat)
    requires Run.Inv(s) && Collectable(s, victim)
    ensures Replay(Unmapped(|s.base.l2p|), Records(s.base.log.History()), |s.base.pool.zm.zones|) == Success(s.base.l2p)
    ensures victim < |s.base.pool.zm.zones| <= ZONE_SPAN
  {
    hide Exact, Lru, Replay;
    Run.InvReady(s);
    CoreSizes(s);
  }
}
