/** A run of admissible operations, all of them accepted, from a layer just created to a state whose emergency
    collections never end; and a zone that is dead without being a victim. */
module Endless {
  import opened Arith
  import opened Errors
  import opened Segment
  import opened Pool
  import opened Log
  import opened Ztl
  import opened Coherence
  import opened PoolSteps
  import opened FlushSteps
  import opened WriteSteps
  import opened GcSteps
  import opened Collect
  import opened Bookkeeping
  import opened OpenZones
  import opened History
  import opened FlatDisk
  import opened Run
  import opened Wedge
  import opened FlatArray
  import opened Limits
  import opened Rounds
  import W = Witness
  import D = Device

  // ---------- steps, as the collector sees them ----------

  /** Segments of which two do not fit a zone. */
  ghost predicate OneEach(s: Ztl) {
    s.base.spp > 0 && s.base.spp < s.base.pool.dev.zoneSectors < 2 * s.base.spp
  }

  lemma OneEachRagged(s: Ztl)
    requires OneEach(s)
    ensures Ragged(s)
  {
    var spp, size := s.base.spp, s.base.pool.dev.zoneSectors;
    DivMod(1, size - spp, spp);
    assert size == 1 * spp + (size - spp);
  }

  ghost predicate NoRoom(s: Ztl) {
    !(s.curOpen && Remaining(s) >= s.base.spp)
  }

  /** The write zone of a state without room: the last free zone. */
  lemma TakesLast(s: Ztl)
    requires Inv(s) && Ragged(s) && Ready(s.base) && NoRoom(s) && s.base.pool.zm.freeList != []
    ensures var f := s.base.pool.zm.freeList;
      var (t, zone) := GetWriteZone(s);
      && zone == Success(f[|f| - 1])
      && f[|f| - 1] < |s.base.pool.zm.zones|
      && t == s.(base := t.base, cur := f[|f| - 1], curOpen := true)
      && t.base.l2p == s.base.l2p && t.base.spp == s.base.spp
      && t.base.pool.zm.freeList == f[..|f| - 1] && t.base.pool.zm.frozen == s.base.pool.zm.frozen
      && t.base.pool.zm.maxOpen == s.base.pool.zm.maxOpen && SameCounts(s.base.pool, t.base.pool)
      && f[|f| - 1] < |t.base.pool.dev.zones| && t.base.pool.dev.zones[f[|f| - 1]].cond == D.ExplicitOpen
      && t.base.pool.zm.zones[f[|f| - 1]].wp == t.base.pool.zm.zones[f[|f| - 1]].start
      && t.base.pool.zm.zones[f[|f| - 1]].size == t.base.pool.dev.zoneSectors
  {
    hide Core, Exact, Logged, Lru, AllocateFree, Stuck;
    InvReady(s);
    NeverStuck(s);
    CoreFree(s);
    CoreConfig(s);
    AllocateFreeLru(s.base.pool);
    AllocateFreeMoves(s.base.pool, s.base.spp);
    AllocateSameCounts(s.base.pool);
    AllocateLimits(s.base.pool);
    var f := s.base.pool.zm.freeList;
    assert f[|f| - 1] in f;
    FreeZoneBlank(s, f[|f| - 1]);
    CoreSizes(s);
    hide D.Sane;
  }

  /** The segment went to the start of zone `z`, which was the last free zone, and left no room in it. */
  ghost predicate WentTo(s: Ztl, t: Ztl, seg: nat, z: nat) {
    && seg < |s.base.l2p| && t.base.l2p == s.base.l2p[seg := EncodePhysAddr(z, 0)]
    && t.base.pool.zm.freeList + [z] == s.base.pool.zm.freeList
    && t.base.pool.zm.frozen == s.base.pool.zm.frozen
    && Tallied(s.base.pool.zm, t.base.pool.zm, z, -1)
    && t.cur == z && t.curOpen && NoRoom(t)
    && (forall i :: i in t.bufs <==> i in s.bufs || i == z)
    && z < |t.base.pool.dev.zones| && t.base.pool.dev.zones[z].cond == D.ExplicitOpen
  }

  /** A write of a segment that is not mapped, in a state without room. */
  lemma WritesNew(s: Ztl, seg: nat, data: seq<D.Sector>, lba: nat, z: nat)
    requires Inv(s) && OneEach(s) && Ready(s.base) && NoRoom(s) && seg < |s.base.l2p|
    requires lba == seg * s.base.spp && |data| == s.base.spp && s.base.l2p[seg] == UNMAPPED
    requires s.base.pool.zm.freeList != [] && z == s.base.pool.zm.freeList[|s.base.pool.zm.freeList| - 1] != 0
    ensures var op := WriteOp(lba, data, 0, []);
      var (t, r) := Step(s, op);
      r == Ok && Admissible(s, op) && Inv(t) && OneEach(t) && WentTo(s, t, seg, z)
  {
    hide Core, Exact, Logged, Lru, GetWriteZone, WriteInto, Content, NextAddr, D.Sane, Disk, Inv, Step, Admissible, FlushesHold, EncodePhysAddr, Writable;
    OneEachRagged(s);
    InvReady(s);
    TakesLast(s);
    GetWriteZoneCore(s);
    GetWriteZoneExact(s);
    var f := s.base.pool.zm.freeList;
    assert f == f[..|f| - 1] + [z];
    var s1 := GetWriteZone(s).0;
    IntoNew(s1, seg, data, z);
    var s2 := WriteInto(s1, z, seg, data).0;
    assert EncodePhysAddr(z, 0) != UNMAPPED by { FreeInRange(s); PackedUnmapped(z, 0); }
    W.SegmentWrite(s, seg, data, lba, s1, z, s2);
    StepInv(s, WriteOp(lba, data, 0, []));
  }

  /** The first segment of a zone. */
  lemma IntoNew(s: Ztl, seg: nat, data: seq<D.Sector>, z: nat)
    requires Core(s) && Exact(s.base) && Ready(s.base) && Writable(s, z) && seg < |s.base.l2p| && |data| == s.base.spp
    requires s.base.l2p[seg] == UNMAPPED
    requires s.base.pool.zm.zones[z].wp == s.base.pool.zm.zones[z].start
    ensures z < |s.base.pool.zm.zones| && NextAddr(s.base.pool.zm, z) == EncodePhysAddr(z, 0)
    ensures var (t, r) := WriteInto(s, z, seg, data);
      && r == Ok && t.base.l2p == s.base.l2p[seg := EncodePhysAddr(z, 0)] && t.base.pool.dev == s.base.pool.dev
      && t.base.pool.zm.freeList == s.base.pool.zm.freeList && t.base.pool.zm.frozen == s.base.pool.zm.frozen
      && Tallied(s.base.pool.zm, t.base.pool.zm, z, -1)
      && t.cur == s.cur && t.curOpen == s.curOpen && (forall i :: i in t.bufs <==> i in s.bufs || i == z)
      && z < |t.base.pool.zm.zones|
      && t.base.pool.zm.zones[z] == s.base.pool.zm.zones[z].(wp := t.base.pool.zm.zones[z].start + s.base.spp,
                                      valid := t.base.pool.zm.zones[z].valid, total := t.base.pool.zm.zones[z].total)
  {
    hide Core, Exact, WriteInto, NextAddr, EncodePhysAddr;
    WritableExists(s, z);
    ExactParts(s.base);
    WriteIntoMoves(s, z, seg, data);
    WriteIntoRecounts(s, z, seg, data);
    WriteIntoFrozen(s, z, seg, data);
    NextStart(s.base.pool.zm, z);
  }

  lemma NextStart(zm: Manager, z: nat)
    requires z < |zm.zones| && zm.zones[z].wp == zm.zones[z].start
    ensures NextAddr(zm, z) == EncodePhysAddr(z, 0)
  {
  }

  lemma WriteIntoFrozen(s: Ztl, z: nat, seg: nat, data: seq<D.Sector>)
    requires Ready(s.base)
    ensures WriteInto(s, z, seg, data).0.base.pool.zm.frozen == s.base.pool.zm.frozen
  {
    hide NextAddr, ZoneID, OffsetSectors;
  }

  // ---------- a flush ----------

  /** Tables, tallies and the free list are the same. */
  ghost predicate SameTally(s: Ztl, t: Ztl) {
    && t.base.l2p == s.base.l2p && t.base.p2l == s.base.p2l && t.base.spp == s.base.spp
    && t.base.pool.zm.freeList == s.base.pool.zm.freeList && t.base.pool.zm.frozen == s.base.pool.zm.frozen
    && t.base.pool.zm.maxOpen == s.base.pool.zm.maxOpen && SameCounts(s.base.pool, t.base.pool)
    && (forall z :: 0 <= z < |s.base.pool.zm.zones| ==> t.base.pool.zm.zones[z].size == s.base.pool.zm.zones[z].size)
    && t.base.pool.dev.zoneSectors == s.base.pool.dev.zoneSectors
    && |t.base.pool.dev.zones| == |s.base.pool.dev.zones|
    && t.cur == s.cur && t.curOpen == s.curOpen
  }

  lemma GetOrOpenFrozen(p: Pool, z: nat)
    requires Listed(p)
    ensures GetOrOpen(p, z).0.zm.frozen == p.zm.frozen
  {
    hide D.OpenZone, D.CloseZone;
  }

  lemma FlushTally(s: Ztl, z: nat)
    requires Inv(s) && Ragged(s) && Ready(s.base)
    ensures var (bufs, q, r) := FlushZone(s.bufs, s.base.pool, z);
      var t := s.(base := s.base.(pool := q), bufs := bufs);
      && r == Ok && Inv(t) && SameTally(s, t) && bufs == s.bufs - {z}
      && (z in s.bufs ==> z in q.zm.openSet)
  {
    hide Core, Exact, Lru, Logged, GetOrOpen, D.WriteSectors, Inv, Disk, D.Sane, D.Store;
    InvReady(s);
    FlushZoneHolds(s, z);
    FlushZoneInv(s, z);
    FlushSameCounts(s, z);
    if z in s.bufs {
      FlushZoneMoves(s, z);
      GetOrOpenFrozen(s.base.pool, z);
      GetOrOpenListed(s, z);
    } else {
      assert s.bufs - {z} == s.bufs;
    }
  }

  lemma GetOrOpenListed(s: Ztl, z: nat)
    requires Core(s) && Lru(s.base.pool) && z in s.bufs && FlushZone(s.bufs, s.base.pool, z).2 == Ok
    ensures z in FlushZone(s.bufs, s.base.pool, z).1.zm.openSet
  {
    hide Lru, D.WriteSectors, D.Sane, AllLocated, FreeIsEmpty, GetOrOpen;
    GetOrOpenLru(s.base.pool, z);
  }

  lemma {:induction false} FlushEachTally(s: Ztl, zones: seq<nat>)
    requires Inv(s) && Ragged(s) && Ready(s.base)
    ensures var t := FlushState(s, zones);
      && FlushEach(s.bufs, s.base.pool, zones).2 == Ok && Inv(t) && SameTally(s, t)
      && (forall z :: z in t.bufs <==> z in s.bufs && z !in zones)
      && (zones != [] && zones[|zones| - 1] in s.bufs && zones[|zones| - 1] !in zones[..|zones| - 1] ==>
            zones[|zones| - 1] in t.base.pool.zm.openSet)
  {
    hide Inv, FlushZone, Ragged;
    if zones == [] {
      assert FlushState(s, zones) == s;
    } else {
      var last := |zones| - 1;
      FlushEachTally(s, zones[..last]);
      var m := FlushState(s, zones[..last]);
      StillRagged(s, m);
      FlushTally(m, zones[last]);
      assert forall z :: z in zones <==> z in zones[..last] || z == zones[last];
    }
  }

  // ---------- an unmap, and the collection of a dead zone ----------

  /** One segment fewer in zone `z`; all else the collector sees is the same. */
  ghost predicate Lost1(s: Ztl, t: Ztl, seg: nat, z: nat) {
    && seg < |s.base.l2p| && t == s.(base := t.base) && t.base.l2p == s.base.l2p[seg := UNMAPPED] && t.base.spp == s.base.spp
    && t.base.pool.dev == s.base.pool.dev
    && z < |s.base.pool.zm.zones| && s.base.pool.zm.zones[z].valid > 0
    && t.base.pool.zm == SetInfo(s.base.pool.zm, z, s.base.pool.zm.zones[z].(valid := s.base.pool.zm.zones[z].valid - 1))
  }

  lemma UnmapsFirst(s: Ztl, z: nat)
    requires Inv(s) && Ready(s.base) && s.base.spp == 2 && |s.base.l2p| > 0 && s.base.l2p[0] == EncodePhysAddr(z, 0) != UNMAPPED && z < ZONE_SPAN
    ensures var (t, r) := Step(s, UnmapOp(0, 2));
      r == Ok && Admissible(s, UnmapOp(0, 2)) && Inv(t) && Lost1(s, t, 0, z)
  {
    hide Core, Lru, Logged, ZoneID, OffsetSectors, EncodePhysAddr, Covers, ReverseExact, Inv, Disk;
    StepInv(s, UnmapOp(0, 2));
    InvReady(s);
    StartUnpacks(z);
    assert LastLBA(0, 2) == 1;
    assert UnmapRange(s.base, 0, 0) == s.base;
    MappedLocated(s, 0);
    CountedValid(s.base, 0);
  }

  /** The collection of a closed zone without live segments, all other zones being wholly live. */
  lemma CollectsDead(s: Ztl, z: nat)
    requires Inv(s) && Ready(s.base) && Spent(s.base, z) && Collectable(s, z) && z != 0
    requires forall i :: 0 <= i < |s.base.pool.zm.zones| && i != z && s.base.pool.zm.zones[i].total > 0 ==> s.base.pool.zm.zones[i].valid > 0
    ensures var (t, r) := Step(s, CollectOp([]));
      && r == Ok && Admissible(s, CollectOp([])) && Inv(t)
      && t == s.(base := t.base) && t.base.l2p == s.base.l2p && t.base.spp == s.base.spp
      && t.base.pool.zm.freeList == s.base.pool.zm.freeList + [z] && t.base.pool.zm.frozen == s.base.pool.zm.frozen - {z}
      && t.base.pool.zm.maxOpen == s.base.pool.zm.maxOpen && |t.base.pool.zm.zones| == |s.base.pool.zm.zones|
      && t.base.pool.dev.zoneSectors == s.base.pool.dev.zoneSectors
      && forall i :: 0 <= i < |s.base.pool.zm.zones| ==>
           if i == z then t.base.pool.zm.zones[i].valid == t.base.pool.zm.zones[i].total == 0
           else t.base.pool.zm.zones[i] == s.base.pool.zm.zones[i]
  {
    hide Core, Exact, Lru, Logged, Covers, Inv, Disk, Gather, Reclaim, MappedIn, SelectGCVictim, CollectZone, GCScore;
    InvReady(s);
    ExactParts(s.base);
    InvCountable(s);
    SpentFirst(s.base, z);
    DeadOrder(s.base, z);
    assert Harmless(s, z, []) by { NoneMapped(s.base, z); }
    SpentUnfolds(s.base, z, []);
    SealLogOnly(Freeze(s.base, z), z);
    ReclaimKeeps(s.base, Seal(Freeze(s.base, z), z), z);
    StepInv(s, CollectOp([]));
  }

  lemma DeadOrder(b: Base, z: nat)
    requires ReverseExact(b) && NoneIn(b.l2p, z) && z != 0
    ensures Ordered(b, z, [])
  {
    hide ZoneID, OffsetSectors;
    forall k | k in b.p2l && k != (0, 0) ensures k.0 != z {
      assert Key(b.l2p[b.p2l[k]]) == k;
    }
  }

  // ---------- the run ----------

  /** Five zones of three sectors, one of them open, segments of two sectors; each zone's live segments and how many
      it ever held. */
  ghost predicate Small(s: Ztl, f: seq<nat>, c: seq<(nat, nat)>) {
    var zm := s.base.pool.zm;
    && Inv(s) && Ready(s.base) && OneEach(s) && s.base.spp == 2 && |s.base.l2p| == 7
    && |zm.zones| == |c| == 5 && zm.maxOpen == 1 && zm.frozen == {} && zm.freeList == f
    && forall z :: 0 <= z < 5 ==> (zm.zones[z].valid, zm.zones[z].total) == c[z]
  }

  const N: (nat, nat) := (0, 0)
  const Y: (nat, nat) := (1, 1)

  lemma SmallStart()
    ensures var s := Start(5, 3, 1, 2);
      Small(s, [0, 1, 2, 3, 4], [N, N, N, N, N]) && s.bufs == map[] && !s.curOpen && s.base.l2p == [0, 0, 0, 0, 0, 0, 0]
  {
    hide Inv, Disk, Report, D.Fresh, Select;
    FreshReport(5, 3, 1);
    StartInv(5, 3, 1, 2);
    StartSizes(5, 3, 1);
    FreshFrozen(D.Fresh(5, 3, 1));
  }

  lemma FreshFrozen(d: D.Device)
    ensures Report(d).frozen == {}
  {
  }

  lemma SmallWrite(s: Ztl, f: seq<nat>, c: seq<(nat, nat)>, seg: nat, data: seq<D.Sector>, lba: nat, z: nat)
    requires Small(s, f + [z], c) && NoRoom(s) && seg < 7 && lba == seg * 2 && |data| == 2 && s.base.l2p[seg] == UNMAPPED
    requires 0 < z < 5 && c[z] == N
    ensures var op := WriteOp(lba, data, 0, []);
      var (t, r) := Step(s, op);
      r == Ok && Admissible(s, op) && WentTo(s, t, seg, z) && Small(t, f, c[z := Y])
  {
    hide Inv, Step, Admissible, NoRoom;
    WritesNew(s, seg, data, lba, z);
    var t := Step(s, WriteOp(lba, data, 0, [])).0;
    assert t.base.pool.zm.freeList + [z] == f + [z];
    assert t.base.pool.zm.freeList == f by { assert (t.base.pool.zm.freeList + [z])[..|f|] == f; }
  }

  lemma SmallUnmap(s: Ztl, f: seq<nat>, c: seq<(nat, nat)>)
    requires Small(s, f, c) && NoRoom(s) && s.base.l2p[0] == EncodePhysAddr(4, 0) && c[4] == Y
    ensures var (t, r) := Step(s, UnmapOp(0, 2));
      && r == Ok && Admissible(s, UnmapOp(0, 2)) && Small(t, f, c[4 := (0, 1)]) && NoRoom(t)
      && t.base.l2p[0] == UNMAPPED && t.bufs == s.bufs && t.cur == s.cur && t.curOpen == s.curOpen
  {
    hide Inv, Step, Admissible, EncodePhysAddr;
    PackedUnmapped(4, 0);
    UnmapsFirst(s, 4);
  }

  lemma SmallFlush(s: Ztl, f: seq<nat>, c: seq<(nat, nat)>, zones: seq<nat>, last: nat)
    requires Small(s, f, c) && NoRoom(s) && last in s.bufs && last !in zones
    ensures var op := FlushOp(zones + [last]);
      var (t, r) := Step(s, op);
      && r == Ok && Admissible(s, op) && Small(t, f, c) && NoRoom(t)
      && t.base.l2p == s.base.l2p && t.cur == s.cur && t.curOpen == s.curOpen
      && last in t.base.pool.zm.openSet
      && forall z :: z in t.bufs <==> z in s.bufs && z !in zones && z != last
  {
    hide Inv, FlushEach, Disk;
    OneEachRagged(s);
    var all := zones + [last];
    assert all[..|all| - 1] == zones;
    FlushEachTally(s, all);
    StepInv(s, FlushOp(all));
  }

  /** With zone 2 the only one open, zone 4 is closed, dead, and the victim. */
  lemma SmallCollect(s: Ztl)
    requires Small(s, [0, 1], [N, N, Y, Y, (0, 1)]) && NoRoom(s) && s.bufs == map[] && 2 in s.base.pool.zm.openSet
    requires s.cur == 2
    ensures var (t, r) := Step(s, CollectOp([]));
      && r == Ok && Admissible(s, CollectOp([])) && Small(t, [0, 1, 4], [N, N, Y, Y, N]) && NoRoom(t)
      && t.bufs == map[] && t.base.l2p == s.base.l2p
  {
    hide Core, Exact, Lru, Logged, Step, Admissible, ZoneID, Inv;
    InvReady(s);
    LruSizes(s.base.pool);
    CoreFree(s);
    InvCountable(s);
    SizeWithout(s.base.pool.zm.openSet, 2);
    assert s.base.pool.zm.openSet - {2} == {};
    UnlistedClosed(s.base.pool, 4);
    assert CountsRight(s.base, 4);
    CollectsDead(s, 4);
  }

  function Ops(): (ops: seq<Op>)
    ensures |ops| == 7
  {
    [WriteOp(0, [1, 1], 0, []), WriteOp(2, [2, 2], 0, []), WriteOp(4, [3, 3], 0, []), UnmapOp(0, 2), FlushOp([4, 3, 2]),
     CollectOp([]), WriteOp(0, [4, 4], 0, [])]
  }

  function At(n: nat): Ztl
    requires n <= 7 && Ready(Start(5, 3, 1, 2).base)
  {
    Execute(Start(5, 3, 1, 2), Ops()[..n])
  }

  /** Every operation is admissible when it starts, and accepted. */
  ghost predicate AllAccepted(s: Ztl, ops: seq<Op>)
    requires Ready(s.base)
  {
    ops != [] ==>
      var m, op := Execute(s, ops[..|ops| - 1]), ops[|ops| - 1];
      AllAccepted(s, ops[..|ops| - 1]) && Admissible(m, op) && Step(m, op).1 == Ok
  }

  lemma OneMore(s: Ztl, ops: seq<Op>, n: nat)
    requires Ready(s.base) && n < |ops| && AllAccepted(s, ops[..n])
    requires var m := Execute(s, ops[..n]); Admissible(m, ops[n]) && Step(m, ops[n]).1 == Ok
    ensures Execute(s, ops[..n + 1]) == Step(Execute(s, ops[..n]), ops[n]).0 && AllAccepted(s, ops[..n + 1])
  {
    hide Admissible, Step;
    assert ops[..n + 1][..n] == ops[..n];
  }

  ghost predicate Through(n: nat)
    requires n <= 7 && Ready(Start(5, 3, 1, 2).base)
  {
    AllAccepted(Start(5, 3, 1, 2), Ops()[..n])
  }

  lemma Next(n: nat)
    requires n < 7 && Ready(Start(5, 3, 1, 2).base) && Through(n)
    requires Ready(At(n).base) && Admissible(At(n), Ops()[n]) && Step(At(n), Ops()[n]).1 == Ok
    ensures At(n + 1) == Step(At(n), Ops()[n]).0 && Through(n + 1)
  {
    hide Admissible, Step, Start, Ops, AllAccepted, Execute;
    OneMore(Start(5, 3, 1, 2), Ops(), n);
  }

  lemma TwoWrites()
    ensures Ready(Start(5, 3, 1, 2).base) && Through(2)
    ensures Small(At(2), [0, 1, 2], [N, N, N, Y, Y]) && NoRoom(At(2))
    ensures At(2).base.l2p == [EncodePhysAddr(4, 0), EncodePhysAddr(3, 0), 0, 0, 0, 0, 0]
    ensures At(2).cur == 3 && At(2).curOpen && forall z :: z in At(2).bufs <==> z in {3, 4}
  {
    hide Step, Admissible, Start, EncodePhysAddr, Through, Inv, Execute;
    SmallStart();
    NothingYet();
    assert [0, 1, 2, 3, 4] == [0, 1, 2, 3] + [4] && [0, 1, 2, 3] == [0, 1, 2] + [3];
    SmallWrite(At(0), [0, 1, 2, 3], [N, N, N, N, N], 0, [1, 1], 0, 4);
    Next(0);
    SmallWrite(At(1), [0, 1, 2], [N, N, N, N, Y], 1, [2, 2], 2, 3);
    Next(1);
  }

  lemma ThreeWrites()
    ensures Ready(Start(5, 3, 1, 2).base) && Through(3)
    ensures Small(At(3), [0, 1], [N, N, Y, Y, Y]) && NoRoom(At(3)) && At(3).cur == 2
    ensures At(3).base.l2p == [EncodePhysAddr(4, 0), EncodePhysAddr(3, 0), EncodePhysAddr(2, 0), 0, 0, 0, 0]
    ensures At(3).curOpen
    ensures forall z :: z in At(3).bufs <==> z in {2, 3, 4}
  {
    hide Step, Admissible, Start, EncodePhysAddr, Through, Inv, Execute;
    TwoWrites();
    assert [0, 1, 2] == [0, 1] + [2];
    SmallWrite(At(2), [0, 1], [N, N, N, Y, Y], 2, [3, 3], 4, 2);
    Next(2);
  }

  lemma NothingYet()
    requires Ready(Start(5, 3, 1, 2).base)
    ensures Through(0) && At(0) == Start(5, 3, 1, 2)
  {
    hide Start, Ops;
    assert Ops()[..0] == [];
  }

  /** A layer just created accepts seven admissible operations after which nothing is garbage and two zones are
      free; an emergency that asks for a third then goes on for ever. */
  lemma EmergencyGoesRound(n: nat) returns (orders: seq<seq<nat>>)
    ensures Ready(Start(5, 3, 1, 2).base) && AllAccepted(Start(5, 3, 1, 2), Ops())
    ensures var s := Execute(Start(5, 3, 1, 2), Ops());
      && Ready(s.base) && Inv(s) && |s.base.pool.zm.freeList| == 2
      && |orders| == n && EmergencyHarmless(s, 3, orders)
      && RunEmergencyGC(s.base, 3, orders).1 == Unfinished
      && |RunEmergencyGC(s.base, 3, orders).0.pool.zm.freeList| == 2
      && Disk(s.(base := RunEmergencyGC(s.base, 3, orders).0)) == Disk(s)
  {
    hide Step, Admissible, Start, AllAccepted, Execute, Inv, Spinning, EmergencyHarmless, RunEmergencyGC, Disk, Ops;
    Reached();
    assert Ops()[..7] == Ops();
    orders := EmergencyNeverEnds(At(7), 3, n);
  }

  lemma Collected6()
    ensures Ready(Start(5, 3, 1, 2).base) && Through(6)
    ensures Small(At(6), [0, 1, 4], [N, N, Y, Y, N]) && NoRoom(At(6)) && At(6).bufs == map[] && At(6).base.l2p[0] == UNMAPPED
  {
    hide Step, Admissible, Start, EncodePhysAddr, Through, Inv, Execute;
    ThreeWrites();
    SmallUnmap(At(3), [0, 1], [N, N, Y, Y, Y]);
    Next(3);
    assert [4, 3] + [2] == [4, 3, 2];
    SmallFlush(At(4), [0, 1], [N, N, Y, Y, (0, 1)], [4, 3], 2);
    assert At(4).bufs.Keys == {2, 3, 4};
    Next(4);
    SmallCollect(At(5));
    Next(5);
  }

  lemma Reached()
    ensures Ready(Start(5, 3, 1, 2).base) && Through(7)
    ensures Ready(At(7).base) && Inv(At(7)) && Spinning(At(7)) && |At(7).base.pool.zm.freeList| == 2
  {
    hide Step, Admissible, Start, EncodePhysAddr, Through, Inv, Execute;
    Collected6();
    assert [0, 1, 4] == [0, 1] + [4];
    SmallWrite(At(6), [0, 1], [N, N, Y, Y, N], 0, [4, 4], 0, 4);
    Next(6);
    OneEachRagged(At(7));
    assert 0 in [0, 1][..1] by { assert [0, 1][..1][0] == 0; }
  }

  // ---------- dead, but open ----------

  /** After a write and an unmap of what it wrote, free and dead zones together reach a reserve of five, which an
      emergency must have to succeed; but the dead zone is open and so not spent, and none does succeed. */
  lemma DeadButOpen(orders: seq<seq<nat>>)
    ensures Ready(Start(5, 3, 1, 2).base) && Ready(Execute(Start(5, 3, 1, 2), [Ops()[0]]).base)
    ensures var s := Step(Execute(Start(5, 3, 1, 2), [Ops()[0]]), UnmapOp(0, 2)).0;
      && Ready(s.base) && Inv(s) && |s.base.pool.zm.freeList| == 4
      && |s.base.pool.zm.freeList| + |Dead(s.base)| >= 5
      && (forall z :: 0 <= z < 5 ==> !Spent(s.base, z))
      && EmergencyHarmless(s, 5, orders) && RunEmergencyGC(s.base, 5, orders).1 != Ok
  {
    hide Step, Admissible, Start, EncodePhysAddr, Through, Inv, Execute, Dead, MappedIn, SelectGCVictim;
    OneWrite();
    assert Ops()[..1] == [Ops()[0]];
    var m := At(1);
    UnmapsFirst(m, 4);
    var s := Step(m, UnmapOp(0, 2)).0;
    NoCandidate(s);
    DeadFour(s);
    SizeWithout(Dead(s.base), 4);
  }

  lemma OneWrite()
    ensures Ready(Start(5, 3, 1, 2).base) && Through(1)
    ensures Small(At(1), [0, 1, 2, 3], [N, N, N, N, Y]) && At(1).base.l2p[0] == EncodePhysAddr(4, 0) != UNMAPPED
    ensures |At(1).base.pool.dev.zones| == 5 && At(1).base.pool.dev.zones[4].cond == D.ExplicitOpen
  {
    hide Step, Admissible, Start, EncodePhysAddr, Through, Inv, Execute;
    SmallStart();
    NothingYet();
    assert [0, 1, 2, 3, 4] == [0, 1, 2, 3] + [4];
    SmallWrite(At(0), [0, 1, 2, 3], [N, N, N, N, N], 0, [1, 1], 0, 4);
    Next(0);
    DeviceSize(At(1));
    PackedUnmapped(4, 0);
  }

  lemma DeviceSize(s: Ztl)
    requires Inv(s)
    ensures |s.base.pool.dev.zones| == |s.base.pool.zm.zones|
  {
    hide Core, Exact, Lru, Logged;
    InvReady(s);
    CoreSizes(s);
  }

  lemma NoCandidate(s: Ztl)
    requires Inv(s) && |s.base.pool.dev.zones| == |s.base.pool.zm.zones| == 5 && s.base.pool.dev.zones[4].cond == D.ExplicitOpen
    requires forall z :: 0 <= z < 4 ==> s.base.pool.zm.zones[z].total == 0
    ensures SelectGCVictim(s.base.pool.zm).Failure? && SelectGCVictim(s.base.pool.zm).error != Ok
    ensures forall z :: 0 <= z < 5 ==> !Spent(s.base, z)
  {
    hide Core, Exact, Logged;
    assert Tracks(s.base.pool, 4);
    VictimErrors(s.base.pool.zm);
  }

  lemma DeadFour(s: Ztl)
    requires Inv(s) && |s.base.pool.zm.zones| == 5 && s.base.pool.zm.zones[4].valid == 0 && s.base.pool.zm.zones[4].total == 1
    ensures 4 in Dead(s.base)
  {
    hide Core, Lru, Logged, MappedIn, Covers, ReverseExact;
    CountedAt(s.base, 4);
  }
}