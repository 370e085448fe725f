/** States and runs in which the layer does fall short: one for each of the limits that are stated elsewhere for
    every state, each reached from a layer just created. */
module Witness {
  import opened Arith
  import opened Errors
  import opened Segment
  import opened Pool
  import opened Log
  import opened Ztl
  import opened Coherence
  import opened PoolSteps
  import opened FlushSteps
  import opened WriteSteps
  import opened GcSteps
  import opened Collect
  import opened Bookkeeping
  import opened OpenZones
  import opened History
  import opened FlatDisk
  import opened Run
  import opened Wedge
  import opened Aligned
  import opened Limits
  import opened Crash
  import opened Codec
  import F = Frames
  import A = Abandoned
  import R = Recovery
  import D = Device

  // ---------- the capacity used up ----------

  /** A layer that has accepted all it ever will is stuck, with free zones left. */
  lemma UsedUpStuck(s: Ztl)
    requires Inv(s) && Filling(s) && Ready(s.base) && Spare(s.base.pool) && Left(s) == 0
    ensures StuckPool(s.base.pool) && s.base.pool.zm.freeList != []
  {
    hide Core, Exact, Lru, Logged, AllocateFree, Inv, Filling, Used, InTurn;
    InvReady(s);
    ZoneFoundIff(s);
    FreeLeft(s);
    assert !s.curOpen by { if s.curOpen { CurrentLeaves(s); } }
    CoreFree(s);
    AllocateFreeLru(s.base.pool);
    StuckDefined(s.base.pool);
  }

  /** Three zones of one sector, one of them open: after a single one-sector write the layer is stuck, and the next
      write is refused although two zones are free. */
  lemma StuckAfterOneWrite()
    ensures Ready(Start(3, 1, 1, 1).base)
    ensures var s := Start(3, 1, 1, 1);
      var first, second := WriteOp(0, [5], 0, []), WriteOp(1, [6], 0, []);
      && Runs(s, [first, second])
      && Step(s, first).1 == Ok
      && StuckPool(Step(s, first).0.base.pool) && |Step(s, first).0.base.pool.zm.freeList| == 2
      && Step(Step(s, first).0, second).1 != Ok
  {
    hide Inv, Filling, Spare, Left, Start, Taken, Step, FlushesHold, Admissible, Whole;
    var s := Start(3, 1, 1, 1);
    var first, second := WriteOp(0, [5], 0, []), WriteOp(1, [6], 0, []);
    StartBegins();
    BeginsFilling(s, 3, 1, 1, 1);
    assert Whole(first, 3, 1) && Whole(second, 3, 1) by { OneWhole(first); OneWhole(second); }
    StepFilling(s, first);
    WriteTakes(s, first);
    TakesAll(s, first);
    var t := Step(s, first).0;
    UsedUpStuck(t);
    FreeOfOne(t);
    StepFilling(t, second);
    WriteTakes(t, second);
    TakesAll(t, second);
    TwoRuns(s, first, second);
  }

  lemma StartBegins()
    ensures Begins(Start(3, 1, 1, 1), 3, 1, 1, 1) && |Start(3, 1, 1, 1).base.l2p| == 3
  {
    StartSpp(3, 1, 1, 1);
  }

  lemma OneWhole(op: Op)
    requires op.WriteOp? && |op.data| == 1 && op.lba < 3
    ensures Whole(op, 3, 1)
  {
  }

  /** A write is accepted exactly when all of it is stored. */
  lemma TakesAll(s: Ztl, op: Op)
    requires Inv(s) && Ready(s.base) && op.WriteOp? && Admissible(s, op) && FlushesHold(s, op)
    ensures Step(s, op).1 == Ok <==> Taken(s, op) == |op.data|
  {
    hide Inv, Taken, Admissible, FlushesHold, Write, Disk;
    WriteInv(s, op.lba, op.data, op.reserve, op.orders);
  }

  /** Of three zones one is full, and the others are free. */
  lemma FreeOfOne(s: Ztl)
    requires Inv(s) && Filling(s) && StuckPool(s.base.pool) && s.base.pool.zm.maxOpen == 1 && |s.base.pool.dev.zones| == 3
    ensures |s.base.pool.zm.freeList| == 2
  {
    hide Core, Exact, Logged, D.Sane;
    ListsInRange(s.base.pool);
  }

  lemma TwoRuns(s: Ztl, a: Op, b: Op)
    requires Ready(s.base) && Admissible(s, a) && FlushesHold(s, a)
    requires Admissible(Step(s, a).0, b) && FlushesHold(Step(s, a).0, b)
    ensures Runs(s, [a, b]) && Execute(s, [a, b]) == Step(Step(s, a).0, b).0
  {
    hide Admissible, FlushesHold, Step;
    assert [a, b][..1] == [a] && [a][..0] == [];
    assert Execute(s, [a]) == Step(s, a).0;
    assert Runs(s, [a]);
  }

  // ---------- offset 0 of zone 0 ----------

  /** A layer of one zone: its first write lands on the address that means unmapped, is accepted, and reads back as
      zeros. */
  lemma WriteVanishes()
    ensures Ready(Start(1, 1, 1, 1).base)
    ensures var s := Start(1, 1, 1, 1);
      var (t, r) := WriteSegment(s, 0, [5]);
      && r == Ok
      && Content(t, 0) == [D.ZERO] != [5]
  {
    hide Core, Exact, Lru, Logged, Content, Start, WriteSegment, GetWriteZone, Filling, Inv, AllocateFree;
    var s := Start(1, 1, 1, 1);
    StartInv(1, 1, 1, 1);
    StartFilling(1, 1, 1, 1);
    InvReady(s);
    OneZone();
    WriteSegmentFilling(s, 0, [5]);
    WriteSegmentCore(s, 0, [5]);
    ReadBackIffNotZero(s, 0, [5]);
    FirstStored(s);
  }

  lemma OneZone()
    ensures var s := Start(1, 1, 1, 1);
      && |s.base.l2p| == 1 && s.base.spp == 1 && !s.curOpen && Ready(s.base)
      && s.base.pool.zm.freeList == [0] && s.base.pool.zm.openSet == {} && s.base.pool.zm.maxOpen == 1
      && |s.base.pool.zm.zones| == 1 && s.base.pool.zm.zones[0].wp == 0
      && GetWriteZone(s).1 == Success(0) && WritePointer(GetWriteZone(s).0.base.pool.zm, 0) == 0
  {
    hide Core, Exact, Lru, Logged, AllocateFree, Inv, Report, D.Fresh, D.Sane, Select;
    var s := Start(1, 1, 1, 1);
    FreshReport(1, 1, 1);
    StartInv(1, 1, 1, 1);
    StartSizes(1, 1, 1);
    InvReady(s);
    CoreConfig(s);
    CoreFree(s);
    StuckDefined(s.base.pool);
    AllocateFreeLru(s.base.pool);
    AllocateFreeMoves(s.base.pool, 1);
    assert s.base.pool.zm.freeList == [0];
  }

  lemma FirstStored(s: Ztl)
    requires Core(s) && Ready(s.base) && GetWriteZone(s).1 == Success(0) && WritePointer(GetWriteZone(s).0.base.pool.zm, 0) == 0
    ensures Stored(s, [5]) == [D.ZERO]
  {
    hide Core, GetWriteZone, NextAddr;
    GetWriteZoneCore(s);
    NextAddrAtZero(GetWriteZone(s).0, 0);
    assert D.Zeros(1) == [D.ZERO];
  }

  /** And a write past its only segment leaves a journal that cannot be recovered until a checkpoint is taken. */
  lemma PoisonedJournal()
    ensures Ready(Start(1, 1, 1, 1).base)
    ensures var t := WriteSegment(Start(1, 1, 1, 1), 1, [5]).0;
      && R.Recover(Unmapped(1), t.base.log.History(), 1).Failure?
      && R.Recover(Unmapped(1), WriteCheckpoint(t.base.log, t.base.l2p).durable, 1) == Success(Unmapped(1))
  {
    hide Core, Exact, Lru, Logged, Content, Start, WriteSegment, GetWriteZone, Inv, R.Recover;
    var s := Start(1, 1, 1, 1);
    StartInv(1, 1, 1, 1);
    InvReady(s);
    OneZone();
    WritePastEndPoisons(s, 1, [5], []);
    PastEndLogs(s, 1, [5]);
    var t := WriteSegment(s, 1, [5]).0;
    assert t.base.log.History() + [] == t.base.log.History();
    CheckpointMends(t.base.log, t.base.l2p, 1);
    assert s.base.l2p == Unmapped(1) by { FreshTable(); }
  }

  lemma FreshTable()
    ensures Start(1, 1, 1, 1).base.l2p == Unmapped(1)
  {
  }

  // ---------- zones that do not hold whole segments ----------

  /** Four zones of three sectors, one open, segments of two sectors: each write leaves its zone with one sector
      free and goes to another zone, and the zone before is closed with its data still in the buffer. */
  const A3: PhysAddr := 3 * OFFSET_SPAN
  const A2: PhysAddr := 2 * OFFSET_SPAN

  const BLANK: seq<D.Sector> := [0, 0, 0]

  function Info(c: D.Condition, start: nat, wp: nat, n: nat): ZoneInfo {
    ZoneInfo(c, wp, start, 3, n, n)
  }

  function Fresh(log: Log): Ztl {
    Ztl(Base([0, 0, 0, 0, 0, 0], map[],
             Pool(Manager([Info(D.Empty, 0, 0, 0), Info(D.Empty, 3, 3, 0), Info(D.Empty, 6, 6, 0), Info(D.Empty, 9, 9, 0)],
                          [0, 1, 2, 3], [], {}, {}, 1),
                  D.Device([D.Zone(D.Empty, 0, BLANK), D.Zone(D.Empty, 3, BLANK), D.Zone(D.Empty, 6, BLANK), D.Zone(D.Empty, 9, BLANK)], 3, 1, 0)),
             log, 2),
        map[], 0, false)
  }

  lemma IsFresh()
    ensures Start(4, 3, 1, 2) == Fresh(Log([], [], 0, 0))
  {
    FreshReport(4, 3, 1);
    var d, f := D.Fresh(4, 3, 1), Fresh(Log([], [], 0, 0));
    assert D.Zeros(3) == BLANK;
    assert d.zones == f.base.pool.dev.zones;
    hide Select;
    var s := Start(4, 3, 1, 2);
    assert s.base.l2p == f.base.l2p;
    assert s.base.pool.zm.zones == f.base.pool.zm.zones;
    assert s.base.pool.zm.freeList == f.base.pool.zm.freeList;
    assert s.base.pool.zm.openSet == {};
  }

  lemma Packed(z: nat)
    requires z < 4
    ensures EncodePhysAddr(z, 0) == z * OFFSET_SPAN
    ensures ZoneID(z * OFFSET_SPAN) == z && OffsetSectors(z * OFFSET_SPAN) == 0
  {
    PackUnpack(z, 0);
  }

  /** A zone opened with the given sectors of it accepted: after [7, 8] went to the first segment, in zone 3. */
  function One(wp: nat, n: nat, table: Table, back: Reverse, bufs: Buffers, log: Log): Ztl {
    Ztl(Base(table, back,
             Pool(Manager([Info(D.Empty, 0, 0, 0), Info(D.Empty, 3, 3, 0), Info(D.Empty, 6, 6, 0), Info(D.ExplicitOpen, 9, wp, n)],
                          [0, 1, 2], [3], {3}, {}, 1),
                  D.Device([D.Zone(D.Empty, 0, BLANK), D.Zone(D.Empty, 3, BLANK), D.Zone(D.Empty, 6, BLANK), D.Zone(D.ExplicitOpen, 9, BLANK)], 3, 1, 1)),
             log, 2),
        bufs, 3, true)
  }

  function Taken3(log: Log): Ztl {
    One(9, 0, [0, 0, 0, 0, 0, 0], map[], map[], log)
  }

  function Wrote3(log: Log): Ztl {
    One(11, 1, [A3, 0, 0, 0, 0, 0], map[(3, 0) := 0], map[3 := ZoneBuffer(9, [7, 8])], log)
  }

  lemma TakesZone3(log: Log)
    ensures Ready(Fresh(log).base) && GetWriteZone(Fresh(log)) == (Taken3(LogZoneAction(log, ZONE_OPEN, 3)), Success(3))
  {
    hide EncodePhysAddr, ZoneID, OffsetSectors, LogZoneAction;
    var s, u := Fresh(log), Taken3(LogZoneAction(log, ZONE_OPEN, 3));
    var d := s.base.pool.dev;
    OpenAtStart(d, 3);
    assert D.OpenLocked(d, 3, true).0.zones == u.base.pool.dev.zones;
    assert D.OpenZone(d, 9) == (u.base.pool.dev, Ok);
    var t := GetWriteZone(s).0;
    assert t.base.pool.zm.freeList == [0, 1, 2] && t.base.pool.zm.openList == [3];
    assert t.base.pool.zm.zones == u.base.pool.zm.zones;
  }

  lemma Stores3(log: Log)
    ensures Ready(Taken3(log).base)
    ensures WriteInto(Taken3(log), 3, 0, [7, 8]) == (Wrote3(LogL2PUpdate(log, 0, UNMAPPED, A3)), Ok)
    ensures NextAddr(Taken3(log).base.pool.zm, 3) == A3
  {
    Packed(3);
    hide EncodePhysAddr, ZoneID, OffsetSectors, LogL2PUpdate;
    var u, v := WriteInto(Taken3(log), 3, 0, [7, 8]).0, Wrote3(LogL2PUpdate(log, 0, UNMAPPED, A3));
    assert u.base.l2p == v.base.l2p;
    assert u.base.p2l == v.base.p2l;
    assert u.base.pool.zm.zones == v.base.pool.zm.zones;
    assert u.bufs == v.bufs;
  }

  /** And of [9, 9] to the second: it is in the buffer of zone 2, and zone 3 is closed. */
  function Two(wp: nat, n: nat, table: Table, back: Reverse, bufs: Buffers, log: Log): Ztl {
    Ztl(Base(table, back,
             Pool(Manager([Info(D.Empty, 0, 0, 0), Info(D.Empty, 3, 3, 0), Info(D.ExplicitOpen, 6, wp, n), Info(D.Closed, 9, 11, 1)],
                          [0, 1], [2], {2}, {}, 1),
                  D.Device([D.Zone(D.Empty, 0, BLANK), D.Zone(D.Empty, 3, BLANK), D.Zone(D.ExplicitOpen, 6, BLANK), D.Zone(D.Closed, 9, BLANK)], 3, 1, 1)),
             log, 2),
        bufs, 2, true)
  }

  function Taken2(log: Log): Ztl {
    Two(6, 0, [A3, 0, 0, 0, 0, 0], map[(3, 0) := 0], map[3 := ZoneBuffer(9, [7, 8])], log)
  }

  function Wrote2(log: Log): Ztl {
    Two(8, 1, [A3, A2, 0, 0, 0, 0], map[(3, 0) := 0, (2, 0) := 1], map[3 := ZoneBuffer(9, [7, 8]), 2 := ZoneBuffer(6, [9, 9])], log)
  }

  lemma TakesZone2(log: Log)
    ensures Ready(Wrote3(log).base) && GetWriteZone(Wrote3(log)) == (Taken2(LogZoneAction(log, ZONE_OPEN, 2)), Success(2))
  {
    hide EncodePhysAddr, ZoneID, OffsetSectors, LogZoneAction;
    var s, u := Wrote3(log), Taken2(LogZoneAction(log, ZONE_OPEN, 2));
    var p := s.base.pool;
    var q := MakeRoom(p).0;
    assert q.zm.openList == [] && q.zm.openSet == {} && q.zm.freeList == [0, 1, 2] && MakeRoom(p).1 == Ok;
    assert q.dev.zones == [p.dev.zones[0], p.dev.zones[1], p.dev.zones[2], D.Zone(D.Closed, 9, BLANK)] && q.dev.openCount == 0;
    OpenAtStart(q.dev, 2);
    assert D.OpenLocked(q.dev, 2, true).0.zones == u.base.pool.dev.zones;
    assert D.OpenZone(q.dev, 6) == (u.base.pool.dev, Ok);
    hide MakeRoom;
    var t := GetWriteZone(s).0;
    assert t.base.pool.zm.freeList == [0, 1] && t.base.pool.zm.openList == [2];
    assert t.base.pool.zm.zones == u.base.pool.zm.zones;
  }

  lemma Stores2(log: Log)
    ensures Ready(Taken2(log).base)
    ensures WriteInto(Taken2(log), 2, 1, [9, 9]) == (Wrote2(LogL2PUpdate(log, 1, UNMAPPED, A2)), Ok)
    ensures NextAddr(Taken2(log).base.pool.zm, 2) == A2
  {
    Packed(2);
    hide EncodePhysAddr, ZoneID, OffsetSectors, LogL2PUpdate;
    var u, v := WriteInto(Taken2(log), 2, 1, [9, 9]).0, Wrote2(LogL2PUpdate(log, 1, UNMAPPED, A2));
    assert u.base.l2p == v.base.l2p;
    assert u.base.p2l == v.base.p2l;
    assert u.base.pool.zm.zones == v.base.pool.zm.zones;
    assert u.bufs == v.bufs;
  }

  /** A write of one segment, given the zone it finds, which it does not fill. */
  lemma SegmentWrite(s: Ztl, seg: nat, data: seq<D.Sector>, lba: nat, s1: Ztl, z: nat, s2: Ztl)
    requires Ready(s.base) && |data| == s.base.spp && lba == seg * s.base.spp && seg < |s.base.l2p|
    requires GetWriteZone(s) == (s1, Success(z)) && Ready(s1.base) && NextAddr(s1.base.pool.zm, z) != UNMAPPED
    requires WriteInto(s1, z, seg, data) == (s2, Ok) && z < |s2.base.pool.zm.zones|
    requires var info := s2.base.pool.zm.zones[z]; info.wp < info.start + info.size
    ensures var op := WriteOp(lba, data, 0, []);
      && Step(s, op) == (s2.(base := s2.base.(log := GroupCommit(s2.base.log))), Ok)
      && Admissible(s, op) && FlushesHold(s, op)
  {
    hide GetWriteZone, WriteInto, NextAddr, GroupCommit, LandedFrom, Stored;
    assert WriteSegment(s, seg, data) == (s2, Ok);
    hide WriteSegment, WriteFrom, Fills, Lands;
    WholePiece(seg, 1, lba, |data|, s.base.spp);
    WriteFromSplits(s, lba, data);
    assert data[..s.base.spp] == data && data[s.base.spp..] == [];
    WriteFromNothing(s2, lba + s.base.spp);
    DivMod(seg, 0, s.base.spp);
    DivMod(1, 0, s.base.spp);
    MulGap(seg, |s.base.l2p|, s.base.spp);
    assert s.(base := s.base) == s;
  }

  function FirstOp(): Op { WriteOp(0, [7, 8], 0, []) }

  function SecondOp(): Op { WriteOp(2, [9, 9], 0, []) }

  function FirstLog(): Log {
    GroupCommit(LogL2PUpdate(LogZoneAction(Log([], [], 0, 0), ZONE_OPEN, 3), 0, UNMAPPED, A3))
  }

  function SecondLog(): Log {
    GroupCommit(LogL2PUpdate(LogZoneAction(FirstLog(), ZONE_OPEN, 2), 1, UNMAPPED, A2))
  }

  lemma AfterFirst()
    ensures var s := Start(4, 3, 1, 2);
      && Ready(s.base) && Inv(s) && Inv(Wrote3(FirstLog()))
      && Admissible(s, FirstOp()) && FlushesHold(s, FirstOp())
      && Step(s, FirstOp()) == (Wrote3(FirstLog()), Ok)
  {
    hide Inv, GetWriteZone, WriteInto, Start, LogL2PUpdate, LogZoneAction, GroupCommit, NextAddr, Step, Disk;
    StartInv(4, 3, 1, 2);
    IsFresh();
    var log := Log([], [], 0, 0);
    TakesZone3(log);
    Stores3(LogZoneAction(log, ZONE_OPEN, 3));
    SegmentWrite(Fresh(log), 0, [7, 8], 0, Taken3(LogZoneAction(log, ZONE_OPEN, 3)), 3,
                 Wrote3(LogL2PUpdate(LogZoneAction(log, ZONE_OPEN, 3), 0, UNMAPPED, A3)));
    StepInv(Fresh(log), FirstOp());
  }

  lemma AfterSecond()
    ensures Ready(Wrote3(FirstLog()).base) && Inv(Wrote2(SecondLog()))
    ensures var s := Wrote3(FirstLog());
      && Admissible(s, SecondOp()) && FlushesHold(s, SecondOp())
      && Step(s, SecondOp()) == (Wrote2(SecondLog()), Ok)
  {
    hide Inv, GetWriteZone, WriteInto, Start, LogL2PUpdate, LogZoneAction, GroupCommit, NextAddr, Step, Disk, FirstLog;
    AfterFirst();
    var log := FirstLog();
    TakesZone2(log);
    Stores2(LogZoneAction(log, ZONE_OPEN, 2));
    SegmentWrite(Wrote3(log), 1, [9, 9], 2, Taken2(LogZoneAction(log, ZONE_OPEN, 2)), 2,
                 Wrote2(LogL2PUpdate(LogZoneAction(log, ZONE_OPEN, 2), 1, UNMAPPED, A2)));
    StepInv(Wrote3(log), SecondOp());
  }

  /** After two accepted writes the first zone is closed and is the victim of a collection while its data is still
      in the buffer: the collection succeeds, and the segment reads as zeros. */
  lemma BufferedVictim()
    ensures Ready(Start(4, 3, 1, 2).base)
    ensures Runs(Start(4, 3, 1, 2), [FirstOp(), SecondOp()])
    ensures var s := Execute(Start(4, 3, 1, 2), [FirstOp(), SecondOp()]);
      var (t, r) := Step(s, CollectOp([0]));
      && SelectGCVictim(s.base.pool.zm) == Success(3) && 3 in s.bufs
      && Content(s, 0) == [7, 8]
      && r == Ok && Content(t, 0) == [D.ZERO, D.ZERO]
  {
    hide Inv, Start, Step, Admissible, FlushesHold, Wrote3, Wrote2, SelectGCVictim, Content, FirstLog, SecondLog;
    AfterFirst();
    AfterSecond();
    TwoRuns(Start(4, 3, 1, 2), FirstOp(), SecondOp());
    VictimIs3(SecondLog());
    CollectsBlank();
  }

  lemma VictimIs3(log: Log)
    ensures SelectGCVictim(Wrote2(log).base.pool.zm) == Success(3) && 3 in Wrote2(log).bufs
  {
    var zm := Wrote2(log).base.pool.zm;
    assert VictimAmong(zm, 0) == Failure(NoVictim);
    assert VictimAmong(zm, 1) == Failure(NoVictim);
    assert VictimAmong(zm, 2) == Failure(NoVictim);
    assert VictimAmong(zm, 3) == Failure(NoVictim);
    assert VictimAmong(zm, 4) == Success(3);
  }

  /** What is behind the first segment, with its buffer and on the device alone. */
  lemma FirstSegment(log: Log)
    ensures Content(Wrote2(log), 0) == [7, 8] && OnDevice(Wrote2(log), 0) == [D.ZERO, D.ZERO]
    ensures Content(Wrote3(log), 0) == [7, 8] && OnDevice(Wrote3(log), 0) == [D.ZERO, D.ZERO]
  {
    Packed(3);
    hide EncodePhysAddr, ZoneID, OffsetSectors;
    var s := Wrote2(log);
    var image := Image(s.base.pool.dev, s.bufs, 3);
    assert image[0] == 7 && image[1] == 8;
  }

  lemma CollectsBlank()
    requires Inv(Wrote2(SecondLog())) && Ready(Wrote2(SecondLog()).base)
    ensures var s := Wrote2(SecondLog());
      && Step(s, CollectOp([0])).1 == Ok
      && Content(s, 0) == [7, 8] && Content(Step(s, CollectOp([0])).0, 0) == [D.ZERO, D.ZERO]
  {
    hide Inv, Core, Exact, Lru, Logged, Content, CollectZone, SelectGCVictim, OnDevice, MappedIn, Covers, EncodePhysAddr, ZoneID, OffsetSectors, SecondLog;
    var s := Wrote2(SecondLog());
    InvReady(s);
    VictimIs3(SecondLog());
    FirstSegment(SecondLog());
    Order3(SecondLog());
    CollectOk(s);
    var sealed := CollectZoneEffect(s, 3, [0]);
    Packed(3);
    assert InZone(s.base, 0, 3);
  }

  lemma Order3(log: Log)
    ensures Ordered(Wrote2(log).base, 3, [0])
  {
  }

  lemma CollectOk(s: Ztl)
    requires s == Wrote2(SecondLog()) && Inv(s) && Ready(s.base) && Ordered(s.base, 3, [0])
    ensures CollectZone(s.base, 3, [0]).1 == Ok
  {
    hide Inv, Core, Exact, Lru, Logged, Content, Gather, MigrateAll, Reclaim, Covers, EncodePhysAddr, ZoneID, OffsetSectors, SecondLog, Ordered, MigrateSegment;
    InvReady(s);
    var c := s.(base := Freeze(s.base, 3));
    FrozenInv(s, c);
    InvReady(c);
    Packed(3);
    Gathered(s.base);
    GatherFrozen(s.base, 3, 3, [0]);
    assert Gather(c.base, 3, [0]) == [(0, 0)];
    MigratedReclaims(c, 3, [(0, 0)]);
    MigrateSegmentLru(c, 3, 0, 0);
    OneMigration(c.base);
  }

  lemma Gathered(b: Base)
    requires b.p2l == map[(3, 0) := 0, (2, 0) := 1] && StillThere(b, 3, 0, 0)
    ensures Gather(b, 3, [0]) == [(0, 0)]
  {
    hide StillThere;
    assert [0][..0] == [];
  }

  lemma OneMigration(b: Base)
    requires Ready(b)
    ensures MigrateAll(b, 3, [(0, 0)]) == MigrateSegment(b, 3, 0, 0)
  {
    hide MigrateSegment;
    assert [(0, 0)][..0] == [];
    assert MigrateAll(b, 3, [(0, 0)][..0]) == (b, Ok);
  }

  // ---------- a flush that is refused ----------

  /** A write of a segment or less at the start of one, whatever becomes of it. */
  lemma OneSegmentStep(s: Ztl, seg: nat, data: seq<D.Sector>, lba: nat)
    requires Ready(s.base) && 0 < |data| <= s.base.spp && lba == seg * s.base.spp
    ensures var (t, r) := WriteSegment(s, seg, data);
      Step(s, WriteOp(lba, data, 0, [])) == if r == Ok then (t.(base := t.base.(log := GroupCommit(t.base.log))), Ok) else (t, r)
  {
    assert RunEmergencyGC(s.base, 0, []) == (s.base, Ok);
    assert s.(base := s.base) == s;
    hide WriteSegment, GroupCommit, WriteFrom, RunEmergencyGC;
    OnePieceWrite(s, seg, data, lba);
  }

  lemma OnePieceWrite(s: Ztl, seg: nat, data: seq<D.Sector>, lba: nat)
    requires Ready(s.base) && 0 < |data| <= s.base.spp && lba == seg * s.base.spp
    ensures WriteFrom(s, lba, data) == WriteSegment(s, seg, data)
  {
    hide WriteSegment;
    DivMod(seg, 0, s.base.spp);
    assert Piece(lba, |data|, s.base.spp) == |data|;
    assert data[..|data|] == data && data[|data|..] == [];
    WriteFromNothing(WriteSegment(s, seg, data).0, lba + |data|);
  }

  const FIRST3: Reverse := map[(3, 0) := 0, (2, 0) := 1]

  /** One sector of zone 2 accepted. */
  function Part2(log: Log): Ztl {
    Two(7, 1, [A3, A2, 0, 0, 0, 0], FIRST3, map[3 := ZoneBuffer(9, [7, 8]), 2 := ZoneBuffer(6, [9])], log)
  }

  /** All three, still in the buffer. */
  function Brim2(log: Log): Ztl {
    Two(9, 2, [A3, A2, A2 + 1, 0, 0, 0], FIRST3[(2, 1) := 2], map[3 := ZoneBuffer(9, [7, 8]), 2 := ZoneBuffer(6, [9, 6, 6])], log)
  }

  /** And flushed: zone 2 is full, and alone in the list of open zones. */
  function Full2(log: Log): Ztl {
    var s := Brim2(log);
    var d := D.Device([D.Zone(D.Empty, 0, BLANK), D.Zone(D.Empty, 3, BLANK), D.Zone(D.Full, 9, [9, 6, 6]), D.Zone(D.Closed, 9, BLANK)], 3, 1, 0);
    s.(base := s.base.(pool := s.base.pool.(dev := d)), bufs := map[3 := ZoneBuffer(9, [7, 8])], curOpen := false)
  }

  lemma StoresPart(log: Log)
    ensures Ready(Taken2(log).base)
    ensures WriteInto(Taken2(log), 2, 1, [9]) == (Part2(LogL2PUpdate(log, 1, UNMAPPED, A2)), Ok)
  {
    Packed(2);
    hide EncodePhysAddr, ZoneID, OffsetSectors, LogL2PUpdate;
    var u, v := WriteInto(Taken2(log), 2, 1, [9]).0, Part2(LogL2PUpdate(log, 1, UNMAPPED, A2));
    assert u.base.l2p == v.base.l2p;
    assert u.base.p2l == v.base.p2l;
    assert u.base.pool.zm.zones == v.base.pool.zm.zones;
    assert u.bufs == v.bufs;
  }

  lemma StoresRest(log: Log)
    ensures Ready(Part2(log).base)
    ensures WriteInto(Part2(log), 2, 2, [6, 6]) == (Brim2(LogL2PUpdate(log, 2, UNMAPPED, A2 + 1)), Ok)
  {
    PackUnpack(2, 1);
    assert EncodePhysAddr(2, 1) == A2 + 1;
    hide EncodePhysAddr, ZoneID, OffsetSectors, LogL2PUpdate;
    var nine: seq<D.Sector> := [9];
    assert nine + [6, 6] == [9, 6, 6];
    var u, v := WriteInto(Part2(log), 2, 2, [6, 6]).0, Brim2(LogL2PUpdate(log, 2, UNMAPPED, A2 + 1));
    assert u.base.l2p == v.base.l2p;
    assert u.base.p2l == v.base.p2l;
    assert u.base.pool.zm.zones == v.base.pool.zm.zones;
    assert u.bufs == v.bufs;
  }

  lemma FillsZone2(log: Log)
    ensures Ready(Brim2(log).base)
    ensures FlushIfFull(Brim2(log), 2) == (Full2(log), Ok)
  {
    var s, t := Brim2(log), Full2(log);
    var p, d := s.base.pool, s.base.pool.dev;
    assert Without([2], 2) == [];
    assert p.zm.openList == Without(p.zm.openList, 2) + [2];
    assert GetOrOpen(p, 2) == (p, Ok);
    ZoneIndexAt(d, 2, 0);
    assert D.Store(BLANK, 0, [9, 6, 6]) == [9, 6, 6];
    assert D.Advance(d, 2, [9, 6, 6]).zones == t.base.pool.dev.zones;
    assert D.WriteSectors(d, 6, [9, 6, 6]) == (t.base.pool.dev, Ok);
    assert UpdateWritePointer(p.zm, 2, 9).zones == p.zm.zones;
    assert s.bufs - {2} == t.bufs;
    hide GetOrOpen, D.WriteSectors;
  }

  function PartOp(): Op { WriteOp(2, [9], 0, []) }

  function RestOp(): Op { WriteOp(4, [6, 6], 0, []) }

  function PartLog(): Log {
    GroupCommit(LogL2PUpdate(LogZoneAction(FirstLog(), ZONE_OPEN, 2), 1, UNMAPPED, A2))
  }

  function RestLog(): Log {
    GroupCommit(LogL2PUpdate(PartLog(), 2, UNMAPPED, A2 + 1))
  }

  /** A sector goes to zone 2, and zone 3 is closed. */
  lemma AfterPart()
    ensures Ready(Wrote3(FirstLog()).base) && Step(Wrote3(FirstLog()), PartOp()) == (Part2(PartLog()), Ok)
  {
    hide GetWriteZone, WriteInto, Start, LogL2PUpdate, LogZoneAction, GroupCommit, Step, FirstLog;
    var log := FirstLog();
    TakesZone2(log);
    var l := LogZoneAction(log, ZONE_OPEN, 2);
    StoresPart(l);
    assert WriteSegment(Wrote3(log), 1, [9]) == (Part2(LogL2PUpdate(l, 1, UNMAPPED, A2)), Ok);
    OneSegmentStep(Wrote3(log), 1, [9], 2);
  }

  /** Two more fill it. */
  lemma AfterRest()
    ensures Ready(Part2(PartLog()).base) && Step(Part2(PartLog()), RestOp()) == (Full2(RestLog()), Ok)
  {
    hide WriteInto, FlushIfFull, LogL2PUpdate, LogZoneAction, GroupCommit, Step, PartLog;
    var s := Part2(PartLog());
    assert GetWriteZone(s) == (s, Success(2));
    StoresRest(PartLog());
    var log := LogL2PUpdate(PartLog(), 2, UNMAPPED, A2 + 1);
    FillsZone2(log);
    assert WriteSegment(s, 2, [6, 6]) == (Full2(log), Ok);
    OneSegmentStep(s, 2, [6, 6], 4);
  }

  /** The full zone cannot be closed to make room for zone 3, whose buffer is dropped all the same. */
  lemma Refuses3(log: Log)
    ensures Ready(Full2(log).base)
    ensures var (t, r) := Step(Full2(log), FlushZoneOp(3));
      r != Ok && t == Full2(log).(bufs := map[])
  {
    var s := Full2(log);
    var p := s.base.pool;
    ZoneIndexAt(p.dev, 2, 0);
    assert MakeRoom(p) == (p, BadZoneState);
    assert GetOrOpen(p, 3) == (p, BadZoneState);
    hide GetOrOpen;
    assert s.bufs - {3} == map[];
  }

  lemma FirstRead(log: Log)
    ensures Ready(Full2(log).base)
    ensures Read(Full2(log), 0, 2) == Success([7, 8])
    ensures Read(Full2(log).(bufs := map[]), 0, 2) == Success([D.ZERO, D.ZERO])
  {
    var s := Full2(log);
    var t := s.(bufs := map[]);
    Packed(3);
    hide EncodePhysAddr, ZoneID, OffsetSectors, Read;
    assert [7, 8][0..2] == [7, 8];
    assert ReadPiece(s, 0, 2) == Success([7, 8]);
    OnePiece(s, 0, 0, 2);
    BlankTwo(t.base.pool.dev);
    assert ReadPiece(t, 0, 2) == Success([D.ZERO, D.ZERO]);
    OnePiece(t, 0, 0, 2);
  }

  lemma BlankTwo(d: D.Device)
    requires d.zoneSectors == 3 && |d.zones| == 4 && d.zones[3].data == BLANK
    ensures D.ReadSectors(d, 9, 2) == Success([D.ZERO, D.ZERO])
  {
    SectorOf(d, 9, 3, 0);
    SectorOf(d, 10, 3, 1);
    hide D.SectorAt;
    var r := D.Sectors(d, 9, 2);
    assert |r| == 2 && r[0] == D.SectorAt(d, 9 + 0) && r[1] == D.SectorAt(d, 9 + 1);
    assert r == [D.ZERO, D.ZERO];
  }

  lemma SectorOf(d: D.Device, at: nat, z: nat, k: nat)
    requires d.zoneSectors == 3 && z < |d.zones| && k < 3 == |d.zones[z].data| && at == 3 * z + k
    ensures D.SectorAt(d, at) == d.zones[z].data[k]
  {
  }

  /** A segment, then a single sector, then two that fill its zone to the end, each accepted; the flush of the first
      is refused, and after it the first segment reads as zeros. A write of less than a segment is what it takes:
      in runs of whole segments no flush is refused. */
  lemma FlushRefused()
    ensures Ready(Start(4, 3, 1, 2).base)
    ensures var (first, r1) := Step(Start(4, 3, 1, 2), FirstOp());
      var (part, r2) := Step(first, PartOp());
      var (full, r3) := Step(part, RestOp());
      var (dropped, r4) := Step(full, FlushZoneOp(3));
      && r1 == r2 == r3 == Ok && Read(full, 0, 2) == Success([7, 8])
      && r4 != Ok && Read(dropped, 0, 2) == Success([D.ZERO, D.ZERO])
  {
    hide Start, Step, Read, Inv, Admissible, FlushesHold, FirstLog, PartLog, RestLog, Wrote3, Part2, Full2;
    AfterFirst();
    AfterPart();
    AfterRest();
    Refuses3(RestLog());
    FirstRead(RestLog());
  }

  // ---------- a crash after an acknowledged write ----------

  /** The first of those writes is acknowledged and its record is durable, but its data is only in the buffer: after
      a crash the recovered table names a place that reads as zeros. */
  lemma AcknowledgedLost(rs: seq<Record>, log: Log)
    ensures Ready(Start(4, 3, 1, 2).base) && Step(Start(4, 3, 1, 2), FirstOp()).1 == Ok
    ensures var t := Step(Start(4, 3, 1, 2), FirstOp()).0;
      && t.base.log.pending == []
      && R.Recover(Unmapped(6), t.base.log.durable, 4) == Success(t.base.l2p)
      && Read(t, 0, 2) == Success([7, 8])
      && Ready(Restart(t.base.pool.dev, t.base.l2p, rs, log, 2).base)
      && Read(Restart(t.base.pool.dev, t.base.l2p, rs, log, 2), 0, 2) == Success([D.ZERO, D.ZERO])
  {
    hide Inv, Core, Exact, Lru, Logged, Content, Start, Step, Admissible, FlushesHold, OnDevice, Read, Restart, R.Recover;
    AfterFirst();
    var t := Wrote3(FirstLog());
    InvReady(t);
    FirstSegment(FirstLog());
    CrashReads(t, rs, log, 0, 2);
    ReadDisk(t, 0, 2);
    WholeSlice(t, 0, 0);
    RestartSpp(t.base.pool.dev, t.base.l2p, rs, log, 2);
    WholeSlice(Restart(t.base.pool.dev, t.base.l2p, rs, log, 2), 0, 0);
  }

  // ---------- a checkpoint between the limits ----------

  /** A disk of fourteen million segments: its checkpoint is longer than the reader takes and shorter than the scan
      does. */
  function Large(): Ztl {
    Start(2, 7000000, 1, 1)
  }

  function LargeOps(): seq<Op> {
    [CheckpointOp, WriteOp(0, [5], 0, [])]
  }

  /** After a checkpoint and an accepted write, which reads back, everything is committed; and recovery from the
      journal's bytes succeeds with a table that does not have the write. */
  lemma LongCheckpointLoses(crc: Checksum)
    ensures Ready(Large().base) && Runs(Large(), LargeOps())
    ensures var t := Execute(Large(), LargeOps());
      && t.base.log.pending == []
      && Read(t, 0, 1) == Success([5]) && Get(t.base.l2p, 0) != UNMAPPED
      && F.RecoverFile(crc, Unmapped(|t.base.l2p|), F.FrameAll(crc, t.base.log.durable), 2) == Success(Unmapped(|t.base.l2p|))
  {
    hide Inv, Filling, Spare, Left, Start, Step, Admissible, FlushesHold, Whole, Read, F.RecoverFile, F.FrameAll, Content, Disk, Taken, Core;
    LargeBegins();
    var s := Large();
    BeginsFilling(s, 2, 7000000, 1, 1);
    StepFilling(s, CheckpointOp);
    var m := Step(s, CheckpointOp).0;
    Checkpointed(s);
    TakesNone(s, CheckpointOp);
    var op := WriteOp(0, [5], 0, []);
    StepFilling(m, op);
    WriteTakes(m, op);
    TakesAll(m, op);
    TwoRuns(s, CheckpointOp, op);
    InvReady(m);
    var post := LoggedOne(m);
    ReadsFive(m);
    LongHides(crc, s, post);
  }

  lemma TakesNone(s: Ztl, op: Op)
    requires Ready(s.base) && !op.WriteOp?
    ensures Taken(s, op) == 0
  {
  }

  lemma LargeBegins()
    ensures Begins(Large(), 2, 7000000, 1, 1) && |Large().base.l2p| == 14000000 && Large().base.l2p == Unmapped(14000000)
    ensures Large().base.log == Log([], [], 0, 0) && |Large().base.pool.zm.zones| == 2
    ensures Whole(CheckpointOp, 14000000, 1) && Whole(WriteOp(0, [5], 0, []), 14000000, 1)
  {
    StartSpp(2, 7000000, 1, 1);
  }

  lemma Checkpointed(s: Ztl)
    requires Ready(s.base) && s.base.log == Log([], [], 0, 0)
    ensures var m := Step(s, CheckpointOp).0;
      && m == s.(base := s.base.(log := m.base.log))
      && m.base.log == Log([CheckpointEntry(1, s.base.l2p, 0)], [], 1, 0)
  {
  }

  /** What one accepted segment adds to the log. */
  lemma LoggedOne(m: Ztl) returns (post: seq<Entry>)
    requires Core(m) && Ready(m.base) && m.base.spp == 1 && |m.base.l2p| > 0 && |m.base.pool.zm.zones| == 2
    requires m.base.log.pending == [] && m.base.log.lsn == 1 && m.base.log.clock == 0
    requires Step(m, WriteOp(0, [5], 0, [])).1 == Ok
    ensures var t := Step(m, WriteOp(0, [5], 0, [])).0;
      t.base.log.pending == [] && t.base.log.durable == m.base.log.durable + post && |t.base.pool.zm.zones| == 2
    ensures forall i :: 0 <= i < |post| ==> post[i].Plain? && Storable(post[i]) && post[i].rec.lsn > 1
  {
    hide Core, WriteSegment, LogL2PUpdate, LogZoneAction, Storable, Step;
    OneSegmentStep(m, 0, [5], 0);
    var t := WriteSegment(m, 0, [5]).0;
    var l, z := A.WriteTells(m, 0, [5]);
    var p, q := Get(m.base.l2p, 0), t.base.l2p[0];
    post := [];
    if l != m.base.log {
      OneMoreEntry(m.base.log, ZONE_OPEN, z, UNMAPPED, UNMAPPED);
      IsAppend(m.base.log, z);
      post := [Plain(Record(ZONE_OPEN, 2, z, UNMAPPED, UNMAPPED, 0))];
    }
    assert l.clock == 0 && 1 <= l.lsn < 3 && l.durable == m.base.log.durable && l.pending == post;
    OneMoreEntry(l, L2P_UPDATE, 0, p, q);
    IsUpdate(l, 0, p, q);
    post := post + [Plain(Record(L2P_UPDATE, l.lsn + 1, 0, p, q, 0))];
  }

  lemma IsAppend(l: Log, z: nat)
    ensures LogZoneAction(l, ZONE_OPEN, z) == Append(l, ZONE_OPEN, z, UNMAPPED, UNMAPPED)
  {
  }

  lemma IsUpdate(l: Log, seg: nat, p: PhysAddr, q: PhysAddr)
    ensures LogL2PUpdate(l, seg, p, q) == Append(l, L2P_UPDATE, seg, p, q)
  {
  }

  lemma OneMoreEntry(l: Log, kind: nat, id: nat, p: PhysAddr, q: PhysAddr)
    requires kind in {ZONE_OPEN, L2P_UPDATE} && id < 2 && l.clock == 0 && l.lsn < 3
    ensures var m, e := Append(l, kind, id, p, q), Plain(Record(kind, l.lsn + 1, id, p, q, 0));
      && m.durable == l.durable && m.pending == l.pending + [e] && m.lsn == l.lsn + 1 && m.clock == 0
      && Storable(e)
  {
  }

  lemma ReadsFive(m: Ztl)
    requires Inv(m) && Ready(m.base) && m.base.spp == 1 && |m.base.l2p| > 0
    requires var op := WriteOp(0, [5], 0, []); Admissible(m, op) && FlushesHold(m, op) && Taken(m, op) == 1
    ensures var t := Step(m, WriteOp(0, [5], 0, [])).0;
      && Ready(t.base) && Read(t, 0, 1) == Success([5]) && Get(t.base.l2p, 0) != UNMAPPED
  {
    hide Inv, Step, Admissible, FlushesHold, Taken, Core, Content, Read;
    var op := WriteOp(0, [5], 0, []);
    StepInv(m, op);
    var t := Step(m, op).0;
    InvReady(t);
    ReadDisk(t, 0, 1);
    var data: seq<D.Sector> := [5];
    assert data[..1] == data;
    assert Disk(t)[0] == 5;
    assert Slice(t, 0, 1) == data;
    if Get(t.base.l2p, 0) == UNMAPPED {
      StartContent(t, 0);
      DivMod(0, 0, 1);
    }
  }

  lemma LongHides(crc: Checksum, s: Ztl, post: seq<Entry>)
    requires |s.base.l2p| == 14000000 && s.base.l2p == Unmapped(14000000)
    requires forall i :: 0 <= i < |post| ==> post[i].Plain? && Storable(post[i]) && post[i].rec.lsn > 1
    ensures F.RecoverFile(crc, Unmapped(14000000), F.FrameAll(crc, [CheckpointEntry(1, s.base.l2p, 0)] + post), 2) == Success(Unmapped(14000000))
  {
    hide F.RecoverFile, F.FrameAll, Storable, Replay, R.Recover, Size, Unmapped;
    var cp := CheckpointEntry(1, s.base.l2p, 0);
    LongStorable(s.base.l2p);
    assert [] + [cp] + post == [cp] + post;
    F.LongCheckpointHides(crc, [], cp, post, Unmapped(14000000), 2);
  }

  lemma LongStorable(table: Table)
    requires |table| == 14000000
    ensures var cp := CheckpointEntry(1, table, 0);
      Storable(cp) && cp.Snapshot? && F.READ_LIMIT < Size(cp) <= F.SCAN_LIMIT
  {
  }
}
