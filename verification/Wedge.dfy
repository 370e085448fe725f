/** Zones that fill up keep their places in the open set: the layer never closes them, never collects them,
    and stops allocating for good when the least recently used zone is full. */
module Wedge {
  import Arith
  import opened Errors
  import opened Segment
  import opened Pool
  import opened Log
  import opened Ztl
  import opened Coherence
  import opened PoolSteps
  import opened FlushSteps
  import opened WriteSteps
  import opened GcSteps
  import opened Collect
  import opened Bookkeeping
  import opened OpenZones
  import opened History
  import opened FlatDisk
  import opened Run
  import D = Device

  ghost function FullZones(d: D.Device): set<nat> {
    set z | 0 <= z < |d.zones| && d.zones[z].cond == D.Full
  }

  lemma SubsetSize(a: set<nat>, b: set<nat>)
    requires a <= b
    ensures |a| <= |b|
    ensures |a| == |b| ==> a == b
  {
    assert |b| == |a| + |b - a| by { assert b == a + (b - a); }
    if |a| == |b| { assert b - a == {}; assert b == a + (b - a); }
  }

  /** In every sequential run at most as many zones are full as may be open, and when that many are full the
      layer is stuck. */
  lemma FullZonesBounded(s: Ztl)
    requires Inv(s)
    ensures |FullZones(s.base.pool.dev)| <= s.base.pool.zm.maxOpen
    ensures forall k :: 0 <= k < |s.base.pool.zm.openList| ==> s.base.pool.zm.openList[k] < |s.base.pool.dev.zones|
    ensures |FullZones(s.base.pool.dev)| == s.base.pool.zm.maxOpen ==> Stuck(s.base.pool)
  {
    var p := s.base.pool;
    hide Core, Exact, Logged, D.Sane;
    StuckDefined(p);
    forall z | z in FullZones(p.dev) ensures z in p.zm.openSet {
      assert Tracks(p, z);
    }
    SubsetSize(FullZones(p.dev), p.zm.openSet);
    if |FullZones(p.dev)| == p.zm.maxOpen {
      assert p.zm.openList[0] in p.zm.openList;
    }
  }

  /** No full zone is ever chosen for collection: full zones are still tracked as open. */
  lemma FullNeverVictim(s: Ztl, victim: nat)
    requires Inv(s) && SelectGCVictim(s.base.pool.zm) == Success(victim)
    ensures victim < |s.base.pool.dev.zones| && s.base.pool.dev.zones[victim].cond == D.Closed
    ensures victim !in s.base.pool.zm.openSet
  {
    hide Core, Exact, Logged, D.Sane;
    assert Candidate(s.base.pool.zm, victim);
    assert Tracks(s.base.pool, victim);
  }

  // ---------- once stuck, always stuck ----------

  /** The pool is stuck, and is well enough formed to say so. */
  ghost predicate StuckPool(p: Pool) {
    && (forall k :: 0 <= k < |p.zm.openList| ==> p.zm.openList[k] < |p.dev.zones|)
    && Stuck(p)
  }

  /** A full zone is at the front of a full list, and no operation whatever can move it: nothing is buffered for
      it, the layer knows that it has no room, and zones tracked as open are not chosen for collection. */
  ghost predicate Jammed(s: Ztl) {
    var p := s.base.pool;
    && Ready(s.base)
    && Placed(p)
    && |p.zm.openSet| >= p.zm.maxOpen
    && p.zm.openList != []
    && Blocking(p, s.bufs, p.zm.openList[0])
    && Bounded(p, s.bufs)
  }

  /** No tracked pointer is past the end of its zone, and that of an open zone is where its buffer ends. */
  ghost predicate Bounded(p: Pool, bufs: Buffers) {
    forall z :: 0 <= z < |p.zm.zones| ==>
      var info := p.zm.zones[z];
      && info.wp <= info.start + info.size
      && (z in bufs && z in p.zm.openSet ==> bufs[z].wp + |bufs[z].data| == info.wp)
  }

  ghost predicate Placed(p: Pool) {
    && |p.zm.zones| == |p.dev.zones|
    && (forall z :: 0 <= z < |p.zm.zones| ==> p.zm.zones[z].start == p.dev.Start(z))
    && (forall z :: z in p.zm.openSet && z < |p.zm.zones| ==> p.zm.zones[z].cond == D.ExplicitOpen)
  }

  ghost predicate Blocking(p: Pool, bufs: Buffers, z: nat) {
    && z < |p.zm.zones| == |p.dev.zones|
    && z in p.zm.openSet
    && p.dev.zones[z].cond == D.Full
    && z !in bufs
    && p.zm.zones[z].wp >= p.zm.zones[z].start + p.zm.zones[z].size
  }

  lemma StuckJams(s: Ztl)
    requires Inv(s) && StuckPool(s.base.pool)
    ensures Jammed(s)
  {
    hide Exact, Logged, D.Sane, AllLocated, FreeIsEmpty;
    var p := s.base.pool;
    var z := p.zm.openList[0];
    assert z in p.zm.openList;
    assert Tracks(p, z);
    FullPointer(p.dev, z);
    forall i | i in p.zm.openSet && i < |p.zm.zones| ensures p.zm.zones[i].cond == D.ExplicitOpen {
      assert Tracks(p, i);
    }
  }

  lemma FullPointer(d: D.Device, z: nat)
    requires D.Sane(d) && z < |d.zones| && d.zones[z].cond == D.Full
    ensures d.zones[z].wp == d.End(z)
  {
    assert D.SaneZone(d, z);
  }

  /** No room can be made: the zone at the front is full, and closing it is an error that changes nothing. */
  lemma JammedRefuses(s: Ztl)
    requires Jammed(s)
    ensures MakeRoom(s.base.pool) == (s.base.pool, BadZoneState)
    ensures AllocateFree(s.base.pool).1.Failure? && AllocateFree(s.base.pool).0 == s.base.pool
    ensures forall z :: z !in s.base.pool.zm.openSet ==> GetOrOpen(s.base.pool, z).1 != Ok && GetOrOpen(s.base.pool, z).0 == s.base.pool
  {
    ZoneIndexAt(s.base.pool.dev, s.base.pool.zm.openList[0], 0);
    hide D.OpenZone;
  }

  /** Counters, a pointer other than the front's, tables, log and buffers may change. */
  lemma CountersJammed(s: Ztl, t: Ztl)
    requires Jammed(s) && t.base.pool.dev == s.base.pool.dev && Ready(t.base)
    requires var zm, zm' := s.base.pool.zm, t.base.pool.zm;
      && zm'.openList == zm.openList && zm'.openSet == zm.openSet && zm'.maxOpen == zm.maxOpen && |zm'.zones| == |zm.zones|
      && (forall z :: 0 <= z < |zm.zones| ==>
            var i, j := zm'.zones[z], zm.zones[z];
            i.start == j.start && i.size == j.size && i.cond == j.cond && (z == zm.openList[0] ==> i.wp == j.wp))
      && zm.openList[0] !in t.bufs
    requires Bounded(t.base.pool, t.bufs)
    ensures Jammed(t)
  {
  }

  /** A device write never touches a full zone. */
  lemma WriteSparesFull(d: D.Device, lba: nat, data: seq<D.Sector>, z: nat)
    requires d.zoneSectors > 0 && z < |d.zones| && d.zones[z].cond == D.Full
    ensures var e := D.WriteSectors(d, lba, data).0;
      D.Framed(d, e) && e.zones[z].cond == D.Full
  {
    hide D.Store;
  }

  lemma FlushZoneJammed(s: Ztl, z: nat)
    requires Jammed(s) && Ready(s.base)
    ensures var (bufs, q, r) := FlushZone(s.bufs, s.base.pool, z);
      Jammed(s.(base := s.base.(pool := q), bufs := bufs))
  {
    var p := s.base.pool;
    DroppedJammed(s, z);
    FlushParts(s.bufs, p, z);
    if z in s.bufs && s.bufs[z].data != [] {
      JammedRefuses(s);
      var b := s.bufs[z];
      if z in p.zm.openSet && z < |p.zm.zones| {
        ReopenedJammed(s, z);
        var q := GetOrOpen(p, z).0;
        hide FlushZone, GetOrOpen, D.WriteSectors, UpdateWritePointer, Placed, Bounded;
        var t := s.(base := s.base.(pool := q), bufs := s.bufs - {z});
        WriteSparesFull(q.dev, b.wp, b.data, p.zm.openList[0]);
        WrittenJammed(t, z, b.wp + |b.data|, D.WriteSectors(q.dev, b.wp, b.data).0);
      } else {
        NotReopened(p, z);
        hide FlushZone, GetOrOpen, Jammed;
      }
    }
  }

  lemma FlushParts(bufs: Buffers, p: Pool, z: nat)
    requires Listed(p)
    ensures z !in bufs ==> FlushZone(bufs, p, z) == (bufs, p, Ok)
    ensures z in bufs && bufs[z].data == [] ==> FlushZone(bufs, p, z) == (bufs - {z}, p, Ok)
    ensures z in bufs && bufs[z].data != [] ==>
              var (q, ready) := GetOrOpen(p, z);
              if ready != Ok then FlushZone(bufs, p, z) == (bufs - {z}, q, ready)
              else
                var (d, written) := D.WriteSectors(q.dev, bufs[z].wp, bufs[z].data);
                FlushZone(bufs, p, z) ==
                  (bufs - {z}, if written != Ok then q.(dev := d) else Pool(UpdateWritePointer(q.zm, z, bufs[z].wp + |bufs[z].data|), d), written)
  {
    hide GetOrOpen, D.WriteSectors, UpdateWritePointer;
  }

  lemma NotReopened(p: Pool, z: nat)
    requires Listed(p) && (z >= |p.zm.zones| || (GetOrOpen(p, z).1 != Ok && GetOrOpen(p, z).0 == p))
    ensures GetOrOpen(p, z).0 == p && GetOrOpen(p, z).1 != Ok
  {
    hide MakeRoom, D.OpenZone;
  }

  lemma DroppedJammed(s: Ztl, z: nat)
    requires Jammed(s)
    ensures Jammed(s.(bufs := s.bufs - {z}))
    ensures z !in s.bufs ==> s.bufs - {z} == s.bufs
  {
  }

  /** A zone in the open set, other than the front, moves to the back. */
  lemma ReopenedJammed(s: Ztl, z: nat)
    requires Jammed(s) && z in s.base.pool.zm.openSet && z < |s.base.pool.zm.zones| && z in s.bufs
    ensures var p, (q, r) := s.base.pool, GetOrOpen(s.base.pool, z);
      && r == Ok && q.dev == p.dev && z != p.zm.openList[0] && q.zm.openList != [] && q.zm.openList[0] == p.zm.openList[0]
      && q.zm.zones == p.zm.zones && s.bufs[z].wp + |s.bufs[z].data| == q.zm.zones[z].wp
      && Jammed(s.(base := s.base.(pool := q), bufs := s.bufs - {z}))
  {
    hide MakeRoom, D.OpenZone;
    WithoutFront(s.base.pool.zm.openList, z);
    hide Without;
  }

  /** A flushed zone other than the front: its pointer and its device contents may change. */
  lemma WrittenJammed(s: Ztl, z: nat, wp: nat, d: D.Device)
    requires Jammed(s) && z != s.base.pool.zm.openList[0] && D.Framed(s.base.pool.dev, d)
    requires d.zones[s.base.pool.zm.openList[0]].cond == D.Full && (z < |s.base.pool.zm.zones| ==> wp == s.base.pool.zm.zones[z].wp)
    ensures Jammed(s.(base := s.base.(pool := Pool(UpdateWritePointer(s.base.pool.zm, z, wp), d))))
    ensures Jammed(s.(base := s.base.(pool := s.base.pool.(dev := d))))
  {
  }

  lemma {:induction false} WithoutFront(list: seq<nat>, z: nat)
    requires list != [] && list[0] != z
    ensures Without(list, z) != [] && Without(list, z)[0] == list[0]
  {
  }

  lemma {:induction false} FlushEachJammed(s: Ztl, zones: seq<nat>)
    requires Jammed(s) && Ready(s.base)
    ensures Jammed(FlushState(s, zones))
  {
    hide Jammed, FlushZone;
    if zones != [] {
      var last := |zones| - 1;
      FlushEachJammed(s, zones[..last]);
      FlushZoneJammed(FlushState(s, zones[..last]), zones[last]);
    }
  }

  lemma WriteSegmentJammed(s: Ztl, seg: nat, data: seq<D.Sector>)
    requires Jammed(s) && Ready(s.base) && |data| <= s.base.spp
    ensures Jammed(WriteSegment(s, seg, data).0)
  {
    hide AllocateFree, FlushZone, WriteInto;
    JammedRefuses(s);
    var (s1, zone) := GetWriteZone(s);
    CountersJammed(s, s1);
    if zone.Success? {
      var (s2, r) := WriteInto(s1, zone.value, seg, data);
      WriteIntoJammed(s1, zone.value, seg, data);
      if r == Ok {
        WriteIntoExists(s1, zone.value, seg, data);
        FlushZoneJammed(s2, zone.value);
        FlushIfFullJammed(s2, zone.value);
      }
    }
  }

  lemma FlushIfFullJammed(s: Ztl, z: nat)
    requires Jammed(s) && Ready(s.base) && z < |s.base.pool.zm.zones|
    requires var (bufs, q, r) := FlushZone(s.bufs, s.base.pool, z);
      Jammed(s.(base := s.base.(pool := q), bufs := bufs))
    ensures Jammed(FlushIfFull(s, z).0)
  {
    hide FlushZone;
    var (bufs, q, r) := FlushZone(s.bufs, s.base.pool, z);
    var t := s.(base := s.base.(pool := q), bufs := bufs);
    CountersJammed(t, t.(curOpen := false));
  }

  /** The zone written has room, so it is not the one at the front. */
  lemma WriteIntoJammed(s: Ztl, z: nat, seg: nat, data: seq<D.Sector>)
    requires Jammed(s) && Ready(s.base) && s.cur == z && Remaining(s) >= s.base.spp >= |data|
    ensures Jammed(WriteInto(s, z, seg, data).0)
  {
    WriteIntoKeeps(s, z, seg, data);
    WriteIntoBounded(s, z, seg, data);
    hide WriteInto, Bounded;
    CountersJammed(s, WriteInto(s, z, seg, data).0);
  }

  lemma WriteIntoBounded(s: Ztl, z: nat, seg: nat, data: seq<D.Sector>)
    requires Ready(s.base) && Bounded(s.base.pool, s.bufs)
    requires s.cur == z && Remaining(s) >= s.base.spp >= |data|
    ensures var t := WriteInto(s, z, seg, data).0; Bounded(t.base.pool, t.bufs)
  {
    var t := WriteInto(s, z, seg, data).0;
    if seg < |s.base.l2p| {
      assert s.base.pool.zm.zones[z].wp <= s.base.pool.zm.zones[z].start + s.base.pool.zm.zones[z].size;
      WriteIntoMoves(s, z, seg, data);
      hide WriteInto, NextAddr, ZoneID, OffsetSectors;
    } else {
      hide NextAddr, ZoneID, OffsetSectors;
      assert t.base.pool == s.base.pool && t.bufs == s.bufs;
    }
  }

  /** Counters, and the pointer of zone `z`, may differ. */
  ghost predicate Brushed(zm: Manager, zm': Manager, z: nat) {
    && zm'.openList == zm.openList && zm'.openSet == zm.openSet && zm'.maxOpen == zm.maxOpen && |zm'.zones| == |zm.zones|
    && (forall i :: 0 <= i < |zm.zones| ==>
          var x, y := zm'.zones[i], zm.zones[i];
          x.start == y.start && x.size == y.size && x.cond == y.cond && (i != z ==> x.wp == y.wp))
  }

  lemma BrushedCount(zm: Manager, i: nat, z: nat)
    ensures Brushed(zm, IncrementValidSegs(zm, i), z) && Brushed(zm, DecrementValidSegs(zm, i), z)
  {
  }

  lemma BrushedPointer(zm: Manager, z: nat, wp: nat)
    ensures Brushed(zm, UpdateWritePointer(zm, z, wp), z)
  {
  }

  lemma BrushedTrans(a: Manager, b: Manager, c: Manager, z: nat)
    requires Brushed(a, b, z) && Brushed(b, c, z)
    ensures Brushed(a, c, z)
  {
  }

  /** A write into a zone moves that zone's pointer and counters, adds to its buffer, and leaves the lists. */
  lemma WriteIntoKeeps(s: Ztl, z: nat, seg: nat, data: seq<D.Sector>)
    requires Ready(s.base)
    ensures var t := WriteInto(s, z, seg, data).0;
      && t.base.pool.dev == s.base.pool.dev
      && (forall i :: i != z ==> (i in t.bufs <==> i in s.bufs))
      && Brushed(s.base.pool.zm, t.base.pool.zm, z)
  {
    var zm, from := s.base.pool.zm, ZoneID(Get(s.base.l2p, seg));
    var down := if IsUnmapped(Get(s.base.l2p, seg)) then zm else DecrementValidSegs(zm, from);
    var up := IncrementValidSegs(down, z);
    BrushedCount(zm, from, z);
    BrushedCount(down, z, z);
    BrushedPointer(up, z, WritePointer(zm, z) + |data|);
    assert Brushed(zm, zm, z);
    BrushedTrans(zm, down, up, z);
    BrushedTrans(zm, up, UpdateWritePointer(up, z, WritePointer(zm, z) + |data|), z);
    hide NextAddr, ZoneID, OffsetSectors, Listed, IncrementValidSegs, DecrementValidSegs, UpdateWritePointer, WritePointer, Brushed;
  }

  lemma {:induction false} WriteFromJammed(s: Ztl, lba: nat, data: seq<D.Sector>)
    requires Jammed(s) && Ready(s.base)
    ensures Jammed(WriteFrom(s, lba, data).0)
    decreases |data|
  {
    hide Jammed, WriteSegment;
    if data != [] {
      var n := Piece(lba, |data|, s.base.spp);
      var seg := LBAToSegmentID(lba, s.base.spp);
      WriteSegmentJammed(s, seg, data[..n]);
      if WriteSegment(s, seg, data[..n]).1 == Ok {
        WriteFromJammed(WriteSegment(s, seg, data[..n]).0, lba + n, data[n..]);
      }
    }
  }

  lemma {:induction false} UnmapRangeJammed(s: Ztl, first: nat, end: nat)
    requires Jammed(s) && Ready(s.base)
    ensures Jammed(s.(base := UnmapRange(s.base, first, end)))
    decreases end - first
  {
    hide Jammed, UnmapSegment;
    if first < end {
      UnmapRangeJammed(s, first, end - 1);
      UnmapSegmentJammed(s.(base := UnmapRange(s.base, first, end - 1)), end - 1);
    }
  }

  lemma UnmapSegmentJammed(s: Ztl, seg: nat)
    requires Jammed(s) && Ready(s.base)
    ensures Jammed(s.(base := UnmapSegment(s.base, seg)))
  {
    hide ZoneID, OffsetSectors;
    CountersJammed(s, s.(base := UnmapSegment(s.base, seg)));
  }

  // ---------- collections in a jam ----------

  /** No migration finds a zone: it changes nothing but, at most, an entry of the reverse map. */
  lemma MigrateSegmentJammed(s: Ztl, victim: nat, seg: nat, off: nat)
    requires Jammed(s) && Ready(s.base)
    ensures MigrateSegment(s.base, victim, seg, off).0 == s.base.(p2l := MigrateSegment(s.base, victim, seg, off).0.p2l)
  {
    JammedRefuses(s);
    hide Jammed, Fetch, AllocateFree, StillThere, ZoneID, OffsetSectors;
  }

  lemma {:induction false} MigrateAllJammed(s: Ztl, victim: nat, live: seq<(nat, nat)>)
    requires Jammed(s) && Ready(s.base)
    ensures MigrateAll(s.base, victim, live).0 == s.base.(p2l := MigrateAll(s.base, victim, live).0.p2l)
  {
    hide MigrateSegment, Jammed;
    if live != [] {
      var last := |live| - 1;
      MigrateAllJammed(s, victim, live[..last]);
      var m := s.(base := MigrateAll(s.base, victim, live[..last]).0);
      TableJammed(s, m);
      MigrateSegmentJammed(m, victim, live[last].0, live[last].1);
    }
  }

  lemma TableJammed(s: Ztl, t: Ztl)
    requires Jammed(s) && t == s.(base := t.base) && t.base.pool == s.base.pool && t.base.spp == s.base.spp
    ensures Jammed(t)
  {
  }

  lemma CollectZoneJammed(s: Ztl, victim: nat, order: seq<nat>)
    requires Jammed(s) && Ready(s.base) && SelectGCVictim(s.base.pool.zm) == Success(victim)
    ensures Jammed(s.(base := CollectZone(s.base, victim, order).0))
  {
    hide MigrateAll, Gather, Reclaim, Seal;
    var c := s.(base := Freeze(s.base, victim));
    CountersJammed(s, c);
    var live := Gather(c.base, victim, order);
    MigrateAllJammed(c, victim, live);
    var (moved, r) := MigrateAll(c.base, victim, live);
    var m := s.(base := moved);
    TableJammed(c, m);
    if r != Ok {
      CountersJammed(m, s.(base := Unfreeze(moved, victim)));
    } else {
      SealLogOnly(moved, victim);
      var sealed := s.(base := Seal(moved, victim));
      TableJammed(m, sealed);
      assert Candidate(s.base.pool.zm, victim);
      ReclaimJammed(sealed, victim);
      var t := s.(base := Reclaim(sealed.base, victim).0);
      CountersJammed(t, s.(base := Unfreeze(t.base, victim)));
    }
  }

  /** A victim is tracked as closed or full, so it is not in the open set; resetting it moves nothing there. */
  lemma ReclaimJammed(s: Ztl, victim: nat)
    requires Jammed(s) && Ready(s.base) && victim < |s.base.pool.zm.zones|
    requires s.base.pool.zm.zones[victim].cond in {D.Full, D.Closed}
    ensures Jammed(s.(base := Reclaim(s.base, victim).0))
  {
    ZoneIndexAt(s.base.pool.dev, victim, 0);
    assert victim !in s.base.pool.zm.openSet;
  }

  lemma {:induction false} EmergencyJammed(s: Ztl, reserve: int, orders: seq<seq<nat>>)
    requires Jammed(s) && Ready(s.base)
    ensures Jammed(s.(base := RunEmergencyGC(s.base, reserve, orders).0))
    decreases |orders|
  {
    hide Jammed, CollectZone, SelectGCVictim;
    if |s.base.pool.zm.freeList| < reserve && orders != [] && SelectGCVictim(s.base.pool.zm).Success? {
      var victim := SelectGCVictim(s.base.pool.zm).value;
      CollectZoneJammed(s, victim, orders[0]);
      EmergencyJammed(s.(base := CollectZone(s.base, victim, orders[0]).0), reserve, orders[1..]);
    }
  }

  lemma WriteJammed(s: Ztl, lba: nat, data: seq<D.Sector>, reserve: int, orders: seq<seq<nat>>)
    requires Jammed(s) && Ready(s.base)
    ensures Jammed(Write(s, lba, data, reserve, orders).0)
  {
    hide Jammed, RunEmergencyGC, WriteFrom;
    if data != [] {
      EmergencyJammed(s, reserve, orders);
      var g := s.(base := RunEmergencyGC(s.base, reserve, orders).0);
      WriteFromJammed(g, lba, data);
      var t := WriteFrom(g, lba, data).0;
      TableJammed(t, t.(base := t.base.(log := GroupCommit(t.base.log))));
    }
  }

  /** Any operation at all, with any arguments, whether it is accepted or refused. */
  lemma StepJammed(s: Ztl, op: Op)
    requires Jammed(s) && Ready(s.base)
    ensures Jammed(Step(s, op).0)
  {
    hide Jammed, Write, UnmapRange, FlushEach, FlushZone, CollectZone, SelectGCVictim, LastLBA;
    match op {
      case WriteOp(lba, data, reserve, orders) => WriteJammed(s, lba, data, reserve, orders);
      case UnmapOp(lba, count) =>
        UnmapRangeJammed(s, lba / s.base.spp, LastLBA(lba, count) / s.base.spp + 1);
      case FlushOp(zones) =>
        FlushEachJammed(s, zones);
        TableJammed(FlushState(s, zones), Step(s, op).0);
      case FlushZoneOp(zone) => FlushZoneJammed(s, zone);
      case CollectOp(order) =>
        if SelectGCVictim(s.base.pool.zm).Success? {
          CollectZoneJammed(s, SelectGCVictim(s.base.pool.zm).value, order);
        }
      case _ => TableJammed(s, Step(s, op).0);
    }
  }

  lemma {:induction false} RunJammed(s: Ztl, ops: seq<Op>)
    requires Jammed(s) && Ready(s.base)
    ensures Jammed(Execute(s, ops))
  {
    hide Jammed, Step;
    if ops != [] {
      RunJammed(s, ops[..|ops| - 1]);
      StepJammed(Execute(s, ops[..|ops| - 1]), ops[|ops| - 1]);
    }
  }

  /** Once stuck, always stuck: after any operations whatever, admissible or not, accepted or refused, no zone can
      be allocated, and only the room left in the current write zone can be written. */
  lemma StuckForever(s: Ztl, ops: seq<Op>)
    requires Inv(s) && Ready(s.base) && StuckPool(s.base.pool)
    ensures var t := Execute(s, ops);
      && StuckPool(t.base.pool)
      && AllocateFree(t.base.pool).1.Failure? && AllocateFree(t.base.pool).0 == t.base.pool
      && (GetWriteZone(t).1.Success? <==>
            t.curOpen && t.cur < |t.base.pool.zm.zones|
            && var info := t.base.pool.zm.zones[t.cur]; info.wp + t.base.spp <= info.start + info.size)
  {
    hide Inv, Execute, AllocateFree, Jammed;
    StuckJams(s);
    RunJammed(s, ops);
    JammedRefuses(Execute(s, ops));
    JammedStuck(Execute(s, ops));
    if Execute(s, ops).cur < |Execute(s, ops).base.pool.zm.zones| { RoomIfJammed(Execute(s, ops)); }
  }

  lemma RoomIfJammed(s: Ztl)
    requires Jammed(s) && s.cur < |s.base.pool.zm.zones|
    ensures var info := s.base.pool.zm.zones[s.cur];
      Remaining(s) == info.start + info.size - info.wp
  {
  }

  lemma JammedStuck(s: Ztl)
    requires Jammed(s)
    ensures StuckPool(s.base.pool)
  {
  }
}
