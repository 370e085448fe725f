/** What recovery leaves in the zone manager, said of its fields: conditions and pointers are the device's, the zones
    of replayed resets end the free list and count nothing, and everything else is as it was. */
module Restored {
  import opened Errors
  import opened Segment
  import opened Bytes
  import opened Codec
  import F = Frames
  import opened Pool
  import opened Log
  import opened OpenZones
  import opened Coherence
  import C = Crash
  import D = Device

  /** The zones that the reset records among some records name, in order. */
  function ResetZones(rs: seq<Record>): seq<nat> {
    if rs == [] then [] else
    var last := rs[|rs| - 1];
    ResetZones(rs[..|rs| - 1]) + (if last.kind == ZONE_RESET then [last.id % 0x1_0000_0000] else [])
  }

  /** A list without some zones, in the same order. */
  function Except(list: seq<nat>, gone: seq<nat>): seq<nat> {
    if list == [] then []
    else (if list[0] in gone then [] else [list[0]]) + Except(list[1..], gone)
  }

  /** What is left of a manager when some zones have been marked empty in turn. */
  ghost predicate Emptied(zm: Manager, t: Manager, gone: seq<nat>) {
    && |t.zones| == |zm.zones| && t.maxOpen == zm.maxOpen
    && t.freeList == zm.freeList + gone
    && (forall z :: z in t.openSet <==> z in zm.openSet && z !in gone)
    && (forall z :: z in t.frozen <==> z in zm.frozen && z !in gone)
    && (Lists(zm) ==> Lists(t) && t.openList == Except(zm.openList, gone))
    && forall z :: 0 <= z < |zm.zones| ==>
         t.zones[z] == if z in gone then ZoneInfo(D.Empty, zm.zones[z].start, zm.zones[z].start, zm.zones[z].size, 0, 0)
                       else zm.zones[z]
  }

  lemma {:induction false} ExceptNone(list: seq<nat>)
    ensures Except(list, []) == list
  {
    if list != [] { ExceptNone(list[1..]); }
  }

  lemma {:induction false} ExceptMembers(list: seq<nat>, gone: seq<nat>)
    ensures forall x :: x in Except(list, gone) <==> x in list && x !in gone
  {
    if list != [] {
      assert list == [list[0]] + list[1..];
      ExceptMembers(list[1..], gone);
    }
  }

  lemma WithoutHead(x: nat, rest: seq<nat>, z: nat)
    ensures Without([x] + rest, z) == if x == z then rest else [x] + Without(rest, z)
  {
    assert ([x] + rest)[1..] == rest;
  }

  lemma {:induction false} ExceptMore(list: seq<nat>, gone: seq<nat>, z: nat)
    requires Distinct(list)
    ensures Except(list, gone + [z]) == if z in Except(list, gone) then Without(Except(list, gone), z) else Except(list, gone)
  {
    if list != [] {
      var x, rest := list[0], Except(list[1..], gone);
      assert x !in list[1..];
      ExceptMore(list[1..], gone, z);
      ExceptMembers(list[1..], gone);
      WithoutHead(x, rest, z);
      assert x in gone + [z] <==> x in gone || x == z;
      hide Distinct, Without;
      assert Except(list, gone) == if x in gone then rest else [x] + rest;
      assert Except(list, gone + [z]) == if x in gone || x == z then Except(list[1..], gone + [z]) else [x] + Except(list[1..], gone + [z]);
    }
  }

  lemma MarkEmptied(zm: Manager, t: Manager, gone: seq<nat>, z: nat)
    requires Emptied(zm, t, gone) && z < |zm.zones|
    ensures Emptied(zm, MarkEmpty(t, z).0, gone + [z])
  {
    var u := MarkEmpty(t, z).0;
    assert forall x :: x in gone + [z] <==> x in gone || x == z;
    assert u.freeList == zm.freeList + (gone + [z]);
    if Lists(zm) {
      ListsWithout(t, z);
      ExceptMore(zm.openList, gone, z);
      assert Lists(u);
    }
  }

  lemma NoneEmptied(zm: Manager)
    ensures Emptied(zm, zm, [])
  {
    ExceptNone(zm.openList);
  }

  lemma {:induction false} RemarkEmpties(zm: Manager, rs: seq<Record>)
    requires forall k :: 0 <= k < |ResetZones(rs)| ==> ResetZones(rs)[k] < |zm.zones|
    ensures Emptied(zm, C.Remark(zm, rs), ResetZones(rs))
  {
    hide MarkEmpty, Emptied, Except;
    NoneEmptied(zm);
    if rs != [] {
      var init, last := rs[..|rs| - 1], rs[|rs| - 1];
      assert forall k :: 0 <= k < |ResetZones(init)| ==> ResetZones(rs)[k] == ResetZones(init)[k];
      RemarkEmpties(zm, init);
      if last.kind == ZONE_RESET {
        var z := last.id % 0x1_0000_0000;
        assert ResetZones(rs)[|ResetZones(init)|] == z;
        MarkEmptied(zm, C.Remark(zm, init), ResetZones(init), z);
      } else {
        assert ResetZones(rs) == ResetZones(init);
      }
    }
  }

  /** Replay succeeds only when every zone that a reset names exists. */
  lemma {:induction false} ReplayKnows(t: seq<PhysAddr>, rs: seq<Record>, zones: nat)
    requires Replay(t, rs, zones).Success?
    ensures forall k :: 0 <= k < |ResetZones(rs)| ==> ResetZones(rs)[k] < zones
  {
    if rs != [] { ReplayKnows(t, rs[..|rs| - 1], zones); }
  }

  /** The manager after recovery: each zone has the device's condition and pointer, whatever the resets marked; the
      zones of the resets end the free list, in the order of the log, and count nothing; every other zone keeps its
      counts, and every zone its place; and the zones that stay open keep their order. */
  ghost predicate Recovered(zm: Manager, t: Manager, d: D.Device, resets: seq<nat>) {
    && |t.zones| == |zm.zones| && t.maxOpen == zm.maxOpen
    && t.freeList == zm.freeList + resets
    && (forall z :: z in t.openSet <==> z in zm.openSet && z !in resets)
    && (Lists(zm) ==> Lists(t) && t.openList == Except(zm.openList, resets))
    && (forall z :: 0 <= z < |zm.zones| && z < |d.zones| ==> t.zones[z].cond == d.zones[z].cond && t.zones[z].wp == d.zones[z].wp)
    && (forall z :: 0 <= z < |zm.zones| ==>
          && t.zones[z].start == zm.zones[z].start && t.zones[z].size == zm.zones[z].size
          && t.zones[z].valid == (if z in resets then 0 else zm.zones[z].valid)
          && t.zones[z].total == (if z in resets then 0 else zm.zones[z].total))
  }

  lemma RecoveredManager(zm: Manager, d: D.Device, rs: seq<Record>)
    requires forall k :: 0 <= k < |ResetZones(rs)| ==> ResetZones(rs)[k] < |zm.zones|
    ensures Recovered(zm, C.Reconcile(C.Remark(zm, rs), d), d, ResetZones(rs))
  {
    hide C.Remark, ResetZones, Except;
    RemarkEmpties(zm, rs);
  }

  /** Recovery from the bytes of a journal succeeds only when every zone that a replayed reset names exists. */
  lemma FileKnows(crc: Checksum, t: seq<PhysAddr>, file: seq<byte>, zones: nat)
    requires F.RecoverFile(crc, t, file, zones).Success?
    ensures forall k :: 0 <= k < |ResetZones(F.Replayed(crc, file))| ==> ResetZones(F.Replayed(crc, file))[k] < zones
  {
    hide ResetZones, Replay, F.ReadRecords, F.ScanCheckpoints;
    match F.ScanCheckpoints(crc, file, None)
    case Success(None) => ReplayKnows(t, F.Replayed(crc, file), zones);
    case Success(Some(cp)) => ReplayKnows(cp.table, F.Replayed(crc, file), zones);
  }

  /** The scan for checkpoints fails only where the original stops with a run-time error. */
  lemma {:induction false} ScanFails(crc: Checksum, file: seq<byte>, best: Option<Entry>)
    requires best.Some? ==> best.value.Snapshot?
    ensures F.ScanCheckpoints(crc, file, best).Failure? ==> F.ScanCheckpoints(crc, file, best).error == Panicked
    decreases |file|
  {
    hide F.NextFrame, UnmarshalCheckpoint;
    match F.NextFrame(file, F.SCAN_LIMIT)
    case None =>
    case Some(data) =>
      var better := F.Better(crc, data, best);
      if better.Success? { ScanFails(crc, file[4 + |data|..], better.value); }
  }

  // ---------- what a device report gives ----------

  /** The manager over a device just found: the free list names the empty zones and the open list the open ones, each
      once and in ascending order; the rest is the device's, and nothing is counted or frozen. */
  lemma ReportIs(d: D.Device)
    ensures var zm := Report(d);
      && (forall z :: z in zm.freeList <==> 0 <= z < |d.zones| && d.zones[z].cond == D.Empty)
      && (forall z :: z in zm.openList <==> 0 <= z < |d.zones| && d.zones[z].cond in {D.ImplicitOpen, D.ExplicitOpen})
      && (forall z :: z in zm.openSet <==> z in zm.openList)
      && (forall i, j :: 0 <= i < j < |zm.freeList| ==> zm.freeList[i] < zm.freeList[j])
      && (forall i, j :: 0 <= i < j < |zm.openList| ==> zm.openList[i] < zm.openList[j])
      && zm.frozen == {} && zm.maxOpen == d.maxOpen && |zm.zones| == |d.zones|
      && forall z :: 0 <= z < |d.zones| ==>
           zm.zones[z] == ZoneInfo(d.zones[z].cond, d.zones[z].wp, z * d.zoneSectors, d.zoneSectors, 0, 0)
  {
    SelectIs(d.zones, |d.zones|, D.IsEmpty);
    SelectIs(d.zones, |d.zones|, D.IsOpen);
    hide Select;
  }

  lemma {:induction false} SelectIs(zones: seq<D.Zone>, n: nat, chosen: D.Condition -> bool)
    requires n <= |zones|
    ensures var list := Select(zones, n, chosen);
      && (forall z :: z in list <==> 0 <= z < n && chosen(zones[z].cond))
      && forall i, j :: 0 <= i < j < |list| ==> list[i] < list[j]
  {
    if n > 0 {
      SelectIs(zones, n - 1, chosen);
      var rest := Select(zones, n - 1, chosen);
      assert forall i :: 0 <= i < |rest| ==> rest[i] in rest;
    }
  }
}
