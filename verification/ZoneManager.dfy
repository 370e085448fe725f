/** The zone manager as an object over the device: each method is the operation on values, with its effect on
    both (internal/ztl/zone_manager.go). */
module ZoneManagerClass {
  import opened Errors
  import P = Pool
  import opened EmulatorClass
  import C = Crash
  import D = Device
  import U = Recency

  class ZoneManager {
    var zones: seq<P.ZoneInfo>
    var freeList: seq<nat>
    var openList: seq<nat>
    var openSet: set<nat>
    var frozenSet: set<nat>
    const maxOpenZones: int
    const device: Emulator
    /** The zones allocated or reopened so far, in the order of their uses. */
    ghost var uses: seq<nat>

    function View(): P.Manager
      reads this
    {
      P.Manager(zones, freeList, openList, openSet, frozenSet, maxOpenZones)
    }

    function Both(): P.Pool
      reads this, device, device.buffers
      requires |device.zones| == |device.buffers|
    {
      P.Pool(View(), device.View())
    }

    ghost predicate Valid()
      reads this, device, device.buffers
    {
      device.Valid() && P.Listed(Both()) && U.InOrder(openList, uses)
    }

    constructor (device: Emulator)
      requires device.Valid()
      ensures Valid() && this.device == device && View() == P.Manager([], [], [], {}, {}, device.maxOpenZones)
    {
      zones, freeList, openList, openSet, frozenSet, uses := [], [], [], {}, {}, [];
      maxOpenZones := device.maxOpenZones;
      this.device := device;
      new;
      D.SaneShaped(device.View());
    }

    /** Reads the device's report. */
    method Initialize()
      requires Valid() && View() == P.Manager([], [], [], {}, {}, device.maxOpenZones)
      modifies this
      ensures Valid() && View() == P.Report(device.View()) && uses == openList
    {
      ghost var d := device.View();
      C.ReportStarts(d);
      var report := device.ReportZones();
      assert ReportedTo(d, View(), 0);
      Record(report, d);
      Reported(d, View());
      uses := openList;
      U.SelectDistinct(d.zones, |d.zones|, D.IsOpen);
      U.StartsInOrder(openList);
      hide P.Report;
    }

    method Record(report: seq<Descriptor>, ghost d: D.Device)
      requires |report| == |d.zones| && ReportedTo(d, View(), 0)
      requires forall i :: 0 <= i < |report| ==>
                 report[i] == Descriptor(d.zones[i].cond, d.zoneSectors, d.Start(i), d.zones[i].wp)
      modifies this
      ensures ReportedTo(d, View(), |d.zones|)
    {
      hide ReportedTo, D.Device.Start;
      for i := 0 to |report|
        invariant ReportedTo(d, View(), i)
      {
        ghost var before := View();
        zones := zones + [P.ZoneInfo(report[i].cond, report[i].writePointer, report[i].start, report[i].length, 0, 0)];
        if report[i].cond == D.Empty {
          freeList := freeList + [i];
        } else if D.IsOpen(report[i].cond) {
          openList := openList + [i];
          openSet := openSet + {i};
        }
        NotFrozen(d, before, i);
        ReportStep(d, before, View(), i);
      }
    }

    method EvictOldest() returns (r: Status)
      requires Valid()
      modifies this, device
      ensures Valid() && (Both(), r) == P.EvictOldest(old(Both())) && uses == old(uses)
      ensures r == Ok && old(openList) != [] ==> U.OldestFirst(old(openList), uses) && openList == old(openList)[1..]
    {
      U.FrontIsOldest(openList, uses);
      EvictsFront(Both());
      hide *;
      hide Valid, Both, View;
      r := CloseFront();
    }

    /** Closes the zone at the front of the list, if there is one. */
    method CloseFront() returns (r: Status)
      requires Valid()
      modifies this, device
      ensures Valid() && (Both(), r) == P.EvictOldest(old(Both())) && uses == old(uses)
    {
      hide D.Sane, D.CloseZone, U.InOrder, U.LastUse;
      if openList == [] { return Ok; }
      U.TailInOrder(openList, uses);
      var z := openList[0];
      r := device.CloseZone(zones[z].start);
      if r != Ok { return; }
      zones := zones[z := zones[z].(cond := D.Closed)];
      openList := openList[1..];
      openSet := openSet - {z};
    }

    method MakeRoom() returns (r: Status)
      requires Valid()
      modifies this, device
      ensures Valid() && (Both(), r) == P.MakeRoom(old(Both())) && uses == old(uses)
    {
      hide P.EvictOldest, P.Listed, U.InOrder;
      r := Ok;
      if |openSet| >= maxOpenZones { r := EvictOldest(); }
    }

    method AllocateFree() returns (r: Result<nat>)
      requires Valid()
      modifies this, device
      ensures Valid() && (Both(), r) == P.AllocateFree(old(Both()))
      ensures uses == if r.Success? then old(uses) + [r.value] else old(uses)
    {
      hide P.MakeRoom, D.OpenZone, D.Sane, U.InOrder, U.LastUse, Emulator.View;
      if freeList == [] { return Failure(NoFreeZone); }
      var made := MakeRoom();
      if made != Ok { return Failure(made); }
      Rooms(old(Both()));
      ghost var free := freeList;
      var z := freeList[|freeList| - 1];
      freeList := freeList[..|freeList| - 1];
      var opening := device.OpenZone(zones[z].start);
      if opening != Ok {
        OpenFails(device.View(), zones[z].start);
        freeList := freeList + [z];
        assert freeList == free;
        return Failure(opening);
      }
      zones := zones[z := zones[z].(cond := D.ExplicitOpen)];
      U.UsedInOrder(openList, uses, z);
      openList := openList + [z];
      openSet := openSet + {z};
      uses := uses + [z];
      r := Success(z);
    }

    method GetOrOpen(z: nat) returns (r: Status)
      requires Valid()
      modifies this, device
      ensures Valid() && (Both(), r) == P.GetOrOpen(old(Both()), z)
      ensures uses == if r == Ok then old(uses) + [z] else old(uses)
    {
      hide P.MakeRoom, D.OpenZone, D.Sane, U.InOrder, U.LastUse, Emulator.View;
      if z >= |zones| { return NoSuchZone; }
      if z in openSet {
        U.WithoutInOrder(openList, uses, z);
        U.UsedInOrder(P.Without(openList, z), uses, z);
        openList := P.Without(openList, z) + [z];
        uses := uses + [z];
        return Ok;
      }
      r := MakeRoom();
      if r != Ok { return; }
      r := device.OpenZone(zones[z].start);
      if r != Ok { return; }
      zones := zones[z := zones[z].(cond := D.ExplicitOpen)];
      U.UsedInOrder(openList, uses, z);
      openList := openList + [z];
      openSet := openSet + {z};
      uses := uses + [z];
    }

    method MarkFull(z: nat) returns (r: Status)
      requires Valid()
      modifies this, device
      ensures Valid() && (Both(), r) == P.MarkFull(old(Both()), z) && uses == old(uses)
    {
      hide D.FinishZone, D.Sane, U.InOrder;
      if z >= |zones| { return NoSuchZone; }
      r := device.FinishZone(zones[z].start);
      if r != Ok { return; }
      zones := zones[z := zones[z].(cond := D.Full, wp := zones[z].start + zones[z].size)];
      if z in openSet {
        U.WithoutInOrder(openList, uses, z);
        openList := P.Without(openList, z);
        openSet := openSet - {z};
      }
    }

    method MarkEmpty(z: nat) returns (r: Status)
      requires Valid()
      modifies this
      ensures Valid() && (View(), r) == P.MarkEmpty(old(View()), z) && uses == old(uses)
    {
      hide D.Sane, U.InOrder;
      U.WithoutInOrder(openList, uses, z);
      if z >= |zones| { return NoSuchZone; }
      zones := zones[z := zones[z].(cond := D.Empty, wp := zones[z].start, valid := 0, total := 0)];
      if z in openSet {
        openList := P.Without(openList, z);
        openSet := openSet - {z};
      }
      frozenSet := frozenSet - {z};
      freeList := freeList + [z];
      r := Ok;
    }

    method UpdateWritePointer(z: nat, wp: nat)
      requires Valid()
      modifies this`zones
      ensures Valid() && View() == P.UpdateWritePointer(old(View()), z, wp)
    {
      hide D.Sane, U.InOrder;
      if z < |zones| { zones := zones[z := zones[z].(wp := wp)]; }
    }

    method IncrementValidSegs(z: nat)
      requires Valid()
      modifies this`zones
      ensures Valid() && View() == P.IncrementValidSegs(old(View()), z)
    {
      hide D.Sane, U.InOrder;
      if z < |zones| { zones := zones[z := zones[z].(valid := zones[z].valid + 1, total := zones[z].total + 1)]; }
    }

    method DecrementValidSegs(z: nat)
      requires Valid()
      modifies this`zones
      ensures Valid() && View() == P.DecrementValidSegs(old(View()), z)
    {
      hide D.Sane, U.InOrder;
      if z < |zones| && zones[z].valid > 0 { zones := zones[z := zones[z].(valid := zones[z].valid - 1)]; }
    }

    method Freeze(z: nat)
      requires Valid()
      modifies this`frozenSet
      ensures Valid() && View() == old(View()).(frozen := old(frozenSet) + {z})
    {
      hide D.Sane, U.InOrder;
      frozenSet := frozenSet + {z};
    }

    method Unfreeze(z: nat)
      requires Valid()
      modifies this`frozenSet
      ensures Valid() && View() == old(View()).(frozen := old(frozenSet) - {z})
    {
      hide D.Sane, U.InOrder;
      frozenSet := frozenSet - {z};
    }

    /** Scans the zones for the largest score. */
    method SelectGCVictim() returns (r: Result<nat>)
      ensures r == P.SelectGCVictim(View())
      ensures P.CountsWithin(View()) ==> P.FewestLive(View(), r)
    {
      if P.CountsWithin(View()) { P.VictimIsFewest(View()); }
      var found, best, bestScore := false, 0, -1.0;
      for i := 0 to |zones|
        invariant P.VictimAmong(View(), i) == if found then Success(best) else Failure(NoVictim)
        invariant found ==> best < i && bestScore == P.GCScore(zones[best])
        invariant !found ==> bestScore == -1.0
      {
        if P.Candidate(View(), i) {
          var score := P.GCScore(zones[i]);
          if score > bestScore {
            found, best, bestScore := true, i, score;
          }
        }
      }
      r := if found then Success(best) else Failure(NoVictim);
    }

    /** Takes conditions and pointers from the device, zone by zone. */
    method ReconcileFromDevice()
      requires Valid()
      modifies this`zones
      ensures Valid() && View() == C.Reconcile(old(View()), device.View())
      ensures |zones| == |old(zones)|
      ensures forall k :: 0 <= k < |zones| && k < |device.View().zones| ==>
                zones[k] == old(zones)[k].(cond := device.View().zones[k].cond, wp := device.View().zones[k].wp)
    {
      hide U.InOrder;
      ghost var d := device.View();
      var report := device.ReportZones();
      for i := 0 to |report|
        invariant |zones| == |old(zones)|
        invariant forall k :: 0 <= k < |zones| ==>
                    zones[k] == if k < i then old(zones)[k].(cond := d.zones[k].cond, wp := d.zones[k].wp) else old(zones)[k]
      {
        if i >= |zones| { break; }
        zones := zones[i := zones[i].(cond := report[i].cond, wp := report[i].writePointer)];
      }
      assert View() == C.Reconcile(old(View()), d);
    }
  }

  /** What a zone manager holds after reading the first `n` zones of a report. */
  ghost predicate ReportedTo(d: D.Device, zm: P.Manager, n: nat) {
    && n <= |d.zones| && |zm.zones| == n && zm.frozen == {} && zm.maxOpen == d.maxOpen
    && (forall k :: 0 <= k < n ==> zm.zones[k] == InfoOf(d, k))
    && zm.freeList == P.Select(d.zones, n, D.IsEmpty) && zm.openList == P.Select(d.zones, n, D.IsOpen)
    && zm.openSet == set k | 0 <= k < n && D.IsOpen(d.zones[k].cond)
  }

  function InfoOf(d: D.Device, k: nat): P.ZoneInfo
    requires k < |d.zones|
  {
    P.ZoneInfo(d.zones[k].cond, d.zones[k].wp, d.Start(k), d.zoneSectors, 0, 0)
  }

  lemma NotFrozen(d: D.Device, zm: P.Manager, n: nat)
    requires ReportedTo(d, zm, n)
    ensures zm.frozen == {}
  {
  }

  lemma ReportStep(d: D.Device, zm: P.Manager, zm': P.Manager, n: nat)
    requires ReportedTo(d, zm, n) && n < |d.zones|
    requires zm' == P.Manager(zm.zones + [InfoOf(d, n)],
                              zm.freeList + (if D.IsEmpty(d.zones[n].cond) then [n] else []),
                              zm.openList + (if D.IsOpen(d.zones[n].cond) then [n] else []),
                              zm.openSet + (if D.IsOpen(d.zones[n].cond) then {n} else {}), {}, zm.maxOpen)
    ensures ReportedTo(d, zm', n + 1)
  {
    hide InfoOf;
  }

  lemma Reported(d: D.Device, zm: P.Manager)
    requires ReportedTo(d, zm, |d.zones|)
    ensures zm == P.Report(d)
  {
  }

  lemma EvictsFront(p: P.Pool)
    requires P.Listed(p)
    ensures P.EvictOldest(p).1 == Ok && p.zm.openList != [] ==> P.EvictOldest(p).0.zm.openList == p.zm.openList[1..]
  {
  }

  /** Making room does not touch the free list. */
  lemma Rooms(p: P.Pool)
    requires P.Listed(p)
    ensures P.MakeRoom(p).0.zm.freeList == p.zm.freeList
  {
  }

  /** An open that fails changes nothing. */
  lemma OpenFails(d: D.Device, lba: nat)
    requires d.zoneSectors > 0
    ensures D.OpenZone(d, lba).1 != Ok ==> D.OpenZone(d, lba).0 == d
  {
  }
}
