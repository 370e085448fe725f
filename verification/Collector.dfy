/** The garbage collector as an object over the tables, the zone manager, the device and the journal
    (internal/ztl/gc.go). */
module Collector {
  import opened Errors
  import opened Segment
  import opened EmulatorClass
  import opened ZoneManagerClass
  import opened Tables
  import opened Wal
  import Z = Ztl
  import P = Pool
  import L = Log
  import D = Device
  import U = Recency
  import C = Collect

  class GCEngine {
    const l2p: L2PTable
    const p2l: P2LMap
    const zm: ZoneManager
    const device: Emulator
    const journal: Journal
    const sectorsPerSeg: nat
    const emergencyFreeZones: int

    ghost function Base(): Z.Base
      reads l2p.entries, p2l, zm, zm.device, zm.device.buffers, journal
      requires |zm.device.zones| == |zm.device.buffers|
    {
      Z.Base(l2p.View(), p2l.entries, zm.Both(), journal.log, sectorsPerSeg)
    }

    ghost predicate Valid()
      reads l2p.entries, p2l, zm, zm.device, zm.device.buffers, journal
    {
      device == zm.device && zm.Valid() && journal.Valid() && Z.Ready(Base())
    }

    constructor (l2p: L2PTable, p2l: P2LMap, zm: ZoneManager, journal: Journal, sectorsPerSeg: nat, emergencyFreeZones: int)
      requires zm.Valid() && journal.Valid() && sectorsPerSeg > 0
      ensures Valid() && this.l2p == l2p && this.p2l == p2l && this.zm == zm && this.journal == journal
      ensures this.sectorsPerSeg == sectorsPerSeg && this.emergencyFreeZones == emergencyFreeZones
    {
      this.l2p, this.p2l, this.zm, this.device, this.journal := l2p, p2l, zm, zm.device, journal;
      this.sectorsPerSeg, this.emergencyFreeZones := sectorsPerSeg, emergencyFreeZones;
    }

    /** Takes a fresh zone for a copy. */
    method Claim(seg: nat, from: PhysAddr, data: seq<D.Sector>) returns (r: Result<Z.Move>)
      requires Valid()
      modifies zm, device
      ensures Valid() && (Base(), r) == Z.Claim(old(Base()), seg, from, data)
    {
      hide D.Sane, U.InOrder, Emulator.View, P.AllocateFree;
      var alloc := zm.AllocateFree();
      if alloc.Failure? { return Failure(alloc.error); }
      var zone := alloc.value;
      r := Success(Z.Move(seg, from, data, zone, P.WritePointer(zm.View(), zone), Z.NextAddr(zm.View(), zone)));
    }

    method Announce(m: Z.Move)
      requires Valid()
      modifies journal
      ensures Valid() && Base() == Z.Announce(old(Base()), m)
    {
      hide D.Sane, U.InOrder, Emulator.View, L.LogL2PUpdate;
      journal.LogL2PUpdate(m.seg, m.from, m.to);
    }

    method Copy(m: Z.Move) returns (r: Status)
      requires Valid()
      modifies zm, device, device.buffers
      ensures Valid() && (Base(), r) == Z.Copy(old(Base()), m)
    {
      hide D.Sane, U.InOrder, Emulator.View, D.WriteSectors, P.UpdateWritePointer;
      r := device.WriteSectors(m.wp, m.data);
      if r != Ok { return; }
      zm.UpdateWritePointer(m.zone, m.wp + sectorsPerSeg);
    }

    /** The reverse map and the counters after a copy was installed. */
    method Settle(m: Z.Move)
      requires Valid()
      modifies p2l, zm`zones
      ensures Valid() && Base() == Z.Settle(old(Base()), m)
    {
      hide D.Sane, U.InOrder, Emulator.View, P.IncrementValidSegs, P.DecrementValidSegs, ZoneID, OffsetSectors;
      p2l.Delete(m.from);
      p2l.Set(m.to, m.seg);
      zm.DecrementValidSegs(ZoneID(m.from));
      zm.IncrementValidSegs(m.zone);
    }

    /** The counters after a copy was lost. */
    method Abandon(m: Z.Move)
      requires Valid()
      modifies zm`zones
      ensures Valid() && Base() == Z.Abandon(old(Base()), m)
    {
      hide D.Sane, U.InOrder, Emulator.View, P.IncrementValidSegs, P.DecrementValidSegs;
      zm.IncrementValidSegs(m.zone);
      zm.DecrementValidSegs(m.zone);
    }

    /** Installs the copy unless the segment moved meanwhile; then the copy is counted as dead. */
    method Swap(m: Z.Move)
      requires Valid()
      modifies l2p.entries, p2l, zm
      ensures Valid() && Base() == Z.Swap(old(Base()), m)
    {
      hide D.Sane, U.InOrder, Emulator.View, Z.Settle, Z.Abandon;
      var won := l2p.CAS(m.seg, m.from, m.to);
      if won {
        Settle(m);
      } else {
        Abandon(m);
      }
    }

    method Fetch(victim: nat, off: nat) returns (r: Result<seq<D.Sector>>)
      requires Valid()
      ensures r == Z.Fetch(Base(), victim, off)
    {
      hide D.Sane, U.InOrder, Emulator.View, D.ReadSectors;
      if victim >= |zm.zones| { return Failure(NoSuchZone); }
      r := device.ReadSectors(zm.zones[victim].start + off, sectorsPerSeg);
    }

    /** Copies one segment of the victim to a fresh zone, unless it has moved meanwhile. */
    method MigrateSegment(victim: nat, seg: nat, off: nat) returns (r: Status)
      requires Valid()
      modifies l2p.entries, p2l, zm, device, device.buffers, journal
      ensures Valid() && (Base(), r) == Z.MigrateSegment(old(Base()), victim, seg, off)
    {
      hide D.Sane, U.InOrder, Emulator.View, Z.Fetch, Z.Claim, Z.Announce, Z.Copy, Z.Swap, ZoneID, OffsetSectors;
      var current := l2p.Get(seg);
      if IsUnmapped(current) {
        p2l.Delete(current);
        return Ok;
      }
      if ZoneID(current) != victim || OffsetSectors(current) != off { return Ok; }
      var data := Fetch(victim, off);
      if data.Failure? { return data.error; }
      var move := Claim(seg, current, data.value);
      if move.Failure? { return move.error; }
      Announce(move.value);
      r := Copy(move.value);
      if r != Ok { return; }
      Swap(move.value);
    }

    /** The live segments of a zone: those that the table still places where the reverse map has them. */
    method Gather(victim: nat, order: seq<nat>) returns (live: seq<(nat, nat)>)
      requires Valid()
      ensures live == Z.Gather(Base(), victim, order)
    {
      hide D.Sane, U.InOrder, Emulator.View, ZoneID, OffsetSectors;
      live := [];
      for i := 0 to |order|
        invariant live == Z.Gather(Base(), victim, order[..i])
      {
        assert order[..i + 1][..i] == order[..i];
        if (victim, order[i]) in p2l.entries {
          var seg := p2l.entries[(victim, order[i])];
          var phys := l2p.Get(seg);
          if !IsUnmapped(phys) && ZoneID(phys) == victim && OffsetSectors(phys) == order[i] {
            live := live + [(seg, order[i])];
          }
        }
      }
      assert order[..|order|] == order;
    }

    method MigrateAll(victim: nat, live: seq<(nat, nat)>) returns (r: Status)
      requires Valid()
      modifies l2p.entries, p2l, zm, device, device.buffers, journal
      ensures Valid() && (Base(), r) == Z.MigrateAll(old(Base()), victim, live)
    {
      hide D.Sane, U.InOrder, Emulator.View, Z.MigrateSegment;
      r := Ok;
      for i := 0 to |live|
        invariant Valid() && r == Ok && (Base(), Ok) == Z.MigrateAll(old(Base()), victim, live[..i])
      {
        assert live[..i + 1][..i] == live[..i];
        r := MigrateSegment(victim, live[i].0, live[i].1);
        if r != Ok {
          MigrationStops(old(Base()), victim, live, i + 1);
          return;
        }
      }
      assert live[..|live|] == live;
    }

    method Seal(victim: nat)
      requires Valid()
      modifies journal
      ensures Valid() && Base() == Z.Seal(old(Base()), victim)
    {
      hide D.Sane, U.InOrder, Emulator.View, L.LogZoneAction;
      journal.LogZoneAction(L.ZONE_RESET, victim);
      journal.GroupCommit();
    }

    method Reclaim(victim: nat) returns (r: Status)
      requires Valid()
      modifies zm, device, device.buffers
      ensures Valid() && (Base(), r) == Z.Reclaim(old(Base()), victim)
    {
      hide D.Sane, U.InOrder, Emulator.View, D.ResetZone, P.MarkEmpty;
      if victim >= |zm.zones| { return NoSuchZone; }
      r := device.ResetZone(zm.zones[victim].start);
      if r != Ok { return; }
      r := zm.MarkEmpty(victim);
    }

    lemma ValidReady()
      requires Valid()
      ensures |zm.device.zones| == |zm.device.buffers| && Z.Ready(Base())
    {
    }

    method Freeze(victim: nat)
      requires Valid()
      modifies zm
      ensures Valid() && Base() == Z.Freeze(old(Base()), victim)
    {
      hide D.Sane, U.InOrder, Emulator.View;
      zm.Freeze(victim);
    }

    method Unfreeze(victim: nat)
      requires Valid()
      modifies zm
      ensures Valid() && Base() == Z.Unfreeze(old(Base()), victim)
    {
      hide D.Sane, U.InOrder, Emulator.View;
      zm.Unfreeze(victim);
    }

    method Offsets(victim: nat) returns (order: seq<nat>)
      requires Valid()
      ensures C.Ordered(Base(), victim, order)
    {
      order := p2l.IterateZone(victim);
    }

    /** Moves the live segments of a victim, commits the reset to the journal, and resets the zone. */
    method CollectZone(victim: nat) returns (r: Status, ghost order: seq<nat>)
      requires Valid()
      modifies l2p.entries, p2l, zm, device, device.buffers, journal
      ensures Valid() && C.Ordered(old(Base()), victim, order)
      ensures (Base(), r) == Z.CollectZone(old(Base()), victim, order)
    {
      hide *;
      hide Valid, Base, C.Ordered;
      ValidReady();
      ghost var b0 := Base();
      Freeze(victim);
      ghost var b1 := Base();
      FrozenOrder(b0, victim);
      var offsets := Offsets(victim);
      order := offsets;
      var live := Gather(victim, offsets);
      r := MigrateAll(victim, live);
      ValidReady();
      ghost var b2 := Base();
      if r != Ok {
        Unfreeze(victim);
        ValidReady();
        CollectionFails(b0, victim, order);
        return;
      }
      Seal(victim);
      ValidReady();
      r := Reclaim(victim);
      ValidReady();
      Unfreeze(victim);
      CollectionEnds(b0, victim, order);
    }

    /** One background cycle; its outcome is not reported. */
    method RunCycle() returns (ghost r: Status, ghost order: seq<nat>)
      requires Valid()
      modifies l2p.entries, p2l, zm, device, device.buffers, journal
      ensures Valid() && (Base(), r) == Z.RunCycle(old(Base()), order)
      ensures P.SelectGCVictim(old(zm.View())).Success? ==>
                C.Ordered(old(Base()), P.SelectGCVictim(old(zm.View())).value, order)
    {
      hide D.Sane, U.InOrder, Emulator.View, Z.CollectZone, C.Ordered, P.SelectGCVictim;
      var victim := zm.SelectGCVictim();
      if victim.Failure? { return Ok, []; }
      r, order := CollectZone(victim.value);
    }

    /** What is left of an emergency after some collections. */
    ghost predicate Rest(start: Z.Base, orders: seq<seq<nat>>, b: Z.Base, tail: seq<seq<nat>>)
      requires Z.Ready(start) && Z.Ready(b)
    {
      Z.RunEmergencyGC(start, emergencyFreeZones, orders + tail) == Z.RunEmergencyGC(b, emergencyFreeZones, tail)
    }

    /** Collects until enough zones are free. The source goes on without limit; here it gives up after `attempts`
        collections, and before that only when more iteration orders would not change the outcome. */
    method RunEmergencyGC(attempts: nat) returns (r: Status, ghost orders: seq<seq<nat>>)
      requires Valid()
      modifies l2p.entries, p2l, zm, device, device.buffers, journal
      ensures Valid() && |orders| <= attempts
      ensures (Base(), r) == Z.RunEmergencyGC(old(Base()), emergencyFreeZones, orders)
      ensures |orders| < attempts ==>
                forall tail: seq<seq<nat>> :: Z.RunEmergencyGC(old(Base()), emergencyFreeZones, orders + tail) == (Base(), r)
    {
      hide D.Sane, U.InOrder, Emulator.View, Z.CollectZone, C.Ordered, P.SelectGCVictim, Base, Valid;
      ValidReady();
      ghost var start := Base();
      var spent := 0;
      orders := [];
      forall tail: seq<seq<nat>> ensures Rest(start, orders, Base(), tail) {
        assert orders + tail == tail;
      }
      var free := FreeZoneCount();
      while free < emergencyFreeZones
        invariant Valid() && |zm.device.zones| == |zm.device.buffers| && Z.Ready(Base())
        invariant |orders| == spent <= attempts && free == |Base().pool.zm.freeList|
        invariant forall tail: seq<seq<nat>> :: Rest(start, orders, Base(), tail)
        decreases attempts - spent
      {
        ghost var before, used := Base(), orders;
        if spent == attempts {
          assert Rest(start, used, before, []) && used + [] == used;
          return Unfinished, used;
        }
        spent := spent + 1;
        var victim := SelectVictim();
        if victim.Failure? {
          Finished(start, used, before, [], before, victim.error);
          return victim.error, used + [[]];
        }
        var collected;
        ghost var order;
        collected, order := CollectZone(victim.value);
        orders := used + [order];
        ValidReady();
        ghost var after := Base();
        if collected != Ok {
          Finished(start, used, before, order, after, collected);
          return collected, orders;
        }
        forall tail: seq<seq<nat>> ensures Rest(start, orders, after, tail) {
          assert Rest(start, used, before, [order] + tail);
          assert used + ([order] + tail) == orders + tail && ([order] + tail)[1..] == tail;
        }
        free := FreeZoneCount();
      }
      forall tail: seq<seq<nat>> ensures Z.RunEmergencyGC(start, emergencyFreeZones, orders + tail) == (Base(), Ok) {
        assert Rest(start, orders, Base(), tail);
      }
      assert orders + [] == orders;
      r := Ok;
    }

    /** A round that ends an emergency ends it whatever rounds would follow. */
    lemma Finished(start: Z.Base, used: seq<seq<nat>>, before: Z.Base, order: seq<nat>, after: Z.Base, r: Status)
      requires Z.Ready(start) && Z.Ready(before)
      requires forall tail: seq<seq<nat>> :: Rest(start, used, before, tail)
      requires |before.pool.zm.freeList| < emergencyFreeZones && r != Ok
      requires var victim := P.SelectGCVictim(before.pool.zm);
        (after, r) == if victim.Failure? then (before, victim.error) else Z.CollectZone(before, victim.value, order)
      ensures Z.RunEmergencyGC(start, emergencyFreeZones, used + [order]) == (after, r)
      ensures forall tail: seq<seq<nat>> :: Z.RunEmergencyGC(start, emergencyFreeZones, used + [order] + tail) == (after, r)
    {
      hide Z.CollectZone, P.SelectGCVictim;
      forall tail: seq<seq<nat>> ensures Z.RunEmergencyGC(start, emergencyFreeZones, used + [order] + tail) == (after, r) {
        assert used + ([order] + tail) == used + [order] + tail;
        assert Rest(start, used, before, [order] + tail);
      }
      assert used + [order] + [] == used + [order];
    }

    method FreeZoneCount() returns (n: nat)
      requires Valid()
      ensures n == |Base().pool.zm.freeList|
    {
      n := |zm.freeList|;
    }

    method SelectVictim() returns (victim: Result<nat>)
      requires Valid()
      ensures victim == P.SelectGCVictim(Base().pool.zm)
      ensures victim.Failure? ==> victim.error != Ok
    {
      VictimError(zm.View());
      victim := zm.SelectGCVictim();
    }
  }

  /** Freezing does not change what a zone holds. */
  lemma FrozenOrder(b: Z.Base, victim: nat)
    ensures forall order :: C.Ordered(Z.Freeze(b, victim), victim, order) == C.Ordered(b, victim, order)
    ensures Z.Ready(b) ==> Z.Ready(Z.Freeze(b, victim))
  {
  }

  lemma CollectionFails(b: Z.Base, victim: nat, order: seq<nat>)
    requires Z.Ready(b) && Z.Ready(Z.Freeze(b, victim))
    ensures var f := Z.Freeze(b, victim);
      var (m, r) := Z.MigrateAll(f, victim, Z.Gather(f, victim, order));
      r != Ok ==> Z.CollectZone(b, victim, order) == (Z.Unfreeze(m, victim), r)
  {
    hide Z.MigrateAll, Z.Gather;
  }

  lemma CollectionEnds(b: Z.Base, victim: nat, order: seq<nat>)
    requires Z.Ready(b) && Z.Ready(Z.Freeze(b, victim))
    ensures var f := Z.Freeze(b, victim);
      var (m, r) := Z.MigrateAll(f, victim, Z.Gather(f, victim, order));
      && Z.Ready(Z.Seal(m, victim))
      && var (c, done) := Z.Reclaim(Z.Seal(m, victim), victim);
         r == Ok ==> Z.CollectZone(b, victim, order) == (Z.Unfreeze(c, victim), done)
  {
    hide Z.MigrateAll, Z.Gather, Z.Reclaim, L.LogZoneAction;
  }

  lemma VictimError(zm: P.Manager)
    ensures P.SelectGCVictim(zm).Failure? ==> P.SelectGCVictim(zm).error == NoVictim
  {
    NoVictimAmong(zm, |zm.zones|);
  }

  lemma {:induction false} NoVictimAmong(zm: P.Manager, n: nat)
    requires n <= |zm.zones|
    ensures P.VictimAmong(zm, n).Failure? ==> P.VictimAmong(zm, n).error == NoVictim
  {
    if n > 0 { NoVictimAmong(zm, n - 1); }
  }

  /** A migration that fails ends the batch. */
  lemma {:induction false} MigrationStops(b: Z.Base, victim: nat, live: seq<(nat, nat)>, n: nat)
    requires Z.Ready(b) && n <= |live| && Z.MigrateAll(b, victim, live[..n]).1 != Ok
    ensures Z.MigrateAll(b, victim, live) == Z.MigrateAll(b, victim, live[..n])
  {
    hide Z.MigrateSegment;
    if n < |live| {
      assert live[..|live| - 1][..n] == live[..n];
      MigrationStops(b, victim, live[..|live| - 1], n);
    } else {
      assert live[..n] == live;
    }
  }
}
