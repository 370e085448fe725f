/** The translation layer as an object over its tables, buffer, zone manager, collector, device and journal:
    the loops over segments of internal/ztl/ztl.go, each proved to compute the operation on values. */
module Layer {
  import opened Arith
  import opened Errors
  import opened Segment
  import opened EmulatorClass
  import opened ZoneManagerClass
  import opened Tables
  import opened WriteBufferClass
  import opened Wal
  import opened Collector
  import Z = Ztl
  import P = Pool
  import L = Log
  import D = Device
  import U = Recency

  /** What a read has so far, and what reading the rest gives. */
  function Then(data: seq<D.Sector>, rest: Result<seq<D.Sector>>): Result<seq<D.Sector>> {
    match rest
    case Failure(e) => Failure(e)
    case Success(more) => Success(data + more)
  }

  /** A loop over the segments of a request has handled it up to `pos` and comes to segment `seg`. */
  ghost predicate Reached(lba: nat, end: nat, pos: nat, seg: nat, spp: nat) {
    && spp > 0 && lba < end && lba <= pos <= end
    && if pos == end then seg == (end - 1) / spp + 1 else pos / spp == seg && (pos == lba || pos == seg * spp)
  }

  lemma ReachedStart(lba: nat, end: nat, spp: nat)
    requires spp > 0 && lba < end
    ensures Reached(lba, end, lba, LBAToSegmentID(lba, spp), spp)
  {
  }

  /** The loop has segments left exactly while the request is not done. */
  lemma ReachedMore(lba: nat, end: nat, pos: nat, seg: nat, spp: nat)
    requires Reached(lba, end, pos, seg, spp)
    ensures spp > 0 && lba <= pos <= end
    ensures seg <= LBAToSegmentID(end - 1, spp) <==> pos < end
    ensures seg <= LBAToSegmentID(end - 1, spp) + 1
  {
    if pos < end { SegmentBounds(pos, end, seg, spp); }
  }

  lemma SegmentBounds(pos: nat, end: nat, seg: nat, spp: nat)
    requires spp > 0 && pos < end && pos / spp == seg
    ensures seg * spp <= pos < seg * spp + spp && seg <= (end - 1) / spp
    ensures seg == (end - 1) / spp <==> end <= seg * spp + spp
  {
    DivBounds(pos, spp);
    DivBounds(end - 1, spp);
    var last := (end - 1) / spp;
    if seg > last { MulGap(last, seg, spp); }
    if seg < last { MulGap(seg, last, spp); }
  }

  /** The part of a request that overlaps segment `seg`. */
  method PartOf(lba: nat, end: nat, seg: nat, spp: nat, ghost pos: nat) returns (from: nat, to: nat)
    requires Reached(lba, end, pos, seg, spp) && pos < end
    ensures from == pos && from < to <= end && to - from == Z.Piece(pos, end - pos, spp) && seg == LBAToSegmentID(from, spp)
    ensures Reached(lba, end, to, seg + 1, spp)
  {
    SegmentBounds(pos, end, seg, spp);
    var segStart, segEnd := seg * spp, seg * spp + spp;
    from := if lba > segStart then lba else segStart;
    to := if end < segEnd then end else segEnd;
    PieceIs(pos, end, seg, spp, segStart);
    ReachedNext(lba, end, pos, to, seg, spp, segStart);
    hide Reached, Z.Piece;
  }

  lemma ReachedNext(lba: nat, end: nat, pos: nat, to: nat, seg: nat, spp: nat, base: nat)
    requires Reached(lba, end, pos, seg, spp) && pos < end && base == seg * spp && base <= pos < base + spp
    requires to == if end < base + spp then end else base + spp
    ensures Reached(lba, end, to, seg + 1, spp)
  {
    SegmentBounds(pos, end, seg, spp);
    assert base + spp == (seg + 1) * spp;
    DivMod(seg + 1, 0, spp);
  }

  lemma PieceIs(pos: nat, end: nat, seg: nat, spp: nat, base: nat)
    requires spp > 0 && pos < end && pos / spp == seg && base == seg * spp && base <= pos < base + spp
    ensures Z.Piece(pos, end - pos, spp) == (if end < base + spp then end else base + spp) - pos
  {
  }

  class ZTL {
    const l2p: L2PTable
    const p2l: P2LMap
    const buf: WriteBuffer
    const zm: ZoneManager
    const gc: GCEngine
    const device: Emulator
    const journal: Journal
    const sectorsPerSeg: nat
    var currentWriteZone: nat
    var currentZoneOpen: bool

    ghost predicate Wired()
    {
      && gc.l2p == l2p && gc.p2l == p2l && gc.zm == zm && zm.device == device && gc.journal == journal
      && gc.sectorsPerSeg == sectorsPerSeg
    }

    ghost predicate Valid()
      reads gc.l2p.entries, gc.p2l, gc.zm, gc.zm.device, gc.zm.device.buffers, gc.journal
    {
      Wired() && gc.Valid()
    }

    ghost function State(): Z.Ztl
      reads this, buf, gc.l2p.entries, gc.p2l, gc.zm, gc.zm.device, gc.zm.device.buffers, gc.journal
      requires Valid()
    {
      Z.Ztl(gc.Base(), buf.buffers, currentWriteZone, currentZoneOpen)
    }

    constructor (gc: GCEngine)
      requires gc.Valid()
      ensures Valid() && this.gc == gc && fresh(buf)
      ensures State() == Z.Ztl(gc.Base(), map[], 0, false)
    {
      var buffer := new WriteBuffer();
      l2p, p2l, zm, buf, this.gc := gc.l2p, gc.p2l, gc.zm, buffer, gc;
      device, journal, sectorsPerSeg := gc.zm.device, gc.journal, gc.sectorsPerSeg;
      currentWriteZone, currentZoneOpen := 0, false;
    }

    /** Whether the current write zone takes one more segment. */
    method HasRoom() returns (room: bool)
      requires Valid()
      ensures room <==> State().curOpen && Z.Remaining(State()) >= sectorsPerSeg
    {
      hide D.Sane, U.InOrder, Emulator.View;
      if !currentZoneOpen || currentWriteZone >= |zm.zones| { return false; }
      var info := zm.zones[currentWriteZone];
      var remaining := info.start + info.size - info.wp;
      if remaining < 0 { remaining := remaining + TWO_64; }
      room := remaining >= sectorsPerSeg;
    }

    /** Allocates a zone and makes it the write zone. */
    method TakeZone() returns (r: Result<nat>)
      requires Valid()
      modifies this, zm, device, journal
      ensures Valid() && TookZone(old(State()), State(), r)
    {
      hide D.Sane, U.InOrder, Emulator.View, P.AllocateFree, L.LogZoneAction;
      currentZoneOpen := false;
      r := zm.AllocateFree();
      if r.Failure? { return; }
      journal.LogZoneAction(L.ZONE_OPEN, r.value);
      currentWriteZone := r.value;
      currentZoneOpen := true;
    }

    method GetWriteZone() returns (r: Result<nat>)
      requires Valid()
      modifies this, zm, device, journal
      ensures Valid() && (State(), r) == Z.GetWriteZone(old(State()))
    {
      hide *;
      hide Valid, State, Wired, TookZone;
      Views();
      ghost var s := State();
      var room := HasRoom();
      if room {
        KeptZone(s);
        r := Success(currentWriteZone);
      } else {
        r := TakeZone();
        TakenZone(s, State(), r);
      }
    }

    /** The reverse map and the counters after a segment moved. */
    method Relocate(seg: nat, oldPhys: PhysAddr, newPhys: PhysAddr, zone: nat)
      requires Valid()
      modifies p2l, zm`zones
      ensures Valid() && State() == old(State()).(base := Z.Relocate(old(State()).base, seg, oldPhys, newPhys, zone))
    {
      hide D.Sane, U.InOrder, Emulator.View, P.IncrementValidSegs, Z.Forget, ZoneID, OffsetSectors;
      if !IsUnmapped(oldPhys) { Forget(oldPhys); }
      p2l.Set(newPhys, seg);
      zm.IncrementValidSegs(zone);
    }

    method LogAndSet(seg: nat, oldPhys: PhysAddr, newPhys: PhysAddr) returns (r: Status)
      requires Valid()
      modifies l2p.entries, journal
      ensures Valid() && r == (if seg < |old(State()).base.l2p| then Ok else NoSuchSegment)
      ensures var b := old(State()).base;
        State() == old(State()).(base := b.(log := L.LogL2PUpdate(b.log, seg, oldPhys, newPhys),
                                            l2p := if seg < |b.l2p| then b.l2p[seg := newPhys] else b.l2p))
    {
      hide D.Sane, U.InOrder, Emulator.View, L.LogL2PUpdate;
      journal.LogL2PUpdate(seg, oldPhys, newPhys);
      r := l2p.Set(seg, newPhys);
    }

    method Place(zone: nat, data: seq<D.Sector>, wp: nat)
      requires Valid()
      modifies zm`zones, buf
      ensures Valid()
      ensures var s := old(State());
        State() == s.(base := s.base.(pool := s.base.pool.(zm := P.UpdateWritePointer(s.base.pool.zm, zone, wp + |data|))),
                      bufs := Z.BufferAdd(s.bufs, zone, data, wp))
    {
      hide D.Sane, U.InOrder, Emulator.View, P.UpdateWritePointer, Z.BufferAdd;
      zm.UpdateWritePointer(zone, wp + |data|);
      buf.Add(zone, data, wp);
    }

    /** What a read has to know about the state. */
    lemma ReadyToRead()
      requires Valid()
      ensures Z.Ready(State().base) && State().base.spp == sectorsPerSeg
    {
      Views();
    }

    lemma Views()
      requires Valid()
      ensures Wired() && Z.Ready(State().base)
      ensures State().base.pool.zm == zm.View() && State().base.l2p == l2p.View() && State().base.spp == sectorsPerSeg
      ensures State().base.pool.zm.zones == zm.zones
      ensures State().cur == currentWriteZone && State().bufs == buf.buffers && State().base.pool.dev == device.View()
    {
    }

    /** Logs, then updates the table, the reverse map, the counters, the pointer and the buffer. */
    method WriteInto(zone: nat, seg: nat, data: seq<D.Sector>) returns (r: Status)
      requires Valid()
      modifies l2p.entries, p2l, zm, buf, journal
      ensures Valid() && (State(), r) == Z.WriteInto(old(State()), zone, seg, data)
    {
      hide *;
      hide Valid, State, Wired;
      Views();
      ghost var s := State();
      IntoParts(s, zone, seg, data);
      if zone >= |zm.zones| { return NoSuchZone; }
      var wp := zm.zones[zone].wp;
      var newPhys := Z.NextAddr(zm.View(), zone);
      var oldPhys := l2p.Get(seg);
      r := LogAndSet(seg, oldPhys, newPhys);
      Views();
      if r != Ok { return; }
      Relocate(seg, oldPhys, newPhys, zone);
      Views();
      Place(zone, data, wp);
      Views();
    }

    method FlushIfFull(zone: nat) returns (r: Status)
      requires Valid() && zone < |zm.zones|
      modifies this, buf, zm, device, device.buffers
      ensures Valid() && (State(), r) == Z.FlushIfFull(old(State()), zone)
    {
      hide D.Sane, U.InOrder, Emulator.View, Z.FlushZone;
      var info := zm.zones[zone];
      if info.wp < info.start + info.size { return Ok; }
      r := buf.Flush(zone, zm);
      if r != Ok { return; }
      currentZoneOpen := false;
    }

    method WriteSegment(seg: nat, data: seq<D.Sector>) returns (r: Status)
      requires Valid()
      modifies this, l2p.entries, p2l, zm, buf, journal, device, device.buffers
      ensures Valid() && (State(), r) == Z.WriteSegment(old(State()), seg, data)
    {
      hide *;
      hide Valid, State, Wired;
      Views();
      ghost var s0 := State();
      var zone := GetWriteZone();
      Views();
      ghost var s1 := State();
      if zone.Failure? {
        NoZone(s0, seg, data);
        return zone.error;
      }
      r := WriteInto(zone.value, seg, data);
      Views();
      ghost var s2 := State();
      SegmentWritten(s0, seg, data);
      if r != Ok { return; }
      ZoneExists(zone.value);
      r := FlushIfFull(zone.value);
      Views();
    }

    /** The part of a read in one segment: zeros, buffered sectors, or sectors of the device. */
    method ReadPart(seg: nat, readStart: nat, readCount: nat) returns (r: Result<seq<D.Sector>>)
      requires Valid() && sectorsPerSeg > 0 && seg == LBAToSegmentID(readStart, sectorsPerSeg)
      ensures r == Z.ReadPiece(State(), readStart, readCount)
    {
      Views();
      DivBounds(readStart, sectorsPerSeg);
      hide D.Sane, U.InOrder, Emulator.View, State, Wired, D.ReadSectors, Z.Lookup, ZoneID, OffsetSectors;
      var phys := l2p.Get(seg);
      if IsUnmapped(phys) { return Success(D.Zeros(readCount)); }
      var z := ZoneID(phys);
      if z >= |zm.zones| { return Failure(NoSuchZone); }
      var at := zm.zones[z].start + OffsetSectors(phys) + (readStart - seg * sectorsPerSeg);
      var buffered := buf.Lookup(z, at, readCount);
      if buffered.Success? { return buffered; }
      r := device.ReadSectors(at, readCount);
    }

    /** Reads segment `seg`'s part of a request of which `done` is read. */
    method ReadNextPart(lba: nat, count: nat, seg: nat, ghost done: seq<D.Sector>, ghost s: Z.Ztl)
      returns (part: Result<seq<D.Sector>>)
      requires Valid() && s == State() && Z.Ready(s.base) && |done| < count
      requires Reached(lba, lba + count, lba + |done|, seg, s.base.spp)
      ensures ReadOn(s, lba, count, seg, done, part)
    {
      Views();
      hide *;
      hide Valid, State, Wired, Reached;
      ReachedMore(lba, lba + count, lba + |done|, seg, sectorsPerSeg);
      var readStart, readEnd := PartOf(lba, lba + count, seg, sectorsPerSeg, lba + |done|);
      part := ReadPart(seg, readStart, readEnd - readStart);
      ReadsOn(s, lba, count, seg, done, part);
    }

    method Read(lba: nat, count: nat) returns (r: Result<seq<D.Sector>>)
      requires Valid()
      ensures r == Z.Read(State(), lba, count)
    {
      ReadyToRead();
      ghost var s := State();
      hide *;
      hide Valid, State, Wired, Reached, ReadSoFar, ReadOn;
      ReadStart(s, lba, count);
      if count == 0 { return Success([]); }
      var segID := LBAToSegmentID(lba, sectorsPerSeg);
      var endSeg := LBAToSegmentID(lba + count - 1, sectorsPerSeg);
      var result := [];
      while segID <= endSeg
        invariant ReadSoFar(s, lba, count, segID, result)
        invariant segID <= endSeg <==> |result| < count
        decreases count - |result|
      {
        ReadSoFarIs(s, lba, count, segID, result);
        var part := ReadNextPart(lba, count, segID, result, s);
        ReadOnIs(s, lba, count, segID, result, part);
        if part.Failure? { return part; }
        result := result + part.value;
        segID := segID + 1;
      }
      ReadAll(s, lba, count, segID, result);
      r := Success(result);
    }

    /** Writes segment `seg`'s part of a request of which `done` sectors are written. */
    method WritePart(lba: nat, data: seq<D.Sector>, seg: nat, done: nat) returns (r: Status, n: nat)
      requires Valid() && done < |data| && Reached(lba, lba + |data|, lba + done, seg, sectorsPerSeg)
      modifies this, l2p.entries, p2l, zm, buf, journal, device, device.buffers
      ensures Valid() && 0 < n <= |data| - done && sectorsPerSeg > 0
      ensures n == Z.Piece(lba + done, |data| - done, sectorsPerSeg) && seg == LBAToSegmentID(lba + done, sectorsPerSeg)
      ensures Reached(lba, lba + |data|, lba + done + n, seg + 1, sectorsPerSeg)
      ensures old(State()).base.spp == State().base.spp == sectorsPerSeg
      ensures (State(), r) == Z.WriteSegment(old(State()), seg, data[done..done + n])
    {
      hide *;
      hide Valid, State, Wired, Reached;
      Views();
      ReachedMore(lba, lba + |data|, lba + done, seg, sectorsPerSeg);
      var writeStart, writeEnd := PartOf(lba, lba + |data|, seg, sectorsPerSeg, lba + done);
      n := writeEnd - writeStart;
      r := WriteSegment(seg, data[done..done + n]);
      Views();
    }

    /** The same, as a step of the whole write from state `s`. */
    method WriteNextPart(lba: nat, data: seq<D.Sector>, seg: nat, done: nat, ghost s: Z.Ztl) returns (r: Status, n: nat)
      requires Valid() && done < |data| && WrittenSoFar(s, lba, data, seg, done, State())
      modifies this, l2p.entries, p2l, zm, buf, journal, device, device.buffers
      ensures Valid() && Z.Ready(s.base) && 0 < n <= |data| - done
      ensures r != Ok ==> Z.WriteFrom(s, lba, data) == (State(), r)
      ensures r == Ok ==> WrittenSoFar(s, lba, data, seg + 1, done + n, State())
      ensures seg + 1 <= LBAToSegmentID(lba + |data| - 1, s.base.spp) <==> done + n < |data|
    {
      hide *;
      hide Valid, State, Wired, Reached, WrittenSoFar;
      Views();
      ghost var before := State();
      WrittenSoFarIs(s, lba, data, seg, done, before);
      r, n := WritePart(lba, data, seg, done);
      Views();
      WritesOn(before, lba, data, seg, done, n, State(), r);
      WriteOnIs(s, lba, data, seg, done, before, n, State(), r);
    }

    /** Writes segment by segment, up to the first error. */
    method WriteSegments(lba: nat, data: seq<D.Sector>) returns (r: Status)
      requires Valid() && data != []
      modifies this, l2p.entries, p2l, zm, buf, journal, device, device.buffers
      ensures Valid() && (State(), r) == Z.WriteFrom(old(State()), lba, data)
    {
      hide *;
      hide Valid, State, Wired, WrittenSoFar;
      Views();
      ghost var s := State();
      WriteStart(s, lba, data);
      var segID := LBAToSegmentID(lba, sectorsPerSeg);
      var endSeg := LBAToSegmentID(lba + |data| - 1, sectorsPerSeg);
      var done := 0;
      while segID <= endSeg
        invariant Valid() && done <= |data|
        invariant WrittenSoFar(s, lba, data, segID, done, State())
        invariant segID <= endSeg <==> done < |data|
        decreases |data| - done
      {
        var written, n := WriteNextPart(lba, data, segID, done, s);
        if written != Ok { return written; }
        done := done + n;
        segID := segID + 1;
      }
      WroteAll(s, lba, data, segID, done, State());
      r := Ok;
    }

    method Commit()
      requires Valid()
      modifies journal
      ensures Valid() && State() == old(State()).(base := old(State()).base.(log := L.GroupCommit(old(State()).base.log)))
    {
      hide D.Sane, U.InOrder, Emulator.View, L.GroupCommit;
      journal.GroupCommit();
    }

    /** Collects first when free zones are short. */
    method MakeFree(attempts: nat) returns (r: Status, ghost orders: seq<seq<nat>>)
      requires Valid()
      modifies l2p.entries, p2l, zm, device, device.buffers, journal
      ensures Valid() && |orders| <= attempts
      ensures var (b, cleared) := Z.RunEmergencyGC(old(State()).base, gc.emergencyFreeZones, orders);
        r == cleared && State() == old(State()).(base := b)
    {
      hide D.Sane, U.InOrder, Emulator.View, Z.CollectZone, P.SelectGCVictim;
      r, orders := Ok, [];
      if |zm.freeList| < gc.emergencyFreeZones {
        r, orders := gc.RunEmergencyGC(attempts);
      }
    }

    method Write(lba: nat, data: seq<D.Sector>, attempts: nat) returns (r: Status, ghost orders: seq<seq<nat>>)
      requires Valid()
      modifies this, l2p.entries, p2l, zm, buf, journal, device, device.buffers
      ensures Valid() && |orders| <= attempts
      ensures (State(), r) == Z.Write(old(State()), lba, data, gc.emergencyFreeZones, orders)
    {
      hide *;
      hide Valid, State, Wired;
      Views();
      ghost var s := State();
      if data == [] {
        NothingWritten(s, lba, gc.emergencyFreeZones);
        return Ok, [];
      }
      r, orders := MakeFree(attempts);
      Views();
      WriteParts(s, lba, data, gc.emergencyFreeZones, orders);
      if r != Ok { return; }
      r := WriteSegments(lba, data);
      Views();
      if r != Ok { return; }
      Commit();
      Views();
    }

    /** Flushes every buffered zone, then commits the journal if all went well. */
    method Flush() returns (r: Status, ghost order: seq<nat>)
      requires Valid()
      modifies this, buf, zm, device, device.buffers, journal
      ensures Valid() && (forall z :: z in old(buf.buffers) ==> z in order)
      ensures (State(), r) == Z.Flush(old(State()), order)
    {
      hide D.Sane, U.InOrder, Emulator.View, Z.FlushEach, L.GroupCommit;
      r, order := buf.FlushAll(zm);
      if r != Ok { return; }
      Commit();
    }

    method UnmapSegment(seg: nat)
      requires Valid()
      modifies l2p.entries, p2l, zm, journal
      ensures Valid() && State() == old(State()).(base := Z.UnmapSegment(old(State()).base, seg))
    {
      hide D.Sane, U.InOrder, Emulator.View, L.LogL2PUpdate, Z.Forget;
      var oldPhys := l2p.Get(seg);
      if IsUnmapped(oldPhys) { return; }
      var stored := LogAndSet(seg, oldPhys, UNMAPPED);
      Forget(oldPhys);
    }

    method Forget(phys: PhysAddr)
      requires Valid()
      modifies p2l, zm`zones
      ensures Valid() && State() == old(State()).(base := Z.Forget(old(State()).base, phys))
    {
      hide D.Sane, U.InOrder, Emulator.View, P.DecrementValidSegs, ZoneID, OffsetSectors;
      p2l.Delete(phys);
      zm.DecrementValidSegs(ZoneID(phys));
    }

    /** Unmaps segment by segment; the last address is computed in 64 bits. */
    method Unmap(lba: nat, count: nat)
      requires Valid()
      modifies l2p.entries, p2l, zm, journal
      ensures Valid() && State() == Z.Unmap(old(State()), lba, count)
    {
      hide *;
      hide Valid, State, Wired;
      Views();
      ghost var s := State();
      var startSeg := LBAToSegmentID(lba, sectorsPerSeg);
      var endSeg := LBAToSegmentID(Z.LastLBA(lba, count), sectorsPerSeg);
      UnmapStart(s, startSeg);
      var segID := startSeg;
      while segID <= endSeg
        invariant Valid() && startSeg <= segID && (segID <= endSeg + 1 || segID == startSeg)
        invariant UnmappedTo(s, startSeg, segID, State())
      {
        UnmapStep(s, startSeg, segID, State());
        UnmapSegment(segID);
        segID := segID + 1;
      }
      UnmapDone(s, lba, count, startSeg, segID, endSeg, State());
    }

    lemma ZoneExists(zone: nat)
      requires Valid() && zone < |State().base.pool.zm.zones|
      ensures zone < |zm.zones|
    {
    }
  }

  /** A layer over a device, with nothing mapped and nothing buffered, unless the device is too small. */
  method New(device: Emulator, journal: Journal, sectorsPerSeg: nat, emergencyFreeZones: int) returns (r: Result<ZTL>)
    requires device.Valid() && journal.Valid()
    ensures sectorsPerSeg == 0 || device.Capacity() / sectorsPerSeg == 0 <==> r == Failure(BadConfig)
    ensures r.Failure? ==> r.error == BadConfig
    ensures r.Success? ==>
              var z := r.value;
              && z.Valid() && z.device == device && z.journal == journal && z.gc.emergencyFreeZones == emergencyFreeZones
              && z.State() == Z.Ztl(StartBase(device.View(), journal.log, sectorsPerSeg), map[], 0, false)
  {
    if sectorsPerSeg == 0 { return Failure(BadConfig); }
    var totalSegments := device.Capacity() / sectorsPerSeg;
    if totalSegments == 0 { return Failure(BadConfig); }
    hide D.Sane, U.InOrder, Emulator.View, StartBase, P.Listed, Z.Ready, L.Unmapped, P.Report;
    var gc := NewCollector(device, journal, sectorsPerSeg, emergencyFreeZones);
    var z := new ZTL(gc);
    r := Success(z);
  }

  ghost function StartBase(d: D.Device, log: L.Log, spp: nat): Z.Base
    requires spp > 0
  {
    Z.Base(L.Unmapped(d.Capacity() / spp), map[], P.Pool(P.Report(d), d), log, spp)
  }

  method NewManager(device: Emulator) returns (zm: ZoneManager)
    requires device.Valid()
    ensures zm.Valid() && fresh(zm) && zm.device == device && zm.View() == P.Report(device.View())
  {
    hide D.Sane, U.InOrder, Emulator.View, P.Report, P.Listed;
    zm := new ZoneManager(device);
    zm.Initialize();
  }

  method NewCollector(device: Emulator, journal: Journal, sectorsPerSeg: nat, emergencyFreeZones: int) returns (gc: GCEngine)
    requires device.Valid() && journal.Valid() && sectorsPerSeg > 0
    ensures gc.Valid() && gc.zm.device == device && gc.journal == journal && gc.sectorsPerSeg == sectorsPerSeg
    ensures gc.emergencyFreeZones == emergencyFreeZones
    ensures gc.Base() == StartBase(device.View(), journal.log, sectorsPerSeg)
  {
    assert device.View().Capacity() == device.Capacity();
    hide D.Sane, D.Shaped, D.SaneZone, U.InOrder, Emulator.View, P.Report, P.Listed, Z.Ready, D.Device.Capacity;
    var l2p := new L2PTable(device.Capacity() / sectorsPerSeg);
    assert l2p.View() == L.Unmapped(device.Capacity() / sectorsPerSeg);
    var p2l := new P2LMap();
    var zm := NewManager(device);
    gc := new GCEngine(l2p, p2l, zm, journal, sectorsPerSeg, emergencyFreeZones);
  }

  /** An unmap of the segments from `first` has come to segment `seg` in state `t`. */
  ghost predicate UnmappedTo(s: Z.Ztl, first: nat, seg: nat, t: Z.Ztl) {
    Z.Ready(s.base) && t == s.(base := Z.UnmapRange(s.base, first, seg))
  }

  lemma UnmapStart(s: Z.Ztl, first: nat)
    requires Z.Ready(s.base)
    ensures UnmappedTo(s, first, first, s)
  {
  }

  lemma UnmapStep(s: Z.Ztl, first: nat, seg: nat, t: Z.Ztl)
    requires UnmappedTo(s, first, seg, t) && first <= seg
    ensures Z.Ready(t.base) && UnmappedTo(s, first, seg + 1, t.(base := Z.UnmapSegment(t.base, seg)))
  {
    hide Z.UnmapSegment;
  }

  lemma UnmapDone(s: Z.Ztl, lba: nat, count: nat, first: nat, seg: nat, last: nat, t: Z.Ztl)
    requires UnmappedTo(s, first, seg, t) && first <= seg && last < seg && (seg <= last + 1 || seg == first)
    requires first == LBAToSegmentID(lba, s.base.spp) && last == LBAToSegmentID(Z.LastLBA(lba, count), s.base.spp)
    ensures t == Z.Unmap(s, lba, count)
  {
    hide Z.UnmapSegment, LBAToSegmentID, Z.LastLBA;
  }

  lemma NothingWritten(s: Z.Ztl, lba: nat, reserve: int)
    requires Z.Ready(s.base)
    ensures Z.Write(s, lba, [], reserve, []) == (s, Ok)
  {
  }

  /** A write is the emergency collection, the segments, and the commit, up to the first that fails. */
  lemma WriteParts(s: Z.Ztl, lba: nat, data: seq<D.Sector>, reserve: int, orders: seq<seq<nat>>)
    requires Z.Ready(s.base) && data != []
    ensures var (b, cleared) := Z.RunEmergencyGC(s.base, reserve, orders);
      var g := s.(base := b);
      && Z.Ready(b)
      && (cleared != Ok ==> Z.Write(s, lba, data, reserve, orders) == (g, cleared))
      && var (t, r) := Z.WriteFrom(g, lba, data);
        cleared == Ok ==>
          Z.Write(s, lba, data, reserve, orders) ==
          if r != Ok then (t, r) else (t.(base := t.base.(log := L.GroupCommit(t.base.log))), Ok)
  {
    hide Z.RunEmergencyGC, Z.WriteFrom;
  }

  /** A write that has come to segment `seg` in state `t`: what is left to write completes it. */
  ghost predicate WrittenSoFar(s: Z.Ztl, lba: nat, data: seq<D.Sector>, seg: nat, done: nat, t: Z.Ztl) {
    && Z.Ready(s.base) && Z.Ready(t.base) && t.base.spp == s.base.spp
    && done <= |data| && Reached(lba, lba + |data|, lba + done, seg, s.base.spp)
    && Z.WriteFrom(s, lba, data) == Z.WriteFrom(t, lba + done, data[done..])
  }

  /** What writing one more part, of `n` sectors, means for the whole. */
  ghost predicate WriteOn(s: Z.Ztl, lba: nat, data: seq<D.Sector>, seg: nat, done: nat, n: nat, t: Z.Ztl, r: Status)
    requires done < |data|
  {
    && Z.Ready(s.base) && Z.Ready(t.base) && t.base.spp == s.base.spp
    && 0 < n <= |data| - done && Reached(lba, lba + |data|, lba + done + n, seg + 1, s.base.spp)
    && Z.WriteFrom(s, lba + done, data[done..]) ==
       if r != Ok then (t, r) else Z.WriteFrom(t, lba + done + n, data[done + n..])
  }

  lemma WriteStart(s: Z.Ztl, lba: nat, data: seq<D.Sector>)
    requires Z.Ready(s.base) && data != []
    ensures WrittenSoFar(s, lba, data, LBAToSegmentID(lba, s.base.spp), 0, s)
    ensures LBAToSegmentID(lba, s.base.spp) <= LBAToSegmentID(lba + |data| - 1, s.base.spp)
  {
    hide Z.WriteFrom;
    assert data[0..] == data;
    ReachedStart(lba, lba + |data|, s.base.spp);
    ReachedMore(lba, lba + |data|, lba, lba / s.base.spp, s.base.spp);
  }

  lemma WrittenSoFarIs(s: Z.Ztl, lba: nat, data: seq<D.Sector>, seg: nat, done: nat, t: Z.Ztl)
    requires WrittenSoFar(s, lba, data, seg, done, t)
    ensures Z.Ready(s.base) && Z.Ready(t.base) && Reached(lba, lba + |data|, lba + done, seg, t.base.spp)
  {
  }

  lemma WriteOnIs(s: Z.Ztl, lba: nat, data: seq<D.Sector>, seg: nat, done: nat, t: Z.Ztl, n: nat, u: Z.Ztl, r: Status)
    requires WrittenSoFar(s, lba, data, seg, done, t) && done < |data| && WriteOn(t, lba, data, seg, done, n, u, r)
    ensures r != Ok ==> Z.WriteFrom(s, lba, data) == (u, r)
    ensures 0 < n <= |data| - done
    ensures r == Ok ==> WrittenSoFar(s, lba, data, seg + 1, done + n, u)
    ensures seg + 1 <= LBAToSegmentID(lba + |data| - 1, s.base.spp) <==> done + n < |data|
  {
    hide Z.WriteFrom, Reached, LBAToSegmentID;
    ReachedMore(lba, lba + |data|, lba + done + n, seg + 1, s.base.spp);
  }

  lemma WroteAll(s: Z.Ztl, lba: nat, data: seq<D.Sector>, seg: nat, done: nat, t: Z.Ztl)
    requires WrittenSoFar(s, lba, data, seg, done, t) && done >= |data|
    ensures Z.WriteFrom(s, lba, data) == (t, Ok)
  {
    assert data[done..] == [];
  }

  lemma WritesOn(s: Z.Ztl, lba: nat, data: seq<D.Sector>, seg: nat, done: nat, n: nat, t: Z.Ztl, r: Status)
    requires Z.Ready(s.base) && done < |data| && n == Z.Piece(lba + done, |data| - done, s.base.spp)
    requires seg == LBAToSegmentID(lba + done, s.base.spp) && 0 < n <= |data| - done
    requires (t, r) == Z.WriteSegment(s, seg, data[done..done + n])
    requires Reached(lba, lba + |data|, lba + done + n, seg + 1, s.base.spp)
    ensures WriteOn(s, lba, data, seg, done, n, t, r)
  {
    hide Z.WriteSegment, Z.Piece, Reached, LBAToSegmentID;
    var rest := data[done..];
    assert rest[..n] == data[done..done + n] && rest[n..] == data[done + n..];
  }

  /** A read that has come to segment `seg` with `result`: what is left to read completes it. */
  ghost predicate ReadSoFar(s: Z.Ztl, lba: nat, count: nat, seg: nat, result: seq<D.Sector>) {
    && Z.Ready(s.base) && |result| <= count && Reached(lba, lba + count, lba + |result|, seg, s.base.spp)
    && Z.Read(s, lba, count) == Then(result, Z.Read(s, lba + |result|, count - |result|))
  }

  /** What reading one more part means for the whole. */
  ghost predicate ReadOn(s: Z.Ztl, lba: nat, count: nat, seg: nat, done: seq<D.Sector>, part: Result<seq<D.Sector>>)
    requires Z.Ready(s.base) && |done| < count
  {
    var whole := Then(done, Z.Read(s, lba + |done|, count - |done|));
    match part
    case Failure(_) => whole == part
    case Success(data) =>
      && 0 < |data| <= count - |done| && Reached(lba, lba + count, lba + |done| + |data|, seg + 1, s.base.spp)
      && whole == Then(done + data, Z.Read(s, lba + |done| + |data|, count - |done| - |data|))
  }

  lemma ReadStart(s: Z.Ztl, lba: nat, count: nat)
    requires Z.Ready(s.base)
    ensures count == 0 ==> Z.Read(s, lba, count) == Success([])
    ensures count > 0 ==>
              && ReadSoFar(s, lba, count, LBAToSegmentID(lba, s.base.spp), [])
              && LBAToSegmentID(lba, s.base.spp) <= LBAToSegmentID(lba + count - 1, s.base.spp)
  {
    hide Z.ReadPiece;
    if count > 0 {
      var r := Z.Read(s, lba, count);
      if r.Success? { assert [] + r.value == r.value; }
      ReachedStart(lba, lba + count, s.base.spp);
      ReachedMore(lba, lba + count, lba, lba / s.base.spp, s.base.spp);
    }
  }

  lemma ReadSoFarIs(s: Z.Ztl, lba: nat, count: nat, seg: nat, result: seq<D.Sector>)
    requires ReadSoFar(s, lba, count, seg, result)
    ensures Z.Ready(s.base) && Reached(lba, lba + count, lba + |result|, seg, s.base.spp)
  {
  }

  lemma ReadOnIs(s: Z.Ztl, lba: nat, count: nat, seg: nat, done: seq<D.Sector>, part: Result<seq<D.Sector>>)
    requires ReadSoFar(s, lba, count, seg, done) && |done| < count && ReadOn(s, lba, count, seg, done, part)
    ensures part.Failure? ==> Z.Read(s, lba, count) == part
    ensures part.Success? ==>
              && ReadSoFar(s, lba, count, seg + 1, done + part.value)
              && |part.value| > 0
              && (seg + 1 <= LBAToSegmentID(lba + count - 1, s.base.spp) <==> |done + part.value| < count)
  {
    hide Z.Read, Reached, LBAToSegmentID;
    if part.Success? {
      ReachedMore(lba, lba + count, lba + |done| + |part.value|, seg + 1, s.base.spp);
    }
  }

  lemma ReadAll(s: Z.Ztl, lba: nat, count: nat, seg: nat, result: seq<D.Sector>)
    requires ReadSoFar(s, lba, count, seg, result) && |result| >= count
    ensures Z.Read(s, lba, count) == Success(result)
  {
    assert result + [] == result;
  }

  lemma ReadsOn(s: Z.Ztl, lba: nat, count: nat, seg: nat, done: seq<D.Sector>, part: Result<seq<D.Sector>>)
    requires Z.Ready(s.base) && |done| < count
    requires var n := Z.Piece(lba + |done|, count - |done|, s.base.spp);
      part == Z.ReadPiece(s, lba + |done|, n) && Reached(lba, lba + count, lba + |done| + n, seg + 1, s.base.spp)
    ensures ReadOn(s, lba, count, seg, done, part)
  {
    hide Z.ReadPiece, Z.Piece, Reached;
    var pos := lba + |done|;
    var n := Z.Piece(pos, count - |done|, s.base.spp);
    PartLength(s, pos, n);
    if part.Success? {
      match Z.Read(s, pos + n, count - |done| - n) {
        case Failure(_) =>
        case Success(rest) => assert done + (part.value + rest) == done + part.value + rest;
      }
    }
  }

  lemma PartLength(s: Z.Ztl, lba: nat, count: nat)
    requires Z.Ready(s.base)
    ensures Z.ReadPiece(s, lba, count).Success? ==> |Z.ReadPiece(s, lba, count).value| == count
  {
    hide ZoneID, OffsetSectors, D.Sectors;
  }

  /** The parts of a write into a chosen zone. */
  lemma IntoParts(s: Z.Ztl, zone: nat, seg: nat, data: seq<D.Sector>)
    requires Z.Ready(s.base)
    ensures zone >= |s.base.pool.zm.zones| ==> Z.WriteInto(s, zone, seg, data) == (s, NoSuchZone)
    ensures zone < |s.base.pool.zm.zones| ==>
              var b, wp := s.base, s.base.pool.zm.zones[zone].wp;
              var oldPhys, newPhys := Z.Get(b.l2p, seg), Z.NextAddr(b.pool.zm, zone);
              var logged := b.(log := L.LogL2PUpdate(b.log, seg, oldPhys, newPhys),
                             l2p := if seg < |b.l2p| then b.l2p[seg := newPhys] else b.l2p);
              if seg >= |b.l2p| then Z.WriteInto(s, zone, seg, data) == (s.(base := logged), NoSuchSegment)
              else
                var moved := Z.Relocate(logged, seg, oldPhys, newPhys, zone);
                Z.WriteInto(s, zone, seg, data) ==
                  (s.(base := moved.(pool := moved.pool.(zm := P.UpdateWritePointer(moved.pool.zm, zone, wp + |data|))),
                      bufs := Z.BufferAdd(s.bufs, zone, data, wp)), Ok)
  {
    hide Z.Relocate, Z.NextAddr, L.LogL2PUpdate, Z.BufferAdd, P.UpdateWritePointer;
  }

  /** `t` is `s` after a zone was asked for, with outcome `r`. */
  ghost predicate TookZone(s: Z.Ztl, t: Z.Ztl, r: Result<nat>) {
    && Z.Ready(s.base)
    && var (p, alloc) := P.AllocateFree(s.base.pool);
      && r == alloc
      && t == match alloc
              case Failure(_) => s.(base := s.base.(pool := p), curOpen := false)
              case Success(z) =>
                s.(base := s.base.(pool := p, log := L.LogZoneAction(s.base.log, L.ZONE_OPEN, z)), cur := z, curOpen := true)
  }

  lemma KeptZone(s: Z.Ztl)
    requires Z.Ready(s.base) && s.curOpen && Z.Remaining(s) >= s.base.spp
    ensures Z.GetWriteZone(s) == (s, Success(s.cur))
  {
  }

  lemma TakenZone(s: Z.Ztl, t: Z.Ztl, r: Result<nat>)
    requires TookZone(s, t, r) && !(s.curOpen && Z.Remaining(s) >= s.base.spp)
    ensures Z.Ready(s.base) && Z.GetWriteZone(s) == (t, r)
  {
    hide P.AllocateFree;
  }

  lemma NoZone(s: Z.Ztl, seg: nat, data: seq<D.Sector>)
    requires Z.Ready(s.base)
    ensures var (t, zone) := Z.GetWriteZone(s);
      zone.Failure? ==> Z.WriteSegment(s, seg, data) == (t, zone.error)
  {
    hide Z.GetWriteZone;
  }

  lemma SegmentWritten(s: Z.Ztl, seg: nat, data: seq<D.Sector>)
    requires Z.Ready(s.base) && Z.GetWriteZone(s).1.Success?
    ensures var (t, zone) := Z.GetWriteZone(s);
      && Z.Ready(t.base)
      && var (u, r) := Z.WriteInto(t, zone.value, seg, data);
        && Z.Ready(u.base)
        && (r != Ok ==> Z.WriteSegment(s, seg, data) == (u, r))
        && (r == Ok ==> zone.value < |u.base.pool.zm.zones| && Z.WriteSegment(s, seg, data) == Z.FlushIfFull(u, zone.value))
  {
    hide Z.GetWriteZone, Z.FlushIfFull;
  }
}
