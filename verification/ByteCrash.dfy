/** Crashes at the level of the journal's bytes: what every run writes fits the record format, and a commit cut
    at any byte leaves a journal that recovers as the whole entries before the cut. */
module ByteCrash {
  import opened Errors
  import opened Segment
  import opened Pool
  import opened Log
  import opened Ztl
  import opened Coherence
  import opened FlushSteps
  import opened GcSteps
  import opened Collect
  import opened Bookkeeping
  import opened History
  import opened FlatDisk
  import opened Run
  import opened Retention
  import opened Codec
  import opened Frames
  import opened Crash
  import R = Recovery
  import D = Device

  // ---------- what a run writes ----------

  /** The largest table whose checkpoint the reader still takes. */
  const TABLE_LIMIT: nat := (READ_LIMIT - BASE_SIZE) / 8

  /** An entry apart from its number: the fields fit, and a checkpoint counts its table. */
  predicate Narrow(e: Entry) {
    && e.rec.id < TWO_64 && e.rec.oldPhys < TWO_64 && e.rec.newPhys < TWO_64 && e.rec.timestamp < TWO_64
    && match e
       case Plain(r) => r.kind in {L2P_UPDATE, ZONE_OPEN, ZONE_CLOSE, ZONE_RESET}
       case Snapshot(r, t) => r.kind == CHECKPOINT && r.id == |t| <= TABLE_LIMIT
  }

  /** Every logged entry fits the format, and so will the next. */
  ghost predicate Typed(b: Base) {
    && Ready(b)
    && b.log.clock < TWO_64
    && |b.l2p| <= TABLE_LIMIT && |b.pool.zm.zones| <= ZONE_SPAN
    && forall i :: 0 <= i < |b.log.History()| ==> Narrow(b.log.History()[i])
  }

  /** Numbered upward and fewer than 2^64, such entries are storable, and none is too long to be read back. */
  lemma TypedStorable(b: Base)
    requires Typed(b) && Logged(b) && |b.log.History()| < TWO_64
    ensures AllStorable(b.log.History())
    ensures forall i :: 0 <= i < |b.log.History()| ==> Size(b.log.History()[i]) <= READ_LIMIT
  {
    hide Replay;
    var es := b.log.History();
    forall i | 0 <= i < |es| ensures Storable(es[i]) && Size(es[i]) <= READ_LIMIT {
      assert Narrow(es[i]) && es[i].rec.lsn == i + 1;
    }
  }

  /** A step that adds one narrow entry, or none. */
  lemma TypedAppend(b: Base, c: Base, e: Entry)
    requires Typed(b) && Same(b, c) && Narrow(e)
    requires c.log.clock == b.log.clock && c.log.History() == b.log.History() + [e]
    ensures Typed(c)
  {
    hide Narrow;
  }

  lemma TypedSame(b: Base, c: Base)
    requires Typed(b) && Same(b, c) && c.log.clock == b.log.clock && c.log.History() == b.log.History()
    ensures Typed(c)
  {
    hide Narrow;
  }

  lemma TypedRecord(b: Base, c: Base, kind: nat, id: nat, oldPhys: PhysAddr, newPhys: PhysAddr)
    requires Typed(b) && Same(b, c) && c.log == Append(b.log, kind, id, oldPhys, newPhys)
    requires id < TWO_64 && kind in {L2P_UPDATE, ZONE_OPEN, ZONE_CLOSE, ZONE_RESET}
    ensures Typed(c)
  {
    hide Same;
    AppendHistory(b.log, kind, id, oldPhys, newPhys);
    TypedAppend(b, c, Plain(Record(kind, b.log.lsn + 1, id, oldPhys, newPhys, b.log.clock)));
  }

  lemma GetWriteZoneTyped(s: Ztl)
    requires Typed(s.base)
    ensures Typed(GetWriteZone(s).0.base)
  {
    hide AllocateFree, Append, Typed;
    assert Ready(s.base) by { TypedReady(s.base); }
    var (t, zone) := GetWriteZone(s);
    if !(s.curOpen && Remaining(s) >= s.base.spp) && zone.Success? {
      AllocatedInRange(s.base.pool);
      assert zone.value < TWO_64 by { TypedReady(s.base); }
      TypedRecord(s.base, t.base, ZONE_OPEN, zone.value, UNMAPPED, UNMAPPED);
    } else {
      TypedSame(s.base, t.base);
    }
  }

  lemma TypedReady(b: Base)
    requires Typed(b)
    ensures Ready(b) && |b.pool.zm.zones| <= ZONE_SPAN < TWO_64 && |b.l2p| < TWO_64
  {
  }

  lemma AllocatedInRange(p: Pool)
    requires Listed(p)
    ensures AllocateFree(p).1.Success? ==> AllocateFree(p).1.value < |p.zm.zones|
  {
    hide D.OpenZone;
  }

  lemma WriteSegmentTyped(s: Ztl, seg: nat, data: seq<D.Sector>)
    requires Typed(s.base) && seg < TWO_64
    ensures Ready(s.base) && Typed(WriteSegment(s, seg, data).0.base)
  {
    hide Typed, GetWriteZone, FlushZone, Append, Relocate, Get, NextAddr;
    TypedReady(s.base);
    GetWriteZoneTyped(s);
    var (s1, zone) := GetWriteZone(s);
    if zone.Success? {
      TypedReady(s1.base);
      var (s2, r) := WriteInto(s1, zone.value, seg, data);
      WriteIntoTyped(s1, zone.value, seg, data);
      hide WriteInto;
      if r == Ok {
        assert zone.value < |s2.base.pool.zm.zones| by { WriteIntoExists(s1, zone.value, seg, data); }
        TypedSame(s2.base, FlushIfFull(s2, zone.value).0.base);
      }
    }
  }

  lemma WriteIntoTyped(s: Ztl, z: nat, seg: nat, data: seq<D.Sector>)
    requires Typed(s.base) && seg < TWO_64
    ensures Ready(s.base) && Typed(WriteInto(s, z, seg, data).0.base)
  {
    hide Typed, Append, NextAddr, Get, BufferAdd, IncrementValidSegs, DecrementValidSegs, ZoneID, OffsetSectors;
    TypedReady(s.base);
    var c := WriteInto(s, z, seg, data).0.base;
    if z < |s.base.pool.zm.zones| {
      TypedRecord(s.base, c, L2P_UPDATE, seg, Get(s.base.l2p, seg), NextAddr(s.base.pool.zm, z));
    }
  }

  lemma {:induction false} WriteFromTyped(s: Ztl, lba: nat, data: seq<D.Sector>)
    requires Typed(s.base) && lba + |data| <= TWO_64
    ensures Ready(s.base) && Typed(WriteFrom(s, lba, data).0.base)
    decreases |data|
  {
    hide Typed, WriteSegment, Piece;
    TypedReady(s.base);
    if data != [] {
      var spp := s.base.spp;
      var n := Piece(lba, |data|, spp);
      Arith.DivBounds(lba, spp);
      assert lba / spp <= lba by { Arith.MulMono(1, spp, lba / spp); }
      WriteSegmentTyped(s, lba / spp, data[..n]);
      var (t, r) := WriteSegment(s, lba / spp, data[..n]);
      if r == Ok { WriteFromTyped(t, lba + n, data[n..]); }
    }
  }

  lemma {:induction false} UnmapRangeTyped(b: Base, first: nat, end: nat)
    requires Typed(b)
    ensures Ready(b) && Typed(UnmapRange(b, first, end))
    decreases end - first
  {
    hide Typed, Append, ZoneID, OffsetSectors, DecrementValidSegs;
    TypedReady(b);
    if first < end {
      UnmapRangeTyped(b, first, end - 1);
      var m := UnmapRange(b, first, end - 1);
      TypedReady(m);
      if Get(m.l2p, end - 1) != UNMAPPED {
        TypedRecord(m, UnmapSegment(m, end - 1), L2P_UPDATE, end - 1, Get(m.l2p, end - 1), UNMAPPED);
      }
    }
  }

  lemma MigrateSegmentTyped(b: Base, victim: nat, seg: nat, off: nat)
    requires Typed(b)
    ensures Ready(b) && Typed(MigrateSegment(b, victim, seg, off).0)
  {
    hide Typed, Append, ZoneID, OffsetSectors, Fetch, AllocateFree, D.WriteSectors, NextAddr, IncrementValidSegs, DecrementValidSegs, UpdateWritePointer;
    TypedReady(b);
    var c := MigrateSegment(b, victim, seg, off).0;
    var from := Get(b.l2p, seg);
    if from != UNMAPPED && StillThere(b, victim, seg, off) && Fetch(b, victim, off).Success? {
      var (b1, claim) := Claim(b, seg, from, Fetch(b, victim, off).value);
      if claim.Success? {
        TypedRecord(b, c, L2P_UPDATE, seg, from, claim.value.to);
      } else {
        TypedSame(b, c);
      }
    } else {
      TypedSame(b, c);
    }
  }

  lemma {:induction false} MigrateAllTyped(b: Base, victim: nat, live: seq<(nat, nat)>)
    requires Typed(b)
    ensures Ready(b) && Typed(MigrateAll(b, victim, live).0)
  {
    hide Typed, MigrateSegment;
    TypedReady(b);
    if live != [] {
      MigrateAllTyped(b, victim, live[..|live| - 1]);
      var c := MigrateAll(b, victim, live[..|live| - 1]).0;
      MigrateSegmentTyped(c, victim, live[|live| - 1].0, live[|live| - 1].1);
    }
  }

  lemma CollectZoneTyped(b: Base, victim: nat, order: seq<nat>)
    requires Typed(b) && victim < |b.pool.zm.zones|
    ensures Ready(b) && Typed(CollectZone(b, victim, order).0)
  {
    hide Typed, MigrateAll, Gather, D.ResetZone, MarkEmpty, Append;
    TypedReady(b);
    var f := Freeze(b, victim);
    TypedSame(b, f);
    MigrateAllTyped(f, victim, Gather(f, victim, order));
    var (m, r) := MigrateAll(f, victim, Gather(f, victim, order));
    TypedReady(m);
    TypedSame(m, Unfreeze(m, victim));
    var logged := m.(log := LogZoneAction(m.log, ZONE_RESET, victim));
    TypedRecord(m, logged, ZONE_RESET, victim, UNMAPPED, UNMAPPED);
    CommitHistory(logged.log);
    TypedSame(logged, Seal(m, victim));
    TypedReady(Seal(m, victim));
    hide Seal;
    TypedSame(Seal(m, victim), Unfreeze(Reclaim(Seal(m, victim), victim).0, victim));
  }

  lemma {:induction false} EmergencyTyped(b: Base, reserve: int, orders: seq<seq<nat>>)
    requires Typed(b)
    ensures Ready(b) && Typed(RunEmergencyGC(b, reserve, orders).0)
    decreases |orders|
  {
    hide Typed, CollectZone, SelectGCVictim;
    TypedReady(b);
    if |b.pool.zm.freeList| < reserve && orders != [] && SelectGCVictim(b.pool.zm).Success? {
      var victim := SelectGCVictim(b.pool.zm).value;
      VictimInRange(b.pool.zm);
      CollectZoneTyped(b, victim, orders[0]);
      EmergencyTyped(CollectZone(b, victim, orders[0]).0, reserve, orders[1..]);
    }
  }

  lemma VictimInRange(zm: Manager)
    ensures SelectGCVictim(zm).Success? ==> SelectGCVictim(zm).value < |zm.zones|
  {
  }

  /** The arguments of an operation fit their widths. */
  predicate InRange(op: Op) {
    match op
    case WriteOp(lba, data, _, _) => lba + |data| <= TWO_64
    case TickOp(now) => now < TWO_64
    case _ => true
  }

  /** Every operation, successful or not, logs only what the record format holds. */
  lemma StepTyped(s: Ztl, op: Op)
    requires Typed(s.base) && InRange(op)
    ensures Ready(s.base) && Typed(Step(s, op).0.base)
  {
    hide Typed, FlushEach, FlushZone, UnmapRange, CollectZone, SelectGCVictim, RunEmergencyGC, WriteFrom, LastLBA;
    TypedReady(s.base);
    var c := Step(s, op).0.base;
    match op {
      case WriteOp(lba, data, reserve, orders) =>
        EmergencyTyped(s.base, reserve, orders);
        var g := RunEmergencyGC(s.base, reserve, orders).0;
        WriteFromTyped(s.(base := g), lba, data);
        var w := WriteFrom(s.(base := g), lba, data).0.base;
        TypedReady(w);
        TypedCommit(w);
      case UnmapOp(lba, count) =>
        UnmapRangeTyped(s.base, lba / s.base.spp, LastLBA(lba, count) / s.base.spp + 1);
      case FlushOp(zones) =>
        CommitHistory(s.base.log);
        TypedSame(s.base, c);
      case FlushZoneOp(zone) => TypedSame(s.base, c);
      case CollectOp(order) =>
        VictimInRange(s.base.pool.zm);
        if SelectGCVictim(s.base.pool.zm).Success? {
          CollectZoneTyped(s.base, SelectGCVictim(s.base.pool.zm).value, order);
        }
      case CommitOp => TypedCommit(s.base);
      case CheckpointOp => TypedCheckpoint(s.base);
      case TickOp(now) => TypedTick(s.base, now);
    }
  }

  lemma TypedCommit(b: Base)
    requires Typed(b)
    ensures Typed(b.(log := GroupCommit(b.log)))
  {
    TypedReady(b);
    CommitHistory(b.log);
    TypedSame(b, b.(log := GroupCommit(b.log)));
  }

  lemma TypedCheckpoint(b: Base)
    requires Typed(b)
    ensures Typed(b.(log := WriteCheckpoint(b.log, b.l2p)))
  {
    var e := CheckpointEntry(b.log.lsn + 1, b.l2p, b.log.clock);
    var mid := b.log.(lsn := b.log.lsn + 1, pending := b.log.pending + [e]);
    assert mid.History() == b.log.History() + [e];
    assert Narrow(e);
    TypedAppend(b, b.(log := mid), e);
    TypedCommit(b.(log := mid));
  }

  lemma TypedTick(b: Base, now: nat)
    requires Typed(b) && now < TWO_64
    ensures Typed(b.(log := b.log.(clock := now)))
  {
    hide Narrow;
    assert b.log.(clock := now).History() == b.log.History();
  }

  /** Over whole runs. */
  lemma {:induction false} RunTyped(s: Ztl, ops: seq<Op>)
    requires Typed(s.base) && forall i :: 0 <= i < |ops| ==> InRange(ops[i])
    ensures Ready(s.base) && Typed(Execute(s, ops).base)
  {
    hide Typed, Step, InRange;
    TypedReady(s.base);
    if ops != [] {
      assert forall i :: 0 <= i < |ops| - 1 ==> ops[..|ops| - 1][i] == ops[i];
      RunTyped(s, ops[..|ops| - 1]);
      StepTyped(Execute(s, ops[..|ops| - 1]), ops[|ops| - 1]);
    }
  }

  // ---------- cuts ----------

  /** A journal of storable entries, all short enough to be read. */
  ghost predicate Readable(log: Log) {
    AllStorable(log.History()) && forall i :: 0 <= i < |log.History()| ==> Size(log.History()[i]) <= READ_LIMIT
  }

  /** The bytes of a journal whose commit was cut: the durable frames and some of what was being written. */
  ghost predicate CutFile(crc: Checksum, log: Log, file: seq<Bytes.byte>) {
    exists k :: CutBytes(crc, log, file, k)
  }

  ghost predicate CutBytes(crc: Checksum, log: Log, file: seq<Bytes.byte>, k: nat) {
    && |FrameAll(crc, log.durable)| <= k <= |FrameAll(crc, log.History())|
    && file == FrameAll(crc, log.History())[..k]
  }

  /** A commit cut at any byte recovers as some number of its entries did reach the journal whole. */
  lemma CutRecovers(crc: Checksum, log: Log, file: seq<Bytes.byte>, t: Table, zones: nat) returns (j: nat)
    requires Readable(log) && CutFile(crc, log, file)
    ensures j <= |log.pending|
    ensures RecoverFile(crc, t, file, zones) == R.Recover(t, log.durable + log.pending[..j], zones)
  {
    hide RecoverFile, FrameAll, Visible, Size, R.Recover, Storable;
    var k :| CutBytes(crc, log, file, k);
    var es := log.History();
    var n := Complete(es, k);
    Frames.RecoverPrefix(crc, es, k, t, zones);
    VisibleIs(crc, es, k, Bytes.TWO_32);
    if n < |log.durable| {
      assert es[..n + 1] == log.durable[..n + 1];
      assert log.durable == log.durable[..n + 1] + log.durable[n + 1..];
      FrameAllAppend(crc, log.durable[..n + 1], log.durable[n + 1..]);
    }
    j := n - |log.durable|;
    assert es[..n] == log.durable + log.pending[..j];
  }

  /** A journal with nothing pending is whole. */
  lemma WholeRecovers(crc: Checksum, log: Log, t: Table, zones: nat)
    requires Readable(log) && log.pending == []
    ensures RecoverFile(crc, t, FrameAll(crc, log.durable), zones) == R.Recover(t, log.durable, zones)
  {
    hide RecoverFile, FrameAll, R.Recover, Size, Storable;
    assert log.History() == log.durable;
    var file := FrameAll(crc, log.durable);
    assert file[..|file|] == file;
    assert CutBytes(crc, log, file, |file|);
    var j := CutRecovers(crc, log, file, t, zones);
    assert log.durable + log.pending[..j] == log.durable;
  }

  // ---------- the crash theorems over bytes ----------

  /** After a flush of every buffered zone, the journal file and the device are enough: recovery over the bytes
      gives the table back, and every read returns what it returned before. */
  lemma FlushThenCrashBytes(crc: Checksum, s: Ztl, zones: seq<nat>, rs: seq<Record>, log: Log, lba: nat, count: nat)
    requires Inv(s) && Typed(s.base) && |s.base.log.History()| < TWO_64
    requires (forall z :: z in s.bufs ==> z in zones) && Ready(s.base) && Flush(s, zones).1 == Ok
    ensures var t := Flush(s, zones).0;
      && RecoverFile(crc, Unmapped(|t.base.l2p|), FrameAll(crc, t.base.log.durable), |t.base.pool.zm.zones|)
         == Success(t.base.l2p)
      && Ready(Restart(t.base.pool.dev, t.base.l2p, rs, log, t.base.spp).base)
      && Read(Restart(t.base.pool.dev, t.base.l2p, rs, log, t.base.spp), lba, count) == Read(s, lba, count)
  {
    hide Inv, Typed, FlushEach, RecoverFile, FrameAll, R.Recover, Read, Restart, Readable;
    FlushThenCrash(s, zones, rs, log, lba, count);
    FlushTable(s, zones);
    var t := Flush(s, zones).0;
    InvReady(s);
    LogReadable(s.base);
    CommitReadable(s.base.log);
    WholeRecovers(crc, t.base.log, Unmapped(|t.base.l2p|), |t.base.pool.zm.zones|);
  }

  lemma LogReadable(b: Base)
    requires Typed(b) && Logged(b) && |b.log.History()| < TWO_64
    ensures Readable(b.log)
  {
    hide Typed, Logged, Storable, Size;
    TypedStorable(b);
  }

  lemma CommitReadable(log: Log)
    requires Readable(log)
    ensures Readable(GroupCommit(log))
  {
    hide Storable, Size;
    CommitHistory(log);
  }

  /** A commit cut anywhere recovers to a table some prefix of the history describes, one that contains
      everything durable before. */
  lemma CommitCrashBytes(crc: Checksum, b: Base, file: seq<Bytes.byte>) returns (j: nat)
    requires Logged(b) && Typed(b) && |b.log.History()| < TWO_64 && CutFile(crc, b.log, file)
    ensures j <= |b.log.pending|
    ensures RecoverFile(crc, Unmapped(|b.l2p|), file, |b.pool.zm.zones|) ==
            Replay(Unmapped(|b.l2p|), Records(b.log.durable + b.log.pending[..j]), |b.pool.zm.zones|)
    ensures RecoverFile(crc, Unmapped(|b.l2p|), file, |b.pool.zm.zones|).Success?
  {
    hide Logged, Typed, RecoverFile, R.Recover, Replay, CutFile, Readable;
    LogReadable(b);
    j := CutRecovers(crc, b.log, file, Unmapped(|b.l2p|), |b.pool.zm.zones|);
    var k := |b.log.durable| + j;
    assert b.log.History()[..k] == b.log.durable + b.log.pending[..j];
    RecoverHistory(b, k);
  }

  /** A crash at any byte of the commit that precedes a victim's reset: recovery over the bytes succeeds, and every
      segment resolves, on the device, to the data it had with some number of the entries that were pending before
      the collection; to its data before the collection if nothing about it was pending. Only a segment that went
      to the unmapped address is set aside. */
  lemma CollectCrashBytes(crc: Checksum, s: Ztl, victim: nat, order: seq<nat>, file: seq<Bytes.byte>) returns (k: nat)
    requires Core(s) && Logged(s.base) && Ready(s.base) && Typed(s.base) && Retained(s.base)
    requires Covers(s.base) && Ordered(s.base, victim, order)
    requires MigrateAll(s.base, victim, Gather(s.base, victim, order)).1 == Ok
    requires victim < |s.base.pool.zm.zones|
    requires |s.base.log.History()| + |Gather(s.base, victim, order)| + 1 < TWO_64
    requires CutFile(crc, LogZoneAction(MigrateAll(s.base, victim, Gather(s.base, victim, order)).0.log, ZONE_RESET, victim), file)
    ensures Ready(MigrateAll(s.base, victim, Gather(s.base, victim, order)).0)
    ensures |s.base.log.durable| <= k <= |s.base.log.History()|
    ensures var m := MigrateAll(s.base, victim, Gather(s.base, victim, order)).0;
      var recovered := RecoverFile(crc, Unmapped(|s.base.l2p|), file, |s.base.pool.zm.zones|);
      && recovered.Success?
      && ResolvesAs(m.pool.dev, recovered.value, s, k)
      && KeepsUnpending(m.pool.dev, recovered.value, s)
  {
    hide Core, Logged, Typed, Covers, Ordered, Gather, MigrateAll, Behind, OnDevice, RecoverFile, R.Recover, LogZoneAction, CutFile, Readable, Retained, ResolvesAs, KeepsUnpending;
    SealingReadable(s, victim, order);
    var sealing := LogZoneAction(MigrateAll(s.base, victim, Gather(s.base, victim, order)).0.log, ZONE_RESET, victim);
    SealingReady(s, victim, order);
    var j := CutRecovers(crc, sealing, file, Unmapped(|s.base.l2p|), |s.base.pool.zm.zones|);
    CollectCrash(s, victim, order, j);
    k := |s.base.log.durable| + Min(j, |s.base.log.pending|);
  }

  lemma SealingReadable(s: Ztl, victim: nat, order: seq<nat>)
    requires Core(s) && Logged(s.base) && Ready(s.base) && Typed(s.base)
    requires Covers(s.base) && Ordered(s.base, victim, order) && victim < |s.base.pool.zm.zones|
    requires MigrateAll(s.base, victim, Gather(s.base, victim, order)).1 == Ok
    requires |s.base.log.History()| + |Gather(s.base, victim, order)| + 1 < TWO_64
    ensures Readable(LogZoneAction(MigrateAll(s.base, victim, Gather(s.base, victim, order)).0.log, ZONE_RESET, victim))
  {
    hide Core, Logged, Typed, Covers, Ordered, Gather, MigrateAll, Behind, Readable, Append, Untouched;
    var live := Gather(s.base, victim, order);
    var m := MigrateAll(s.base, victim, live).0;
    var c := m.(log := LogZoneAction(m.log, ZONE_RESET, victim));
    OrderDistinct(s.base, victim, order);
    GatherLive(s.base, victim, order);
    MigrateAllLogged(s, victim, live);
    MigrateAllTyped(s.base, victim, live);
    MigratePrefix(s, victim, live, |live|);
    SealingPending(m, victim);
    LoggedAction(m, c, ZONE_RESET, victim);
    TypedReady(s.base);
    TypedReady(m);
    TypedRecord(m, c, ZONE_RESET, victim, UNMAPPED, UNMAPPED);
    LogReadable(c);
  }
}
