/** What the log holds over the life of a layer: the updates of each segment form a chain, and what a write or a flush
    logged is committed exactly when it is accepted. */
module Chain {
  import opened Errors
  import opened Segment
  import opened Pool
  import opened Log
  import opened Ztl
  import opened Coherence
  import opened WriteSteps
  import opened FlushSteps
  import opened History
  import opened FlatDisk
  import opened Run
  import opened FlatArray
  import A = Abandoned
  import R = Recovery
  import D = Device

  // ---------- the chain of updates ----------

  /** An update's old address is the new address of the last update before it of the same segment, or unmapped if there
      is none. */
  ghost predicate Linked(rs: seq<Record>, i: nat)
    requires i < |rs|
  {
    rs[i].oldPhys ==
    match A.LastOf(rs[..i], rs[i].id)
    case None => UNMAPPED
    case Some(r) => r.newPhys % 0x1_0000_0000_0000_0000
  }

  lemma UpdatesLinked(b: Base, i: nat)
    requires Logged(b) && i < |b.log.History()| && b.log.History()[i].rec.kind == 0x01
    ensures b.log.History()[i].rec.id < |b.l2p| && Linked(Records(b.log.History()), i)
  {
    hide Numbered, Snapshots, Replay;
    var es, rs := b.log.History(), Records(b.log.History());
    assert Records(es[..i]) == rs[..i];
    R.ReplayFinal(Unmapped(|b.l2p|), rs[..i], |b.pool.zm.zones|);
    A.FinalIsLast(UNMAPPED, rs[..i], rs[i].id);
  }

  /** After any admissible operations from the start, every update in the log, durable or pending, is linked to the one
      before it of the same segment. */
  lemma LifeLinked(zoneCount: nat, zoneSectors: nat, maxOpen: nat, spp: nat, ops: seq<Op>, i: nat)
    requires Configured(zoneCount, zoneSectors, maxOpen, spp)
    requires Ready(Start(zoneCount, zoneSectors, maxOpen, spp).base)
    requires AllAdmissible(Start(zoneCount, zoneSectors, maxOpen, spp), ops)
    requires i < |Execute(Start(zoneCount, zoneSectors, maxOpen, spp), ops).base.log.History()|
    requires Execute(Start(zoneCount, zoneSectors, maxOpen, spp), ops).base.log.History()[i].rec.kind == 0x01
    ensures var b := Execute(Start(zoneCount, zoneSectors, maxOpen, spp), ops).base;
      b.log.History()[i].rec.id < |b.l2p| && Linked(Records(b.log.History()), i)
  {
    hide Inv, Runs, Execute, AllAdmissible, Start, Disk, Flat, TakenAll, Logged, Linked;
    NoFlushRefused(zoneCount, zoneSectors, maxOpen, spp, ops);
    StartInv(zoneCount, zoneSectors, maxOpen, spp);
    RunInv(Start(zoneCount, zoneSectors, maxOpen, spp), ops);
    InvReady(Execute(Start(zoneCount, zoneSectors, maxOpen, spp), ops));
    UpdatesLinked(Execute(Start(zoneCount, zoneSectors, maxOpen, spp), ops).base, i);
  }

  // ---------- what is committed, and when ----------

  /** Entries were added behind those pending, and none committed. */
  ghost predicate Pends(l: Log, m: Log) {
    m.durable == l.durable && |m.pending| >= |l.pending| && m.pending[..|l.pending|] == l.pending
  }

  lemma PendsTrans(l: Log, m: Log, n: Log)
    requires Pends(l, m) && Pends(m, n)
    ensures Pends(l, n)
  {
    assert n.pending[..|l.pending|] == n.pending[..|m.pending|][..|l.pending|];
  }

  lemma WriteSegmentPends(s: Ztl, seg: nat, data: seq<D.Sector>)
    requires Ready(s.base)
    ensures Pends(s.base.log, WriteSegment(s, seg, data).0.base.log)
  {
    hide GetWriteZone, FlushZone, WriteInto, LogZoneAction;
    A.GetWriteZoneTells(s);
    var (s1, zone) := GetWriteZone(s);
    if zone.Success? {
      assert Pends(s.base.log, LogZoneAction(s.base.log, ZONE_OPEN, zone.value)) by { ActionPends(s.base.log, zone.value); }
      assert Pends(s.base.log, s1.base.log);
      WriteIntoPends(s1, zone.value, seg, data);
      PendsTrans(s.base.log, s1.base.log, WriteInto(s1, zone.value, seg, data).0.base.log);
    }
  }

  lemma ActionPends(l: Log, z: nat)
    ensures Pends(l, LogZoneAction(l, ZONE_OPEN, z))
  {
  }

  lemma WriteIntoPends(s: Ztl, z: nat, seg: nat, data: seq<D.Sector>)
    requires Ready(s.base)
    ensures Pends(s.base.log, WriteInto(s, z, seg, data).0.base.log)
  {
    hide NextAddr, ZoneID, OffsetSectors;
  }

  lemma {:induction false} WriteFromPends(s: Ztl, lba: nat, data: seq<D.Sector>)
    requires Ready(s.base)
    ensures Pends(s.base.log, WriteFrom(s, lba, data).0.base.log)
    decreases |data|
  {
    hide WriteSegment;
    if data != [] {
      var n := Piece(lba, |data|, s.base.spp);
      var (t, r) := WriteSegment(s, LBAToSegmentID(lba, s.base.spp), data[..n]);
      WriteSegmentPends(s, LBAToSegmentID(lba, s.base.spp), data[..n]);
      if r == Ok {
        WriteFromPends(t, lba + n, data[n..]);
        PendsTrans(s.base.log, t.base.log, WriteFrom(t, lba + n, data[n..]).0.base.log);
      }
    }
  }

  /** An accepted write of some data leaves nothing pending: all that was logged before it and by it is durable. A write
      that is refused after the emergency collections commits nothing; what it logged is pending behind what was. */
  lemma WriteCommits(s: Ztl, lba: nat, data: seq<D.Sector>, reserve: int, orders: seq<seq<nat>>)
    requires Ready(s.base) && data != []
    ensures var (b, cleared) := RunEmergencyGC(s.base, reserve, orders);
      var (t, r) := Write(s, lba, data, reserve, orders);
      && (r == Ok ==> t.base.log.pending == [] && b.log.History() <= t.base.log.durable)
      && (r != Ok ==> Pends(b.log, t.base.log))
  {
    hide RunEmergencyGC, WriteFrom;
    var b := RunEmergencyGC(s.base, reserve, orders).0;
    WriteFromPends(s.(base := b), lba, data);
  }

  /** A flush commits exactly when every buffer was flushed; otherwise it leaves the log alone. */
  lemma FlushCommits(s: Ztl, zones: seq<nat>)
    requires Ready(s.base)
    ensures var (t, r) := Flush(s, zones);
      && (r == Ok ==> t.base.log.pending == [] && t.base.log.durable == s.base.log.durable + s.base.log.pending)
      && (r != Ok ==> t.base.log == s.base.log)
  {
    hide FlushEach;
  }

  // ---------- what each operation says ----------

  /** `told` was added behind the pending entries, and nothing was committed. */
  ghost predicate Tells(l: Log, m: Log, told: seq<Entry>) {
    m.durable == l.durable && m.pending == l.pending + told && m.clock == l.clock
  }

  ghost predicate Says(e: Entry, kind: nat, id: nat, time: nat) {
    e.Plain? && e.rec.kind == kind && e.rec.id == id && e.rec.timestamp == time
  }

  /** An entry about a zone has no addresses. */
  ghost predicate SaysOfZone(e: Entry, kind: nat, zone: nat, time: nat) {
    Says(e, kind, zone, time) && e.rec.oldPhys == UNMAPPED && e.rec.newPhys == UNMAPPED
  }

  /** A segment was where an entry says it was, and is where it says it is. */
  ghost predicate SaysMoved(e: Entry, seg: nat, time: nat, before: Table, after: Table) {
    && Says(e, 0x01, seg, time) && e.rec.oldPhys == Get(before, seg)
    && (seg < |before| ==> seg < |after| && e.rec.newPhys == after[seg])
  }

  lemma TellsTrans(l: Log, m: Log, n: Log, first: seq<Entry>, second: seq<Entry>)
    requires Tells(l, m, first) && Tells(m, n, second)
    ensures Tells(l, n, first + second)
  {
  }

  lemma AllocateTakes(p: Pool)
    requires Listed(p)
    ensures var (q, alloc) := AllocateFree(p);
      match alloc
      case Failure(_) => q.zm.freeList == p.zm.freeList
      case Success(z) => p.zm.freeList == q.zm.freeList + [z]
  {
    hide D.OpenZone, D.CloseZone;
  }

  /** Which zone a write goes to. The zone being written is kept while it has room for a segment. Otherwise the last
      free zone is taken and announced; when none can be, there is no zone being written. */
  lemma WriteZoneTold(s: Ztl) returns (told: seq<Entry>)
    requires Ready(s.base)
    requires s.cur < |s.base.pool.zm.zones| ==>
      s.base.pool.zm.zones[s.cur].wp <= s.base.pool.zm.zones[s.cur].start + s.base.pool.zm.zones[s.cur].size
    ensures var (t, r) := GetWriteZone(s);
      && Tells(s.base.log, t.base.log, told)
      && if s.curOpen && s.cur < |s.base.pool.zm.zones|
           && s.base.pool.zm.zones[s.cur].wp + s.base.spp <= s.base.pool.zm.zones[s.cur].start + s.base.pool.zm.zones[s.cur].size
         then t == s && r == Success(s.cur)
         else
           match r
           case Failure(_) => told == [] && !t.curOpen && t.base.pool.zm.freeList == s.base.pool.zm.freeList
           case Success(z) =>
             && |told| == 1 && SaysOfZone(told[0], 0x02, z, s.base.log.clock)
             && s.base.pool.zm.freeList == t.base.pool.zm.freeList + [z] && t.curOpen && t.cur == z
  {
    AllocateTakes(s.base.pool);
    hide AllocateFree;
    told := GetWriteZone(s).0.base.log.pending[|s.base.log.pending|..];
  }

  /** A write of a segment that finds a zone says where the segment was and where it is; one that does not says
      nothing. */
  lemma WriteTold(s: Ztl, seg: nat, data: seq<D.Sector>) returns (told: seq<Entry>)
    requires Ready(s.base)
    ensures var (s1, zone) := GetWriteZone(s);
      var t := WriteSegment(s, seg, data).0;
      && Tells(s1.base.log, t.base.log, told)
      && if zone.Failure? || zone.value >= |s1.base.pool.zm.zones| then told == []
         else |told| == 1 && SaysMoved(told[0], seg, s1.base.log.clock, s.base.l2p, t.base.l2p)
  {
    A.GetWriteZoneTells(s);
    var (s1, zone) := GetWriteZone(s);
    hide GetWriteZone;
    told := [];
    if zone.Success? {
      told := IntoTold(s1, zone.value, seg, data);
      var (s2, r) := WriteInto(s1, zone.value, seg, data);
      hide WriteInto, FlushZone, Says;
      if r == Ok { FullTold(s2, zone.value); }
    }
  }

  lemma FullTold(s: Ztl, z: nat)
    requires Ready(s.base) && z < |s.base.pool.zm.zones|
    ensures FlushIfFull(s, z).0.base.log == s.base.log && FlushIfFull(s, z).0.base.l2p == s.base.l2p
  {
    hide FlushZone;
  }

  lemma IntoTold(s: Ztl, z: nat, seg: nat, data: seq<D.Sector>) returns (told: seq<Entry>)
    requires Ready(s.base)
    ensures var (t, r) := WriteInto(s, z, seg, data);
      && Tells(s.base.log, t.base.log, told) && (r == Ok ==> z < |t.base.pool.zm.zones|)
      && if z >= |s.base.pool.zm.zones| then told == [] && r != Ok
         else |told| == 1 && SaysMoved(told[0], seg, s.base.log.clock, s.base.l2p, t.base.l2p)
  {
    hide NextAddr, ZoneID, OffsetSectors;
    told := WriteInto(s, z, seg, data).0.base.log.pending[|s.base.log.pending|..];
  }

  // ---------- unmaps ----------

  ghost predicate Names(told: seq<Entry>, seg: nat) {
    exists k :: 0 <= k < |told| && told[k].rec.id == seg
  }

  /** The entries say of exactly the mapped segments of a range, in ascending order, that they are unmapped. */
  ghost predicate UnmapsSaid(t: Table, first: nat, end: nat, told: seq<Entry>, time: nat) {
    && (forall k :: 0 <= k < |told| ==>
          && Says(told[k], 0x01, told[k].rec.id, time) && told[k].rec.newPhys == UNMAPPED
          && first <= told[k].rec.id < end && told[k].rec.oldPhys == Get(t, told[k].rec.id) != UNMAPPED)
    && (forall j, k :: 0 <= j < k < |told| ==> told[j].rec.id < told[k].rec.id)
    && (forall i :: first <= i < end && Get(t, i) != UNMAPPED ==> Names(told, i))
  }

  lemma NamesMore(told: seq<Entry>, e: Entry, seg: nat)
    requires Names(told, seg) || e.rec.id == seg
    ensures Names(told + [e], seg)
  {
    assert e.rec.id == seg ==> (told + [e])[|told|].rec.id == seg;
    if Names(told, seg) {
      var k :| 0 <= k < |told| && told[k].rec.id == seg;
      assert (told + [e])[k].rec.id == seg;
    }
  }

  lemma OneMoreSaid(t: Table, first: nat, seg: nat, told: seq<Entry>, e: Entry, time: nat)
    requires first <= seg && UnmapsSaid(t, first, seg, told, time)
    requires Says(e, 0x01, seg, time) && e.rec.newPhys == UNMAPPED && e.rec.oldPhys == Get(t, seg) != UNMAPPED
    ensures UnmapsSaid(t, first, seg + 1, told + [e], time)
  {
    forall i | first <= i < seg + 1 && Get(t, i) != UNMAPPED ensures Names(told + [e], i) {
      NamesMore(told, e, i);
    }
    hide Names;
  }

  lemma NoMoreSaid(t: Table, first: nat, seg: nat, told: seq<Entry>, time: nat)
    requires first <= seg && UnmapsSaid(t, first, seg, told, time) && Get(t, seg) == UNMAPPED
    ensures UnmapsSaid(t, first, seg + 1, told, time)
  {
  }

  ghost predicate Blanked(t: Table, u: Table, first: nat, end: nat) {
    |u| == |t| && forall i :: 0 <= i < |t| ==> u[i] == if first <= i < end then UNMAPPED else t[i]
  }

  /** An unmap says so of exactly the mapped segments in its range, and commits nothing. */
  lemma {:induction false} UnmapTold(b: Base, first: nat, end: nat) returns (told: seq<Entry>)
    requires Ready(b)
    ensures var c := UnmapRange(b, first, end);
      && Tells(b.log, c.log, told) && Blanked(b.l2p, c.l2p, first, end)
      && UnmapsSaid(b.l2p, first, end, told, b.log.clock)
    decreases end - first
  {
    hide UnmapSegment, UnmapsSaid, Says, Tells, Blanked;
    if first < end {
      var m := UnmapRange(b, first, end - 1);
      var before := UnmapTold(b, first, end - 1);
      var last := UnmapOneTold(m, end - 1);
      told := OneMoreTold(b, m, UnmapSegment(m, end - 1), first, end - 1, before, last);
    } else {
      told := [];
      NothingTold(b, first, end);
    }
  }

  lemma NothingTold(b: Base, first: nat, end: nat)
    requires first >= end
    ensures Tells(b.log, b.log, []) && Blanked(b.l2p, b.l2p, first, end) && UnmapsSaid(b.l2p, first, end, [], b.log.clock)
  {
  }

  lemma OneMoreTold(b: Base, m: Base, c: Base, first: nat, seg: nat, before: seq<Entry>, last: seq<Entry>) returns (told: seq<Entry>)
    requires first <= seg && Tells(b.log, m.log, before) && Blanked(b.l2p, m.l2p, first, seg)
    requires UnmapsSaid(b.l2p, first, seg, before, b.log.clock)
    requires Tells(m.log, c.log, last) && Blanked(m.l2p, c.l2p, seg, seg + 1)
    requires if Get(m.l2p, seg) == UNMAPPED then last == []
             else |last| == 1 && Says(last[0], 0x01, seg, m.log.clock) && last[0].rec.newPhys == UNMAPPED && last[0].rec.oldPhys == Get(m.l2p, seg)
    ensures Tells(b.log, c.log, told) && Blanked(b.l2p, c.l2p, first, seg + 1)
    ensures UnmapsSaid(b.l2p, first, seg + 1, told, b.log.clock)
  {
    assert Get(m.l2p, seg) == Get(b.l2p, seg) && m.log.clock == b.log.clock;
    TellsTrans(b.log, m.log, c.log, before, last);
    hide UnmapsSaid, Says, Tells;
    told := before + last;
    if Get(m.l2p, seg) == UNMAPPED {
      NoMoreSaid(b.l2p, first, seg, before, b.log.clock);
      assert told == before;
    } else {
      assert last == [last[0]];
      OneMoreSaid(b.l2p, first, seg, before, last[0], b.log.clock);
    }
  }

  lemma UnmapOneTold(b: Base, seg: nat) returns (told: seq<Entry>)
    requires Ready(b)
    ensures var c := UnmapSegment(b, seg);
      && Tells(b.log, c.log, told) && Blanked(b.l2p, c.l2p, seg, seg + 1)
      && if Get(b.l2p, seg) == UNMAPPED then c == b && told == []
         else |told| == 1 && Says(told[0], 0x01, seg, b.log.clock) && told[0].rec.newPhys == UNMAPPED && told[0].rec.oldPhys == Get(b.l2p, seg)
  {
    hide ZoneID, OffsetSectors;
    told := UnmapSegment(b, seg).log.pending[|b.log.pending|..];
  }

  // ---------- collections ----------

  /** A migration says where it puts the segment before it does; one that is refused, or has nothing to do, may say
      nothing. */
  lemma MigrateTold(b: Base, victim: nat, seg: nat, off: nat) returns (told: seq<Entry>)
    requires Ready(b)
    ensures var (c, r) := MigrateSegment(b, victim, seg, off);
      && Tells(b.log, c.log, told) && |told| <= 1
      && (told != [] ==> Says(told[0], 0x01, seg, b.log.clock) && told[0].rec.oldPhys == Get(b.l2p, seg))
      && (r == Ok ==> (told == [] <==> !StillThere(b, victim, seg, off)))
      && (r == Ok && told != [] ==> SaysMoved(told[0], seg, b.log.clock, b.l2p, c.l2p))
  {
    hide ZoneID, OffsetSectors, EncodePhysAddr, NextAddr;
    told := MigrateSegment(b, victim, seg, off).0.log.pending[|b.log.pending|..];
    if StillThere(b, victim, seg, off) {
      var fetched := Fetch(b, victim, off);
      hide Fetch, StillThere;
      if fetched.Success? {
        var (b1, claimed) := Claim(b, seg, b.l2p[seg], fetched.value);
        ClaimTold(b, seg, b.l2p[seg], fetched.value);
        hide Claim;
        if claimed.Success? {
          var m := claimed.value;
          CopyTold(Announce(b1, m), m);
          hide Copy, Swap;
          assert Announce(b1, m).log == LogL2PUpdate(b.log, seg, b.l2p[seg], m.to);
        }
      }
    }
  }

  lemma ClaimTold(b: Base, seg: nat, from: PhysAddr, data: seq<D.Sector>)
    requires Ready(b)
    ensures var (c, r) := Claim(b, seg, from, data);
      c.log == b.log && c.l2p == b.l2p && (r.Success? ==> r.value.seg == seg && r.value.from == from)
  {
    hide AllocateFree;
  }

  lemma CopyTold(b: Base, m: Move)
    requires Ready(b) && m.seg < |b.l2p| && b.l2p[m.seg] == m.from
    ensures var (c, r) := Copy(b, m);
      && c.log == b.log && c.l2p == b.l2p
      && Swap(c, m).log == b.log && Swap(c, m).l2p == b.l2p[m.seg := m.to]
  {
    hide D.WriteSectors, ZoneID, OffsetSectors;
  }

  ghost predicate Updates(told: seq<Entry>) {
    forall k :: 0 <= k < |told| ==> told[k].Plain? && told[k].rec.kind == 0x01
  }

  lemma {:induction false} MigrateAllTold(b: Base, victim: nat, live: seq<(nat, nat)>) returns (told: seq<Entry>)
    requires Ready(b)
    ensures Tells(b.log, MigrateAll(b, victim, live).0.log, told) && Updates(told)
  {
    hide MigrateSegment;
    told := [];
    if live != [] {
      var n := |live| - 1;
      told := MigrateAllTold(b, victim, live[..n]);
      var (m, r) := MigrateAll(b, victim, live[..n]);
      if r == Ok {
        var last := MigrateTold(m, victim, live[n].0, live[n].1);
        TellsTrans(b.log, m.log, MigrateSegment(m, victim, live[n].0, live[n].1).0.log, told, last);
        hide Tells;
        told := told + last;
      }
    }
  }

  /** A collection that resets its victim has said so last, and has committed that with everything before it; one that
      is refused during its migrations has committed nothing. */
  lemma CollectTold(b: Base, victim: nat, order: seq<nat>) returns (told: seq<Entry>)
    requires Ready(b)
    ensures var (c, r) := CollectZone(b, victim, order);
      && Updates(told)
      && if MigrateAll(Freeze(b, victim), victim, Gather(Freeze(b, victim), victim, order)).1 != Ok
         then r != Ok && Tells(b.log, c.log, told)
         else
           && c.log.pending == [] && |c.log.durable| > 0
           && c.log.durable == b.log.History() + told + [c.log.durable[|c.log.durable| - 1]]
           && SaysOfZone(c.log.durable[|c.log.durable| - 1], 0x04, victim, b.log.clock)
  {
    var f := Freeze(b, victim);
    var live := Gather(f, victim, order);
    told := MigrateAllTold(f, victim, live);
    CollectLog(b, victim, order);
    SealTold(b.log, MigrateAll(f, victim, live).0.log, told, victim);
    hide MigrateAll, Gather, CollectZone, SaysOfZone, LogZoneAction, Updates;
  }

  lemma CollectLog(b: Base, victim: nat, order: seq<nat>)
    requires Ready(b)
    ensures var (m, r) := MigrateAll(Freeze(b, victim), victim, Gather(Freeze(b, victim), victim, order));
      if r != Ok then CollectZone(b, victim, order).1 == r && CollectZone(b, victim, order).0.log == m.log
      else CollectZone(b, victim, order).0.log == GroupCommit(LogZoneAction(m.log, ZONE_RESET, victim))
  {
    hide MigrateAll, Gather, D.ResetZone, MarkEmpty, GroupCommit, LogZoneAction;
  }

  lemma SealTold(l: Log, m: Log, told: seq<Entry>, victim: nat)
    requires Tells(l, m, told)
    ensures var n := GroupCommit(LogZoneAction(m, ZONE_RESET, victim));
      && n.pending == [] && |n.durable| > 0 && SaysOfZone(n.durable[|n.durable| - 1], 0x04, victim, l.clock)
      && n.durable == l.History() + told + [n.durable[|n.durable| - 1]]
  {
    var n := GroupCommit(LogZoneAction(m, ZONE_RESET, victim));
    assert n.durable == l.History() + told + n.durable[|n.durable| - 1..];
  }

  /** A checkpoint is durable at once, behind all that was pending, under the next number, with the whole table. */
  lemma CheckpointTold(l: Log, table: seq<PhysAddr>)
    ensures var m := WriteCheckpoint(l, table);
      && m.pending == [] && m.lsn == l.lsn + 1 && m.clock == l.clock
      && |m.durable| == |l.History()| + 1 && m.durable[..|l.History()|] == l.History()
      && var e := m.durable[|l.History()|];
        && e.Snapshot? && e.table == table && e.rec.kind == 0xFF && e.rec.lsn == l.lsn + 1 && e.rec.id == |table|
        && e.rec.oldPhys == e.rec.newPhys == 0 && e.rec.timestamp == l.clock
  {
    assert WriteCheckpoint(l, table).durable == l.History() + [CheckpointEntry(l.lsn + 1, table, l.clock)];
  }
}
