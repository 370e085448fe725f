/** What survives a crash: the device and the committed log. Recovery gives the table back, and every segment
    reads as the device holds it; so after a flush nothing is lost, and a crash inside a collection loses
    nothing either. */
module Crash {
  import opened Arith
  import opened Errors
  import opened Segment
  import opened Pool
  import opened Log
  import opened Ztl
  import opened Coherence
  import opened PoolSteps
  import opened FlushSteps
  import opened WriteSteps
  import opened GcSteps
  import opened Collect
  import opened History
  import opened FlatDisk
  import opened Run
  import opened Retention
  import I = Interleave
  import R = Recovery
  import D = Device

  // ---------- restarting ----------

  /** The zone manager of recovery: a device report, the zones of logged resets returned to the free list,
      then conditions and pointers from the device again. */
  function Remark(zm: Manager, rs: seq<Record>): (r: Manager)
    ensures |r.zones| == |zm.zones|
  {
    if rs == [] then zm else
    var m, last := Remark(zm, rs[..|rs| - 1]), rs[|rs| - 1];
    if last.kind == ZONE_RESET then MarkEmpty(m, last.id % 0x1_0000_0000).0 else m
  }

  function Reconcile(zm: Manager, d: D.Device): (r: Manager)
    ensures |r.zones| == |zm.zones|
  {
    zm.(zones := seq(|zm.zones|, i requires 0 <= i < |zm.zones| =>
      if i < |d.zones| then zm.zones[i].(cond := d.zones[i].cond, wp := d.zones[i].wp) else zm.zones[i]))
  }

  /** A layer restarted over a device with a recovered table. */
  function Restart(d: D.Device, table: Table, rs: seq<Record>, log: Log, spp: nat): Ztl {
    Ztl(Base(table, map[], Pool(Reconcile(Remark(Report(d), rs), d), d), log, spp), NOTHING, 0, false)
  }

  /** The addresses of a table lie inside the device. */
  ghost predicate Inside(d: D.Device, table: Table, spp: nat) {
    && D.Sane(d) && 0 < spp <= d.zoneSectors
    && forall seg :: 0 <= seg < |table| && table[seg] != UNMAPPED ==>
         ZoneID(table[seg]) < |d.zones| && OffsetSectors(table[seg]) + spp <= d.zoneSectors
  }

  /** The zone manager knows where the zones start, whatever its lists say. */
  ghost predicate Starts(zm: Manager, d: D.Device) {
    && |zm.zones| == |d.zones|
    && (forall z :: 0 <= z < |d.zones| ==> zm.zones[z].start == d.Start(z))
    && (forall k :: 0 <= k < |zm.freeList| ==> zm.freeList[k] < |zm.zones|)
    && (forall k :: 0 <= k < |zm.openList| ==> zm.openList[k] < |zm.zones|)
  }

  lemma {:induction false} SelectBounded(zones: seq<D.Zone>, n: nat, chosen: D.Condition -> bool)
    requires n <= |zones|
    ensures forall k :: 0 <= k < |Select(zones, n, chosen)| ==> Select(zones, n, chosen)[k] < n
  {
    if n > 0 { SelectBounded(zones, n - 1, chosen); }
  }

  lemma ReportStarts(d: D.Device)
    ensures Starts(Report(d), d)
  {
    SelectBounded(d.zones, |d.zones|, D.IsEmpty);
    SelectBounded(d.zones, |d.zones|, D.IsOpen);
  }

  lemma MarkStarts(zm: Manager, d: D.Device, z: nat)
    requires Starts(zm, d)
    ensures Starts(MarkEmpty(zm, z).0, d)
  {
  }

  lemma {:induction false} RemarkStarts(zm: Manager, d: D.Device, rs: seq<Record>)
    requires Starts(zm, d)
    ensures Starts(Remark(zm, rs), d)
  {
    hide Starts, MarkEmpty;
    if rs != [] {
      RemarkStarts(zm, d, rs[..|rs| - 1]);
      MarkStarts(Remark(zm, rs[..|rs| - 1]), d, rs[|rs| - 1].id % 0x1_0000_0000);
    }
  }

  lemma RestartReady(d: D.Device, table: Table, rs: seq<Record>, log: Log, spp: nat)
    requires D.Sane(d) && spp > 0
    ensures Ready(Restart(d, table, rs, log, spp).base)
    ensures Starts(Restart(d, table, rs, log, spp).base.pool.zm, d)
  {
    hide Report, Remark;
    ReportStarts(d);
    RemarkStarts(Report(d), d, rs);
  }

  /** A restarted layer reads, for every segment, what the device holds at the recovered address. */
  lemma RestartReads(d: D.Device, table: Table, rs: seq<Record>, log: Log, spp: nat, lba: nat, count: nat)
    requires Inside(d, table, spp)
    ensures Ready(Restart(d, table, rs, log, spp).base)
    ensures var r := Restart(d, table, rs, log, spp);
      Read(r, lba, count) == Success(Slice(r, lba, count))
  {
    RestartReady(d, table, rs, log, spp);
    var r := Restart(d, table, rs, log, spp);
    hide Restart, Starts, Inside, Content, ReadPiece;
    forall at: nat, n: nat | 0 < n && at % spp + n <= spp
      ensures ReadPiece(r, at, n) == Success(Content(r, at / spp)[at % spp..at % spp + n]) {
      RestartPiece(d, r, at, n);
    }
    ReadPieces(r, lba, count);
  }

  lemma RestartPiece(d: D.Device, r: Ztl, lba: nat, n: nat)
    requires Ready(r.base) && r.bufs == NOTHING && r.base.pool.dev == d && Starts(r.base.pool.zm, d)
    requires Inside(d, r.base.l2p, r.base.spp)
    requires 0 < n && lba % r.base.spp + n <= r.base.spp
    ensures ReadPiece(r, lba, n) == Success(Content(r, lba / r.base.spp)[lba % r.base.spp..lba % r.base.spp + n])
  {
    hide D.ReadSectors, D.Sane, ZoneID, OffsetSectors;
    var spp := r.base.spp;
    DivBounds(lba, spp);
    var seg, at := lba / spp, lba % spp;
    var phys := Get(r.base.l2p, seg);
    if phys == UNMAPPED {
      assert Content(r, seg)[at..at + n] == D.Zeros(n);
    } else {
      var z, off := ZoneID(phys), OffsetSectors(phys);
      ReadsZone(d, z, off + at, n);
      SaneAt(d, z);
      assert d.zones[z].data[off + at..off + at + n] == Content(r, seg)[at..at + n];
    }
  }

  // ---------- the log at a crash ----------

  lemma PrefixRecords(es: seq<Entry>, k: nat)
    requires k <= |es|
    ensures Records(es[..k]) == Records(es)[..k]
  {
  }

  lemma PrefixFits(b: Base, k: nat)
    requires Logged(b) && k <= |b.log.History()|
    ensures R.Fits(Records(b.log.History()[..k]), |b.l2p|, |b.pool.zm.zones|)
  {
    R.ReplayFinal(Unmapped(|b.l2p|), Records(b.log.History()), |b.pool.zm.zones|);
    PrefixRecords(b.log.History(), k);
  }

  /** The table that a prefix of numbered records describes is a snapshot for any longer prefix. */
  lemma PrefixFuzzy(table: Table, rs: seq<Record>, i: nat, lsn: nat, zones: nat)
    requires i <= |rs| && lsn == i + 1 && forall j :: 0 <= j < |rs| ==> rs[j].lsn == j + 1
    requires Replay(Unmapped(|table|), rs[..i], zones) == Success(table)
    ensures R.FuzzySnapshot(table, rs, lsn)
  {
    R.ReplayFinal(Unmapped(|table|), rs[..i], zones);
    hide Replay, R.Final;
    forall seg | 0 <= seg < |table| ensures R.Taken(table[seg], rs, lsn, seg) {
      assert R.TakenAt(table[seg], rs, lsn, seg, i);
    }
  }

  /** A checkpoint of the history is a snapshot of what comes before it. */
  lemma PrefixSnapshot(b: Base, k: nat, i: nat)
    requires Logged(b) && i < k <= |b.log.History()| && b.log.History()[i].Snapshot?
    ensures |b.log.History()[i].table| == |b.l2p|
    ensures R.FuzzySnapshot(b.log.History()[i].table, Records(b.log.History()[..k]), i + 1)
  {
    hide R.FuzzySnapshot, R.Final;
    var es := b.log.History();
    var table := es[i].table;
    R.ReplayFinal(Unmapped(|b.l2p|), Records(es[..i]), |b.pool.zm.zones|);
    hide Replay;
    assert Records(es[..i]) == Records(es[..k])[..i];
    assert forall j :: 0 <= j < k ==> Records(es[..k])[j] == es[j].rec;
    PrefixFuzzy(table, Records(es[..k]), i, i + 1, |b.pool.zm.zones|);
  }

  lemma NumberedPrefix(b: Base, k: nat)
    requires Logged(b) && k <= |b.log.History()|
    ensures R.Sound(b.log.History()[..k], |b.l2p|, |b.pool.zm.zones|)
  {
    hide Replay, R.FuzzySnapshot, R.Fits;
    var es := b.log.History()[..k];
    var rs := Records(es);
    PrefixFits(b, k);
    assert forall i :: 0 <= i < k ==> rs[i] == b.log.History()[i].rec && rs[i].lsn == i + 1;
    forall i | 0 <= i < |es| && es[i].Snapshot?
      ensures |es[i].table| == |b.l2p| && es[i].rec.lsn == i + 1 && es[i].rec.kind == CHECKPOINT
      ensures R.FuzzySnapshot(es[i].table, rs, es[i].rec.lsn) {
      PrefixSnapshot(b, k, i);
    }
  }

  /** Recovery from any prefix of the history replays that prefix. */
  lemma RecoverPrefix(b: Base, k: nat)
    requires Logged(b) && k <= |b.log.History()|
    ensures R.Recover(Unmapped(|b.l2p|), b.log.History()[..k], |b.pool.zm.zones|) ==
            Replay(Unmapped(|b.l2p|), Records(b.log.History()[..k]), |b.pool.zm.zones|)
  {
    hide Replay, R.Sound, R.Recover;
    NumberedPrefix(b, k);
    R.RecoverIsReplay(b.log.History()[..k], |b.l2p|, |b.pool.zm.zones|);
  }

  /** So it succeeds, with the addresses that the prefix describes. */
  lemma RecoverHistory(b: Base, k: nat)
    requires Logged(b) && k <= |b.log.History()|
    ensures var recovered := R.Recover(Unmapped(|b.l2p|), b.log.History()[..k], |b.pool.zm.zones|);
      && recovered == Replay(Unmapped(|b.l2p|), Records(b.log.History()[..k]), |b.pool.zm.zones|)
      && recovered.Success? && |recovered.value| == |b.l2p|
      && forall seg :: 0 <= seg < |b.l2p| ==> recovered.value[seg] == AddressAt(b, k, seg)
  {
    hide Logged, R.Recover, Replay, R.Sound, R.Final;
    NumberedPrefix(b, k);
    R.RecoverIsReplay(b.log.History()[..k], |b.l2p|, |b.pool.zm.zones|);
    R.ReplayFinal(Unmapped(|b.l2p|), Records(b.log.History()[..k]), |b.pool.zm.zones|);
  }

  /** With nothing pending, recovery gives the live table back. */
  lemma RecoverLive(b: Base)
    requires Logged(b) && b.log.pending == []
    ensures R.Recover(Unmapped(|b.l2p|), b.log.durable, |b.pool.zm.zones|) == Success(b.l2p)
  {
    hide Replay, R.Recover;
    var es := b.log.History();
    assert es == b.log.durable && es[..|es|] == es;
    RecoverPrefix(b, |es|);
  }

  // ---------- losing memory ----------

  /** The segment's sectors have reached the device. */
  ghost predicate OnMedia(s: Ztl, seg: nat) {
    var phys := Get(s.base.l2p, seg);
    phys != UNMAPPED && ZoneID(phys) < |s.base.pool.dev.zones| ==>
      s.base.pool.dev.Start(ZoneID(phys)) + OffsetSectors(phys) + s.base.spp <= s.base.pool.dev.zones[ZoneID(phys)].wp
  }

  /** A segment is on the device as it reads, or not at all. */
  lemma DeviceHolds(s: Ztl, seg: nat)
    requires Core(s)
    ensures OnDevice(s, seg) == if OnMedia(s, seg) then Content(s, seg) else D.Zeros(s.base.spp)
  {
    hide FreeIsEmpty, ZoneID, OffsetSectors, D.Sane;
    var phys := Get(s.base.l2p, seg);
    if phys != UNMAPPED {
      MappedLocated(s, seg);
      SaneAt(s.base.pool.dev, ZoneID(phys));
    } else {
      BehindUnmapped(s.base.pool.dev, s.bufs, s.base.spp);
      BehindUnmapped(s.base.pool.dev, NOTHING, s.base.spp);
    }
  }

  lemma CoreInside(s: Ztl)
    requires Core(s)
    ensures Inside(s.base.pool.dev, s.base.l2p, s.base.spp)
  {
    hide ZoneID, OffsetSectors, D.Sane, FreeIsEmpty;
    forall seg | 0 <= seg < |s.base.l2p| && s.base.l2p[seg] != UNMAPPED
      ensures ZoneID(s.base.l2p[seg]) < |s.base.pool.dev.zones|
      ensures OffsetSectors(s.base.l2p[seg]) + s.base.spp <= s.base.pool.dev.zoneSectors {
      MappedLocated(s, seg);
    }
  }

  /** With everything committed, recovery gives the live table back, and the restarted layer reads every
      segment as the device holds it. */
  lemma CrashReads(s: Ztl, rs: seq<Record>, log: Log, lba: nat, count: nat)
    requires Core(s) && Logged(s.base) && s.base.log.pending == []
    ensures R.Recover(Unmapped(|s.base.l2p|), s.base.log.durable, |s.base.pool.zm.zones|) == Success(s.base.l2p)
    ensures var r := Restart(s.base.pool.dev, s.base.l2p, rs, log, s.base.spp);
      && Ready(r.base)
      && Read(r, lba, count) == Success(Slice(r, lba, count))
      && forall seg :: Content(r, seg) == OnDevice(s, seg)
  {
    hide Core, Logged, R.Recover, Read, Remark, Report;
    CoreReady(s);
    RecoverLive(s.base);
    CoreInside(s);
    RestartReads(s.base.pool.dev, s.base.l2p, rs, log, s.base.spp, lba, count);
  }

  /** A commit makes the table durable, not the data: after a commit and a crash, recovery gives the table back,
      and the restarted layer reads a segment as it was read before exactly when the segment's sectors had reached
      the device or were zeros. A write that was acknowledged and is still buffered is lost. */
  lemma CrashKeeps(s: Ztl, rs: seq<Record>, log: Log, seg: nat, lba: nat)
    requires Core(s) && Logged(s.base) && Ready(s.base) && lba == seg * s.base.spp
    ensures R.Recover(Unmapped(|s.base.l2p|), GroupCommit(s.base.log).durable, |s.base.pool.zm.zones|) == Success(s.base.l2p)
    ensures var r := Restart(s.base.pool.dev, s.base.l2p, rs, log, s.base.spp);
      && Ready(r.base)
      && Read(s, lba, s.base.spp) == Success(Content(s, seg))
      && (Read(r, lba, s.base.spp) == Read(s, lba, s.base.spp) <==> OnMedia(s, seg) || Content(s, seg) == D.Zeros(s.base.spp))
  {
    hide Core, OnMedia, OnDevice, Content, Logged, Read, Restart, R.Recover;
    var t := s.(base := s.base.(log := GroupCommit(s.base.log)));
    LogOnly(s, t.base.log);
    CommitHistory(s.base.log);
    LoggedSame(s.base, t.base);
    CrashReads(t, rs, log, lba, s.base.spp);
    SameMedia(s, t, seg);
    DeviceHolds(s, seg);
    ReadDisk(s, lba, s.base.spp);
    DivMod(seg, 0, s.base.spp);
    RestartSpp(s.base.pool.dev, s.base.l2p, rs, log, s.base.spp);
    WholeSlice(s, seg, lba);
    WholeSlice(Restart(s.base.pool.dev, s.base.l2p, rs, log, s.base.spp), seg, lba);
  }

  lemma SameMedia(s: Ztl, t: Ztl, seg: nat)
    requires t == s.(base := s.base.(log := t.base.log))
    ensures OnDevice(t, seg) == OnDevice(s, seg)
  {
  }

  lemma WholeSlice(s: Ztl, seg: nat, lba: nat)
    requires s.base.spp > 0 && lba == seg * s.base.spp
    ensures Slice(s, lba, s.base.spp) == Content(s, seg)
  {
    hide Content, Slice;
    DivMod(seg, 0, s.base.spp);
    SlicePiece(s, lba, s.base.spp);
  }

  /** After a flush of every buffered zone, a crash is not noticed: recovery over the journal and the device
      gives the same table, and every read returns what it returned before the flush. */
  lemma FlushThenCrash(s: Ztl, zones: seq<nat>, rs: seq<Record>, log: Log, lba: nat, count: nat)
    requires Inv(s) && Ready(s.base) && (forall z :: z in s.bufs ==> z in zones) && Flush(s, zones).1 == Ok
    ensures var t := Flush(s, zones).0;
      && R.Recover(Unmapped(|t.base.l2p|), t.base.log.durable, |t.base.pool.zm.zones|) == Success(t.base.l2p)
      && t.base.l2p == s.base.l2p
      && Ready(Restart(t.base.pool.dev, t.base.l2p, rs, log, t.base.spp).base)
      && Read(Restart(t.base.pool.dev, t.base.l2p, rs, log, t.base.spp), lba, count) == Read(s, lba, count)
  {
    hide Inv, Core, Logged, Content, FlushEach, R.Recover, Read, Restart, OnDevice, Disk;
    InvReady(s);
    var t := Flush(s, zones).0;
    FlushInv(s, zones);
    FlushEachCore(s, zones);
    CommitInv(FlushState(s, zones));
    LogOnly(FlushState(s, zones), t.base.log);
    InvReady(t);
    FlushTable(s, zones);
    CrashReads(t, rs, log, lba, count);
    var r := Restart(t.base.pool.dev, t.base.l2p, rs, log, t.base.spp);
    RestartSpp(t.base.pool.dev, t.base.l2p, rs, log, t.base.spp);
    forall seg: nat ensures Content(r, seg) == Content(s, seg) {
      UnbufferedOnDevice(t, seg);
    }
    ReadDisk(s, lba, count);
    SameSlices(r, s, lba, count);
  }

  lemma SameSlices(r: Ztl, s: Ztl, lba: nat, count: nat)
    requires r.base.spp == s.base.spp > 0 && forall seg :: Content(r, seg) == Content(s, seg)
    ensures Slice(r, lba, count) == Slice(s, lba, count)
  {
    hide Content;
    var a, b := Slice(r, lba, count), Slice(s, lba, count);
    forall i | 0 <= i < count ensures a[i] == b[i] {
      assert Content(r, (lba + i) / s.base.spp) == Content(s, (lba + i) / s.base.spp);
    }
  }

  lemma RestartSpp(d: D.Device, table: Table, rs: seq<Record>, log: Log, spp: nat)
    ensures Restart(d, table, rs, log, spp).base.spp == spp
  {
  }

  lemma UnbufferedOnDevice(s: Ztl, seg: nat)
    requires forall z :: z !in s.bufs
    ensures OnDevice(s, seg) == Content(s, seg)
  {
    BehindUnbuffered(s.base.pool.dev, s.bufs, s.base.spp, Get(s.base.l2p, seg));
  }

  lemma FlushTable(s: Ztl, zones: seq<nat>)
    requires Ready(s.base) && Flush(s, zones).1 == Ok
    ensures Flush(s, zones).0 == FlushState(s, zones).(base := Flush(s, zones).0.base)
    ensures Flush(s, zones).0.base == FlushState(s, zones).base.(log := Flush(s, zones).0.base.log)
    ensures Flush(s, zones).0.base.log == GroupCommit(s.base.log)
    ensures Flush(s, zones).0.base.l2p == s.base.l2p
    ensures Flush(s, zones).0.base.log.pending == []
  {
  }

  // ---------- a crash inside a collection ----------

  /** The last migration of a batch: one update more in the log, zones in use untouched. */
  lemma MigrateLastLog(s: Ztl, victim: nat, live: seq<(nat, nat)>)
    requires Core(s) && Ready(s.base) && live != []
    requires forall i :: 0 <= i < |live| ==> StillThere(s.base, victim, live[i].0, live[i].1)
    requires forall i, j :: 0 <= i < j < |live| ==> live[i].0 != live[j].0
    requires MigrateAll(s.base, victim, live).1 == Ok
    ensures var c, m := MigrateAll(s.base, victim, live[..|live| - 1]), MigrateAll(s.base, victim, live).0;
      && c.1 == Ok && Untouched(c.0.pool, m.pool)
      && m.log.durable == c.0.log.durable && |m.log.pending| == |c.0.log.pending| + 1
      && m.log.pending[..|c.0.log.pending|] == c.0.log.pending
  {
    hide Core, Content, MigrateSegment, Behind, EncodePhysAddr, ZoneID, OffsetSectors, Untouched, LogL2PUpdate;
    var n := |live| - 1;
    MigrateAllCore(s, victim, live[..n]);
    var c := MigrateAll(s.base, victim, live[..n]).0;
    var (seg, off) := live[n];
    assert seg !in Segs(live[..n]);
    assert Get(c.l2p, seg) == Get(s.base.l2p, seg);
    MigrateSegmentCore(s.(base := c), victim, seg, off);
    UpdatePending(c.log, seg, c.l2p[seg], Destination(c));
  }

  lemma UpdatePending(l: Log, seg: nat, p: PhysAddr, q: PhysAddr)
    ensures var m := LogL2PUpdate(l, seg, p, q);
      m.durable == l.durable && |m.pending| == |l.pending| + 1 && m.pending[..|l.pending|] == l.pending
  {
  }

  /** Migrating a prefix of the list is a prefix of migrating it: the log only grows, one update a segment. */
  lemma {:induction false} MigratePrefix(s: Ztl, victim: nat, live: seq<(nat, nat)>, k: nat)
    requires Core(s) && Ready(s.base) && k <= |live|
    requires forall i :: 0 <= i < |live| ==> StillThere(s.base, victim, live[i].0, live[i].1)
    requires forall i, j :: 0 <= i < j < |live| ==> live[i].0 != live[j].0
    requires MigrateAll(s.base, victim, live).1 == Ok
    ensures MigrateAll(s.base, victim, live[..k]).1 == Ok
    ensures var m, p := MigrateAll(s.base, victim, live).0.log, MigrateAll(s.base, victim, live[..k]).0.log;
      && m.durable == p.durable == s.base.log.durable
      && |p.pending| == |s.base.log.pending| + k && |m.pending| == |s.base.log.pending| + |live|
      && m.pending[..|p.pending|] == p.pending
    ensures Untouched(MigrateAll(s.base, victim, live[..k]).0.pool, MigrateAll(s.base, victim, live).0.pool)
    decreases |live|
  {
    hide Core, MigrateAll, StillThere, Untouched;
    MigrateNothing(s.base, victim, live);
    if live == [] {
      UntouchedRefl(s.base.pool);
      assert live[..k] == live[..0] == live;
    } else {
      var n := |live| - 1;
      MigrateLastLog(s, victim, live);
      assert live[..n][..n] == live[..n];
      var c, m := MigrateAll(s.base, victim, live[..n]).0, MigrateAll(s.base, victim, live).0;
      if k <= n {
        MigratePrefix(s, victim, live[..n], k);
        assert live[..n][..k] == live[..k];
        var p := MigrateAll(s.base, victim, live[..k]).0;
        UntouchedTrans(p.pool, c.pool, m.pool);
        assert m.log.pending[..|p.log.pending|] == m.log.pending[..|c.log.pending|][..|p.log.pending|];
      } else {
        assert live[..k] == live;
        MigratePrefix(s, victim, live[..n], n);
        UntouchedRefl(m.pool);
      }
    }
  }

  /** No record about the segment waits to be committed. */
  ghost predicate NonePending(b: Base, seg: nat) {
    forall i :: |b.log.durable| <= i < |b.log.History()| ==> !R.Updates(b.log.History()[i].rec, seg)
  }

  lemma Unpending(b: Base, k: nat, seg: nat)
    requires Logged(b) && NonePending(b, seg) && seg < |b.l2p| && |b.log.durable| <= k <= |b.log.History()|
    ensures AddressAt(b, k, seg) == b.l2p[seg]
  {
    hide R.Final, Replay, Snapshots;
    LastAddress(b, seg);
    var rs := Records(b.log.History());
    assert b.log.History()[..|b.log.History()|] == b.log.History();
    PrefixRecords(b.log.History(), k);
    R.FinalSuffix(UNMAPPED, rs, k, seg);
  }

  /** Over device `d`, `table` gives each segment the data it had on the device with the first `k` entries of the
      log, except one that went to the address that means unmapped. */
  ghost predicate ResolvesAs(d: D.Device, table: Table, s: Ztl, k: nat)
    requires k <= |s.base.log.History()|
  {
    && |table| == |s.base.l2p|
    && forall seg :: 0 <= seg < |table| && (AddressAt(s.base, k, seg) != UNMAPPED ==> table[seg] != UNMAPPED) ==>
         Behind(d, NOTHING, s.base.spp, table[seg]) == Behind(s.base.pool.dev, NOTHING, s.base.spp, AddressAt(s.base, k, seg))
  }

  /** Every segment about which nothing was pending resolves to its data before the collection. */
  ghost predicate KeepsUnpending(d: D.Device, table: Table, s: Ztl) {
    && |table| == |s.base.l2p|
    && forall seg :: 0 <= seg < |table| && NonePending(s.base, seg) && (s.base.l2p[seg] != UNMAPPED ==> table[seg] != UNMAPPED) ==>
         Behind(d, NOTHING, s.base.spp, table[seg]) == OnDevice(s, seg)
  }

  lemma ResolvesKeeps(d: D.Device, table: Table, s: Ztl, k: nat)
    requires Logged(s.base) && |s.base.log.durable| <= k <= |s.base.log.History()| && ResolvesAs(d, table, s, k)
    ensures KeepsUnpending(d, table, s)
  {
    hide Logged, AddressAt, Behind, NonePending;
    forall seg | 0 <= seg < |table| && NonePending(s.base, seg) ensures AddressAt(s.base, k, seg) == s.base.l2p[seg] {
      Unpending(s.base, k, seg);
    }
  }

  /** Addresses that a crash before could recover stand for the same data as long as zones in use are untouched. */
  lemma OldTableResolves(s: Ztl, e: Pool, k: nat, table: Table)
    requires Retained(s.base) && Untouched(s.base.pool, e) && |s.base.log.durable| <= k <= |s.base.log.History()|
    requires |table| == |s.base.l2p| && forall seg :: 0 <= seg < |table| ==> table[seg] == AddressAt(s.base, k, seg)
    ensures ResolvesAs(e.dev, table, s, k)
  {
    hide AddressAt, Behind, Untouched, ZoneID;
    forall seg | 0 <= seg < |table|
      ensures Behind(e.dev, NOTHING, s.base.spp, table[seg]) == Behind(s.base.pool.dev, NOTHING, s.base.spp, AddressAt(s.base, k, seg)) {
      assert Backed(s.base.pool.dev, AddressAt(s.base, k, seg));
      BackedUntouched(s.base.pool, e, s.base.spp, AddressAt(s.base, k, seg));
    }
  }

  lemma BackedUntouched(p: Pool, e: Pool, spp: nat, phys: PhysAddr)
    requires Backed(p.dev, phys) && Untouched(p, e)
    ensures Behind(e.dev, NOTHING, spp, phys) == Behind(p.dev, NOTHING, spp, phys)
  {
    hide Behind, ZoneID, Untouched;
    if phys == UNMAPPED {
      BehindUnmapped(p.dev, NOTHING, spp);
      BehindUnmapped(e.dev, NOTHING, spp);
    } else {
      BehindUntouched(p, e, spp, phys);
    }
  }

  /** A migrated segment reads from its new place on the device as soon as all copies are made. */
  lemma MigratedReads(s: Ztl, m: Ztl, e: Pool, victim: nat, live: seq<(nat, nat)>, seg: nat)
    requires Core(s) && MovedAll(s, m, live) && Untouched(m.base.pool, e)
    requires forall i :: 0 <= i < |live| ==> StillThere(s.base, victim, live[i].0, live[i].1)
    requires seg < |s.base.l2p| && (Get(s.base.l2p, seg) != UNMAPPED ==> m.base.l2p[seg] != UNMAPPED)
    ensures Behind(e.dev, NOTHING, s.base.spp, m.base.l2p[seg]) == OnDevice(s, seg)
  {
    hide EncodePhysAddr, ZoneID, OffsetSectors, Behind, Config, Pointers, AllLocated, FreeIsEmpty;
    var phys := m.base.l2p[seg];
    if seg in Segs(live) {
      var k :| 0 <= k < |live| && live[k].0 == seg;
      var f := s.base.pool.zm.freeList;
      FreeInRange(s);
      StartUnpacks(f[|f| - 1 - k]);
      assert f[|f| - 1 - k] in f;
      FreeZoneBlank(s, f[|f| - 1 - k]);
      MappedLocated(m, seg);
      LocatedInUse(m, phys);
      BehindUntouched(m.base.pool, e, s.base.spp, phys);
      BehindUnbuffered(m.base.pool.dev, m.bufs, s.base.spp, phys);
    } else {
      assert Get(m.base.l2p, seg) == Get(s.base.l2p, seg);
      OnDeviceKept(s, m, seg);
      if phys != UNMAPPED {
        MappedLocated(m, seg);
        LocatedInUse(m, phys);
        BehindUntouched(m.base.pool, e, s.base.spp, phys);
      } else {
        BehindUnmapped(e.dev, NOTHING, s.base.spp);
        BehindUnmapped(m.base.pool.dev, NOTHING, s.base.spp);
      }
    }
  }

  /** A crash anywhere in the commit before the reset, whatever number of the pending entries reached the journal:
      recovery succeeds, and every segment resolves, on the device, to the data it had with as many of the entries
      that were pending before the collection. So every segment about which nothing was pending keeps its data,
      and once the earlier entries are through every segment does, except one that went to the unmapped address. */
  lemma CollectCrash(s: Ztl, victim: nat, order: seq<nat>, j: nat)
    requires Core(s) && Logged(s.base) && Ready(s.base) && Retained(s.base)
    requires Covers(s.base) && Ordered(s.base, victim, order)
    requires MigrateAll(s.base, victim, Gather(s.base, victim, order)).1 == Ok
    requires victim < |s.base.pool.zm.zones|
    requires j <= |s.base.log.pending| + |Gather(s.base, victim, order)| + 1
    ensures var m := MigrateAll(s.base, victim, Gather(s.base, victim, order)).0;
      var sealing := LogZoneAction(m.log, ZONE_RESET, victim);
      && |sealing.pending| == |s.base.log.pending| + |Gather(s.base, victim, order)| + 1
      && Ready(m)
      && var recovered := R.Recover(Unmapped(|s.base.l2p|), sealing.durable + sealing.pending[..j], |s.base.pool.zm.zones|);
      && recovered.Success?
      && ResolvesAs(m.pool.dev, recovered.value, s, |s.base.log.durable| + Min(j, |s.base.log.pending|))
      && KeepsUnpending(m.pool.dev, recovered.value, s)
      && (j >= |s.base.log.pending| ==>
            forall seg :: 0 <= seg < |s.base.l2p| && (s.base.l2p[seg] != UNMAPPED ==> recovered.value[seg] != UNMAPPED) ==>
              Behind(m.pool.dev, NOTHING, s.base.spp, recovered.value[seg]) == OnDevice(s, seg))
      && (j >= |s.base.log.pending| + |Gather(s.base, victim, order)| ==> recovered.value == m.l2p)
  {
    hide Core, Logged, Content, Covers, Ordered, Gather, MigrateAll, Behind, EncodePhysAddr, ZoneID, OffsetSectors, OnDevice, MovedAll, Untouched, R.Recover, LogZoneAction, Retained, AddressAt, ResolvesAs, KeepsUnpending;
    var n := |s.base.log.pending|;
    SealingReady(s, victim, order);
    if j < n {
      EarlierCut(s, victim, order, j);
      ResolvesKeeps(MigrateAll(s.base, victim, Gather(s.base, victim, order)).0.pool.dev,
                    R.Recover(Unmapped(|s.base.l2p|), s.base.log.History()[..|s.base.log.durable| + j], |s.base.pool.zm.zones|).value,
                    s, |s.base.log.durable| + j);
    } else {
      LaterCut(s, victim, order, j - n);
      var m := MigrateAll(s.base, victim, Gather(s.base, victim, order)).0;
      var sealing := LogZoneAction(m.log, ZONE_RESET, victim);
      var recovered := R.Recover(Unmapped(|s.base.l2p|), sealing.durable + sealing.pending[..j], |s.base.pool.zm.zones|);
      LiveResolves(s, m.pool.dev, recovered.value);
      ResolvesKeeps(m.pool.dev, recovered.value, s, |s.base.log.History()|);
    }
  }

  /** With all the earlier entries through, the data before is that of the live table. */
  lemma LiveResolves(s: Ztl, d: D.Device, table: Table)
    requires Logged(s.base) && |table| == |s.base.l2p|
    requires forall seg :: 0 <= seg < |s.base.l2p| && (s.base.l2p[seg] != UNMAPPED ==> table[seg] != UNMAPPED) ==>
      Behind(d, NOTHING, s.base.spp, table[seg]) == OnDevice(s, seg)
    ensures ResolvesAs(d, table, s, |s.base.log.History()|)
  {
    hide Logged, AddressAt, Behind;
    forall seg | 0 <= seg < |table| ensures AddressAt(s.base, |s.base.log.History()|, seg) == s.base.l2p[seg] {
      LastAddress(s.base, seg);
    }
  }

  lemma SealingReady(s: Ztl, victim: nat, order: seq<nat>)
    requires Core(s) && Ready(s.base) && Ordered(s.base, victim, order)
    requires MigrateAll(s.base, victim, Gather(s.base, victim, order)).1 == Ok
    ensures var m := MigrateAll(s.base, victim, Gather(s.base, victim, order)).0;
      var sealing := LogZoneAction(m.log, ZONE_RESET, victim);
      && Ready(m) && Untouched(s.base.pool, m.pool)
      && sealing.durable == s.base.log.durable
      && |sealing.pending| == |s.base.log.pending| + |Gather(s.base, victim, order)| + 1
      && sealing.pending[..|s.base.log.pending|] == s.base.log.pending
  {
    hide Core, Content, Ordered, Gather, MigrateAll, EncodePhysAddr, ZoneID, OffsetSectors, Untouched, LogZoneAction;
    var live := Gather(s.base, victim, order);
    OrderDistinct(s.base, victim, order);
    GatherLive(s.base, victim, order);
    MigrateAllCore(s, victim, live);
    var m := MigrateAll(s.base, victim, live).0;
    assert Same(s.base, m);
    ReadySame(s.base, m);
    MigratePrefix(s, victim, live, 0);
    MigrateNothing(s.base, victim, live);
    SealingPending(m, victim);
    var sealing, n, k := LogZoneAction(m.log, ZONE_RESET, victim), |s.base.log.pending|, |m.log.pending|;
    assert sealing.pending[..n] == sealing.pending[..k][..n];
  }

  lemma MigrateNothing(b: Base, victim: nat, live: seq<(nat, nat)>)
    requires Ready(b)
    ensures MigrateAll(b, victim, live[..0]) == (b, Ok)
  {
  }

  /** Only entries from before the collection got through. */
  lemma EarlierCut(s: Ztl, victim: nat, order: seq<nat>, j: nat)
    requires Core(s) && Logged(s.base) && Ready(s.base) && Retained(s.base) && Ordered(s.base, victim, order)
    requires MigrateAll(s.base, victim, Gather(s.base, victim, order)).1 == Ok && j < |s.base.log.pending|
    ensures var m := MigrateAll(s.base, victim, Gather(s.base, victim, order)).0;
      var sealing := LogZoneAction(m.log, ZONE_RESET, victim);
      && |sealing.pending| >= j
      && sealing.durable + sealing.pending[..j] == s.base.log.History()[..|s.base.log.durable| + j]
      && var recovered := R.Recover(Unmapped(|s.base.l2p|), s.base.log.History()[..|s.base.log.durable| + j], |s.base.pool.zm.zones|);
      && recovered.Success? && ResolvesAs(m.pool.dev, recovered.value, s, |s.base.log.durable| + j)
  {
    hide Core, Logged, Ordered, Gather, MigrateAll, Untouched, R.Recover, LogZoneAction, Retained, AddressAt, ResolvesAs, Replay;
    SealingReady(s, victim, order);
    var m := MigrateAll(s.base, victim, Gather(s.base, victim, order)).0;
    var sealing, n, k := LogZoneAction(m.log, ZONE_RESET, victim), |s.base.log.pending|, |s.base.log.durable| + j;
    assert sealing.pending[..j] == sealing.pending[..n][..j];
    assert s.base.log.History()[..k] == s.base.log.durable + s.base.log.pending[..j];
    RecoverHistory(s.base, k);
    OldTableResolves(s, m.pool, k, R.Recover(Unmapped(|s.base.l2p|), s.base.log.History()[..k], |s.base.pool.zm.zones|).value);
  }

  /** All of them did, and `i` entries of the collection: recovery gives the table after that many migrations. */
  lemma LaterTable(s: Ztl, victim: nat, live: seq<(nat, nat)>, i: nat)
    requires Core(s) && Logged(s.base) && Ready(s.base) && victim < |s.base.pool.zm.zones| && i <= |live| + 1
    requires forall k :: 0 <= k < |live| ==> StillThere(s.base, victim, live[k].0, live[k].1)
    requires forall i, j :: 0 <= i < j < |live| ==> live[i].0 != live[j].0
    requires MigrateAll(s.base, victim, live).1 == Ok
    ensures var sealing := LogZoneAction(MigrateAll(s.base, victim, live).0.log, ZONE_RESET, victim);
      && |sealing.pending| == |s.base.log.pending| + |live| + 1
      && R.Recover(Unmapped(|s.base.l2p|), sealing.durable + sealing.pending[..|s.base.log.pending| + i], |s.base.pool.zm.zones|)
         == Success(MigrateAll(s.base, victim, live[..Min(i, |live|)]).0.l2p)
  {
    hide Core, Logged, MigrateAll, R.Recover, LogZoneAction, ZoneID, OffsetSectors;
    var n, j := |live|, |s.base.log.pending| + i;
    MigrateAllLogged(s, victim, live);
    var m := MigrateAll(s.base, victim, live).0;
    assert Same(s.base, m);
    ReadySame(s.base, m);
    var sealing := LogZoneAction(m.log, ZONE_RESET, victim);
    var k := Min(i, n);
    MigratePrefix(s, victim, live, k);
    MigratePrefix(s, victim, live, n);
    MigrateAllLogged(s, victim, live[..k]);
    var mk := MigrateAll(s.base, victim, live[..k]).0;
    SealingPending(m, victim);
    assert live[..n] == live;
    if i <= n {
      assert sealing.pending[..j] == mk.log.pending;
      var es := mk.log.History();
      assert es[..|es|] == es;
      RecoverPrefix(mk, |es|);
      LoggedReplay(mk);
    } else {
      var c := m.(log := sealing);
      LoggedAction(m, c, ZONE_RESET, victim);
      assert sealing.pending[..j] == sealing.pending;
      var es := c.log.History();
      assert es[..|es|] == es;
      RecoverPrefix(c, |es|);
      LoggedReplay(c);
    }
  }

  /** And each segment resolves to what the device held for it. */
  lemma LaterCut(s: Ztl, victim: nat, order: seq<nat>, i: nat)
    requires Core(s) && Logged(s.base) && Ready(s.base)
    requires Covers(s.base) && Ordered(s.base, victim, order)
    requires MigrateAll(s.base, victim, Gather(s.base, victim, order)).1 == Ok
    requires victim < |s.base.pool.zm.zones|
    requires i <= |Gather(s.base, victim, order)| + 1
    ensures var m := MigrateAll(s.base, victim, Gather(s.base, victim, order)).0;
      var sealing := LogZoneAction(m.log, ZONE_RESET, victim);
      && |sealing.pending| == |s.base.log.pending| + |Gather(s.base, victim, order)| + 1
      && var recovered := R.Recover(Unmapped(|s.base.l2p|), sealing.durable + sealing.pending[..|s.base.log.pending| + i], |s.base.pool.zm.zones|);
      && recovered.Success?
      && |recovered.value| == |s.base.l2p|
      && (forall seg :: 0 <= seg < |s.base.l2p| && (s.base.l2p[seg] != UNMAPPED ==> recovered.value[seg] != UNMAPPED) ==>
            Behind(m.pool.dev, NOTHING, s.base.spp, recovered.value[seg]) == OnDevice(s, seg))
      && (i >= |Gather(s.base, victim, order)| ==> recovered.value == m.l2p)
  {
    hide Core, Logged, Content, Covers, Ordered, Gather, MigrateAll, Behind, EncodePhysAddr, ZoneID, OffsetSectors, OnDevice, MovedAll, Untouched, R.Recover, LogZoneAction;
    var live := Gather(s.base, victim, order);
    OrderDistinct(s.base, victim, order);
    GatherLive(s.base, victim, order);
    MigrateAllCore(s, victim, live);
    LaterTable(s, victim, live, i);
    var m, k := MigrateAll(s.base, victim, live).0, Min(i, |live|);
    MigratePrefix(s, victim, live, k);
    MigrateAllCore(s, victim, live[..k]);
    var mk := MigrateAll(s.base, victim, live[..k]).0;
    assert live[..|live|] == live;
    forall seg | 0 <= seg < |s.base.l2p| && (s.base.l2p[seg] != UNMAPPED ==> mk.l2p[seg] != UNMAPPED)
      ensures Behind(m.pool.dev, NOTHING, s.base.spp, mk.l2p[seg]) == OnDevice(s, seg) {
      assert forall i :: 0 <= i < k ==> live[..k][i] == live[i];
      MigratedReads(s, s.(base := mk), m.pool, victim, live[..k], seg);
    }
  }

  lemma LoggedReplay(b: Base)
    requires Logged(b)
    ensures Replay(Unmapped(|b.l2p|), Records(b.log.History()), |b.pool.zm.zones|) == Success(b.l2p)
  {
  }

  lemma ReadySame(b: Base, c: Base)
    requires Ready(b) && Same(b, c)
    ensures Ready(c)
  {
  }

  lemma SealingPending(b: Base, victim: nat)
    ensures var l := LogZoneAction(b.log, ZONE_RESET, victim);
      && l.durable == b.log.durable && |l.pending| == |b.log.pending| + 1 && l.pending[..|b.log.pending|] == b.log.pending
  {
  }

  // ---------- a crash before the commit ----------

  /** A collection begun and taken some steps on: checks, reads, claims, log records, copies, swaps and the rest. */
  function CollectorRun(victim: nat, order: seq<nat>, n: nat): (acts: seq<I.Action>)
    ensures |acts| == n + 1
  {
    [I.Begin(victim, order)] + seq(n, i => I.Action.Collector)
  }

  /** Zones in use since the start are untouched, and the zone a copy is about to go to was not one of them. */
  ghost predicate Aside(p: Pool, w: I.World) {
    && Untouched(p, w.s.base.pool)
    && (w.gc.Migrating? && w.gc.live != [] && (w.gc.stage.Announcing? || w.gc.stage.Copying?) ==>
          w.gc.stage.move.zone < |p.dev.zones| && p.dev.zones[w.gc.stage.move.zone].cond == D.Empty)
  }

  lemma ClaimAside(p: Pool, w: I.World)
    requires I.Steady(w) && Ready(w.s.base) && Aside(p, w)
    requires w.gc.Migrating? && w.gc.live != [] && w.gc.stage.Claiming?
    ensures Aside(p, I.MigrationStep(w)) && I.MigrationStep(w).s.base.log.durable == w.s.base.log.durable
  {
    hide Core, Claim, Content, Allocated, Held, Quiet, Collect.Covers, Untouched;
    var seg, from, data := w.gc.live[0].0, w.gc.stage.from, w.gc.stage.data;
    FetchedLength(w);
    ClaimCore(w.s, seg, from, data);
    var (c, claim) := Claim(w.s.base, seg, from, data);
    UntouchedTrans(p, w.s.base.pool, c.pool);
    if claim.Success? {
      AllocatedZone(w.s.base.pool, c.pool, claim.value.zone);
      EmptySince(p, w.s.base.pool, claim.value.zone);
    } else {
      UnfrozenAside(p, c, w.gc.victim);
    }
  }

  lemma AllocatedZone(p: Pool, q: Pool, z: nat)
    requires Allocated(p, q, z)
    ensures z < |p.dev.zones|
  {
  }

  lemma EmptySince(p: Pool, q: Pool, z: nat)
    requires Untouched(p, q) && z < |q.dev.zones| && q.dev.zones[z].cond == D.Empty
    ensures z < |p.dev.zones| && p.dev.zones[z].cond == D.Empty
  {
  }

  lemma UnfrozenAside(p: Pool, b: Base, victim: nat)
    requires Untouched(p, b.pool)
    ensures Untouched(p, Unfreeze(b, victim).pool) && Unfreeze(b, victim).log == b.log
  {
  }

  lemma FetchedLength(w: I.World)
    requires I.Steady(w) && w.gc.Migrating? && w.gc.live != [] && w.gc.stage.Claiming?
    ensures |w.gc.stage.data| == w.s.base.spp
  {
    hide Core, Collect.Covers, ZoneID, OffsetSectors;
  }

  lemma CopyAside(p: Pool, w: I.World)
    requires I.Steady(w) && Ready(w.s.base) && Aside(p, w)
    requires w.gc.Migrating? && w.gc.live != [] && w.gc.stage.Copying?
    ensures Aside(p, I.MigrationStep(w)) && I.MigrationStep(w).s.base.log.durable == w.s.base.log.durable
  {
    hide Core, Copy, Content, Collect.Covers, D.Store, D.Sane, Copied;
    var m := w.gc.stage.move;
    CopyHeld(w);
    CopyCore(w.s, m);
    CopyLog(w.s.base, m);
  }

  lemma CopyHeld(w: I.World)
    requires I.Steady(w) && w.gc.Migrating? && w.gc.live != [] && w.gc.stage.Copying?
    ensures Held(w.s, w.gc.stage.move)
  {
    hide Core, Collect.Covers, ZoneID, OffsetSectors;
  }

  lemma CopyLog(b: Base, m: Move)
    requires Ready(b)
    ensures Copy(b, m).0.log == b.log
  {
  }

  /** A step of the collector before its commit. */
  lemma CollectorAside(p: Pool, w: I.World)
    requires I.Steady(w) && Ready(w.s.base) && Aside(p, w) && w.gc.Migrating?
    ensures Aside(p, I.CollectorStep(w)) && I.CollectorStep(w).s.base.log.durable == w.s.base.log.durable
  {
    hide I.Steady, Untouched, Fetch, StillThere, Claim, Copy, ZoneID, OffsetSectors;
    if w.gc.live != [] {
      match w.gc.stage {
        case Claiming(_, _) => ClaimAside(p, w);
        case Copying(_) => CopyAside(p, w);
        case _ => StageAside(p, w);
      }
    }
  }

  lemma StageAside(p: Pool, w: I.World)
    requires Ready(w.s.base) && Aside(p, w) && w.gc.Migrating? && w.gc.live != [] && !w.gc.stage.Claiming? && !w.gc.stage.Copying?
    ensures Aside(p, I.MigrationStep(w)) && I.MigrationStep(w).s.base.log.durable == w.s.base.log.durable
  {
    hide Fetch, StillThere, ZoneID, OffsetSectors, IncrementValidSegs, DecrementValidSegs;
    var v := I.MigrationStep(w);
    assert v.s.base.pool.dev == w.s.base.pool.dev;
    hide I.MigrationStep;
  }

  lemma CollectorRunMore(victim: nat, order: seq<nat>, n: nat)
    ensures CollectorRun(victim, order, n + 1)[..n + 1] == CollectorRun(victim, order, n)
    ensures CollectorRun(victim, order, n + 1)[n + 1] == I.Action.Collector
    ensures CollectorRun(victim, order, 0)[..0] == [] && CollectorRun(victim, order, 0)[0] == I.Begin(victim, order)
  {
  }

  /** Before its commit a collection touches no zone in use and commits nothing, whichever step it has come to. */
  lemma {:induction false} RunAside(s: Ztl, victim: nat, order: seq<nat>, n: nat)
    requires I.Steady(I.World(s, I.Idle)) && Ready(s.base)
    requires I.AllAllowed(I.World(s, I.Idle), CollectorRun(victim, order, n))
    ensures var v := I.After(I.World(s, I.Idle), CollectorRun(victim, order, n));
      v.gc.Migrating? || v.gc.Sealing? ==> Aside(s.base.pool, v) && v.s.base.log.durable == s.base.log.durable
    ensures n > 0 ==>
      var u := I.After(I.World(s, I.Idle), CollectorRun(victim, order, n - 1));
      I.After(I.World(s, I.Idle), CollectorRun(victim, order, n)).gc.Sealing? ==> u.gc.Migrating?
  {
    hide I.Steady, I.Allowed, Aside, I.MigrationStep, CollectorRun;
    var w := I.World(s, I.Idle);
    if n == 0 {
      CollectorRunMore(victim, order, 0);
      var acts := CollectorRun(victim, order, 0);
      assert I.After(w, acts) == I.Act(I.After(w, acts[..0]), acts[0]).0;
      FreezeAside(s, victim, order);
    } else {
      CollectorRunMore(victim, order, n - 1);
      var acts := CollectorRun(victim, order, n);
      RunAside(s, victim, order, n - 1);
      I.CollectorInvisible(w, CollectorRun(victim, order, n - 1));
      var u := I.After(w, CollectorRun(victim, order, n - 1));
      assert I.After(w, acts) == I.Act(u, acts[n]).0;
      if u.gc.Migrating? { CollectorAside(s.base.pool, u); }
      MigratingNext(u);
    }
  }

  lemma MigratingNext(u: I.World)
    requires Ready(u.s.base)
    ensures var v := I.CollectorStep(u).gc; v.Migrating? || v.Sealing? ==> u.gc.Migrating?
  {
  }

  lemma FreezeAside(s: Ztl, victim: nat, order: seq<nat>)
    requires Ready(s.base)
    ensures var v := I.Act(I.World(s, I.Idle), I.Begin(victim, order)).0;
      Aside(s.base.pool, v) && v.s.base.log.durable == s.base.log.durable
  {
    hide Gather;
    UntouchedRefl(s.base.pool);
  }

  /** A crash at any step of a collection before its commit, in the middle of a migration too: the journal holds
      what it held, and every segment resolves to the data it had with the durable entries alone, which is its
      data before the collection if nothing about it was pending. */
  lemma CollectCrashEarly(s: Ztl, victim: nat, order: seq<nat>, n: nat)
    requires I.Steady(I.World(s, I.Idle)) && Logged(s.base) && Ready(s.base) && Retained(s.base)
    requires I.AllAllowed(I.World(s, I.Idle), CollectorRun(victim, order, n))
    requires var gc := I.After(I.World(s, I.Idle), CollectorRun(victim, order, n)).gc; gc.Migrating? || gc.Sealing?
    ensures var m := I.After(I.World(s, I.Idle), CollectorRun(victim, order, n)).s.base;
      var recovered := R.Recover(Unmapped(|s.base.l2p|), m.log.durable, |s.base.pool.zm.zones|);
      && recovered.Success?
      && ResolvesAs(m.pool.dev, recovered.value, s, |s.base.log.durable|)
      && KeepsUnpending(m.pool.dev, recovered.value, s)
  {
    hide I.Steady, I.AllAllowed, I.After, Logged, Retained, AddressAt, ResolvesAs, KeepsUnpending, R.Recover, Replay, Untouched, CollectorRun;
    RunAside(s, victim, order, n);
    var m := I.After(I.World(s, I.Idle), CollectorRun(victim, order, n)).s.base;
    var k := |s.base.log.durable|;
    assert s.base.log.History()[..k] == s.base.log.durable;
    RecoverHistory(s.base, k);
    var table := R.Recover(Unmapped(|s.base.l2p|), m.log.durable, |s.base.pool.zm.zones|).value;
    OldTableResolves(s, m.pool, k, table);
    ResolvesKeeps(m.pool.dev, table, s, k);
  }

  /** When the reset is issued the committed journal replays to a table with no entry in the victim, so the
      reset takes nothing from any segment. */
  lemma ResetAfterCommit(s: Ztl, victim: nat, order: seq<nat>, seg: nat)
    requires Core(s) && Logged(s.base) && Ready(s.base)
    requires Covers(s.base) && Ordered(s.base, victim, order)
    requires victim < |s.base.pool.dev.zones| && s.base.pool.dev.zones[victim].cond != D.Empty
    requires MigrateAll(s.base, victim, Gather(s.base, victim, order)).1 == Ok
    ensures Ready(Seal(MigrateAll(s.base, victim, Gather(s.base, victim, order)).0, victim))
    ensures var sealed := Seal(MigrateAll(s.base, victim, Gather(s.base, victim, order)).0, victim);
      var recovered := R.Recover(Unmapped(|s.base.l2p|), sealed.log.durable, |s.base.pool.zm.zones|);
      && sealed.log.pending == []
      && recovered == Success(sealed.l2p)
      && NoneIn(sealed.l2p, victim)
      && Behind(Reclaim(sealed, victim).0.pool.dev, NOTHING, s.base.spp, Get(sealed.l2p, seg)) ==
         Behind(sealed.pool.dev, NOTHING, s.base.spp, Get(sealed.l2p, seg))
  {
    hide Core, Logged, Content, Covers, Ordered, Gather, MigrateAll, Behind, EncodePhysAddr, ZoneID, OffsetSectors, OnDevice, MovedAll, Untouched, R.Recover, LogZoneAction, NoneIn, Evacuated, Reclaim, Seal;
    var live := Gather(s.base, victim, order);
    OrderDistinct(s.base, victim, order);
    GatherLive(s.base, victim, order);
    MigrateAllLogged(s, victim, live);
    MigrationOutcome(s, victim, order);
    var m := MigrateAll(s.base, victim, live).0;
    EvacuatedNone(s, s.(base := m), victim);
    ReadySame(s.base, m);
    assert victim < |m.pool.zm.zones| by { CoreSizes(s); }
    SealLogged(m, victim);
    var sealed := Seal(m, victim);
    SealCommits(m, victim);
    RecoverLive(sealed);
    LogOnly(s.(base := m), sealed.log);
    var t := s.(base := sealed);
    UntouchedZones(s.base.pool, m.pool);
    ReclaimMoves(t, victim);
    UnvictimBehind(sealed, Reclaim(sealed, victim).0, victim, seg);
  }

  lemma UntouchedZones(p: Pool, q: Pool)
    requires Untouched(p, q)
    ensures |q.dev.zones| == |p.dev.zones|
  {
  }

  lemma SealCommits(b: Base, victim: nat)
    ensures Seal(b, victim).log.pending == [] && Seal(b, victim) == b.(log := Seal(b, victim).log)
  {
  }

  lemma UnvictimBehind(b: Base, c: Base, victim: nat, seg: nat)
    requires victim < |b.pool.dev.zones| && NoneIn(b.l2p, victim) && Recycled(b.pool, c.pool, victim)
    ensures Behind(c.pool.dev, NOTHING, b.spp, Get(b.l2p, seg)) == Behind(b.pool.dev, NOTHING, b.spp, Get(b.l2p, seg))
  {
    hide D.Sane, ZoneID, OffsetSectors;
    var phys := Get(b.l2p, seg);
    if phys != UNMAPPED {
      BehindSame(b.pool.dev, c.pool.dev, NOTHING, NOTHING, b.spp, phys);
    }
  }
}
