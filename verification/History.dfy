/** The log determines the table: replaying all of it, durable and pending, over an unmapped table gives the
    live one, in every sequential run. */
module History {
  import opened Errors
  import opened Segment
  import opened Pool
  import opened Log
  import opened Ztl
  import opened Coherence
  import opened PoolSteps
  import opened FlushSteps
  import opened WriteSteps
  import opened GcSteps
  import opened Collect
  import D = Device

  /** Entries carry consecutive sequence numbers from 1. */
  ghost predicate Numbered(l: Log) {
    && l.lsn == |l.History()|
    && forall i :: 0 <= i < |l.History()| ==> l.History()[i].rec.lsn == i + 1
  }

  /** Every checkpoint in a history holds the table that the entries before it describe. */
  ghost predicate Snapshots(es: seq<Entry>, n: nat, zones: nat) {
    forall i :: 0 <= i < |es| && es[i].Snapshot? ==>
      es[i].rec.kind == CHECKPOINT && Replay(Unmapped(n), Records(es[..i]), zones) == Success(es[i].table)
  }

  /** Every update in a history names, as the old address of its segment, the one that the entries before it give. */
  ghost predicate Chained(es: seq<Entry>, n: nat, zones: nat) {
    forall i :: 0 <= i < |es| && es[i].rec.kind == L2P_UPDATE ==>
      var before := Replay(Unmapped(n), Records(es[..i]), zones);
      before.Success? && es[i].rec.id < |before.value| && es[i].rec.oldPhys == before.value[es[i].rec.id]
  }

  ghost predicate Logged(b: Base) {
    && Chained(b.log.History(), |b.l2p|, |b.pool.zm.zones|)
    && Numbered(b.log)
    && Snapshots(b.log.History(), |b.l2p|, |b.pool.zm.zones|)
    && |b.pool.zm.zones| <= ZONE_SPAN
    && Replay(Unmapped(|b.l2p|), Records(b.log.History()), |b.pool.zm.zones|) == Success(b.l2p)
  }

  lemma RecordsSnoc(es: seq<Entry>, e: Entry)
    ensures Records(es + [e]) == Records(es) + [e.rec]
  {
  }

  lemma SnapshotsSnoc(es: seq<Entry>, e: Entry, n: nat, zones: nat)
    requires Snapshots(es, n, zones)
    requires e.Snapshot? ==> e.rec.kind == CHECKPOINT && Replay(Unmapped(n), Records(es), zones) == Success(e.table)
    ensures Snapshots(es + [e], n, zones)
  {
    forall i | 0 <= i < |es| + 1 ensures (es + [e])[..i] == if i <= |es| then es[..i] else es + [e] {
    }
    assert es[..|es|] == es;
  }

  lemma ChainedSnoc(es: seq<Entry>, e: Entry, n: nat, zones: nat)
    requires Chained(es, n, zones)
    requires e.rec.kind == L2P_UPDATE ==>
      var before := Replay(Unmapped(n), Records(es), zones);
      before.Success? && e.rec.id < |before.value| && e.rec.oldPhys == before.value[e.rec.id]
    ensures Chained(es + [e], n, zones)
  {
    forall i | 0 <= i < |es| + 1 ensures (es + [e])[..i] == if i <= |es| then es[..i] else es + [e] {
    }
    assert es[..|es|] == es;
  }

  lemma NumberedSnoc(l: Log, m: Log, e: Entry)
    requires Numbered(l) && m.History() == l.History() + [e] && m.lsn == l.lsn + 1 && e.rec.lsn == m.lsn
    ensures Numbered(m)
  {
  }

  /** Appending an entry whose replay takes the table where it went. */
  lemma LoggedAppend(b: Base, c: Base, e: Entry)
    requires Logged(b) && |c.l2p| == |b.l2p| && |c.pool.zm.zones| == |b.pool.zm.zones|
    requires c.log.History() == b.log.History() + [e] && c.log.lsn == b.log.lsn + 1 && e.rec.lsn == c.log.lsn
    requires ReplayOne(b.l2p, e.rec, |b.pool.zm.zones|) == Success(c.l2p)
    requires e.Snapshot? ==> e.rec.kind == CHECKPOINT && e.table == b.l2p
    requires e.rec.kind == L2P_UPDATE ==> e.rec.id < |b.l2p| && e.rec.oldPhys == b.l2p[e.rec.id]
    ensures Logged(c)
  {
    hide Replay, ReplayOne, Snapshots, Records, Numbered, Chained;
    ChainedSnoc(b.log.History(), e, |b.l2p|, |b.pool.zm.zones|);
    NumberedSnoc(b.log, c.log, e);
    SnapshotsSnoc(b.log.History(), e, |b.l2p|, |b.pool.zm.zones|);
    RecordsSnoc(b.log.History(), e);
    ReplaySnoc(Unmapped(|b.l2p|), Records(b.log.History()), e.rec, |b.pool.zm.zones|);
  }

  lemma AppendHistory(l: Log, kind: nat, id: nat, oldPhys: PhysAddr, newPhys: PhysAddr)
    ensures Append(l, kind, id, oldPhys, newPhys).History() ==
            l.History() + [Plain(Record(kind, l.lsn + 1, id, oldPhys, newPhys, l.clock))]
  {
  }

  lemma LoggedUpdate(b: Base, c: Base, seg: nat, oldPhys: PhysAddr, p: PhysAddr)
    requires Logged(b) && seg < |b.l2p| && c.l2p == b.l2p[seg := p] && |c.pool.zm.zones| == |b.pool.zm.zones|
    requires c.log == LogL2PUpdate(b.log, seg, oldPhys, p) && oldPhys == b.l2p[seg]
    ensures Logged(c)
  {
    hide Replay, Logged;
    AppendHistory(b.log, L2P_UPDATE, seg, oldPhys, p);
    LoggedAppend(b, c, Plain(Record(L2P_UPDATE, b.log.lsn + 1, seg, oldPhys, p, b.log.clock)));
  }

  lemma LoggedAction(b: Base, c: Base, kind: nat, z: nat)
    requires Logged(b) && c.l2p == b.l2p && |c.pool.zm.zones| == |b.pool.zm.zones|
    requires kind == ZONE_OPEN || (kind == ZONE_RESET && z < |b.pool.zm.zones|)
    requires c.log == LogZoneAction(b.log, kind, z)
    ensures Logged(c)
  {
    hide Replay;
    AppendHistory(b.log, kind, z, UNMAPPED, UNMAPPED);
    LoggedAppend(b, c, Plain(Record(kind, b.log.lsn + 1, z, UNMAPPED, UNMAPPED, b.log.clock)));
  }

  /** Commits, ticks and moves of the pool leave the history alone. */
  lemma LoggedSame(b: Base, c: Base)
    requires Logged(b) && c.l2p == b.l2p && |c.pool.zm.zones| == |b.pool.zm.zones|
    requires c.log.History() == b.log.History() && c.log.lsn == b.log.lsn
    ensures Logged(c)
  {
    hide Replay;
  }

  lemma CommitHistory(l: Log)
    ensures GroupCommit(l).History() == l.History() && GroupCommit(l).lsn == l.lsn
  {
  }

  lemma LoggedCheckpoint(b: Base)
    requires Logged(b)
    ensures Logged(b.(log := WriteCheckpoint(b.log, b.l2p)))
  {
    hide Replay, Logged;
    var e := CheckpointEntry(b.log.lsn + 1, b.l2p, b.log.clock);
    var mid := b.log.(lsn := b.log.lsn + 1, pending := b.log.pending + [e]);
    assert mid.History() == b.log.History() + [e];
    LoggedAppend(b, b.(log := mid), e);
    CommitHistory(mid);
    LoggedSame(b.(log := mid), b.(log := GroupCommit(mid)));
  }

  // ---------- operations ----------

  lemma GetWriteZoneLogged(s: Ztl)
    requires Ready(s.base) && Logged(s.base)
    ensures Logged(GetWriteZone(s).0.base)
  {
    hide Logged, AllocateFree, LogZoneAction;
    var (t, zone) := GetWriteZone(s);
    if !(s.curOpen && Remaining(s) >= s.base.spp) && zone.Success? {
      LoggedAction(s.base, t.base, ZONE_OPEN, zone.value);
    } else {
      LoggedSame(s.base, t.base);
    }
  }

  lemma WriteSegmentLogged(s: Ztl, seg: nat, data: seq<D.Sector>)
    requires Core(s) && Logged(s.base) && seg < |s.base.l2p|
    requires WriteSegment(s, seg, data).1 == Ok
    ensures Logged(WriteSegment(s, seg, data).0.base)
  {
    hide Core, Logged, WriteInto, GetWriteZone, FlushZone, LogL2PUpdate, LogZoneAction;
    CoreReady(s);
    GetWriteZoneLogged(s);
    GetWriteZoneTable(s);
    var (s1, zone) := GetWriteZone(s);
    WriteIntoExists(s1, zone.value, seg, data);
    WriteIntoMoves(s1, zone.value, seg, data);
    var s2 := WriteInto(s1, zone.value, seg, data).0;
    LoggedUpdate(s1.base, s2.base, seg, Get(s1.base.l2p, seg), NextAddr(s1.base.pool.zm, zone.value));
    LoggedSame(s2.base, FlushIfFull(s2, zone.value).0.base);
  }

  lemma GetWriteZoneTable(s: Ztl)
    requires Ready(s.base)
    ensures GetWriteZone(s).0.base.l2p == s.base.l2p
  {
  }

  lemma WriteIntoExists(s: Ztl, z: nat, seg: nat, data: seq<D.Sector>)
    requires Ready(s.base) && WriteInto(s, z, seg, data).1 == Ok
    ensures z < |s.base.pool.zm.zones|
  {
  }

  lemma {:induction false} UnmapRangeLogged(s: Ztl, first: nat, end: nat)
    requires Ready(s.base) && Logged(s.base)
    ensures Logged(UnmapRange(s.base, first, end))
    decreases end - first
  {
    hide Logged, LogL2PUpdate, ZoneID, OffsetSectors, EncodePhysAddr;
    if first < end {
      UnmapRangeLogged(s, first, end - 1);
      var m := UnmapRange(s.base, first, end - 1);
      var oldPhys := Get(m.l2p, end - 1);
      if oldPhys != UNMAPPED {
        LoggedUpdate(m, UnmapSegment(m, end - 1), end - 1, oldPhys, UNMAPPED);
      }
    }
  }

  lemma {:induction false} MigrateAllLogged(s: Ztl, victim: nat, live: seq<(nat, nat)>)
    requires Core(s) && Ready(s.base) && Logged(s.base)
    requires forall k :: 0 <= k < |live| ==> StillThere(s.base, victim, live[k].0, live[k].1)
    requires forall i, j :: 0 <= i < j < |live| ==> live[i].0 != live[j].0
    requires MigrateAll(s.base, victim, live).1 == Ok
    ensures Logged(MigrateAll(s.base, victim, live).0)
  {
    hide Core, Logged, Content, MigrateSegment, Behind, EncodePhysAddr, ZoneID, OffsetSectors, LogL2PUpdate;
    if live != [] {
      var n := |live| - 1;
      MigrateAllLogged(s, victim, live[..n]);
      MigrateAllCore(s, victim, live[..n]);
      var c := MigrateAll(s.base, victim, live[..n]).0;
      assert live[n].0 !in Segs(live[..n]);
      assert Get(c.l2p, live[n].0) == Get(s.base.l2p, live[n].0);
      MigrateSegmentCore(s.(base := c), victim, live[n].0, live[n].1);
      LoggedUpdate(c, MigrateSegment(c, victim, live[n].0, live[n].1).0, live[n].0, c.l2p[live[n].0], Destination(c));
    }
  }

  lemma SealLogged(b: Base, victim: nat)
    requires Logged(b) && victim < |b.pool.zm.zones|
    ensures Logged(Seal(b, victim))
  {
    hide Logged, LogZoneAction;
    var l := LogZoneAction(b.log, ZONE_RESET, victim);
    LoggedAction(b, b.(log := l), ZONE_RESET, victim);
    CommitHistory(l);
    LoggedSame(b.(log := l), Seal(b, victim));
  }

  lemma CollectZoneLogged(s: Ztl, victim: nat, order: seq<nat>)
    requires Core(s) && Logged(s.base) && Covers(s.base) && Ordered(s.base, victim, order)
    requires victim < |s.base.pool.dev.zones| && s.base.pool.dev.zones[victim].cond != D.Empty
    requires CollectZone(s.base, victim, order).1 == Ok
    ensures Logged(CollectZone(s.base, victim, order).0)
  {
    hide Core, Logged, Content, CollectZone, MigrateAll, Gather, Reclaim, Covers, Ordered, Seal;
    CoreReady(s);
    CoreSizes(s);
    CollectUnfolds(s.base, victim, order);
    var c := s.(base := Freeze(s.base, victim));
    FrozenCore(s, c);
    CoversFrozen(s.base, victim, victim, order);
    LoggedSame(s.base, c.base);
    CoreReady(c);
    OrderDistinct(c.base, victim, order);
    GatherLive(c.base, victim, order);
    MigrateAllLogged(c, victim, Gather(s.base, victim, order));
    var m := MigrateAll(c.base, victim, Gather(s.base, victim, order)).0;
    SealLogged(m, victim);
    var sealed := Seal(m, victim);
    ReclaimLog(sealed, victim);
    LoggedSame(sealed, Unfreeze(Reclaim(sealed, victim).0, victim));
  }

  lemma ReclaimLog(b: Base, victim: nat)
    requires Ready(b)
    ensures Reclaim(b, victim).0.log == b.log && Reclaim(b, victim).0.l2p == b.l2p
  {
  }
}
