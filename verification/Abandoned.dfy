/** The log while the collector steps between foreground operations. A migration is logged before its swap, so one
    that is abandoned, its copy refused or its swap lost, leaves a record that no table entry follows. Which record
    of a segment comes last decides: replay of the history gives each segment its live address, unless its last
    record is an abandoned announcement, and then it gives the place of the abandoned copy. */
module Abandoned {
  import opened Errors
  import opened Segment
  import opened Pool
  import opened Log
  import opened Ztl
  import opened Coherence
  import opened FlushSteps
  import opened WriteSteps
  import opened GcSteps
  import opened Collect
  import opened Bookkeeping
  import opened History
  import opened Interleave
  import R = Recovery
  import D = Device

  // ---------- announcements ----------

  /** A migration is logged and its swap not yet tried. */
  predicate InFlight(gc: Collector) {
    gc.Migrating? && gc.live != [] && (gc.stage.Copying? || gc.stage.Swapping?)
  }

  predicate Settles(gc: Collector) {
    gc.Migrating? && gc.live != [] && gc.stage.Settling?
  }

  predicate Announces(gc: Collector, a: Action) {
    a == Action.Collector && gc.Migrating? && gc.live != [] && gc.stage.Announcing?
  }

  /** The number of the latest announcement. */
  function Mark(w: World, acts: seq<Action>): nat
    requires Ready(w.s.base)
  {
    if acts == [] then 0 else
    var v, a := After(w, acts[..|acts| - 1]), acts[|acts| - 1];
    if Announces(v.gc, a) then v.s.base.log.lsn + 1 else Mark(w, acts[..|acts| - 1])
  }

  /** The numbers of the announcements whose migration was abandoned: the copy was refused or the swap was lost. */
  function Lost(w: World, acts: seq<Action>): set<nat>
    requires Ready(w.s.base)
  {
    if acts == [] then {} else
    var last := |acts| - 1;
    var v := After(w, acts[..last]);
    Lost(w, acts[..last]) + Losing(v.gc, Act(v, acts[last]).0.gc, Mark(w, acts[..last]))
  }

  function Losing(gc: Collector, gc': Collector, mark: nat): set<nat> {
    if InFlight(gc) && !InFlight(gc') && !Settles(gc') then {mark} else {}
  }

  // ---------- the last record of a segment ----------

  function LastOf(rs: seq<Record>, seg: nat): Option<Record> {
    if rs == [] then None
    else if R.Updates(rs[|rs| - 1], seg) then Some(rs[|rs| - 1])
    else LastOf(rs[..|rs| - 1], seg)
  }

  lemma LastOfSnoc(rs: seq<Record>, r: Record, seg: nat)
    ensures LastOf(rs + [r], seg) == if R.Updates(r, seg) then Some(r) else LastOf(rs, seg)
  {
    assert (rs + [r])[..|rs|] == rs;
  }

  lemma {:induction false} LastOfIs(rs: seq<Record>, seg: nat) returns (i: nat)
    requires LastOf(rs, seg).Some?
    ensures i < |rs| && rs[i] == LastOf(rs, seg).value && R.Updates(rs[i], seg)
  {
    if R.Updates(rs[|rs| - 1], seg) {
      i := |rs| - 1;
    } else {
      i := LastOfIs(rs[..|rs| - 1], seg);
    }
  }

  lemma {:induction false} FinalIsLast(v: PhysAddr, rs: seq<Record>, seg: nat)
    ensures R.Final(v, rs, seg) == match LastOf(rs, seg) case None => v case Some(r) => r.newPhys % TWO_64
  {
    if rs != [] { FinalIsLast(v, rs[..|rs| - 1], seg); }
  }

  // ---------- the invariant ----------

  /** A segment's live address is that of its last record, unless that record announces a migration still in
      flight or one that was abandoned. */
  predicate Explained(t: Table, rs: seq<Record>, gc: Collector, lost: set<nat>, mark: nat, seg: nat)
    requires seg < |t|
  {
    match LastOf(rs, seg)
    case None => t[seg] == UNMAPPED
    case Some(r) => r.lsn in lost || (InFlight(gc) && r.lsn == mark) || t[seg] == r.newPhys % TWO_64
  }

  /** The announcement in flight is in the log, and if a later record moved its segment, the swap will be lost. */
  ghost predicate Flying(t: Table, rs: seq<Record>, m: Move, mark: nat) {
    && m.seg < |t| && 1 <= mark <= |rs|
    && R.Updates(rs[mark - 1], m.seg) && rs[mark - 1].newPhys == m.to
    && (LastOf(rs, m.seg) == Some(rs[mark - 1]) || t[m.seg] != m.from)
  }

  ghost predicate Told(t: Table, l: Log, zones: nat, gc: Collector, lost: set<nat>, mark: nat) {
    var rs := Records(l.History());
    && Numbered(l)
    && R.Fits(rs, |t|, zones)
    && (forall n :: n in lost ==> n <= l.lsn)
    && (forall seg :: 0 <= seg < |t| ==> Explained(t, rs, gc, lost, mark, seg))
    && (InFlight(gc) ==> Flying(t, rs, gc.stage.move, mark))
    && (gc.Migrating? ==> forall k :: 0 <= k < |gc.live| ==> gc.live[k].0 < |t|)
  }

  lemma FitsSnoc(rs: seq<Record>, r: Record, n: nat, zones: nat)
    requires R.Fits(rs, n, zones)
    requires r.kind == L2P_UPDATE ==> r.id < n
    requires r.kind == ZONE_RESET ==> r.id % 0x1_0000_0000 < zones
    ensures R.Fits(rs + [r], n, zones)
  {
  }

  /** A record that updates no segment. */
  lemma ToldOther(t: Table, l: Log, l': Log, r: Record, zones: nat, gc: Collector, lost: set<nat>, mark: nat)
    requires Told(t, l, zones, gc, lost, mark) && r.kind != L2P_UPDATE
    requires l'.History() == l.History() + [Plain(r)] && l'.lsn == l.lsn + 1 == r.lsn
    requires r.kind == ZONE_RESET ==> r.id % 0x1_0000_0000 < zones
    ensures Told(t, l', zones, gc, lost, mark)
  {
    hide R.Fits, LastOf;
    var rs := Records(l.History());
    RecordsSnoc(l.History(), Plain(r));
    FitsSnoc(rs, r, |t|, zones);
    NumberedSnoc(l, l', Plain(r));
    forall seg: nat ensures LastOf(rs + [r], seg) == LastOf(rs, seg) { LastOfSnoc(rs, r, seg); }
    ToldBy(t, t, l, l', r, zones, gc, gc, lost, mark, mark);
  }

  /** What has to be seen after a record was appended. */
  lemma ToldBy(t: Table, t': Table, l: Log, l': Log, r: Record, zones: nat, gc: Collector, gc': Collector, lost: set<nat>,
               mark: nat, mark': nat)
    requires Told(t, l, zones, gc, lost, mark) && |t'| == |t| && gc'.Migrating? == gc.Migrating? && (gc.Migrating? ==> gc'.live == gc.live)
    requires Records(l'.History()) == Records(l.History()) + [r] && Numbered(l') && l'.lsn == l.lsn + 1 == r.lsn
    requires R.Fits(Records(l.History()) + [r], |t|, zones)
    requires InFlight(gc') ==> (InFlight(gc) && gc'.stage.move == gc.stage.move && mark' == mark) || mark' == l'.lsn
    requires InFlight(gc) ==> InFlight(gc') && mark' == mark
    requires forall seg :: 0 <= seg < |t| ==>
      if R.Updates(r, seg) then
        && LastOf(Records(l'.History()), seg) == Some(r)
        && ((InFlight(gc') && mark' == l'.lsn) || t'[seg] == r.newPhys % TWO_64)
      else LastOf(Records(l'.History()), seg) == LastOf(Records(l.History()), seg) && t'[seg] == t[seg]
    requires InFlight(gc') && mark' == l'.lsn ==>
      gc'.stage.move.seg < |t| && R.Updates(r, gc'.stage.move.seg) && r.newPhys == gc'.stage.move.to
    requires InFlight(gc) && R.Updates(r, gc.stage.move.seg) ==> gc.stage.move.seg < |t| && t'[gc.stage.move.seg] != gc.stage.move.from
    ensures Told(t', l', zones, gc', lost, mark')
  {
    hide R.Fits, LastOf, Numbered, R.Updates;
    var rs, rs' := Records(l.History()), Records(l'.History());
    assert |rs'| == l'.lsn by { Lengths(l'); }
    forall seg | 0 <= seg < |t'| ensures Explained(t', rs', gc', lost, mark', seg) {
      assert Explained(t, rs, gc, lost, mark, seg);
    }
    if InFlight(gc) {
      assert rs'[mark - 1] == rs[mark - 1];
    } else if InFlight(gc') {
      assert rs'[mark' - 1] == r;
    }
  }

  lemma Lengths(l: Log)
    requires Numbered(l)
    ensures |Records(l.History())| == l.lsn
  {
  }

  /** A record that moves a segment, with the table following. */
  lemma ToldMove(t: Table, l: Log, l': Log, r: Record, p: PhysAddr, zones: nat, gc: Collector, lost: set<nat>, mark: nat)
    requires Told(t, l, zones, gc, lost, mark) && r.kind == L2P_UPDATE && r.id < |t| && r.newPhys == p
    requires l'.History() == l.History() + [Plain(r)] && l'.lsn == l.lsn + 1 == r.lsn
    requires InFlight(gc) && r.id == gc.stage.move.seg ==> p != gc.stage.move.from
    ensures Told(t[r.id := p], l', zones, gc, lost, mark)
  {
    hide R.Fits, LastOf;
    var rs := Records(l.History());
    RecordsSnoc(l.History(), Plain(r));
    FitsSnoc(rs, r, |t|, zones);
    NumberedSnoc(l, l', Plain(r));
    forall seg: nat ensures LastOf(rs + [r], seg) == if seg == r.id then Some(r) else LastOf(rs, seg) { LastOfSnoc(rs, r, seg); }
    ToldBy(t, t[r.id := p], l, l', r, zones, gc, gc, lost, mark, mark);
  }

  /** The announcement itself. */
  lemma ToldAnnounce(t: Table, l: Log, l': Log, r: Record, zones: nat, gc: Collector, gc': Collector, lost: set<nat>, mark: nat)
    requires Told(t, l, zones, gc, lost, mark) && !InFlight(gc) && InFlight(gc') && gc.Migrating? && gc'.live == gc.live
    requires r.kind == L2P_UPDATE && r.id == gc'.stage.move.seg < |t| && r.newPhys == gc'.stage.move.to
    requires l'.History() == l.History() + [Plain(r)] && l'.lsn == l.lsn + 1 == r.lsn
    ensures Told(t, l', zones, gc', lost, l'.lsn)
  {
    hide R.Fits, LastOf;
    var rs := Records(l.History());
    RecordsSnoc(l.History(), Plain(r));
    FitsSnoc(rs, r, |t|, zones);
    NumberedSnoc(l, l', Plain(r));
    forall seg: nat ensures LastOf(rs + [r], seg) == if seg == r.id then Some(r) else LastOf(rs, seg) { LastOfSnoc(rs, r, seg); }
    ToldBy(t, t, l, l', r, zones, gc, gc', lost, mark, l'.lsn);
  }

  /** The collector moves on without touching the table or the history. */
  lemma ToldStage(t: Table, l: Log, zones: nat, gc: Collector, gc': Collector, lost: set<nat>, mark: nat)
    requires Told(t, l, zones, gc, lost, mark)
    requires InFlight(gc') ==> InFlight(gc) && gc'.stage.move == gc.stage.move
    requires gc'.Migrating? ==> forall k :: 0 <= k < |gc'.live| ==> gc'.live[k].0 < |t|
    requires !Settles(gc') || !InFlight(gc)
    ensures Told(t, l, zones, gc', lost + Losing(gc, gc', mark), mark)
  {
    hide R.Fits, LastOf, Numbered;
    var rs := Records(l.History());
    forall seg | 0 <= seg < |t| ensures Explained(t, rs, gc', lost + Losing(gc, gc', mark), mark, seg) {
      assert Explained(t, rs, gc, lost, mark, seg);
    }
    if InFlight(gc) { FlyingNumber(t, l, gc.stage.move, mark); }
  }

  lemma FlyingNumber(t: Table, l: Log, m: Move, mark: nat)
    requires Numbered(l) && Flying(t, Records(l.History()), m, mark)
    ensures mark <= l.lsn && Records(l.History())[mark - 1].lsn == mark
  {
    hide LastOf;
  }

  /** A swap that is won: the announcement is the segment's last record, so the table now agrees with it. */
  lemma ToldWon(t: Table, l: Log, zones: nat, gc: Collector, gc': Collector, lost: set<nat>, mark: nat)
    requires Told(t, l, zones, gc, lost, mark) && InFlight(gc) && Settles(gc') && gc'.live == gc.live
    requires var m := gc.stage.move; m.seg < |t| && t[m.seg] == m.from
    ensures Told(t[gc.stage.move.seg := gc.stage.move.to], l, zones, gc', lost, mark)
  {
    hide R.Fits, LastOf, Numbered;
    var rs, m := Records(l.History()), gc.stage.move;
    var u := t[m.seg := m.to];
    FlyingNumber(t, l, m, mark);
    forall seg | 0 <= seg < |u| ensures Explained(u, rs, gc', lost, mark, seg) {
      assert Explained(t, rs, gc, lost, mark, seg);
      if seg != m.seg && LastOf(rs, seg).Some? && LastOf(rs, seg).value.lsn == mark {
        OwnRecord(l, seg, m.seg, mark);
      }
    }
  }

  /** The record of a number is about one segment. */
  lemma OwnRecord(l: Log, seg: nat, other: nat, mark: nat)
    requires Numbered(l) && 1 <= mark <= |l.History()| && R.Updates(Records(l.History())[mark - 1], other)
    requires LastOf(Records(l.History()), seg).Some? && LastOf(Records(l.History()), seg).value.lsn == mark
    ensures seg == other
  {
    var i := LastOfIs(Records(l.History()), seg);
    assert l.History()[i].rec.lsn == i + 1;
  }

  // ---------- steps ----------

  ghost predicate ToldIn(w: World, lost: set<nat>, mark: nat) {
    Told(w.s.base.l2p, w.s.base.log, |w.s.base.pool.zm.zones|, w.gc, lost, mark)
  }

  /** An accepted write logs at most the opening of a zone, and then the move of its segment. */
  lemma WriteTells(s: Ztl, seg: nat, data: seq<D.Sector>) returns (l: Log, z: nat)
    requires Core(s) && seg < |s.base.l2p| && |data| == s.base.spp && Ready(s.base)
    requires WriteSegment(s, seg, data).1 == Ok
    ensures var t := WriteSegment(s, seg, data).0;
      && |t.base.l2p| == |s.base.l2p| && |t.base.pool.zm.zones| == |s.base.pool.zm.zones|
      && t.base.l2p == s.base.l2p[seg := t.base.l2p[seg]]
      && t.base.log == LogL2PUpdate(l, seg, Get(s.base.l2p, seg), t.base.l2p[seg])
      && z < |s.base.pool.zm.zones| && (l == s.base.log || l == LogZoneAction(s.base.log, ZONE_OPEN, z))
  {
    hide Core, WriteInto, GetWriteZone, FlushZone, LogL2PUpdate, LogZoneAction, Writable;
    GetWriteZoneCore(s);
    var (s1, zone) := GetWriteZone(s);
    WritableExists(s1, zone.value);
    WriteIntoMoves(s1, zone.value, seg, data);
    l, z := s1.base.log, zone.value;
    GetWriteZoneTells(s);
  }

  lemma GetWriteZoneTells(s: Ztl)
    requires Ready(s.base)
    ensures var (t, zone) := GetWriteZone(s);
      t.base.log == s.base.log || (zone.Success? && t.base.log == LogZoneAction(s.base.log, ZONE_OPEN, zone.value))
    ensures GetWriteZone(s).0.base.l2p == s.base.l2p
    ensures GetWriteZone(s).1.Failure? ==> GetWriteZone(s).0.base.log == s.base.log
  {
    hide AllocateFree;
  }

  lemma WriteTold(w: World, seg: nat, data: seq<D.Sector>, lost: set<nat>, mark: nat)
    requires Steady(w) && Ready(w.s.base) && ToldIn(w, lost, mark)
    requires seg < |w.s.base.l2p| && |data| == w.s.base.spp && WriteSegment(w.s, seg, data).1 == Ok
    ensures ToldIn(World(WriteSegment(w.s, seg, data).0, w.gc), lost, mark)
  {
    hide Core, WriteSegment, Told, Content, Remapped, Numbered;
    var s := w.s;
    var l, z := WriteTells(s, seg, data);
    var t := WriteSegment(s, seg, data).0;
    var zones := |s.base.pool.zm.zones|;
    if l != s.base.log {
      AppendHistory(s.base.log, ZONE_OPEN, z, UNMAPPED, UNMAPPED);
      ToldOther(s.base.l2p, s.base.log, l, Record(ZONE_OPEN, s.base.log.lsn + 1, z, UNMAPPED, UNMAPPED, s.base.log.clock), zones, w.gc, lost, mark);
    }
    var p := t.base.l2p[seg];
    AppendHistory(l, L2P_UPDATE, seg, Get(s.base.l2p, seg), p);
    if InFlight(w.gc) && seg == w.gc.stage.move.seg { WriteElsewhere(w, seg, data); }
    ToldMove(s.base.l2p, l, t.base.log, Record(L2P_UPDATE, l.lsn + 1, seg, Get(s.base.l2p, seg), p, l.clock), p, zones, w.gc, lost, mark);
  }

  /** A foreground write never goes to the victim, where the migration in flight read. */
  lemma WriteElsewhere(w: World, seg: nat, data: seq<D.Sector>)
    requires Steady(w) && Ready(w.s.base) && InFlight(w.gc)
    requires seg < |w.s.base.l2p| && |data| == w.s.base.spp && WriteSegment(w.s, seg, data).1 == Ok
    ensures |WriteSegment(w.s, seg, data).0.base.l2p| == |w.s.base.l2p|
    ensures WriteSegment(w.s, seg, data).0.base.l2p[seg] != w.gc.stage.move.from
  {
    hide Core, WriteSegment, Private, Located, Vacant, Covers, Outstanding, Held, Copied;
    var p := WriteSegmentRemaps(w.s, seg, data);
  }

  lemma UnmapTold(w: World, seg: nat, lost: set<nat>, mark: nat)
    requires Steady(w) && Ready(w.s.base) && ToldIn(w, lost, mark)
    ensures ToldIn(World(w.s.(base := UnmapSegment(w.s.base, seg)), w.gc), lost, mark)
  {
    hide Core, Told, Numbered, ZoneID, OffsetSectors, DecrementValidSegs;
    var b := w.s.base;
    if Get(b.l2p, seg) != UNMAPPED {
      var c := UnmapSegment(b, seg);
      AppendHistory(b.log, L2P_UPDATE, seg, b.l2p[seg], UNMAPPED);
      assert |c.pool.zm.zones| == |b.pool.zm.zones|;
      hide UnmapSegment;
      FlyingFrom(w);
      ToldMove(b.l2p, b.log, c.log, Record(L2P_UPDATE, b.log.lsn + 1, seg, b.l2p[seg], UNMAPPED, b.log.clock), UNMAPPED, |b.pool.zm.zones|, w.gc, lost, mark);
    }
  }

  lemma FlyingFrom(w: World)
    requires Steady(w)
    ensures InFlight(w.gc) ==> w.gc.stage.move.from != UNMAPPED && w.gc.stage.move.seg == w.gc.live[0].0
    ensures w.gc.Migrating? && w.gc.live != [] && w.gc.stage.Announcing? ==> w.gc.stage.move.seg == w.gc.live[0].0
  {
    hide Core, Private, Located, Covers, Outstanding, Held, Copied, Fetched;
  }

  /** Nothing about the table or the history changes, and the collector stays where it is. */
  lemma SameTold(w: World, v: World, lost: set<nat>, mark: nat)
    requires ToldIn(w, lost, mark) && v.gc == w.gc && v.s.base.l2p == w.s.base.l2p
    requires |v.s.base.pool.zm.zones| == |w.s.base.pool.zm.zones|
    requires v.s.base.log.History() == w.s.base.log.History() && v.s.base.log.lsn == w.s.base.log.lsn
    ensures ToldIn(v, lost, mark)
  {
    hide R.Fits, Explained, Flying, Numbered;
    assert Numbered(v.s.base.log) by { SameNumbered(w.s.base.log, v.s.base.log); }
  }

  lemma SameNumbered(l: Log, l': Log)
    requires Numbered(l) && l'.History() == l.History() && l'.lsn == l.lsn
    ensures Numbered(l')
  {
  }

  lemma BeginTold(w: World, victim: nat, order: seq<nat>, lost: set<nat>, mark: nat)
    requires Steady(w) && Ready(w.s.base) && w.gc == Idle && ToldIn(w, lost, mark) && Ordered(w.s.base, victim, order)
    ensures ToldIn(Act(w, Begin(victim, order)).0, lost, mark)
  {
    hide Core, Told, Covers, Gather, ZoneID, OffsetSectors;
    var b := Freeze(w.s.base, victim);
    OrderDistinct(w.s.base, victim, order);
    GatherLive(b, victim, order);
    var live := Gather(b, victim, order);
    forall k | 0 <= k < |live| ensures live[k].0 < |b.l2p| {
      assert StillThere(b, victim, live[k].0, live[k].1);
    }
    var gc := Migrating(victim, live, Check);
    ToldStage(w.s.base.l2p, w.s.base.log, |w.s.base.pool.zm.zones|, w.gc, gc, lost, mark);
    assert lost + {} == lost;
  }

  /** A step of a migration. */
  lemma MigrationTold(w: World, lost: set<nat>, mark: nat)
    requires Steady(w) && Ready(w.s.base) && ToldIn(w, lost, mark) && w.gc.Migrating? && w.gc.live != []
    ensures var v := MigrationStep(w);
      ToldIn(v, lost + Losing(w.gc, v.gc, mark), if Announces(w.gc, Action.Collector) then w.s.base.log.lsn + 1 else mark)
  {
    hide Core, Told, Covers, Fetch, Claim, Copy, StillThere, Settle, Abandon, StageHolds, Private, Numbered;
    var b, v := w.s.base, MigrationStep(w);
    var zones := |b.pool.zm.zones|;
    ToldLive(w, lost, mark);
    match w.gc.stage {
      case Announcing(m) =>
        FlyingFrom(w);
        AppendHistory(b.log, L2P_UPDATE, m.seg, m.from, m.to);
        ToldAnnounce(b.l2p, b.log, v.s.base.log, Record(L2P_UPDATE, b.log.lsn + 1, m.seg, m.from, m.to, b.log.clock), zones, w.gc, v.gc, lost, mark);
        assert lost + {} == lost;
      case Swapping(m) =>
        if m.seg < |b.l2p| && b.l2p[m.seg] == m.from {
          ToldWon(b.l2p, b.log, zones, w.gc, v.gc, lost, mark);
          assert lost + {} == lost;
        } else {
          ToldStage(b.l2p, b.log, zones, w.gc, v.gc, lost, mark);
        }
      case _ =>
        MigrationQuiet(w);
        ToldStage(b.l2p, b.log, zones, w.gc, v.gc, lost, mark);
    }
  }

  lemma ToldLive(w: World, lost: set<nat>, mark: nat)
    requires ToldIn(w, lost, mark) && w.gc.Migrating?
    ensures forall k :: 0 <= k < |w.gc.live| ==> w.gc.live[k].0 < |w.s.base.l2p|
  {
  }

  /** The other steps touch neither the table nor the log. */
  lemma MigrationQuiet(w: World)
    requires Ready(w.s.base) && w.gc.Migrating? && w.gc.live != [] && !w.gc.stage.Announcing? && !w.gc.stage.Swapping?
    ensures var v := MigrationStep(w);
      && v.s.base.l2p == w.s.base.l2p && v.s.base.log == w.s.base.log
      && |v.s.base.pool.zm.zones| == |w.s.base.pool.zm.zones|
      && (InFlight(v.gc) ==> InFlight(w.gc) && v.gc.stage.move == w.gc.stage.move)
      && (v.gc.Migrating? ==> forall k :: 0 <= k < |v.gc.live| ==> v.gc.live[k] in w.gc.live)
      && !Settles(v.gc)
  {
    hide Fetch, Claim, Copy, Settle, Abandon, StillThere, Listed, Unfreeze;
    var b := w.s.base;
    QuitTables(b, w.gc.victim);
    match w.gc.stage {
      case Claiming(from, data) =>
        ClaimPoolOnly(b, w.gc.live[0].0, from, data);
        QuitTables(Claim(b, w.gc.live[0].0, from, data).0, w.gc.victim);
      case Copying(m) =>
        CopyPoolOnly(b, m);
        QuitTables(Copy(b, m).0, w.gc.victim);
      case Settling(m) => SettleTables(b, m);
      case Abandoning(m) => SettleTables(b, m);
      case _ =>
    }
  }

  lemma QuitTables(b: Base, victim: nat)
    ensures Unfreeze(b, victim).l2p == b.l2p && Unfreeze(b, victim).log == b.log
    ensures |Unfreeze(b, victim).pool.zm.zones| == |b.pool.zm.zones|
  {
  }

  lemma SettleTables(b: Base, m: Move)
    ensures Settle(b, m).l2p == b.l2p && Settle(b, m).log == b.log && |Settle(b, m).pool.zm.zones| == |b.pool.zm.zones|
    ensures Abandon(b, m).l2p == b.l2p && Abandon(b, m).log == b.log && |Abandon(b, m).pool.zm.zones| == |b.pool.zm.zones|
  {
    hide ZoneID, OffsetSectors;
  }

  lemma CollectorTold(w: World, lost: set<nat>, mark: nat)
    requires Steady(w) && Ready(w.s.base) && ToldIn(w, lost, mark)
    ensures var v := CollectorStep(w);
      ToldIn(v, lost + Losing(w.gc, v.gc, mark), if Announces(w.gc, Action.Collector) then w.s.base.log.lsn + 1 else mark)
  {
    hide Core, Told, Covers, MigrationStep, StageHolds, Reclaim, NoneIn, Numbered;
    var b, zones, v := w.s.base, |w.s.base.pool.zm.zones|, CollectorStep(w);
    match w.gc {
      case Idle => assert lost + {} == lost;
      case Migrating(victim, live, stage) =>
        if live == [] {
          ToldStage(b.l2p, b.log, zones, w.gc, v.gc, lost, mark);
        } else {
          MigrationTold(w, lost, mark);
        }
      case Sealing(victim) =>
        var l := LogZoneAction(b.log, ZONE_RESET, victim);
        AppendHistory(b.log, ZONE_RESET, victim, UNMAPPED, UNMAPPED);
        SealVictim(w);
        ToldOther(b.l2p, b.log, l, Record(ZONE_RESET, b.log.lsn + 1, victim, UNMAPPED, UNMAPPED, b.log.clock), zones, w.gc, lost, mark);
        CommitHistory(l);
        SealTold(w, l, v, lost, mark);
      case Reclaiming(victim) =>
        ReclaimLog(b, victim);
        ToldStage(b.l2p, b.log, zones, w.gc, v.gc, lost, mark);
    }
  }

  lemma SealVictim(w: World)
    requires Steady(w) && w.gc.Sealing?
    ensures w.gc.victim < |w.s.base.pool.zm.zones| <= ZONE_SPAN
  {
    hide Covers, NoneIn, AllLocated, FreeIsEmpty, D.Sane, Pointers;
  }

  lemma SealTold(w: World, l: Log, v: World, lost: set<nat>, mark: nat)
    requires w.gc.Sealing? && v == World(w.s.(base := Seal(w.s.base, w.gc.victim)), Reclaiming(w.gc.victim))
    requires l == LogZoneAction(w.s.base.log, ZONE_RESET, w.gc.victim)
    requires Told(w.s.base.l2p, l, |w.s.base.pool.zm.zones|, w.gc, lost, mark)
    ensures ToldIn(v, lost + Losing(w.gc, v.gc, mark), mark)
  {
    hide Told, Numbered;
    CommitHistory(l);
    var m := World(w.s.(base := w.s.base.(log := l)), w.gc);
    var n := World(v.s, w.gc);
    SameTold(m, n, lost, mark);
    ToldStage(v.s.base.l2p, v.s.base.log, |v.s.base.pool.zm.zones|, w.gc, v.gc, lost, mark);
  }

  lemma ActTold(w: World, a: Action, lost: set<nat>, mark: nat)
    requires Steady(w) && Ready(w.s.base) && Allowed(w, a) && ToldIn(w, lost, mark)
    ensures var v := Act(w, a).0;
      ToldIn(v, lost + Losing(w.gc, v.gc, mark), if Announces(w.gc, a) then w.s.base.log.lsn + 1 else mark)
  {
    hide Steady, Told, CollectorStep, WriteSegment, UnmapSegment, FlushZone, Ordered, Collectable, Stored, GetWriteZone, Numbered;
    assert lost + {} == lost;
    match a {
      case Begin(victim, order) => if w.gc == Idle { BeginTold(w, victim, order, lost, mark); }
      case Collector => CollectorTold(w, lost, mark);
      case ForegroundWrite(seg, data) =>
        if WriteSegment(w.s, seg, data).1 == Ok {
          WriteTold(w, seg, data, lost, mark);
        } else {
          SteadyCore(w);
          RefusedForeground(w.s, seg, data);
          GetWriteZoneTells(w.s);
          SameTold(w, Act(w, a).0, lost, mark);
        }
      case ForegroundUnmap(seg) => UnmapTold(w, seg, lost, mark);
      case ForegroundFlush(z) => SameTold(w, Act(w, a).0, lost, mark);
      case ForegroundCommit =>
        CommitHistory(w.s.base.log);
        SameTold(w, Act(w, a).0, lost, mark);
    }
  }

  lemma SteadyCore(w: World)
    requires Steady(w)
    ensures Core(w.s)
  {
  }

  // ---------- runs ----------

  lemma {:induction false} RunTold(w: World, acts: seq<Action>)
    requires Steady(w) && Ready(w.s.base) && AllAllowed(w, acts) && ToldIn(w, {}, 0)
    ensures ToldIn(After(w, acts), Lost(w, acts), Mark(w, acts))
  {
    hide Steady, Told, Act, Allowed;
    if acts != [] {
      var last := |acts| - 1;
      RunTold(w, acts[..last]);
      CollectorInvisible(w, acts[..last]);
      ActTold(After(w, acts[..last]), acts[last], Lost(w, acts[..last]), Mark(w, acts[..last]));
    }
  }

  lemma StartTold(s: Ztl)
    requires Logged(s.base)
    ensures ToldIn(World(s, Idle), {}, 0)
  {
    hide Replay, LastOf, Snapshots;
    var b := s.base;
    var rs := Records(b.log.History());
    R.ReplayFinal(Unmapped(|b.l2p|), rs, |b.pool.zm.zones|);
    forall seg | 0 <= seg < |b.l2p| ensures Explained(b.l2p, rs, Idle, {}, 0, seg) {
      FinalIsLast(UNMAPPED, rs, seg);
    }
  }

  /** After every interleaving, once no collection is under way: replaying the whole history, durable and pending,
      succeeds, and gives each segment its live address, unless the last record about it announced a migration
      that was abandoned; then it gives the place of the abandoned copy. */
  lemma ReplayInterleaved(s: Ztl, acts: seq<Action>)
    requires Steady(World(s, Idle)) && Ready(s.base) && Logged(s.base) && AllAllowed(World(s, Idle), acts)
    requires After(World(s, Idle), acts).gc == Idle
    ensures var b := After(World(s, Idle), acts).s.base;
      var rs, lost := Records(b.log.History()), Lost(World(s, Idle), acts);
      var replayed := Replay(Unmapped(|b.l2p|), rs, |b.pool.zm.zones|);
      && replayed.Success? && |replayed.value| == |b.l2p|
      && forall seg :: 0 <= seg < |b.l2p| ==>
           replayed.value[seg] ==
           if LastOf(rs, seg).Some? && LastOf(rs, seg).value.lsn in lost then LastOf(rs, seg).value.newPhys % TWO_64
           else b.l2p[seg]
  {
    hide Steady, AllAllowed, After, Replay, LastOf, Lost, Mark, Logged;
    var w := World(s, Idle);
    StartTold(s);
    RunTold(w, acts);
    var b := After(w, acts).s.base;
    var rs := Records(b.log.History());
    R.ReplayFinal(Unmapped(|b.l2p|), rs, |b.pool.zm.zones|);
    hide Numbered, R.Fits;
    forall seg | 0 <= seg < |b.l2p|
      ensures R.Final(UNMAPPED, rs, seg) ==
              if LastOf(rs, seg).Some? && LastOf(rs, seg).value.lsn in Lost(w, acts) then LastOf(rs, seg).value.newPhys % TWO_64
              else b.l2p[seg] {
      FinalIsLast(UNMAPPED, rs, seg);
      assert Explained(b.l2p, rs, Idle, Lost(w, acts), Mark(w, acts), seg);
    }
  }

  /** So the history replays to the live table exactly when no abandoned announcement is the last word on a
      segment that is somewhere else. */
  lemma ReplaysLiveIff(s: Ztl, acts: seq<Action>)
    requires Steady(World(s, Idle)) && Ready(s.base) && Logged(s.base) && AllAllowed(World(s, Idle), acts)
    requires After(World(s, Idle), acts).gc == Idle
    ensures var b := After(World(s, Idle), acts).s.base;
      var rs, lost := Records(b.log.History()), Lost(World(s, Idle), acts);
      Replay(Unmapped(|b.l2p|), rs, |b.pool.zm.zones|) == Success(b.l2p) <==>
      forall seg :: 0 <= seg < |b.l2p| && LastOf(rs, seg).Some? && LastOf(rs, seg).value.lsn in lost ==>
        b.l2p[seg] == LastOf(rs, seg).value.newPhys % TWO_64
  {
    hide *;
    ReplayInterleaved(s, acts);
    var b := After(World(s, Idle), acts).s.base;
    var rs, lost := Records(b.log.History()), Lost(World(s, Idle), acts);
    var u := Replay(Unmapped(|b.l2p|), rs, |b.pool.zm.zones|).value;
    if forall seg :: 0 <= seg < |b.l2p| && LastOf(rs, seg).Some? && LastOf(rs, seg).value.lsn in lost ==>
        b.l2p[seg] == LastOf(rs, seg).value.newPhys % TWO_64 {
      assert u == b.l2p;
    }
  }
}
