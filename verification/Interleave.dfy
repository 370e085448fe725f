/** The collector stepping through a collection while the foreground writes, unmaps and flushes between its
    steps. The main result: whatever the interleaving, the collector changes the data behind no segment. */
module Interleave {
  import opened Errors
  import opened Segment
  import opened Pool
  import opened Log
  import opened Ztl
  import opened Coherence
  import opened PoolSteps
  import opened FlushSteps
  import opened WriteSteps
  import opened GcSteps
  import opened Collect
  import opened Bookkeeping
  import D = Device

  /** Where a migration stands: what it is about to do, and what it holds. */
  datatype Stage =
    | Check
    | Fetching(from: PhysAddr)
    | Claiming(from: PhysAddr, data: seq<D.Sector>)
    | Announcing(move: Move)
    | Copying(move: Move)
    | Swapping(move: Move)
    | Settling(move: Move)
    | Abandoning(move: Move)

  datatype Collector =
    | Idle
    | Migrating(victim: nat, live: seq<(nat, nat)>, stage: Stage)
    | Sealing(victim: nat)
    | Reclaiming(victim: nat)

  datatype World = World(s: Ztl, gc: Collector)

  datatype Action =
    | Begin(victim: nat, order: seq<nat>)
    | Collector
    | ForegroundWrite(seg: nat, data: seq<D.Sector>)
    | ForegroundUnmap(seg: nat)
    | ForegroundFlush(zone: nat)
    | ForegroundCommit

  // ---------- the steps ----------

  function Quit(w: World, b: Base): (r: World)
    requires w.gc != Idle
    ensures Ready(b) ==> Ready(r.s.base)
  {
    World(w.s.(base := Unfreeze(b, w.gc.victim)), Idle)
  }

  /** One step of a migration; a failed device call ends the collection. */
  function MigrationStep(w: World): (r: World)
    requires w.gc.Migrating? && w.gc.live != [] && Ready(w.s.base)
    ensures Ready(r.s.base)
  {
    var b, victim, seg, off := w.s.base, w.gc.victim, w.gc.live[0].0, w.gc.live[0].1;
    var rest := w.gc.(live := w.gc.live[1..], stage := Check);
    match w.gc.stage
    case Check =>
      var from := Get(b.l2p, seg);
      if IsUnmapped(from) then World(w.s.(base := b.(p2l := b.p2l - {Key(from)})), rest)
      else if !StillThere(b, victim, seg, off) then World(w.s, rest)
      else World(w.s, w.gc.(stage := Fetching(from)))
    case Fetching(from) => (
      match Fetch(b, victim, off)
      case Failure(_) => Quit(w, b)
      case Success(data) => World(w.s, w.gc.(stage := Claiming(from, data))))
    case Claiming(from, data) => (
      match Claim(b, seg, from, data)
      case (c, Failure(_)) => Quit(w, c)
      case (c, Success(m)) => World(w.s.(base := c), w.gc.(stage := Announcing(m))))
    case Announcing(m) => World(w.s.(base := Announce(b, m)), w.gc.(stage := Copying(m)))
    case Copying(m) =>
      var (c, r) := Copy(b, m);
      if r != Ok then Quit(w, c) else World(w.s.(base := c), w.gc.(stage := Swapping(m)))
    case Swapping(m) =>
      var (t, won) := CAS(b.l2p, m.seg, m.from, m.to);
      World(w.s.(base := b.(l2p := t)), w.gc.(stage := if won then Settling(m) else Abandoning(m)))
    case Settling(m) => World(w.s.(base := Settle(b, m)), rest)
    case Abandoning(m) => World(w.s.(base := Abandon(b, m)), rest)
  }

  function CollectorStep(w: World): (r: World)
    requires Ready(w.s.base)
    ensures Ready(r.s.base)
  {
    match w.gc
    case Idle => w
    case Migrating(victim, live, _) => if live == [] then World(w.s, Sealing(victim)) else MigrationStep(w)
    case Sealing(victim) => World(w.s.(base := Seal(w.s.base, victim)), Reclaiming(victim))
    case Reclaiming(victim) => Quit(w, Reclaim(w.s.base, victim).0)
  }

  function Act(w: World, a: Action): (r: (World, Status))
    requires Ready(w.s.base)
    ensures Ready(r.0.s.base)
  {
    match a
    case Begin(victim, order) =>
      if w.gc != Idle then (w, Ok) else
      var b := Freeze(w.s.base, victim);
      (World(w.s.(base := b), Migrating(victim, Gather(b, victim, order), Check)), Ok)
    case Collector => (CollectorStep(w), Ok)
    case ForegroundWrite(seg, data) => var (t, r) := WriteSegment(w.s, seg, data); (World(t, w.gc), r)
    case ForegroundUnmap(seg) => (World(w.s.(base := UnmapSegment(w.s.base, seg)), w.gc), Ok)
    case ForegroundFlush(z) =>
      var (bufs, p, r) := FlushZone(w.s.bufs, w.s.base.pool, z);
      (World(w.s.(base := w.s.base.(pool := p), bufs := bufs), w.gc), r)
    case ForegroundCommit => (World(w.s.(base := w.s.base.(log := GroupCommit(w.s.base.log))), w.gc), Ok)
  }

  // ---------- zones the foreground leaves alone ----------

  /** A zone in use that is neither buffered nor being written. */
  ghost predicate Private(s: Ztl, y: nat) {
    Collectable(s, y)
  }

  /** The step from `s` to `t` left a private zone alone, and mapped nothing new into it. */
  ghost predicate Spared(s: Ztl, t: Ztl, y: nat)
    requires y < |s.base.pool.dev.zones|
    requires |s.base.pool.zm.zones| == |s.base.pool.dev.zones|
  {
    && Private(t, y)
    && |t.base.pool.zm.zones| == |t.base.pool.dev.zones| == |s.base.pool.dev.zones|
    && t.base.pool.dev.zoneSectors == s.base.pool.dev.zoneSectors
    && t.base.pool.dev.zones[y].data == s.base.pool.dev.zones[y].data
    && t.base.pool.dev.zones[y].wp == s.base.pool.dev.zones[y].wp
    && t.base.pool.zm.zones[y].wp == s.base.pool.zm.zones[y].wp
    && t.base.spp == s.base.spp
    && |t.base.l2p| == |s.base.l2p|
    && forall seg :: 0 <= seg < |t.base.l2p| && t.base.l2p[seg] != UNMAPPED && ZoneID(t.base.l2p[seg]) == y ==>
         t.base.l2p[seg] == s.base.l2p[seg]
  }

  lemma SparedTrans(s: Ztl, t: Ztl, u: Ztl, y: nat)
    requires y < |s.base.pool.dev.zones| && |s.base.pool.zm.zones| == |s.base.pool.dev.zones|
    requires Spared(s, t, y) && Spared(t, u, y)
    ensures Spared(s, u, y)
  {
    hide ZoneID, Private;
  }

  lemma QuietSpares(s: Ztl, q: Pool, y: nat)
    requires Private(s, y) && |s.base.pool.zm.zones| == |s.base.pool.dev.zones| && Quiet(s.base.pool, q)
    ensures Spared(s, s.(base := s.base.(pool := q)), y)
  {
    hide D.Sane, ZoneID;
  }

  lemma GetWriteZoneSpares(s: Ztl, y: nat)
    requires Core(s) && Private(s, y)
    ensures y < |s.base.pool.dev.zones| && |s.base.pool.zm.zones| == |s.base.pool.dev.zones|
    ensures Spared(s, GetWriteZone(s).0, y)
    ensures GetWriteZone(s).1.Success? ==> GetWriteZone(s).1.value != y
  {
    hide D.Sane, ZoneID, OffsetSectors, AllLocated, AllocateFree, Pointers;
    if !(s.curOpen && Remaining(s) >= s.base.spp) {
      AllocateFreeMoves(s.base.pool, s.base.spp);
      var (q, alloc) := AllocateFree(s.base.pool);
      match alloc
      case Failure(_) => QuietSpares(s, q, y);
      case Success(z) =>
        assert z in s.base.pool.zm.freeList;
    }
  }

  lemma WriteIntoSpares(s: Ztl, z: nat, seg: nat, data: seq<D.Sector>, y: nat)
    requires Core(s) && Writable(s, z) && seg < |s.base.l2p| && Private(s, y) && z != y
    ensures |s.base.pool.zm.zones| == |s.base.pool.dev.zones|
    ensures Spared(s, WriteInto(s, z, seg, data).0, y)
  {
    hide D.Sane, ZoneID, OffsetSectors, AllLocated, FreeIsEmpty, WriteInto, NextAddr;
    CoreReady(s);
    WriteIntoMoves(s, z, seg, data);
    NextAddrUnpacks(s.base.pool, s.bufs, s.base.spp, z);
  }

  lemma FlushZoneSpares(s: Ztl, z: nat, y: nat)
    requires Core(s) && Private(s, y) && FlushZone(s.bufs, s.base.pool, z).2 == Ok
    ensures |s.base.pool.zm.zones| == |s.base.pool.dev.zones|
    ensures var (bufs, q, r) := FlushZone(s.bufs, s.base.pool, z);
      Spared(s, s.(base := s.base.(pool := q), bufs := bufs), y)
  {
    hide D.Sane, ZoneID, OffsetSectors, D.Store;
    if z in s.bufs {
      FlushZoneMoves(s, z);
      hide FlushZone;
    }
  }

  lemma WriteSegmentSpares(s: Ztl, seg: nat, data: seq<D.Sector>, y: nat)
    requires Core(s) && Private(s, y) && seg < |s.base.l2p| && |data| == s.base.spp
    requires WriteSegment(s, seg, data).1 == Ok
    ensures y < |s.base.pool.dev.zones| && |s.base.pool.zm.zones| == |s.base.pool.dev.zones|
    ensures Spared(s, WriteSegment(s, seg, data).0, y)
  {
    hide Core, Content, WriteInto, GetWriteZone, Writable, FlushZone, Private, Spared;
    CoreReady(s);
    GetWriteZoneSpares(s, y);
    GetWriteZoneCore(s);
    var (s1, zone) := GetWriteZone(s);
    var z := zone.value;
    WritableExists(s1, z);
    CoreReady(s1);
    SparedPrivate(s, s1, y);
    WriteIntoMoves(s1, z, seg, data);
    WriteIntoCore(s1, z, seg, data);
    WriteIntoSpares(s1, z, seg, data, y);
    var s2 := WriteInto(s1, z, seg, data).0;
    SparedPrivate(s1, s2, y);
    SparedTrans(s, s1, s2, y);
    CoreReady(s2);
    var info := s2.base.pool.zm.zones[z];
    if info.wp >= info.start + info.size {
      FlushZoneSpares(s2, z, y);
      var (bufs, q, r) := FlushZone(s2.bufs, s2.base.pool, z);
      var s3 := s2.(base := s2.base.(pool := q), bufs := bufs);
      SparedTrans(s, s2, s3, y);
      ClosedSpares(s, s3, y);
    }
  }

  lemma SparedPrivate(s: Ztl, t: Ztl, y: nat)
    requires y < |s.base.pool.dev.zones| && |s.base.pool.zm.zones| == |s.base.pool.dev.zones|
    requires Spared(s, t, y)
    ensures Private(t, y) && y < |t.base.pool.dev.zones| && |t.base.pool.zm.zones| == |t.base.pool.dev.zones|
  {
  }

  lemma ClosedSpares(s: Ztl, t: Ztl, y: nat)
    requires y < |s.base.pool.dev.zones| && |s.base.pool.zm.zones| == |s.base.pool.dev.zones| && Spared(s, t, y)
    ensures Spared(s, t.(curOpen := false), y)
  {
    hide ZoneID;
  }

  lemma UnmapSpares(s: Ztl, seg: nat, y: nat)
    requires Core(s) && Private(s, y)
    ensures y < |s.base.pool.dev.zones| && |s.base.pool.zm.zones| == |s.base.pool.dev.zones|
    ensures Spared(s, s.(base := UnmapSegment(s.base, seg)), y)
  {
    hide D.Sane, ZoneID, OffsetSectors, AllLocated, FreeIsEmpty, Pointers;
    ForgetQuiet(s.base, s.base.spp, Get(s.base.l2p, seg));
  }

  // ---------- the reverse map between steps ----------

  /** Every mapped segment is found by the reverse map, except that the segment whose swap was just won may
      not be entered yet at its new address. */
  ghost predicate CoversBut(b: Base, m: Move) {
    forall seg :: 0 <= seg < |b.l2p| && b.l2p[seg] != UNMAPPED && !(seg == m.seg && b.l2p[seg] == m.to) ==>
      Key(b.l2p[seg]) in b.p2l && b.p2l[Key(b.l2p[seg])] == seg
  }

  /** A foreground step on the table and the reverse map: one segment remapped or unmapped. */
  ghost predicate Remapped(b: Base, c: Base, seg: nat, p: PhysAddr)
  {
    && seg < |b.l2p| && c.l2p == b.l2p[seg := p]
    && c.p2l == (var gone := if b.l2p[seg] == UNMAPPED then b.p2l else b.p2l - {Key(b.l2p[seg])};
                 if p == UNMAPPED && c.p2l == gone then gone else gone[Key(p) := seg])
    && Vacant(b, seg, p)
  }

  lemma RemappedCovers(b: Base, c: Base, seg: nat, p: PhysAddr)
    requires Covers(b) && Remapped(b, c, seg, p)
    ensures Covers(c)
  {
    hide EncodePhysAddr, ZoneID, OffsetSectors;
    KeyOfUnmapped(p);
    forall i | 0 <= i < |c.l2p| && c.l2p[i] != UNMAPPED
      ensures Key(c.l2p[i]) in c.p2l && c.p2l[Key(c.l2p[i])] == i {
      if i != seg && Key(b.l2p[i]) == Key(p) { SameKey(b.l2p[i], p); }
    }
  }

  lemma RemappedCoversBut(b: Base, c: Base, seg: nat, p: PhysAddr, m: Move)
    requires CoversBut(b, m) && Remapped(b, c, seg, p)
    requires p != UNMAPPED ==> ZoneID(p) != m.zone
    requires ZoneID(m.to) == m.zone
    requires forall i :: 0 <= i < |b.l2p| && b.l2p[i] != UNMAPPED && ZoneID(b.l2p[i]) == m.zone ==> i == m.seg && b.l2p[i] == m.to
    ensures CoversBut(c, m)
  {
    hide EncodePhysAddr, OffsetSectors, ZoneID;
    KeyOfUnmapped(p);
    forall i | 0 <= i < |c.l2p| && c.l2p[i] != UNMAPPED && !(i == m.seg && c.l2p[i] == m.to)
      ensures Key(c.l2p[i]) in c.p2l && c.p2l[Key(c.l2p[i])] == i {
      if i != seg {
        if Key(b.l2p[i]) == Key(p) { SameKey(b.l2p[i], p); }
        if b.l2p[seg] != UNMAPPED && Key(b.l2p[i]) == Key(b.l2p[seg]) { SameKey(b.l2p[i], b.l2p[seg]); }
      }
    }
  }

  lemma WriteSegmentRemaps(s: Ztl, seg: nat, data: seq<D.Sector>) returns (p: PhysAddr)
    requires Core(s) && seg < |s.base.l2p| && |data| == s.base.spp
    requires WriteSegment(s, seg, data).1 == Ok
    ensures Remapped(s.base, WriteSegment(s, seg, data).0.base, seg, p)
    ensures forall y :: Private(s, y) && p != UNMAPPED ==> ZoneID(p) != y
  {
    hide Core, Content, GetWriteZone, Writable, FlushZone, NextAddr, ZoneID, OffsetSectors, Private, Vacant;
    CoreReady(s);
    GetWriteZoneCore(s);
    GetWriteZoneTables(s);
    var (s1, zone) := GetWriteZone(s);
    var z := zone.value;
    WritableExists(s1, z);
    p := NextAddr(s1.base.pool.zm, z);
    NextAddrVacant(s1, z, seg);
    assert Vacant(s.base, seg, p) by { VacantTable(s1.base, s.base, seg, p); }
    NextAddrZone(s1, z);
    forall y | Private(s, y) && p != UNMAPPED ensures ZoneID(p) != y {
      GetWriteZoneSpares(s, y);
    }
  }

  lemma VacantTable(b: Base, c: Base, seg: nat, p: PhysAddr)
    requires Vacant(b, seg, p) && c.l2p == b.l2p
    ensures Vacant(c, seg, p)
  {
  }

  lemma NextAddrZone(s: Ztl, z: nat)
    requires Core(s) && Writable(s, z)
    ensures ZoneID(NextAddr(s.base.pool.zm, z)) == z
  {
    hide ZoneID, OffsetSectors, NextAddr, AllLocated, FreeIsEmpty;
    NextAddrUnpacks(s.base.pool, s.bufs, s.base.spp, z);
  }

  lemma GetWriteZoneTables(s: Ztl)
    requires Ready(s.base)
    ensures GetWriteZone(s).0.base.l2p == s.base.l2p && GetWriteZone(s).0.base.p2l == s.base.p2l
  {
  }

  lemma UnmapRemaps(s: Ztl, seg: nat)
    requires Core(s) && seg < |s.base.l2p| && s.base.l2p[seg] != UNMAPPED
    ensures Remapped(s.base, UnmapSegment(s.base, seg), seg, UNMAPPED)
  {
    hide ZoneID, OffsetSectors;
  }

  // ---------- the invariant of the interleaving ----------

  /** Every segment mapped into the victim is still on the list to migrate. */
  ghost predicate Outstanding(b: Base, victim: nat, live: seq<(nat, nat)>) {
    forall seg :: 0 <= seg < |b.l2p| && b.l2p[seg] != UNMAPPED && ZoneID(b.l2p[seg]) == victim ==>
      (seg, OffsetSectors(b.l2p[seg])) in live
  }

  /** `from` is the place in the victim that the entry `(seg, off)` names. */
  ghost predicate Source(s: Ztl, victim: nat, off: nat, from: PhysAddr)
    requires |s.base.pool.zm.zones| == |s.base.pool.dev.zones|
  {
    from != UNMAPPED && ZoneID(from) == victim && OffsetSectors(from) == off && Located(s.base.pool, s.base.spp, from)
  }

  ghost predicate Fetched(s: Ztl, from: PhysAddr, data: seq<D.Sector>) {
    data == Behind(s.base.pool.dev, NOTHING, s.base.spp, from)
  }

  ghost predicate Carrying(s: Ztl, victim: nat, entry: (nat, nat), m: Move)
    requires |s.base.pool.zm.zones| == |s.base.pool.dev.zones|
  {
    m.seg == entry.0 && Source(s, victim, entry.1, m.from) && Fetched(s, m.from, m.data) && m.zone != victim
  }

  /** Only the migrated segment can be in the migration's zone, and nothing is left where it came from. */
  ghost predicate Installed(s: Ztl, m: Move)
  {
    && Private(s, m.zone)
    && ZoneID(m.to) == m.zone
    && (forall i :: 0 <= i < |s.base.l2p| && s.base.l2p[i] != UNMAPPED && ZoneID(s.base.l2p[i]) == m.zone ==>
          i == m.seg && s.base.l2p[i] == m.to)
    && (forall i :: 0 <= i < |s.base.l2p| ==> s.base.l2p[i] != m.from)
  }

  ghost predicate StageHolds(s: Ztl, victim: nat, live: seq<(nat, nat)>, stage: Stage)
    requires |s.base.pool.zm.zones| == |s.base.pool.dev.zones|
  {
    match stage
    case Check => Covers(s.base) && Outstanding(s.base, victim, live)
    case Fetching(from) => live != [] && Covers(s.base) && Outstanding(s.base, victim, live) && Source(s, victim, live[0].1, from)
    case Claiming(from, data) =>
      live != [] && Covers(s.base) && Outstanding(s.base, victim, live) && Source(s, victim, live[0].1, from) && Fetched(s, from, data)
    case Announcing(m) =>
      live != [] && Covers(s.base) && Outstanding(s.base, victim, live) && Carrying(s, victim, live[0], m) && Held(s, m)
    case Copying(m) =>
      live != [] && Covers(s.base) && Outstanding(s.base, victim, live) && Carrying(s, victim, live[0], m) && Held(s, m)
    case Swapping(m) =>
      live != [] && Covers(s.base) && Outstanding(s.base, victim, live) && Carrying(s, victim, live[0], m) && Copied(s, m)
    case Settling(m) =>
      live != [] && CoversBut(s.base, m) && Outstanding(s.base, victim, live[1..]) && Source(s, victim, live[0].1, m.from)
      && m.zone != victim && Installed(s, m)
    case Abandoning(m) => live != [] && Covers(s.base) && Outstanding(s.base, victim, live[1..])
  }

  ghost predicate GcHolds(s: Ztl, gc: Collector)
    requires |s.base.pool.zm.zones| == |s.base.pool.dev.zones|
  {
    match gc
    case Idle => Covers(s.base)
    case Migrating(victim, live, stage) => Private(s, victim) && StageHolds(s, victim, live, stage)
    case Sealing(victim) => Private(s, victim) && Covers(s.base) && NoneIn(s.base.l2p, victim)
    case Reclaiming(victim) => Private(s, victim) && Covers(s.base) && NoneIn(s.base.l2p, victim)
  }

  ghost predicate Steady(w: World) {
    Core(w.s) && |w.s.base.pool.zm.zones| == |w.s.base.pool.dev.zones| && GcHolds(w.s, w.gc)
  }

  // ---------- foreground steps keep it ----------

  /** What any foreground step does: private zones are spared, and at most one segment is remapped, to a zone
      that was not private. */
  ghost predicate Foreground(s: Ztl, t: Ztl) {
    && Core(t)
    && |s.base.pool.zm.zones| == |s.base.pool.dev.zones| && |t.base.pool.zm.zones| == |t.base.pool.dev.zones|
    && (forall y :: Private(s, y) ==> Spared(s, t, y))
    && ((t.base.l2p == s.base.l2p && t.base.p2l == s.base.p2l) ||
        exists seg, p :: Remapped(s.base, t.base, seg, p) && (p != UNMAPPED ==> !Private(s, ZoneID(p))))
  }

  lemma SparedSource(s: Ztl, t: Ztl, victim: nat, off: nat, from: PhysAddr)
    requires |s.base.pool.zm.zones| == |s.base.pool.dev.zones| && Source(s, victim, off, from)
    requires victim < |s.base.pool.dev.zones| && Spared(s, t, victim)
    ensures Source(t, victim, off, from)
    ensures Behind(t.base.pool.dev, NOTHING, t.base.spp, from) == Behind(s.base.pool.dev, NOTHING, s.base.spp, from)
  {
    hide ZoneID, OffsetSectors, Private;
  }

  lemma SparedHeld(s: Ztl, t: Ztl, m: Move)
    requires |s.base.pool.zm.zones| == |s.base.pool.dev.zones| && Held(s, m)
    requires m.zone < |s.base.pool.dev.zones| && Spared(s, t, m.zone)
    ensures Held(t, m)
  {
    hide ZoneID, EncodePhysAddr;
  }

  lemma SparedCopied(s: Ztl, t: Ztl, m: Move)
    requires |s.base.pool.zm.zones| == |s.base.pool.dev.zones| && Copied(s, m)
    requires m.zone < |s.base.pool.dev.zones| && Spared(s, t, m.zone)
    ensures Copied(t, m)
  {
    hide ZoneID, EncodePhysAddr;
  }

  lemma SparedNone(s: Ztl, t: Ztl, y: nat)
    requires |s.base.pool.zm.zones| == |s.base.pool.dev.zones| && y < |s.base.pool.dev.zones|
    requires NoneIn(s.base.l2p, y) && Spared(s, t, y)
    ensures NoneIn(t.base.l2p, y)
  {
    hide ZoneID;
  }

  lemma SparedListed(s: Ztl, t: Ztl, y: nat, live: seq<(nat, nat)>)
    requires |s.base.pool.zm.zones| == |s.base.pool.dev.zones| && y < |s.base.pool.dev.zones|
    requires Outstanding(s.base, y, live) && Spared(s, t, y)
    ensures Outstanding(t.base, y, live)
  {
    hide ZoneID, OffsetSectors;
  }

  lemma HeldPrivate(s: Ztl, m: Move)
    requires |s.base.pool.zm.zones| == |s.base.pool.dev.zones| && (Held(s, m) || Copied(s, m))
    ensures Private(s, m.zone) && m.zone < |s.base.pool.dev.zones|
  {
    hide ZoneID, EncodePhysAddr;
  }

  lemma PrivateExists(s: Ztl, y: nat)
    requires Private(s, y)
    ensures y < |s.base.pool.dev.zones|
  {
  }

  lemma ForegroundCovers(s: Ztl, t: Ztl)
    requires Foreground(s, t) && Covers(s.base)
    ensures Covers(t.base)
  {
    hide Core, Spared, Private, Remapped, ZoneID, OffsetSectors;
    if t.base.l2p == s.base.l2p && t.base.p2l == s.base.p2l {
    } else {
      var seg, p :| Remapped(s.base, t.base, seg, p);
      RemappedCovers(s.base, t.base, seg, p);
    }
  }

  lemma ForegroundCoversBut(s: Ztl, t: Ztl, m: Move)
    requires Foreground(s, t) && CoversBut(s.base, m) && Installed(s, m)
    ensures CoversBut(t.base, m)
  {
    hide Core, Spared, Private, Remapped, ZoneID, OffsetSectors;
    if t.base.l2p == s.base.l2p && t.base.p2l == s.base.p2l {
    } else {
      var seg, p :| Remapped(s.base, t.base, seg, p) && (p != UNMAPPED ==> !Private(s, ZoneID(p)));
      RemappedCoversBut(s.base, t.base, seg, p, m);
    }
  }

  lemma ForegroundInstalled(s: Ztl, t: Ztl, m: Move, victim: nat, off: nat)
    requires Foreground(s, t) && Installed(s, m)
    requires Private(s, victim) && Source(s, victim, off, m.from)
    ensures Installed(t, m)
  {
    hide Core, Remapped, ZoneID, OffsetSectors, Located, Private;
    PrivateExists(s, m.zone);
    PrivateExists(s, victim);
    assert Spared(s, t, m.zone) && Spared(s, t, victim);
  }

  lemma ForegroundStage(s: Ztl, t: Ztl, victim: nat, live: seq<(nat, nat)>, stage: Stage)
    requires Foreground(s, t) && Private(s, victim) && StageHolds(s, victim, live, stage)
    ensures StageHolds(t, victim, live, stage)
  {
    hide Core, Covers, CoversBut, Source, Held, Copied, Installed, Private, Outstanding, Spared, Behind;
    PrivateExists(s, victim);
    assert Spared(s, t, victim);
    match stage {
      case Check => ForegroundCovers(s, t); SparedListed(s, t, victim, live);
      case Fetching(from) =>
        ForegroundCovers(s, t); SparedListed(s, t, victim, live); SparedSource(s, t, victim, live[0].1, from);
      case Claiming(from, data) =>
        ForegroundCovers(s, t); SparedListed(s, t, victim, live); SparedSource(s, t, victim, live[0].1, from);
      case Announcing(m) => ForegroundHeld(s, t, victim, live, m);
      case Copying(m) => ForegroundHeld(s, t, victim, live, m);
      case Swapping(m) =>
        ForegroundCovers(s, t); SparedListed(s, t, victim, live); SparedSource(s, t, victim, live[0].1, m.from);
        HeldPrivate(s, m);
        SparedCopied(s, t, m);
      case Settling(m) =>
        SparedListed(s, t, victim, live[1..]); SparedSource(s, t, victim, live[0].1, m.from);
        ForegroundCoversBut(s, t, m);
        ForegroundInstalled(s, t, m, victim, live[0].1);
      case Abandoning(m) => ForegroundCovers(s, t); SparedListed(s, t, victim, live[1..]);
    }
  }

  lemma ForegroundHeld(s: Ztl, t: Ztl, victim: nat, live: seq<(nat, nat)>, m: Move)
    requires Foreground(s, t) && Private(s, victim) && live != []
    requires Covers(s.base) && Outstanding(s.base, victim, live) && Carrying(s, victim, live[0], m) && Held(s, m)
    ensures Covers(t.base) && Outstanding(t.base, victim, live) && Carrying(t, victim, live[0], m) && Held(t, m)
  {
    hide Core, Covers, Source, Held, Private, Outstanding, Spared, Behind;
    PrivateExists(s, victim);
    ForegroundCovers(s, t);
    SparedListed(s, t, victim, live);
    SparedSource(s, t, victim, live[0].1, m.from);
    HeldPrivate(s, m);
    SparedHeld(s, t, m);
  }

  lemma ForegroundSteady(s: Ztl, t: Ztl, gc: Collector)
    requires Steady(World(s, gc)) && Foreground(s, t)
    ensures Steady(World(t, gc))
  {
    hide Core, StageHolds, Covers, NoneIn, Private, Spared, Remapped;
    match gc {
      case Idle => ForegroundCovers(s, t);
      case Migrating(victim, live, stage) =>
        PrivateExists(s, victim);
        ForegroundStage(s, t, victim, live, stage);
        SparedPrivate(s, t, victim);
      case Sealing(victim) => ForegroundEmpty(s, t, victim);
      case Reclaiming(victim) => ForegroundEmpty(s, t, victim);
    }
  }

  lemma ForegroundEmpty(s: Ztl, t: Ztl, victim: nat)
    requires Foreground(s, t) && Private(s, victim) && Covers(s.base) && NoneIn(s.base.l2p, victim)
    ensures Private(t, victim) && Covers(t.base) && NoneIn(t.base.l2p, victim)
  {
    hide Core, Covers, NoneIn, Private, Spared, Remapped;
    PrivateExists(s, victim);
    ForegroundCovers(s, t);
    SparedPrivate(s, t, victim);
    SparedNone(s, t, victim);
  }

  lemma WriteForeground(s: Ztl, seg: nat, data: seq<D.Sector>)
    requires Core(s) && seg < |s.base.l2p| && |data| == s.base.spp && Ready(s.base)
    requires WriteSegment(s, seg, data).1 == Ok
    ensures Foreground(s, WriteSegment(s, seg, data).0)
  {
    hide Core, Content, WriteSegment, Private, Spared, Remapped;
    WriteSegmentCore(s, seg, data);
    var t := WriteSegment(s, seg, data).0;
    CoreSizes(s);
    CoreSizes(t);
    forall y: nat | Private(s, y) ensures y < |s.base.pool.dev.zones| && Spared(s, t, y) { WriteSegmentSpares(s, seg, data, y); }
    var p := WriteSegmentRemaps(s, seg, data);
    assert Remapped(s.base, t.base, seg, p) && (p != UNMAPPED ==> !Private(s, ZoneID(p)));
  }

  /** A write refused for want of a zone closes the write zone, and moves no data. */
  lemma RefusedForeground(s: Ztl, seg: nat, data: seq<D.Sector>)
    requires Core(s) && Ready(s.base) && GetWriteZone(s).1.Failure?
    ensures WriteSegment(s, seg, data) == (GetWriteZone(s).0, GetWriteZone(s).1.error)
    ensures Foreground(s, GetWriteZone(s).0)
  {
    hide Core, AllocateFree, Content, Quiet, Allocated, Foreground, WriteInto;
    CoreConfig(s);
    CoreFreeList(s);
    AllocateFreeMoves(s.base.pool, s.base.spp);
    GetWriteZoneCore(s);
    var (q, alloc) := AllocateFree(s.base.pool);
    CoreSizes(s);
    PoolCalm(s, q);
    ClosedCalm(s, s.(base := s.base.(pool := q)));
    CalmForeground(s, GetWriteZone(s).0);
  }

  lemma CoreFreeList(s: Ztl)
    requires Core(s)
    ensures FreeIsEmpty(s.base.pool)
  {
  }

  lemma ClosedCalm(s: Ztl, t: Ztl)
    requires Calm(s, t)
    ensures Calm(s, t.(curOpen := false))
  {
  }

  lemma UnmapForeground(s: Ztl, seg: nat)
    requires Core(s) && Ready(s.base)
    ensures Foreground(s, s.(base := UnmapSegment(s.base, seg)))
  {
    hide Core, Content, Private, Spared, Remapped;
    UnmapSegmentCore(s, seg);
    var t := s.(base := UnmapSegment(s.base, seg));
    CoreSizes(s);
    CoreSizes(t);
    forall y: nat | Private(s, y) ensures y < |s.base.pool.dev.zones| && Spared(s, t, y) { UnmapSpares(s, seg, y); }
    if seg < |s.base.l2p| && s.base.l2p[seg] != UNMAPPED {
      UnmapRemaps(s, seg);
    }
  }

  lemma FlushForeground(s: Ztl, z: nat)
    requires Core(s) && Ready(s.base) && FlushZone(s.bufs, s.base.pool, z).2 == Ok
    ensures var (bufs, q, r) := FlushZone(s.bufs, s.base.pool, z);
      Foreground(s, s.(base := s.base.(pool := q), bufs := bufs))
  {
    hide Core, Content, FlushZone, Private, Spared, Remapped;
    FlushCore(s, z);
    var (bufs, q, r) := FlushZone(s.bufs, s.base.pool, z);
    var t := s.(base := s.base.(pool := q), bufs := bufs);
    CoreSizes(s);
    CoreSizes(t);
    forall y: nat | Private(s, y) ensures y < |s.base.pool.dev.zones| && Spared(s, t, y) {
      PrivateExists(s, y);
      FlushZoneSpares(s, z, y);
    }
  }

  lemma CommitForeground(s: Ztl)
    requires Core(s) && Ready(s.base)
    ensures Foreground(s, s.(base := s.base.(log := GroupCommit(s.base.log))))
  {
    var t := s.(base := s.base.(log := GroupCommit(s.base.log)));
    LogOnly(s, t.base.log);
    CoreSizes(s);
    forall y: nat | Private(s, y) ensures y < |s.base.pool.dev.zones| && Spared(s, t, y) {
      hide Core, ZoneID;
    }
  }

  // ---------- collector steps keep it, and disturb nothing ----------

  /** The same data behind every segment. */
  ghost predicate SameData(s: Ztl, t: Ztl) {
    |t.base.l2p| == |s.base.l2p| && t.base.spp == s.base.spp && forall seg :: Content(t, seg) == Content(s, seg)
  }

  /** Everything about zones in use and the table that a stage relies on is as it was. */
  ghost predicate Calm(s: Ztl, t: Ztl) {
    && |s.base.pool.zm.zones| == |s.base.pool.dev.zones| && |t.base.pool.zm.zones| == |t.base.pool.dev.zones|
    && t == s.(base := t.base, curOpen := t.curOpen) && (t.curOpen ==> s.curOpen)
    && t.base.spp == s.base.spp && t.base.l2p == s.base.l2p && t.base.p2l == s.base.p2l
    && t.base.pool.dev.zoneSectors == s.base.pool.dev.zoneSectors
    && |t.base.pool.dev.zones| == |s.base.pool.dev.zones|
    && forall y :: 0 <= y < |s.base.pool.dev.zones| && s.base.pool.dev.zones[y].cond != D.Empty ==>
         && t.base.pool.dev.zones[y].cond != D.Empty
         && t.base.pool.dev.zones[y].data == s.base.pool.dev.zones[y].data
         && t.base.pool.dev.zones[y].wp == s.base.pool.dev.zones[y].wp
         && t.base.pool.zm.zones[y].wp == s.base.pool.zm.zones[y].wp
  }

  lemma CalmForeground(s: Ztl, t: Ztl)
    requires Core(t) && Calm(s, t)
    ensures Foreground(s, t)
  {
    hide Core, ZoneID;
    forall y: nat | Private(s, y) ensures y < |s.base.pool.dev.zones| && Spared(s, t, y) {
    }
  }

  lemma PoolCalm(s: Ztl, q: Pool)
    requires |s.base.pool.zm.zones| == |s.base.pool.dev.zones| && Quiet(s.base.pool, q)
    ensures Calm(s, s.(base := s.base.(pool := q)))
  {
    hide D.Sane;
  }

  lemma AllocatedCalm(s: Ztl, q: Pool, z: nat)
    requires |s.base.pool.zm.zones| == |s.base.pool.dev.zones| && Allocated(s.base.pool, q, z)
    ensures Calm(s, s.(base := s.base.(pool := q)))
  {
    hide D.Sane;
  }

  lemma StartSteady(s: Ztl, victim: nat, order: seq<nat>)
    requires Steady(World(s, Idle)) && Collectable(s, victim) && Ordered(s.base, victim, order)
    ensures Ready(s.base)
    ensures var w := Act(World(s, Idle), Begin(victim, order)).0; Steady(w) && SameData(s, w.s)
  {
    hide Core, Content, Gather, Covers, Ordered, ZoneID, OffsetSectors;
    CoreReady(s);
    var t := s.(base := Freeze(s.base, victim));
    FrozenCore(s, t);
    CoversFrozen(s.base, victim, victim, order);
    OrderDistinct(t.base, victim, order);
    GatherLive(t.base, victim, order);
    var live := Gather(t.base, victim, order);
    forall seg | 0 <= seg < |t.base.l2p| && t.base.l2p[seg] != UNMAPPED && ZoneID(t.base.l2p[seg]) == victim
      ensures (seg, OffsetSectors(t.base.l2p[seg])) in live {
      GatherComplete(t.base, victim, order, seg);
      var k :| 0 <= k < |live| && live[k].0 == seg;
      assert live[k] == (seg, OffsetSectors(t.base.l2p[seg]));
    }
    CoreSizes(t);
  }

  /** Leaving a collection, finished or not. */
  lemma QuitSteady(s: Ztl, gc: Collector)
    requires gc != Idle && Core(s) && Covers(s.base)
    ensures Steady(Quit(World(s, gc), s.base)) && SameData(s, Quit(World(s, gc), s.base).s)
  {
    hide Core, Content, ZoneID, OffsetSectors;
    var t := s.(base := Unfreeze(s.base, gc.victim));
    FrozenCore(s, t);
    CoreSizes(t);
  }

  lemma CheckSteady(s: Ztl, victim: nat, live: seq<(nat, nat)>)
    requires Steady(World(s, Migrating(victim, live, Check))) && live != [] && Ready(s.base)
    ensures var w := MigrationStep(World(s, Migrating(victim, live, Check))); Steady(w) && SameData(s, w.s)
  {
    hide ZoneID, OffsetSectors, Private, Located;
    var seg, off := live[0].0, live[0].1;
    var from := Get(s.base.l2p, seg);
    if IsUnmapped(from) {
      var t := s.(base := s.base.(p2l := s.base.p2l - {Key(from)}));
      ForgetUnmappedKey(s.base, from);
      PrivateTables(s, t, victim);
      TablesCore(s, t);
    } else if StillThere(s.base, victim, seg, off) {
      MappedLocated(s, seg);
    }
  }

  lemma PrivateTables(s: Ztl, t: Ztl, y: nat)
    requires Private(s, y) && t.base.pool == s.base.pool && t.bufs == s.bufs && t.cur == s.cur && t.curOpen == s.curOpen
    ensures Private(t, y)
  {
  }

  lemma TablesCore(s: Ztl, t: Ztl)
    requires Core(s) && t == s.(base := s.base.(p2l := t.base.p2l))
    ensures Core(t) && forall seg :: Content(t, seg) == Content(s, seg)
  {
    LocatedTable(s.base, t.base);
  }

  /** Removing the entry at the unmapped address removes no entry of a mapped segment. */
  lemma ForgetUnmappedKey(b: Base, p: PhysAddr)
    requires Covers(b) && p == UNMAPPED
    ensures Covers(b.(p2l := b.p2l - {Key(p)}))
  {
    hide ZoneID, OffsetSectors;
    KeyOfUnmapped(p);
    forall i | 0 <= i < |b.l2p| && b.l2p[i] != UNMAPPED ensures Key(b.l2p[i]) != Key(p) {
      KeyOfUnmapped(b.l2p[i]);
    }
  }

  lemma FetchSteady(s: Ztl, victim: nat, live: seq<(nat, nat)>, from: PhysAddr)
    requires Steady(World(s, Migrating(victim, live, Fetching(from)))) && Ready(s.base)
    ensures var w := MigrationStep(World(s, Migrating(victim, live, Fetching(from)))); Steady(w) && SameData(s, w.s)
  {
    hide Core, Private, Located, Fetch, Covers, Outstanding, ZoneID, OffsetSectors, Content, Behind;
    FetchReads(s, victim, from);
  }

  lemma ClaimSteady(s: Ztl, victim: nat, live: seq<(nat, nat)>, from: PhysAddr, data: seq<D.Sector>)
    requires Steady(World(s, Migrating(victim, live, Claiming(from, data)))) && Ready(s.base)
    ensures var w := MigrationStep(World(s, Migrating(victim, live, Claiming(from, data)))); Steady(w) && SameData(s, w.s)
  {
    hide Core, Private, Claim, Covers, Outstanding, ZoneID, OffsetSectors, Content, Source, Behind, Held, Allocated, Quiet, Foreground;
    var seg := live[0].0;
    ClaimCore(s, seg, from, data);
    var (c, claim) := Claim(s.base, seg, from, data);
    var t := s.(base := c);
    ClaimPoolOnly(s.base, seg, from, data);
    if claim.Failure? {
      PoolCalm(s, c.pool);
      CalmForeground(s, t);
      ForegroundCovers(s, t);
      QuitSteady(t, Migrating(victim, live, Claiming(from, data)));
    } else {
      var m := claim.value;
      AllocatedCalm(s, c.pool, m.zone);
      CalmForeground(s, t);
      ForegroundSteady(s, t, Migrating(victim, live, Claiming(from, data)));
      assert m.zone != victim by { PrivateInUse(s, victim); }
    }
  }

  lemma PrivateInUse(s: Ztl, y: nat)
    requires Private(s, y)
    ensures y < |s.base.pool.dev.zones| && s.base.pool.dev.zones[y].cond != D.Empty
  {
  }

  lemma ClaimPoolOnly(b: Base, seg: nat, from: PhysAddr, data: seq<D.Sector>)
    requires Ready(b)
    ensures Claim(b, seg, from, data).0 == b.(pool := Claim(b, seg, from, data).0.pool)
  {
  }

  lemma AnnounceSteady(s: Ztl, victim: nat, live: seq<(nat, nat)>, m: Move)
    requires Steady(World(s, Migrating(victim, live, Announcing(m)))) && Ready(s.base)
    ensures var w := MigrationStep(World(s, Migrating(victim, live, Announcing(m)))); Steady(w) && SameData(s, w.s)
  {
    hide Core, Private, Covers, Outstanding, ZoneID, OffsetSectors, Content, Source, Behind, Held, Foreground;
    var t := s.(base := Announce(s.base, m));
    LogOnly(s, t.base.log);
    CalmForeground(s, t);
    ForegroundSteady(s, t, Migrating(victim, live, Announcing(m)));
  }

  lemma CopySteady(s: Ztl, victim: nat, live: seq<(nat, nat)>, m: Move)
    requires Steady(World(s, Migrating(victim, live, Copying(m)))) && Ready(s.base)
    ensures var w := MigrationStep(World(s, Migrating(victim, live, Copying(m)))); Steady(w) && SameData(s, w.s)
  {
    hide Core, Copy, Covers, Outstanding, ZoneID, OffsetSectors, Content, Located, Behind, Held, Copied, D.Store, D.Sane;
    CopyCore(s, m);
    var (c, r) := Copy(s.base, m);
    if r != Ok {
      QuitSteady(s, Migrating(victim, live, Copying(m)));
    } else {
      CopyPoolOnly(s.base, m);
      HeldPrivate(s, m);
      DirectVictim(s, s.(base := c), m, victim, live);
    }
  }

  /** The copy goes to the migration's zone and leaves the victim alone. */
  lemma DirectVictim(s: Ztl, t: Ztl, m: Move, victim: nat, live: seq<(nat, nat)>)
    requires |s.base.pool.zm.zones| == |s.base.pool.dev.zones| && m.zone < |s.base.pool.dev.zones| && m.zone != victim
    requires live != [] && Direct(s.base.pool, t.base.pool, m.zone, m.data) && t == s.(base := s.base.(pool := t.base.pool))
    requires Private(s, victim) && Covers(s.base) && Outstanding(s.base, victim, live) && Carrying(s, victim, live[0], m)
    ensures |t.base.pool.zm.zones| == |t.base.pool.dev.zones|
    ensures Private(t, victim) && Covers(t.base) && Outstanding(t.base, victim, live) && Carrying(t, victim, live[0], m)
  {
    hide D.Store, D.Sane, ZoneID, OffsetSectors;
  }

  /** The swap: if the segment is still where it was read from, the copy holds its current data. */
  lemma SwapSteady(s: Ztl, victim: nat, live: seq<(nat, nat)>, m: Move)
    requires Steady(World(s, Migrating(victim, live, Swapping(m)))) && Ready(s.base)
    requires Get(s.base.l2p, m.seg) == m.from ==> m.to != UNMAPPED
    ensures var w := MigrationStep(World(s, Migrating(victim, live, Swapping(m)))); Steady(w) && SameData(s, w.s)
  {
    hide Core, Copied, Content, ZoneID, OffsetSectors, EncodePhysAddr, Located, Behind;
    var (table, won) := CAS(s.base.l2p, m.seg, m.from, m.to);
    var t := s.(base := s.base.(l2p := table));
    if won {
      SwapInstalls(s, t, victim, live, m);
      SwapWonData(s, t, victim, m);
    } else {
      forall seg | 0 <= seg < |s.base.l2p| && s.base.l2p[seg] != UNMAPPED && ZoneID(s.base.l2p[seg]) == victim
        ensures (seg, OffsetSectors(s.base.l2p[seg])) in live[1..] {
        var entry := (seg, OffsetSectors(s.base.l2p[seg]));
        assert entry in live;
        if entry == live[0] { SameKey(s.base.l2p[seg], m.from); }
      }
    }
  }

  lemma SwapWonData(s: Ztl, t: Ztl, victim: nat, m: Move)
    requires Core(s) && |s.base.pool.zm.zones| == |s.base.pool.dev.zones| && Copied(s, m)
    requires Private(s, victim) && ZoneID(m.from) == victim && Fetched(s, m.from, m.data)
    requires m.seg < |s.base.l2p| && s.base.l2p[m.seg] == m.from && m.to != UNMAPPED
    requires t == s.(base := s.base.(l2p := s.base.l2p[m.seg := m.to]))
    ensures Core(t) && SameData(s, t)
  {
    hide ZoneID, OffsetSectors, EncodePhysAddr, Behind, Config, Pointers, FreeIsEmpty, Located, Copied;
    CopiedBehind(s, m);
    CoreSizes(s);
    LocatedUpdate(s.base, t.base, m.seg);
    BehindUnbuffered(s.base.pool.dev, s.bufs, s.base.spp, m.from);
  }

  lemma SwapInstalls(s: Ztl, t: Ztl, victim: nat, live: seq<(nat, nat)>, m: Move)
    requires Core(s) && |s.base.pool.zm.zones| == |s.base.pool.dev.zones| && live != []
    requires Private(s, victim) && StageHolds(s, victim, live, Swapping(m))
    requires m.seg < |s.base.l2p| && s.base.l2p[m.seg] == m.from
    requires t == s.(base := s.base.(l2p := s.base.l2p[m.seg := m.to]))
    ensures Private(t, victim) && StageHolds(t, victim, live, Settling(m))
  {
    hide Core, Content, Behind, EncodePhysAddr, ZoneID, OffsetSectors, Located;
    hide Copied;
    CopiedBehind(s, m);
    HeldPrivate(s, m);
    CopiedNone(s, m);
    forall i | 0 <= i < |t.base.l2p| ensures t.base.l2p[i] != m.from {
    }
    forall seg | 0 <= seg < |t.base.l2p| && t.base.l2p[seg] != UNMAPPED && ZoneID(t.base.l2p[seg]) == victim
      ensures (seg, OffsetSectors(t.base.l2p[seg])) in live[1..] {
      assert seg != m.seg;
      assert (seg, OffsetSectors(s.base.l2p[seg])) in live;
    }
  }

  lemma CopiedNone(s: Ztl, m: Move)
    requires |s.base.pool.zm.zones| == |s.base.pool.dev.zones| && Copied(s, m)
    ensures NoneIn(s.base.l2p, m.zone)
  {
  }

  lemma SettleSteady(s: Ztl, victim: nat, live: seq<(nat, nat)>, m: Move)
    requires Steady(World(s, Migrating(victim, live, Settling(m)))) && Ready(s.base)
    ensures var w := MigrationStep(World(s, Migrating(victim, live, Settling(m)))); Steady(w) && SameData(s, w.s)
  {
    hide Core, Content, ZoneID, OffsetSectors, EncodePhysAddr, Located, Private, CoversBut, Covers;
    var t := s.(base := Settle(s.base, m));
    assert Config(s.base.pool, s.base.spp) by { CoreConfig(s); }
    SettleQuiet(s.base, s.base.spp, m);
    QuietCore(s, t.base.pool);
    TablesCore(s.(base := s.base.(pool := t.base.pool)), t);
    SettleCovers(s.base, t.base, m);
    SettlePrivate(s, t, victim);
    CoreSizes(t);
  }

  lemma SettleQuiet(b: Base, spp: nat, m: Move)
    requires Config(b.pool, spp)
    ensures Quiet(b.pool, Settle(b, m).pool)
  {
    hide ZoneID, OffsetSectors;
  }

  lemma SettlePrivate(s: Ztl, t: Ztl, y: nat)
    requires Private(s, y) && t == s.(base := t.base) && t.base.pool.dev == s.base.pool.dev
    ensures Private(t, y)
  {
  }

  lemma SettleCovers(b: Base, c: Base, m: Move)
    requires CoversBut(b, m) && c.l2p == b.l2p && c.p2l == (b.p2l - {Key(m.from)})[Key(m.to) := m.seg]
    requires ZoneID(m.to) == m.zone
    requires forall i :: 0 <= i < |b.l2p| && b.l2p[i] != UNMAPPED && ZoneID(b.l2p[i]) == m.zone ==> i == m.seg && b.l2p[i] == m.to
    requires forall i :: 0 <= i < |b.l2p| ==> b.l2p[i] != m.from
    ensures Covers(c)
  {
    hide ZoneID, OffsetSectors, EncodePhysAddr;
    forall i | 0 <= i < |c.l2p| && c.l2p[i] != UNMAPPED
      ensures Key(c.l2p[i]) in c.p2l && c.p2l[Key(c.l2p[i])] == i {
      if Key(c.l2p[i]) == Key(m.from) { SameKey(c.l2p[i], m.from); }
      if Key(c.l2p[i]) == Key(m.to) { SameKey(c.l2p[i], m.to); }
    }
  }

  lemma AbandonSteady(s: Ztl, victim: nat, live: seq<(nat, nat)>, m: Move)
    requires Steady(World(s, Migrating(victim, live, Abandoning(m)))) && Ready(s.base)
    ensures var w := MigrationStep(World(s, Migrating(victim, live, Abandoning(m)))); Steady(w) && SameData(s, w.s)
  {
    hide Core, Content, ZoneID, OffsetSectors, Private, Covers, Outstanding, Quiet, Foreground;
    var t := s.(base := Abandon(s.base, m));
    assert Config(s.base.pool, s.base.spp) by { CoreConfig(s); }
    AbandonQuiet(s.base, s.base.spp, m);
    QuietCore(s, t.base.pool);
    PoolCalm(s, t.base.pool);
    CalmForeground(s, t);
    ForegroundSteady(s, t, Migrating(victim, live, Abandoning(m)));
  }

  lemma AbandonQuiet(b: Base, spp: nat, m: Move)
    requires Config(b.pool, spp)
    ensures Quiet(b.pool, Abandon(b, m).pool)
  {
  }

  lemma EmptyListNone(b: Base, victim: nat)
    requires Outstanding(b, victim, [])
    ensures NoneIn(b.l2p, victim)
  {
    hide ZoneID, OffsetSectors;
  }

  lemma SealSteady(s: Ztl, victim: nat)
    requires Steady(World(s, Sealing(victim)))
    ensures Ready(s.base)
    ensures var w := CollectorStep(World(s, Sealing(victim))); Steady(w) && SameData(s, w.s)
  {
    hide Core, Content, Private, Covers, NoneIn, Foreground, Seal;
    CoreReady(s);
    var t := s.(base := Seal(s.base, victim));
    SealLog(s.base, victim);
    LogOnly(s, t.base.log);
    CalmForeground(s, t);
    ForegroundSteady(s, t, Sealing(victim));
  }

  lemma SealLog(b: Base, victim: nat)
    ensures Seal(b, victim) == b.(log := Seal(b, victim).log)
  {
  }

  /** At the reset nothing is mapped into the victim, so the reset loses nothing. */
  lemma ReclaimSteady(s: Ztl, victim: nat)
    requires Steady(World(s, Reclaiming(victim)))
    ensures Ready(s.base) && NoneIn(s.base.l2p, victim)
    ensures var w := CollectorStep(World(s, Reclaiming(victim))); Steady(w) && SameData(s, w.s) && Reclaim(s.base, victim).1 == Ok
  {
    hide Core, Content, Covers, NoneIn, Reclaim;
    CoreReady(s);
    ReclaimCore(s, victim);
    var c := Reclaim(s.base, victim).0;
    ReclaimTables(s.base, victim);
    assert Covers(c) by { CoversTables(s.base, c); }
    QuitSteady(s.(base := c), Reclaiming(victim));
  }

  lemma ReclaimTables(b: Base, victim: nat)
    requires Ready(b)
    ensures Reclaim(b, victim).0.l2p == b.l2p && Reclaim(b, victim).0.p2l == b.p2l
  {
  }

  lemma CoversTables(b: Base, c: Base)
    requires Covers(b) && c.l2p == b.l2p && c.p2l == b.p2l
    ensures Covers(c)
  {
    hide ZoneID, OffsetSectors;
  }

  // ---------- runs of the interleaving ----------

  /** The collector is not about to install the address that means unmapped. */
  predicate SparesZero(w: World) {
    w.gc.Migrating? && w.gc.live != [] && w.gc.stage.Swapping? ==>
      (Get(w.s.base.l2p, w.gc.stage.move.seg) == w.gc.stage.move.from ==> w.gc.stage.move.to != UNMAPPED)
  }

  ghost predicate Allowed(w: World, a: Action)
    requires Ready(w.s.base)
  {
    match a
    case Begin(victim, order) => w.gc == Idle ==> Collectable(w.s, victim) && Ordered(w.s.base, victim, order)
    case Collector => SparesZero(w)
    case ForegroundWrite(seg, data) =>
      && seg < |w.s.base.l2p| && |data| == w.s.base.spp && Stored(w.s, data) == data
      && (Act(w, a).1 == Ok || GetWriteZone(w.s).1.Failure?)
    case ForegroundFlush(_) => Act(w, a).1 == Ok
    case _ => true
  }

  lemma CollectorSteady(w: World)
    requires Steady(w) && Ready(w.s.base) && SparesZero(w)
    ensures Steady(CollectorStep(w)) && SameData(w.s, CollectorStep(w).s)
  {
    hide Core, Content, StageHolds, MigrationStep, Covers, NoneIn, Private;
    match w.gc {
      case Idle =>
      case Migrating(victim, live, stage) =>
        if live == [] {
          EmptyLive(w.s, victim, stage);
        } else {
          match stage {
            case Check => CheckSteady(w.s, victim, live);
            case Fetching(from) => FetchSteady(w.s, victim, live, from);
            case Claiming(from, data) => ClaimSteady(w.s, victim, live, from, data);
            case Announcing(m) => AnnounceSteady(w.s, victim, live, m);
            case Copying(m) => CopySteady(w.s, victim, live, m);
            case Swapping(m) => SwapSteady(w.s, victim, live, m);
            case Settling(m) => SettleSteady(w.s, victim, live, m);
            case Abandoning(m) => AbandonSteady(w.s, victim, live, m);
          }
        }
      case Sealing(victim) => SealSteady(w.s, victim);
      case Reclaiming(victim) => ReclaimSteady(w.s, victim);
    }
  }

  lemma EmptyLive(s: Ztl, victim: nat, stage: Stage)
    requires |s.base.pool.zm.zones| == |s.base.pool.dev.zones| && StageHolds(s, victim, [], stage)
    ensures Covers(s.base) && NoneIn(s.base.l2p, victim)
  {
    hide Covers, CoversBut, ZoneID, OffsetSectors, Held, Copied;
    if stage.Check? {
      EmptyListNone(s.base, victim);
    } else {
      assert false;
    }
  }

  /** What the foreground asked for, as far as it was accepted: the data each segment should have. */
  function Asked(contents: seq<seq<D.Sector>>, a: Action, accepted: bool, spp: nat): (r: seq<seq<D.Sector>>)
    ensures |r| == |contents|
  {
    match a
    case ForegroundWrite(seg, data) => if accepted && seg < |contents| then contents[seg := data] else contents
    case ForegroundUnmap(seg) => if seg < |contents| then contents[seg := D.Zeros(spp)] else contents
    case _ => contents
  }

  function Contents(s: Ztl): seq<seq<D.Sector>> {
    seq(|s.base.l2p|, seg requires 0 <= seg => Content(s, seg))
  }

  lemma ActSteady(w: World, a: Action)
    requires Steady(w) && Ready(w.s.base) && Allowed(w, a)
    ensures Steady(Act(w, a).0)
    ensures Contents(Act(w, a).0.s) == Asked(Contents(w.s), a, Act(w, a).1 == Ok, w.s.base.spp)
    ensures Ready(Act(w, a).0.s.base) && Act(w, a).0.s.base.spp == w.s.base.spp
  {
    hide Core, Content, GcHolds, CollectorStep, WriteSegment, UnmapSegment, FlushZone, Collectable, Ordered, Stored, Foreground, GetWriteZone;
    var s := w.s;
    match a {
      case Begin(victim, order) =>
        if w.gc == Idle { StartSteady(s, victim, order); }
      case Collector => CollectorSteady(w);
      case ForegroundWrite(seg, data) =>
        WriteSegmentCore(s, seg, data);
        if WriteSegment(s, seg, data).1 == Ok {
          WriteForeground(s, seg, data);
        } else {
          RefusedForeground(s, seg, data);
        }
        ForegroundSteady(s, WriteSegment(s, seg, data).0, w.gc);
      case ForegroundUnmap(seg) =>
        UnmapSegmentCore(s, seg);
        UnmapForeground(s, seg);
        ForegroundSteady(s, s.(base := UnmapSegment(s.base, seg)), w.gc);
      case ForegroundFlush(z) =>
        FlushCore(s, z);
        FlushForeground(s, z);
        var (bufs, q, r) := FlushZone(s.bufs, s.base.pool, z);
        ForegroundSteady(s, s.(base := s.base.(pool := q), bufs := bufs), w.gc);
      case ForegroundCommit =>
        var t := s.(base := s.base.(log := GroupCommit(s.base.log)));
        LogOnly(s, t.base.log);
        CommitForeground(s);
        ForegroundSteady(s, t, w.gc);
    }
    CoreReady(Act(w, a).0.s);
  }

  function After(w: World, acts: seq<Action>): (r: World)
    requires Ready(w.s.base)
    ensures Ready(r.s.base)
  {
    if acts == [] then w else Act(After(w, acts[..|acts| - 1]), acts[|acts| - 1]).0
  }

  /** Every action is allowed when it comes: a flush must not be refused; a write may be, for want of a zone. */
  ghost predicate AllAllowed(w: World, acts: seq<Action>)
    requires Ready(w.s.base)
  {
    acts == [] ||
    var v, a := After(w, acts[..|acts| - 1]), acts[|acts| - 1];
    AllAllowed(w, acts[..|acts| - 1]) && Allowed(v, a)
  }

  /** Which actions the layer accepted. */
  function AcceptedAll(w: World, acts: seq<Action>): (r: seq<bool>)
    requires Ready(w.s.base)
    ensures |r| == |acts|
  {
    if acts == [] then [] else
    var last := |acts| - 1;
    AcceptedAll(w, acts[..last]) + [Act(After(w, acts[..last]), acts[last]).1 == Ok]
  }

  function AskedAll(contents: seq<seq<D.Sector>>, acts: seq<Action>, accepted: seq<bool>, spp: nat): (r: seq<seq<D.Sector>>)
    requires |accepted| == |acts|
    ensures |r| == |contents|
    decreases |acts|
  {
    if acts == [] then contents else
    var last := |acts| - 1;
    Asked(AskedAll(contents, acts[..last], accepted[..last], spp), acts[last], accepted[last], spp)
  }

  /** Whatever the interleaving of collector steps with foreground writes, accepted or refused, unmaps, flushes and
      commits, every segment holds what the foreground last asked for: the collector is invisible, and a
      foreground write wins over a migration of its segment. */
  lemma {:induction false} CollectorInvisible(w: World, acts: seq<Action>)
    requires Steady(w) && Ready(w.s.base) && AllAllowed(w, acts)
    ensures Steady(After(w, acts)) && After(w, acts).s.base.spp == w.s.base.spp
    ensures Contents(After(w, acts).s) == AskedAll(Contents(w.s), acts, AcceptedAll(w, acts), w.s.base.spp)
  {
    hide Steady, Contents, Act, Asked, Allowed;
    if acts != [] {
      var last := |acts| - 1;
      CollectorInvisible(w, acts[..last]);
      ActSteady(After(w, acts[..last]), acts[last]);
      assert AcceptedAll(w, acts)[..last] == AcceptedAll(w, acts[..last]);
    }
  }

  /** In every such run, when the collector is about to reset its victim no segment is mapped into it. */
  lemma ResetLosesNothing(w: World, acts: seq<Action>)
    requires Steady(w) && Ready(w.s.base) && AllAllowed(w, acts)
    ensures After(w, acts).gc.Reclaiming? ==>
              var v := After(w, acts);
              NoneIn(v.s.base.l2p, v.gc.victim) && v.gc.victim !in v.s.bufs
  {
    hide Core, After, AllAllowed, NoneIn, Covers;
    CollectorInvisible(w, acts);
  }
}
