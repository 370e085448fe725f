/** The zone translation layer as a value: every step of internal/ztl/ztl.go, buffer.go and gc.go as a
    function from state to state. Map iteration orders are arguments. */
module Ztl {
  import opened Arith
  import opened Errors
  import opened Segment
  import opened Pool
  import opened Log
  import D = Device

  type Table = seq<PhysAddr>

  /** From a zone and an offset in it to the segment stored there. */
  type Reverse = map<(nat, nat), nat>

  /** The part of the state that garbage collection shares with the foreground. */
  datatype Base = Base(l2p: Table, p2l: Reverse, pool: Pool, log: Log, spp: nat)

  /** Sectors accepted for a zone but not yet written to the device; `wp` is the address of the first. */
  datatype ZoneBuffer = ZoneBuffer(wp: nat, data: seq<D.Sector>)

  type Buffers = map<nat, ZoneBuffer>

  datatype Ztl = Ztl(base: Base, bufs: Buffers, cur: nat, curOpen: bool)

  // ---------- tables ----------

  function Get(t: Table, seg: nat): PhysAddr {
    if seg < |t| then t[seg] else UNMAPPED
  }

  function Key(p: PhysAddr): (nat, nat) {
    (ZoneID(p), OffsetSectors(p))
  }

  function CAS(t: Table, seg: nat, expected: PhysAddr, replacement: PhysAddr): (Table, bool) {
    if seg < |t| && t[seg] == expected then (t[seg := replacement], true) else (t, false)
  }

  /** The bookkeeping of a foreground write once the table holds the new address. */
  function Relocate(b: Base, seg: nat, oldPhys: PhysAddr, newPhys: PhysAddr, zone: nat): Base {
    var forgotten := if IsUnmapped(oldPhys) then b else Forget(b, oldPhys);
    forgotten.(
      p2l := forgotten.p2l[Key(newPhys) := seg],
      pool := forgotten.pool.(zm := IncrementValidSegs(forgotten.pool.zm, zone)))
  }

  function Forget(b: Base, phys: PhysAddr): Base {
    b.(p2l := b.p2l - {Key(phys)}, pool := b.pool.(zm := DecrementValidSegs(b.pool.zm, ZoneID(phys))))
  }

  ghost predicate Ready(b: Base) {
    Listed(b.pool) && b.spp > 0
  }

  ghost predicate Same(b: Base, c: Base) {
    && Kept(b.pool, c.pool)
    && c.spp == b.spp
    && |c.l2p| == |b.l2p|
  }

  // ---------- write buffer ----------

  function BufferAdd(bufs: Buffers, z: nat, data: seq<D.Sector>, wp: nat): Buffers {
    if data == [] then bufs
    else if z in bufs then bufs[z := bufs[z].(data := bufs[z].data + data)]
    else bufs[z := ZoneBuffer(wp, data)]
  }

  /** The buffered sectors of a range, when the buffer covers all of it. */
  function Lookup(bufs: Buffers, z: nat, lba: nat, count: nat): Result<seq<D.Sector>> {
    if z !in bufs then Failure(NoSuchZone) else
    var b := bufs[z];
    if lba >= b.wp + |b.data| || lba + count <= b.wp || lba < b.wp || lba + count > b.wp + |b.data| || count == 0
    then Failure(NoSuchZone)
    else Success(b.data[lba - b.wp..lba - b.wp + count])
  }

  /** The buffer leaves the map before the device is asked to take it. */
  function FlushZone(bufs: Buffers, p: Pool, z: nat): (r: (Buffers, Pool, Status))
    requires Listed(p)
    ensures Kept(p, r.1)
  {
    hide GetOrOpen, D.WriteSectors;
    if z !in bufs then (bufs, p, Ok) else
    var b, rest := bufs[z], bufs - {z};
    if b.data == [] then (rest, p, Ok) else
    var (q, ready) := GetOrOpen(p, z);
    if ready != Ok then (rest, q, ready) else
    var (d, written) := D.WriteSectors(q.dev, b.wp, b.data);
    if written != Ok then (rest, q.(dev := d), written) else
    (rest, Pool(UpdateWritePointer(q.zm, z, b.wp + |b.data|), d), Ok)
  }

  /** Flushes the zones in turn; the first error is reported, and the rest are flushed all the same. */
  function FlushEach(bufs: Buffers, p: Pool, zones: seq<nat>): (r: (Buffers, Pool, Status))
    requires Listed(p)
    ensures Kept(p, r.1)
  {
    if zones == [] then (bufs, p, Ok) else
    var last := |zones| - 1;
    var (bufs', q, first) := FlushEach(bufs, p, zones[..last]);
    var (bufs'', q', r) := FlushZone(bufs', q, zones[last]);
    (bufs'', q', if first != Ok then first else r)
  }

  // ---------- foreground ----------

  /** The sectors left in the current write zone, in 64-bit arithmetic: past the end of the zone there seem to be many. */
  function Remaining(s: Ztl): int {
    if s.cur < |s.base.pool.zm.zones| then
      var info := s.base.pool.zm.zones[s.cur];
      if info.wp <= info.start + info.size then info.start + info.size - info.wp
      else info.start + info.size + TWO_64 - info.wp
    else -1
  }

  function GetWriteZone(s: Ztl): (r: (Ztl, Result<nat>))
    requires Ready(s.base)
    ensures Same(s.base, r.0.base)
    ensures r.1.Failure? ==> r.1.error != Ok
  {
    if s.curOpen && Remaining(s) >= s.base.spp then (s, Success(s.cur)) else
    var (p, alloc) := AllocateFree(s.base.pool);
    match alloc
    case Failure(e) => (s.(base := s.base.(pool := p), curOpen := false), alloc)
    case Success(z) =>
      var log := LogZoneAction(s.base.log, ZONE_OPEN, z);
      (s.(base := s.base.(pool := p, log := log), cur := z, curOpen := true), alloc)
  }

  /** The address the next sector of a zone gets. */
  function NextAddr(zm: Manager, z: nat): PhysAddr {
    var off := WritePointer(zm, z) as int - ZoneStart(zm, z);
    EncodePhysAddr(z, if off >= 0 then off else 0)
  }

  /** A write into `zone`, which has been chosen: log, table, reverse map, counters, pointer, buffer. The log
      record is there even when the segment turns out not to exist. */
  function WriteInto(s: Ztl, zone: nat, seg: nat, data: seq<D.Sector>): (r: (Ztl, Status))
    requires Ready(s.base)
    ensures Same(s.base, r.0.base)
  {
    var b := s.base;
    if zone >= |b.pool.zm.zones| then (s, NoSuchZone) else
    var wp := WritePointer(b.pool.zm, zone);
    var newPhys := NextAddr(b.pool.zm, zone);
    var oldPhys := Get(b.l2p, seg);
    var logged := b.(log := LogL2PUpdate(b.log, seg, oldPhys, newPhys));
    if seg >= |b.l2p| then (s.(base := logged), NoSuchSegment) else
    var moved := Relocate(logged.(l2p := b.l2p[seg := newPhys]), seg, oldPhys, newPhys, zone);
    var pointed := moved.(pool := moved.pool.(zm := UpdateWritePointer(moved.pool.zm, zone, wp + |data|)));
    (s.(base := pointed, bufs := BufferAdd(s.bufs, zone, data, wp)), Ok)
  }

  /** A zone written to its end is flushed, and the next write takes another zone. */
  function FlushIfFull(s: Ztl, zone: nat): (r: (Ztl, Status))
    requires Ready(s.base) && zone < |s.base.pool.zm.zones|
    ensures Same(s.base, r.0.base)
  {
    var info := s.base.pool.zm.zones[zone];
    if info.wp < info.start + info.size then (s, Ok) else
    var (bufs, p, r) := FlushZone(s.bufs, s.base.pool, zone);
    var flushed := s.(base := s.base.(pool := p), bufs := bufs);
    if r != Ok then (flushed, r) else (flushed.(curOpen := false), Ok)
  }

  function WriteSegment(s: Ztl, seg: nat, data: seq<D.Sector>): (r: (Ztl, Status))
    requires Ready(s.base)
    ensures Same(s.base, r.0.base)
  {
    var (s1, zone) := GetWriteZone(s);
    if zone.Failure? then (s1, zone.error) else
    var (s2, r) := WriteInto(s1, zone.value, seg, data);
    if r != Ok then (s2, r) else
    FlushIfFull(s2, zone.value)
  }

  function Min(a: nat, b: nat): nat {
    if a < b then a else b
  }

  /** The part of a range that lies in the segment its first sector is in. */
  function Piece(lba: nat, count: nat, spp: nat): (n: nat)
    requires spp > 0
    ensures count > 0 ==> 0 < n <= count
    ensures lba / spp * spp <= lba && lba + n <= lba / spp * spp + spp
  {
    Min(lba / spp * spp + spp - lba, count)
  }

  function WriteFrom(s: Ztl, lba: nat, data: seq<D.Sector>): (r: (Ztl, Status))
    requires Ready(s.base)
    ensures Same(s.base, r.0.base)
    decreases |data|
  {
    if data == [] then (s, Ok) else
    var n := Piece(lba, |data|, s.base.spp);
    var (t, r) := WriteSegment(s, LBAToSegmentID(lba, s.base.spp), data[..n]);
    if r != Ok then (t, r) else WriteFrom(t, lba + n, data[n..])
  }

  function Write(s: Ztl, lba: nat, data: seq<D.Sector>, reserve: int, orders: seq<seq<nat>>): (r: (Ztl, Status))
    requires Ready(s.base)
    ensures Same(s.base, r.0.base)
  {
    if data == [] then (s, Ok) else
    var (b, cleared) := RunEmergencyGC(s.base, reserve, orders);
    if cleared != Ok then (s.(base := b), cleared) else
    var (t, r) := WriteFrom(s.(base := b), lba, data);
    if r != Ok then (t, r) else (t.(base := t.base.(log := GroupCommit(t.base.log))), Ok)
  }

  function Flush(s: Ztl, zones: seq<nat>): (r: (Ztl, Status))
    requires Ready(s.base)
    ensures Same(s.base, r.0.base)
  {
    var (bufs, p, r) := FlushEach(s.bufs, s.base.pool, zones);
    var t := s.(base := s.base.(pool := p), bufs := bufs);
    if r != Ok then (t, r) else (t.(base := t.base.(log := GroupCommit(t.base.log))), Ok)
  }

  function UnmapSegment(b: Base, seg: nat): (c: Base)
    requires Ready(b)
    ensures Same(b, c)
  {
    var oldPhys := Get(b.l2p, seg);
    if IsUnmapped(oldPhys) then b else
    Forget(b.(log := LogL2PUpdate(b.log, seg, oldPhys, UNMAPPED), l2p := b.l2p[seg := UNMAPPED]), oldPhys)
  }

  /** Unmaps the segments from `first` up to, not including, `end`. */
  function UnmapRange(b: Base, first: nat, end: nat): (c: Base)
    requires Ready(b)
    ensures Same(b, c)
    decreases end - first
  {
    if first >= end then b else UnmapSegment(UnmapRange(b, first, end - 1), end - 1)
  }

  /** The last address of a range, in 64-bit arithmetic: an empty range at address 0 ends at the top. */
  function LastLBA(lba: nat, count: nat): nat {
    (lba + count + TWO_64 - 1) % TWO_64
  }

  function Unmap(s: Ztl, lba: nat, count: nat): Ztl
    requires Ready(s.base)
  {
    s.(base := UnmapRange(s.base, LBAToSegmentID(lba, s.base.spp), LBAToSegmentID(LastLBA(lba, count), s.base.spp) + 1))
  }

  /** The part of a read that lies in one segment. */
  function ReadPiece(s: Ztl, lba: nat, count: nat): Result<seq<D.Sector>>
    requires Ready(s.base)
  {
    var seg := LBAToSegmentID(lba, s.base.spp);
    var phys := Get(s.base.l2p, seg);
    if IsUnmapped(phys) then Success(D.Zeros(count)) else
    var z := ZoneID(phys);
    if z >= |s.base.pool.zm.zones| then Failure(NoSuchZone) else
    DivBounds(lba, s.base.spp);
    var at := s.base.pool.zm.zones[z].start + OffsetSectors(phys) + (lba - seg * s.base.spp);
    match Lookup(s.bufs, z, at, count)
    case Success(data) => Success(data)
    case Failure(_) => D.ReadSectors(s.base.pool.dev, at, count)
  }

  function Read(s: Ztl, lba: nat, count: nat): Result<seq<D.Sector>>
    requires Ready(s.base)
    decreases count
  {
    if count == 0 then Success([]) else
    var n := Piece(lba, count, s.base.spp);
    match ReadPiece(s, lba, n)
    case Failure(e) => Failure(e)
    case Success(data) =>
      match Read(s, lba + n, count - n)
      case Failure(e) => Failure(e)
      case Success(rest) => Success(data + rest)
  }

  // ---------- garbage collection ----------

  /** What a migration has in hand between its steps. */
  datatype Move = Move(seg: nat, from: PhysAddr, data: seq<D.Sector>, zone: nat, wp: nat, to: PhysAddr)

  /** The victim's segment is still where the reverse map said. */
  predicate StillThere(b: Base, victim: nat, seg: nat, off: nat) {
    var phys := Get(b.l2p, seg);
    !IsUnmapped(phys) && ZoneID(phys) == victim && OffsetSectors(phys) == off
  }

  function Fetch(b: Base, victim: nat, off: nat): Result<seq<D.Sector>>
    requires Ready(b)
  {
    if victim >= |b.pool.zm.zones| then Failure(NoSuchZone)
    else D.ReadSectors(b.pool.dev, b.pool.zm.zones[victim].start + off, b.spp)
  }

  /** Takes a fresh zone for the copy. */
  function Claim(b: Base, seg: nat, from: PhysAddr, data: seq<D.Sector>): (r: (Base, Result<Move>))
    requires Ready(b)
    ensures Same(b, r.0)
    ensures r.1.Failure? ==> r.1.error != Ok
  {
    var (p, alloc) := AllocateFree(b.pool);
    match alloc
    case Failure(e) => (b.(pool := p), Failure(e))
    case Success(z) => (b.(pool := p), Success(Move(seg, from, data, z, WritePointer(p.zm, z), NextAddr(p.zm, z))))
  }

  function Announce(b: Base, m: Move): Base {
    b.(log := LogL2PUpdate(b.log, m.seg, m.from, m.to))
  }

  function Copy(b: Base, m: Move): (r: (Base, Status))
    requires Ready(b)
    ensures Same(b, r.0)
  {
    var (d, r) := D.WriteSectors(b.pool.dev, m.wp, m.data);
    if r != Ok then (b.(pool := b.pool.(dev := d)), r)
    else (b.(pool := Pool(UpdateWritePointer(b.pool.zm, m.zone, m.wp + b.spp), d)), Ok)
  }

  /** A lost swap counts the copy as written to its zone and at once as dead. */
  function Abandon(b: Base, m: Move): Base {
    b.(pool := b.pool.(zm := DecrementValidSegs(IncrementValidSegs(b.pool.zm, m.zone), m.zone)))
  }

  function Settle(b: Base, m: Move): Base {
    b.(p2l := (b.p2l - {Key(m.from)})[Key(m.to) := m.seg],
       pool := b.pool.(zm := IncrementValidSegs(DecrementValidSegs(b.pool.zm, ZoneID(m.from)), m.zone)))
  }

  function Swap(b: Base, m: Move): Base {
    var (t, won) := CAS(b.l2p, m.seg, m.from, m.to);
    if won then Settle(b.(l2p := t), m) else Abandon(b, m)
  }

  function MigrateSegment(b: Base, victim: nat, seg: nat, off: nat): (r: (Base, Status))
    requires Ready(b)
    ensures Same(b, r.0)
  {
    hide Claim, Copy, Fetch, StillThere, ZoneID, OffsetSectors, EncodePhysAddr, LogL2PUpdate;
    var from := Get(b.l2p, seg);
    if IsUnmapped(from) then (b.(p2l := b.p2l - {Key(from)}), Ok) else
    if !StillThere(b, victim, seg, off) then (b, Ok) else
    match Fetch(b, victim, off)
    case Failure(e) => (b, e)
    case Success(data) =>
      match Claim(b, seg, from, data)
      case (b1, Failure(e)) => (b1, e)
      case (b1, Success(m)) =>
        var (b2, r) := Copy(Announce(b1, m), m);
        if r != Ok then (b2, r) else (Swap(b2, m), Ok)
  }

  /** The live segments of a zone, in the order the reverse map yields its offsets. */
  function Gather(b: Base, victim: nat, order: seq<nat>): seq<(nat, nat)> {
    if order == [] then [] else
    var rest := Gather(b, victim, order[..|order| - 1]);
    var off := order[|order| - 1];
    if (victim, off) in b.p2l && StillThere(b, victim, b.p2l[(victim, off)], off)
    then rest + [(b.p2l[(victim, off)], off)]
    else rest
  }

  function MigrateAll(b: Base, victim: nat, live: seq<(nat, nat)>): (r: (Base, Status))
    requires Ready(b)
    ensures Same(b, r.0)
  {
    if live == [] then (b, Ok) else
    var last := |live| - 1;
    var (c, r) := MigrateAll(b, victim, live[..last]);
    if r != Ok then (c, r) else MigrateSegment(c, victim, live[last].0, live[last].1)
  }

  function Freeze(b: Base, z: nat): Base {
    b.(pool := b.pool.(zm := b.pool.zm.(frozen := b.pool.zm.frozen + {z})))
  }

  function Unfreeze(b: Base, z: nat): Base {
    b.(pool := b.pool.(zm := b.pool.zm.(frozen := b.pool.zm.frozen - {z})))
  }

  /** The reset is logged and committed before it happens. */
  function Seal(b: Base, victim: nat): Base {
    b.(log := GroupCommit(LogZoneAction(b.log, ZONE_RESET, victim)))
  }

  function Reclaim(b: Base, victim: nat): (r: (Base, Status))
    requires Ready(b)
    ensures Same(b, r.0)
  {
    if victim >= |b.pool.zm.zones| then (b, NoSuchZone) else
    var (d, r) := D.ResetZone(b.pool.dev, b.pool.zm.zones[victim].start);
    if r != Ok then (b.(pool := b.pool.(dev := d)), r) else
    var (zm, marked) := MarkEmpty(b.pool.zm, victim);
    (b.(pool := Pool(zm, d)), marked)
  }

  function CollectZone(b: Base, victim: nat, order: seq<nat>): (r: (Base, Status))
    requires Ready(b)
    ensures Same(b, r.0)
  {
    var frozen := Freeze(b, victim);
    var (moved, r) := MigrateAll(frozen, victim, Gather(frozen, victim, order));
    if r != Ok then (Unfreeze(moved, victim), r) else
    var (reclaimed, done) := Reclaim(Seal(moved, victim), victim);
    (Unfreeze(reclaimed, victim), done)
  }

  /** One background cycle: collects the best victim, if there is one. */
  function RunCycle(b: Base, order: seq<nat>): (r: (Base, Status))
    requires Ready(b)
    ensures Same(b, r.0)
  {
    match SelectGCVictim(b.pool.zm)
    case Failure(_) => (b, Ok)
    case Success(victim) => CollectZone(b, victim, order)
  }

  /** Collects until `reserve` zones are free. The loop of the source has no bound; here it ends, unfinished,
      when the list of iteration orders, one for each collection, runs out. */
  function RunEmergencyGC(b: Base, reserve: int, orders: seq<seq<nat>>): (r: (Base, Status))
    requires Ready(b)
    ensures Same(b, r.0)
    decreases |orders|
  {
    if |b.pool.zm.freeList| >= reserve then (b, Ok) else
    if orders == [] then (b, Unfinished) else
    match SelectGCVictim(b.pool.zm)
    case Failure(e) => (b, e)
    case Success(victim) =>
      var (c, r) := CollectZone(b, victim, orders[0]);
      if r != Ok then (c, r) else RunEmergencyGC(c, reserve, orders[1..])
  }
}
