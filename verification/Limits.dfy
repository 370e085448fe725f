/** Where the layer falls short of a disk, exactly: each result names the states or calls it concerns and says
    what happens in all of them. */
module Limits {
  import opened Arith
  import opened Errors
  import opened Segment
  import opened Pool
  import opened Log
  import opened Ztl
  import opened Coherence
  import opened PoolSteps
  import opened FlushSteps
  import opened WriteSteps
  import opened GcSteps
  import opened Collect
  import opened Bookkeeping
  import opened OpenZones
  import opened History
  import opened FlatDisk
  import opened Run
  import R = Recovery
  import D = Device

  // ---------- the address that means unmapped ----------

  /** A whole-segment write reads back exactly unless it lands at offset 0 of zone 0 with data that is not all
      zeros; the zone it will go to is known before the call. */
  lemma ReadBackIffNotZero(s: Ztl, seg: nat, data: seq<D.Sector>)
    requires Core(s) && seg < |s.base.l2p| && |data| == s.base.spp && Ready(s.base)
    requires WriteSegment(s, seg, data).1 == Ok
    ensures var (t, zone) := GetWriteZone(s);
      && zone.Success?
      && (Content(WriteSegment(s, seg, data).0, seg) == data <==>
          !(zone.value == 0 && WritePointer(t.base.pool.zm, 0) == 0) || data == D.Zeros(|data|))
  {
    hide Core, Content, WriteInto, FlushIfFull, GetWriteZone, NextAddr;
    WriteSegmentCore(s, seg, data);
    GetWriteZoneCore(s);
    var (t, zone) := GetWriteZone(s);
    NextAddrAtZero(t, zone.value);
  }

  lemma NextAddrAtZero(s: Ztl, z: nat)
    requires Core(s) && Ready(s.base) && Writable(s, z)
    ensures NextAddr(s.base.pool.zm, z) == UNMAPPED <==> z == 0 && WritePointer(s.base.pool.zm, 0) == 0
  {
    hide NextAddr, AllLocated, FreeIsEmpty, ZoneID, OffsetSectors;
    NextAddrUnpacks(s.base.pool, s.bufs, s.base.spp, z);
  }

  // ---------- writes of part of a segment ----------

  /** A write of less than a segment: the sectors go to the zone's pointer whatever their place in the segment. */
  lemma PartialWrite(s: Ztl, seg: nat, data: seq<D.Sector>)
    requires Core(s) && seg < |s.base.l2p| && 0 < |data| < s.base.spp && Ready(s.base)
    requires WriteSegment(s, seg, data).1 == Ok
    ensures GetWriteZone(s).1.Success?
    ensures var (t, zone) := GetWriteZone(s);
      && Core(t) && Writable(t, zone.value)
      && WriteSegment(s, seg, data) == WriteInto(t, zone.value, seg, data)
  {
    hide Core, Content, WriteInto, GetWriteZone, NextAddr, FlushZone;
    GetWriteZoneCore(s);
    var (t, zone) := GetWriteZone(s);
    CoreReady(t);
    WriteIntoExists(t, zone.value, seg, data);
    WriteIntoMoves(t, zone.value, seg, data);
    PartialStays(t, zone.value, |data|);
    var u := WriteInto(t, zone.value, seg, data).0;
    var info := u.base.pool.zm.zones[zone.value];
    assert info.wp < info.start + info.size;
  }

  lemma PartialStays(s: Ztl, z: nat, n: nat)
    requires Core(s) && Ready(s.base) && Writable(s, z) && n < s.base.spp
    ensures var info := s.base.pool.zm.zones[z]; info.wp + n < info.start + info.size
  {
  }

  /** Reading inside a segment after a write of less than a segment to it, wherever in it the write was meant to
      go: sectors that the segment's first `|data|` hold come from the data, and a read that goes past them
      returns zeros throughout. So the written range reads back as the data exactly when it starts the segment
      (or the data is zeros), and the rest of the segment, whatever it held, is gone. */
  lemma PartialReadBack(s: Ztl, seg: nat, data: seq<D.Sector>, t: Ztl, k: nat, n: nat, lba: nat)
    requires Core(s) && seg < |s.base.l2p| && Ready(s.base) && 0 < |data| < s.base.spp
    requires WriteSegment(s, seg, data) == (t, Ok) && Get(t.base.l2p, seg) != UNMAPPED
    requires 0 < n && k + n <= s.base.spp && lba == seg * s.base.spp + k
    ensures Ready(t.base)
    ensures Read(t, lba, n) == Success(if k + n <= |data| then data[k..k + n] else D.Zeros(n))
    ensures n == |data| ==> (Read(t, lba, n) == Success(data) <==> k == 0 || data == D.Zeros(n))
  {
    hide Core, WriteInto, WriteSegment, GetWriteZone, NextAddr, Writable, Read;
    PartialWrite(s, seg, data);
    var (m, zone) := GetWriteZone(s);
    PartialRead(m, zone.value, seg, data, k, n);
    assert data[0..|data|] == data;
  }

  lemma PartialRead(t: Ztl, z: nat, seg: nat, data: seq<D.Sector>, k: nat, n: nat)
    requires Core(t) && Ready(t.base) && Writable(t, z) && seg < |t.base.l2p|
    requires 0 < |data| < t.base.spp && 0 < n && k + n <= t.base.spp
    requires Get(WriteInto(t, z, seg, data).0.base.l2p, seg) != UNMAPPED
    ensures Read(WriteInto(t, z, seg, data).0, seg * t.base.spp + k, n) ==
            Success(if k + n <= |data| then data[k..k + n] else D.Zeros(n))
  {
    hide Core, WriteInto, NextAddr, Read, ReadPiece;
    WriteIntoMoves(t, z, seg, data);
    var u := WriteInto(t, z, seg, data).0;
    PartialPiece(t, z, seg, data, u, k, n);
    OnePiece(u, seg, k, n);
  }

  /** A read inside one segment is a single piece. */
  lemma OnePiece(s: Ztl, seg: nat, at: nat, n: nat)
    requires Ready(s.base) && 0 < n && at + n <= s.base.spp
    ensures ReadPiece(s, seg * s.base.spp + at, n).Success? ==>
              Read(s, seg * s.base.spp + at, n) == ReadPiece(s, seg * s.base.spp + at, n)
  {
    hide ReadPiece;
    DivMod(seg, at, s.base.spp);
    var lba := seg * s.base.spp + at;
    assert Piece(lba, n, s.base.spp) == n;
    assert Read(s, lba + n, 0) == Success([]);
    if ReadPiece(s, lba, n).Success? {
      assert ReadPiece(s, lba, n).value + [] == ReadPiece(s, lba, n).value;
    }
  }

  lemma PartialPiece(t: Ztl, z: nat, seg: nat, data: seq<D.Sector>, u: Ztl, k: nat, n: nat)
    requires Core(t) && Ready(t.base) && Writable(t, z) && seg < |t.base.l2p|
    requires Ready(u.base) && u == WriteInto(t, z, seg, data).0
    requires 0 < |data| < t.base.spp && 0 < n && k + n <= t.base.spp && NextAddr(t.base.pool.zm, z) != UNMAPPED
    ensures ReadPiece(u, seg * t.base.spp + k, n) == Success(if k + n <= |data| then data[k..k + n] else D.Zeros(n))
  {
    hide NextAddr, ZoneID, OffsetSectors, AllLocated, FreeIsEmpty, D.ReadSectors, D.Sane, WriteInto, Lookup, BufferAdd;
    WriteIntoMoves(t, z, seg, data);
    NextAddrUnpacks(t.base.pool, t.bufs, t.base.spp, z);
    DivMod(seg, k, t.base.spp);
    var p := t.base.pool;
    var wp := p.zm.zones[z].wp;
    PartialLookup(t.bufs, z, data, wp, k, n);
    SaneAt(p.dev, z);
    PastPointerZeros(p.dev, z, wp - p.dev.Start(z) + k, n);
  }

  /** Just buffered sectors are found when the range asked for lies inside them. */
  lemma PartialLookup(bufs: Buffers, z: nat, data: seq<D.Sector>, wp: nat, k: nat, n: nat)
    requires data != [] && n > 0 && (z in bufs ==> wp == bufs[z].wp + |bufs[z].data|)
    ensures Lookup(BufferAdd(bufs, z, data, wp), z, wp + k, n) ==
            if k + n <= |data| then Success(data[k..k + n]) else Failure(NoSuchZone)
  {
    var b := BufferAdd(bufs, z, data, wp)[z];
    if k + n <= |data| {
      assert b.data[wp + k - b.wp..wp + k - b.wp + n] == data[k..k + n];
    }
  }

  /** Past its pointer a zone reads as zeros. */
  lemma PastPointerZeros(d: D.Device, z: nat, off: nat, n: nat)
    requires D.Sane(d) && z < |d.zones| && d.zones[z].wp <= d.Start(z) + off && off + n <= d.zoneSectors && n > 0
    ensures D.ReadSectors(d, d.Start(z) + off, n) == Success(D.Zeros(n))
  {
    hide D.ReadSectors, D.Sane;
    SaneAt(d, z);
    ReadsZone(d, z, off, n);
    assert d.zones[z].data[off..off + n] == D.Zeros(n);
  }

  // ---------- unmapping nothing ----------

  /** An unmap of no sectors is not without effect. At address 0 its end wraps around and it zeroes the whole disk;
      inside a segment it zeroes that segment; only on another segment boundary does it zero nothing. So it leaves
      the disk as it was exactly when what it meets was zeros already. */
  lemma UnmapNothing(s: Ztl, lba: nat)
    requires Core(s) && Ready(s.base) && lba < TWO_64 && |Disk(s)| <= TWO_64
    ensures var t := Unmap(s, lba, 0);
      && (forall i :: 0 <= i < |Disk(s)| ==> Disk(t)[i] == if Meets(lba, 0, s.base.spp, i) then D.ZERO else Disk(s)[i])
      && (Disk(t) == Disk(s) <==> forall i :: 0 <= i < |Disk(s)| && Meets(lba, 0, s.base.spp, i) ==> Disk(s)[i] == D.ZERO)
    ensures lba > 0 && lba % s.base.spp == 0 ==> Disk(Unmap(s, lba, 0)) == Disk(s)
  {
    hide Core, Content, UnmapRange, LastLBA, Disk;
    var spp, d := s.base.spp, Disk(s);
    UnmapDisk(s, lba / spp, LastLBA(lba, 0) / spp + 1);
    var e := Disk(Unmap(s, lba, 0));
    forall i | 0 <= i < |d| ensures e[i] == if Meets(lba, 0, spp, i) then D.ZERO else d[i] {
      UnmapMeets(d, lba, 0, spp, i);
    }
    if forall i :: 0 <= i < |d| && Meets(lba, 0, spp, i) ==> d[i] == D.ZERO {
      assert e == d;
    }
  }

  // ---------- writes past the end ----------

  /** A write past the last segment is refused, but its record is in the log, and while no checkpoint follows it
      recovery fails on it. Recovery from the history and any later entries, numbered above it and themselves in
      order, succeeds exactly when there is a checkpoint among the later ones. */
  lemma WritePastEndPoisons(s: Ztl, seg: nat, data: seq<D.Sector>, later: seq<Entry>)
    requires Core(s) && Logged(s.base) && Ready(s.base) && seg >= |s.base.l2p| && GetWriteZone(s).1.Success?
    requires forall i :: 0 <= i < |later| ==> later[i].rec.lsn > WriteSegment(s, seg, data).0.base.log.lsn
    requires R.Fits(Records(later), |s.base.l2p|, |s.base.pool.zm.zones|)
    requires forall i :: 0 <= i < |later| && later[i].Snapshot? ==> |later[i].table| == |s.base.l2p|
    ensures var (t, r) := WriteSegment(s, seg, data);
      && r == NoSuchSegment && t.base.l2p == s.base.l2p
      && (R.Recover(Unmapped(|s.base.l2p|), t.base.log.History() + later, |s.base.pool.zm.zones|).Success? <==>
          exists i :: 0 <= i < |later| && later[i].Snapshot?)
  {
    hide Core, GetWriteZone, NextAddr, R.Recover, Replay, Logged, WriteSegment, R.Fits;
    PastEndLogs(s, seg, data);
    var l := GetWriteZone(s).0.base.log;
    var t := WriteSegment(s, seg, data).0;
    var es := t.base.log.History();
    PoisonedRecovers(es, |es| - 1, later, |s.base.l2p|, |s.base.pool.zm.zones|);
  }

  /** What such a write leaves in the log. */
  lemma PastEndLogs(s: Ztl, seg: nat, data: seq<D.Sector>)
    requires Core(s) && Logged(s.base) && Ready(s.base) && seg >= |s.base.l2p| && GetWriteZone(s).1.Success?
    ensures var (t, r) := WriteSegment(s, seg, data);
      var es := t.base.log.History();
      && r == NoSuchSegment && t.base.l2p == s.base.l2p
      && es != [] && t.base.log.lsn == |es|
      && (forall i :: 0 <= i < |es| ==> es[i].rec.lsn == i + 1)
      && es[|es| - 1].rec.kind == L2P_UPDATE && es[|es| - 1].rec.id == seg && es[|es| - 1].Plain?
  {
    hide Core, GetWriteZone, NextAddr, Replay, Snapshots;
    GetWriteZoneCore(s);
    GetWriteZoneLogged(s);
    var (t, zone) := GetWriteZone(s);
    WritableExists(t, zone.value);
    var l := t.base.log;
    AppendHistory(l, L2P_UPDATE, seg, UNMAPPED, NextAddr(t.base.pool.zm, zone.value));
  }

  /** A log with a record that does not fit, recovered with what came after it. */
  lemma PoisonedRecovers(es: seq<Entry>, p: nat, later: seq<Entry>, n: nat, zones: nat)
    requires p < |es| && es[p].rec.kind == L2P_UPDATE && es[p].rec.id >= n
    requires forall i :: 0 <= i < |es| ==> es[i].rec.lsn <= |es|
    requires forall i :: 0 <= i < |es| && es[i].Snapshot? ==> es[i].rec.lsn < es[p].rec.lsn
    requires es[p].rec.lsn > 0
    requires forall i :: 0 <= i < |later| ==> later[i].rec.lsn > |es|
    requires R.Fits(Records(later), n, zones)
    requires forall i :: 0 <= i < |later| && later[i].Snapshot? ==> |later[i].table| == n
    ensures R.Recover(Unmapped(n), es + later, zones).Success? <==> exists i :: 0 <= i < |later| && later[i].Snapshot?
  {
    hide R.Fits, R.Latest, R.Above, Replay;
    var all := es + later;
    var rs := Records(all);
    assert rs == Records(es) + Records(later);
    if i :| 0 <= i < |later| && later[i].Snapshot? {
      assert all[|es| + i] == later[i];
      R.LatestIsLargest(all, |es| + i);
      var c := R.LatestIsEntry(all);
      assert forall e :: 0 <= e < |es| ==> all[e] == es[e];
      assert all[c] == later[c - |es|];
      var cp := all[c];
      R.AboveAppend(Records(es), Records(later), cp.rec.lsn);
      R.AboveNone(Records(es), cp.rec.lsn);
      assert R.Above(rs, cp.rec.lsn) == R.Above(Records(later), cp.rec.lsn);
      R.AboveFits(Records(later), cp.rec.lsn, n, zones);
      R.ReplayFinal(cp.table, R.Above(rs, cp.rec.lsn), zones);
    } else {
      var lsn := if R.Latest(all).Some? then R.Latest(all).value.rec.lsn else 0;
      assert forall e :: |es| <= e < |all| ==> all[e] == later[e - |es|];
      if R.Latest(all).Some? { var c := R.LatestIsEntry(all); }
      assert rs[p] == es[p].rec;
      StillAbove(rs, p, lsn, n, zones);
      R.ReplayFinal(Unmapped(n), R.Above(rs, lsn), zones);
      if R.Latest(all).Some? { R.ReplayFinal(R.Latest(all).value.table, R.Above(rs, lsn), zones); }
    }
  }

  /** A record that does not fit, numbered above the checkpoint, is among those replayed. */
  lemma {:induction false} StillAbove(rs: seq<Record>, p: nat, lsn: nat, n: nat, zones: nat)
    requires p < |rs| && rs[p].kind == L2P_UPDATE && rs[p].id >= n && rs[p].lsn > lsn
    ensures !R.Fits(R.Above(rs, lsn), n, zones)
  {
    var last := |rs| - 1;
    var rest := R.Above(rs[..last], lsn);
    if p == last {
      assert R.Above(rs, lsn)[|rest|] == rs[p];
    } else {
      StillAbove(rs[..last], p, lsn, n, zones);
      var i :| 0 <= i < |rest| && !(
        (rest[i].kind == L2P_UPDATE ==> rest[i].id < n) && (rest[i].kind == ZONE_RESET ==> rest[i].id % 0x1_0000_0000 < zones));
      assert R.Above(rs, lsn)[i] == rest[i];
    }
  }

  /** One checkpoint mends such a journal: whatever the entries before it, as long as they are numbered below it,
      recovery gives the table it was taken of. */
  lemma CheckpointMends(l: Log, table: Table, zones: nat)
    requires forall i :: 0 <= i < |l.History()| ==> l.History()[i].rec.lsn <= l.lsn
    ensures R.Recover(Unmapped(|table|), WriteCheckpoint(l, table).durable, zones) == Success(table)
  {
    hide R.Latest, R.Above;
    var es, cp := l.History(), CheckpointEntry(l.lsn + 1, table, l.clock);
    assert WriteCheckpoint(l, table).durable == es + [cp];
    assert es + [cp] == es + [cp] + [];
    R.LatestLast(es, cp, []);
    R.AboveNone(Records(es + [cp]), cp.rec.lsn);
  }

  // ---------- collecting a zone that is still buffered ----------

  /** The segment's sectors are on the device: its place ends at or before its zone's device pointer. */
  ghost predicate BelowPointer(s: Ztl, seg: nat)
    requires Core(s) && seg < |s.base.l2p| && s.base.l2p[seg] != UNMAPPED
  {
    MappedLocated(s, seg);
    var z := ZoneID(s.base.l2p[seg]);
    s.base.pool.dev.Start(z) + OffsetSectors(s.base.l2p[seg]) + s.base.spp <= s.base.pool.dev.zones[z].wp
  }

  /** Below its pointer the device holds what is behind a segment, past it zeros. */
  lemma BelowIsOnDevice(s: Ztl, seg: nat)
    requires Core(s) && seg < |s.base.l2p| && s.base.l2p[seg] != UNMAPPED
    ensures OnDevice(s, seg) == if BelowPointer(s, seg) then Content(s, seg) else D.Zeros(s.base.spp)
  {
    hide AllLocated, FreeIsEmpty, ZoneID, OffsetSectors, D.Sane, D.Store;
    MappedLocated(s, seg);
    var phys, d := s.base.l2p[seg], s.base.pool.dev;
    var z, off := ZoneID(phys), OffsetSectors(phys);
    SaneAt(d, z);
    if BelowPointer(s, seg) && z in s.bufs {
      StoreAbove(d.zones[z].data, s.bufs[z].wp - d.Start(z), s.bufs[z].data, off + s.base.spp);
    }
  }

  lemma StoreAbove(contents: seq<D.Sector>, at: int, data: seq<D.Sector>, end: nat)
    requires end <= at && end <= |contents|
    ensures |D.Store(contents, at, data)| == |contents| && D.Store(contents, at, data)[..end] == contents[..end]
    ensures forall k :: 0 <= k < end ==> D.Store(contents, at, data)[k] == contents[k]
  {
  }

  /** A successful collection from a coherent state keeps the data of a segment of its victim exactly when the
      segment had landed on the device and is not sent to the unmapped address, or was zeros: sectors still in the
      buffer are not seen by the collector. Any other segment keeps its data. */
  lemma CollectionKeepsIffOnDevice(s: Ztl, victim: nat, order: seq<nat>, seg: nat)
    requires Core(s) && Covers(s.base) && Ordered(s.base, victim, order) && Ready(s.base)
    requires victim < |s.base.pool.dev.zones| && s.base.pool.dev.zones[victim].cond != D.Empty
    requires CollectZone(s.base, victim, order).1 == Ok && seg < |s.base.l2p|
    ensures var t := s.(base := CollectZone(s.base, victim, order).0);
      Content(t, seg) == Content(s, seg) <==>
      || !InZone(s.base, seg, victim)
      || (BelowPointer(s, seg) && !IsUnmapped(t.base.l2p[seg]))
      || Content(s, seg) == D.Zeros(s.base.spp)
  {
    hide Core, Content, CollectZone, Covers, Ordered, OnDevice, ZoneID, BelowPointer;
    var sealed := CollectZoneEffect(s, victim, order);
    if InZone(s.base, seg, victim) { BelowIsOnDevice(s, seg); }
  }

  // ---------- a flush that is refused ----------

  /** A flush of a buffered zone is refused exactly when the zone is not open and no room can be made for it, which
      a caller can see before the call; and as the buffer is dropped all the same, each segment of the zone is then
      left with what the device held for it. Nothing else changes. */
  lemma RefusedFlushDrops(s: Ztl, z: nat)
    requires Core(s) && Lru(s.base.pool) && Ready(s.base) && z in s.bufs
    ensures forall k :: 0 <= k < |s.base.pool.zm.openList| ==> s.base.pool.zm.openList[k] < |s.base.pool.dev.zones|
    ensures var (bufs, q, r) := FlushZone(s.bufs, s.base.pool, z);
      var t := s.(base := s.base.(pool := q), bufs := bufs);
      && (r != Ok <==> z !in s.base.pool.zm.openSet && Stuck(s.base.pool))
      && (r != Ok ==>
            && t == s.(bufs := s.bufs - {z})
            && forall seg :: Content(t, seg) == if InZone(s.base, seg, z) then OnDevice(s, seg) else Content(s, seg))
  {
    hide Core, Lru, Behind, D.WriteSectors, D.OpenZone, Stuck, InZone, MakeRoom;
    FlushZoneLru(s, z);
    MakeRoomLru(s.base.pool);
    BufferedZone(s, z);
    var t := s.(bufs := s.bufs - {z});
    forall seg: nat ensures Content(t, seg) == if InZone(s.base, seg, z) then OnDevice(s, seg) else Content(s, seg) {
      DroppedBehind(s, z, seg);
    }
  }

  lemma BufferedZone(s: Ztl, z: nat)
    requires Core(s) && z in s.bufs
    ensures z < |s.base.pool.zm.zones| && s.bufs[z].data != []
  {
  }

  lemma DroppedBehind(s: Ztl, z: nat, seg: nat)
    ensures Content(s.(bufs := s.bufs - {z}), seg) == if InZone(s.base, seg, z) then OnDevice(s, seg) else Content(s, seg)
  {
    hide ZoneID, OffsetSectors, D.Store;
    var phys := Get(s.base.l2p, seg);
    if phys == UNMAPPED {
      BehindUnmapped(s.base.pool.dev, s.bufs, s.base.spp);
      BehindUnmapped(s.base.pool.dev, s.bufs - {z}, s.base.spp);
    } else if ZoneID(phys) == z {
      BehindUnbuffered(s.base.pool.dev, s.bufs - {z}, s.base.spp, phys);
    } else {
      BehindSame(s.base.pool.dev, s.base.pool.dev, s.bufs, s.bufs - {z}, s.base.spp, phys);
    }
  }

  // ---------- free zones ----------

  /** The exact law of free zones: a successful collection of a zone in use, whatever is buffered for it and whether
      or not it is being written, gives back one zone and takes one for each segment it moves. */
  lemma FreeZoneLaw(s: Ztl, victim: nat, order: seq<nat>)
    requires Inv(s) && Ready(s.base) && Ordered(s.base, victim, order)
    requires victim < |s.base.pool.dev.zones| && s.base.pool.dev.zones[victim].cond != D.Empty
    requires CollectZone(s.base, victim, order).1 == Ok
    ensures victim < |s.base.pool.zm.zones|
    ensures var info := s.base.pool.zm.zones[victim];
      |CollectZone(s.base, victim, order).0.pool.zm.freeList| ==
      |s.base.pool.zm.freeList| + 1 - (info.valid - Phantom(info, victim))
  {
    hide Core, Exact, Lru, Logged, CollectZone, Covers, Ordered, Content;
    InvReady(s);
    CoreSizes(s);
    var sealed := CollectZoneEffect(s, victim, order);
    CountedAt(s.base, victim);
  }

  lemma CountedAt(b: Base, z: nat)
    requires Exact(b) && z < |b.pool.zm.zones|
    ensures Counted(b, z)
  {
  }

  /** Every zone that was written, other than `but` and those of `dead`, has a mapped segment. */
  ghost predicate NoGarbage(b: Base, but: int, dead: set<nat>) {
    forall z: nat :: z < |b.pool.zm.zones| && z != but && z !in dead && b.pool.zm.zones[z].total > 0 ==> MappedIn(b, z) > 0
  }

  /** The zones that were written and have no mapped segment. */
  ghost function Dead(b: Base): set<nat> {
    set z | 0 <= z < |b.pool.zm.zones| && b.pool.zm.zones[z].total > 0 && MappedIn(b, z) == 0
  }

  lemma MigrateNoGarbage(s: Ztl, victim: nat, seg: nat, off: nat, dead: set<nat>)
    requires Core(s) && Exact(s.base) && NoGarbage(s.base, victim, dead) && StillThere(s.base, victim, seg, off)
    requires MigrateSegment(s.base, victim, seg, off).1 == Ok && Destination(s.base) != UNMAPPED
    ensures NoGarbage(MigrateSegment(s.base, victim, seg, off).0, victim, dead)
  {
    CoreReady(s);
    hide Core, Exact, MigrateSegment, Destination, EncodePhysAddr, ZoneID, OffsetSectors;
    var zone := MigrateRecounts(s, victim, seg, off);
    var b, c := s.base, MigrateSegment(s.base, victim, seg, off).0;
    forall z: nat | z < |c.pool.zm.zones| && z != victim && z !in dead && c.pool.zm.zones[z].total > 0 ensures MappedIn(c, z) > 0 {
      MappedUpdate(b, c, seg, Destination(b), z);
    }
  }

  lemma {:induction false} MigrateAllNoGarbage(s: Ztl, victim: nat, live: seq<(nat, nat)>, dead: set<nat>)
    requires Core(s) && Ready(s.base) && Exact(s.base) && NoGarbage(s.base, victim, dead)
    requires forall k :: 0 <= k < |live| ==> StillThere(s.base, victim, live[k].0, live[k].1)
    requires forall i, j :: 0 <= i < j < |live| ==> live[i].0 != live[j].0
    requires MigrateAll(s.base, victim, live).1 == Ok
    requires var f := s.base.pool.zm.freeList; |live| <= |f| ==> 0 !in f[|f| - |live|..]
    ensures NoGarbage(MigrateAll(s.base, victim, live).0, victim, dead)
  {
    hide *;
    hide NoGarbage, Core, Exact, StillThere;
    if live != [] {
      var n, f := |live| - 1, s.base.pool.zm.freeList;
      MigrateLast(s, victim, live);
      var c := MigrateAll(s.base, victim, live[..n]).0;
      assert f[|f| - |live|..][1..] == f[|f| - n..];
      MigrateAllNoGarbage(s, victim, live[..n], dead);
      assert f[|f| - |live|..][0] == f[|f| - |live|];
      DestinationLands(s.(base := c));
      MigrateNoGarbage(s.(base := c), victim, live[n].0, live[n].1, dead);
    } else {
      MigrateNone(s.base, victim);
    }
  }

  lemma MigrateNone(b: Base, victim: nat)
    requires Ready(b)
    ensures MigrateAll(b, victim, []).0 == b
  {
  }

  /** The state before the last migration of a successful batch. */
  lemma MigrateLast(s: Ztl, victim: nat, live: seq<(nat, nat)>)
    requires Core(s) && Ready(s.base) && Exact(s.base) && live != []
    requires forall k :: 0 <= k < |live| ==> StillThere(s.base, victim, live[k].0, live[k].1)
    requires forall i, j :: 0 <= i < j < |live| ==> live[i].0 != live[j].0
    requires MigrateAll(s.base, victim, live).1 == Ok
    ensures var n, f := |live| - 1, s.base.pool.zm.freeList;
      var (c, r) := MigrateAll(s.base, victim, live[..n]);
      && r == Ok && Core(s.(base := c)) && Ready(c) && Exact(c)
      && StillThere(c, victim, live[n].0, live[n].1)
      && MigrateAll(s.base, victim, live) == MigrateSegment(c, victim, live[n].0, live[n].1)
      && |live| <= |f| && c.pool.zm.freeList == f[..|f| - n]
  {
    var n := |live| - 1;
    hide *;
    hide Core, Exact, StillThere;
    MigrateStep(s.base, victim, live);
    MigrateAllCore(s, victim, live);
    MigrateAllCore(s, victim, live[..n]);
    MigrateAllExact(s, victim, live[..n]);
    MovedFree(s, s.(base := MigrateAll(s.base, victim, live).0), live);
    MovedFree(s, s.(base := MigrateAll(s.base, victim, live[..n]).0), live[..n]);
    NotYetMoved(s, s.(base := MigrateAll(s.base, victim, live[..n]).0), victim, live);
  }

  lemma MigrateStep(b: Base, victim: nat, live: seq<(nat, nat)>)
    requires Ready(b) && live != [] && MigrateAll(b, victim, live).1 == Ok
    ensures var n := |live| - 1;
      var (c, r) := MigrateAll(b, victim, live[..n]);
      && r == Ok && Ready(c) && MigrateAll(b, victim, live) == MigrateSegment(c, victim, live[n].0, live[n].1)
  {
    hide MigrateSegment;
  }

  lemma MovedFree(s: Ztl, m: Ztl, live: seq<(nat, nat)>)
    requires MovedAll(s, m, live)
    ensures Core(m)
    ensures |live| <= |s.base.pool.zm.freeList|
    ensures m.base.pool.zm.freeList == s.base.pool.zm.freeList[..|s.base.pool.zm.freeList| - |live|]
  {
    hide Core, Untouched, Content, Behind;
  }

  lemma NotYetMoved(s: Ztl, m: Ztl, victim: nat, live: seq<(nat, nat)>)
    requires live != [] && MovedAll(s, m, live[..|live| - 1])
    requires StillThere(s.base, victim, live[|live| - 1].0, live[|live| - 1].1)
    requires forall i, j :: 0 <= i < j < |live| ==> live[i].0 != live[j].0
    ensures StillThere(m.base, victim, live[|live| - 1].0, live[|live| - 1].1)
  {
    hide Core, Untouched, Content, Behind, ZoneID, OffsetSectors;
    var seg := live[|live| - 1].0;
    assert seg !in Segs(live[..|live| - 1]);
    assert Get(m.base.l2p, seg) == Get(s.base.l2p, seg);
  }

  /** A copy into a zone other than zone 0 does not land on the address that means unmapped. */
  lemma DestinationLands(s: Ztl)
    requires Core(s) && s.base.pool.zm.freeList != [] && s.base.pool.zm.freeList[|s.base.pool.zm.freeList| - 1] != 0
    ensures Destination(s.base) != UNMAPPED
  {
    hide Core, EncodePhysAddr;
    FreeInRange(s);
    PackedUnmapped(s.base.pool.zm.freeList[|s.base.pool.zm.freeList| - 1], 0);
  }

  lemma CollectNoGarbage(s: Ztl, victim: nat, order: seq<nat>, dead: set<nat>)
    requires Inv(s) && Ready(s.base) && Harmless(s, victim, order) && NoGarbage(s.base, -1, dead)
    requires CollectZone(s.base, victim, order).1 == Ok
    ensures NoGarbage(CollectZone(s.base, victim, order).0, -1, dead - {victim})
  {
    hide Core, Exact, Lru, Logged, Content, CollectZone, MigrateAll, Gather, Reclaim, Covers, Ordered, EncodePhysAddr, ZoneID, OffsetSectors, OnDevice, NoneIn, Evacuated, Untouched, Inv;
    InvReady(s);
    CoreSizes(s);
    CollectUnfolds(s.base, victim, order);
    var c := s.(base := Freeze(s.base, victim));
    FrozenCore(s, c);
    CoversFrozen(s.base, victim, victim, order);
    CoreReady(c);
    SameCountsExact(s.base, c.base);
    OrderDistinct(c.base, victim, order);
    GatherLive(c.base, victim, order);
    GatherIsSegsIn(c.base, victim, order);
    SameMapped(s.base, c.base);
    MigrationOutcome(c, victim, order);
    MigrateAllNoGarbage(c, victim, Gather(s.base, victim, order), dead);
    var m := MigrateAll(c.base, victim, Gather(s.base, victim, order)).0;
    var sealed := Seal(m, victim);
    ReclaimTotals(s.(base := m), sealed, victim);
    SameMapped(m, Unfreeze(Reclaim(sealed, victim).0, victim));
  }

  lemma SameMapped(b: Base, c: Base)
    requires c.l2p == b.l2p
    ensures forall z: nat :: MappedIn(c, z) == MappedIn(b, z)
  {
    forall z: nat ensures MappedIn(c, z) == MappedIn(b, z) {
      assert SegsIn(c, z) == SegsIn(b, z);
    }
  }

  lemma ReclaimTotals(s: Ztl, sealed: Base, victim: nat)
    requires Core(s) && victim < |s.base.pool.zm.zones| && sealed == s.base.(log := sealed.log) && Ready(sealed)
    ensures var c := Unfreeze(Reclaim(sealed, victim).0, victim);
      && c.l2p == sealed.l2p && |c.pool.zm.zones| == |sealed.pool.zm.zones|
      && forall z :: 0 <= z < |c.pool.zm.zones| ==> c.pool.zm.zones[z].total == if z == victim then 0 else sealed.pool.zm.zones[z].total
  {
    CoreSizes(s);
    LogOnly(s, sealed.log);
    ReclaimMoves(s.(base := sealed), victim);
    hide Core, Reclaim;
  }

  /** An emergency collection that succeeds had, among its free zones and the zones without a mapped segment, at
      least as many as the reserve it was to reach: collecting any other zone frees one and takes at least one. So
      where nothing is garbage it never succeeds, however many cycles it is given. */
  lemma EmergencyNeeds(s: Ztl, reserve: int, orders: seq<seq<nat>>)
    requires Inv(s) && Ready(s.base) && EmergencyHarmless(s, reserve, orders)
    requires RunEmergencyGC(s.base, reserve, orders).1 == Ok
    ensures |s.base.pool.zm.freeList| + |Dead(s.base)| >= reserve
  {
    hide Inv, RunEmergencyGC, EmergencyHarmless, MappedIn;
    NeedsAmong(s, reserve, orders, Dead(s.base));
  }

  lemma {:induction false} NeedsAmong(s: Ztl, reserve: int, orders: seq<seq<nat>>, dead: set<nat>)
    requires Inv(s) && Ready(s.base) && NoGarbage(s.base, -1, dead) && EmergencyHarmless(s, reserve, orders)
    requires RunEmergencyGC(s.base, reserve, orders).1 == Ok
    ensures |s.base.pool.zm.freeList| + |dead| >= reserve
    decreases |orders|
  {
    hide Inv, CollectZone, Harmless, SelectGCVictim, NoGarbage, Exact, Lru, Logged, Core, Covers, Disk;
    if |s.base.pool.zm.freeList| < reserve && orders != [] {
      VictimErrors(s.base.pool.zm);
      var victim := SelectGCVictim(s.base.pool.zm).value;
      CollectInv(s, victim, orders[0]);
      CollectNoGarbage(s, victim, orders[0], dead);
      var t := s.(base := CollectZone(s.base, victim, orders[0]).0);
      InvReady(t);
      FreedStep(s, victim, orders[0], dead);
      NeedsAmong(t, reserve, orders[1..], dead - {victim});
    }
  }

  /** One collection gains a zone only by using up a dead one. */
  lemma FreedStep(s: Ztl, victim: nat, order: seq<nat>, dead: set<nat>)
    requires Inv(s) && Ready(s.base) && Harmless(s, victim, order) && NoGarbage(s.base, -1, dead)
    requires SelectGCVictim(s.base.pool.zm) == Success(victim)
    requires CollectZone(s.base, victim, order).1 == Ok
    ensures |CollectZone(s.base, victim, order).0.pool.zm.freeList| + |dead - {victim}| <= |s.base.pool.zm.freeList| + |dead|
  {
    hide Core, Exact, Lru, Logged, CollectZone, Covers, Ordered, Content;
    InvReady(s);
    CoreSizes(s);
    CollectZoneCore(s, victim, order);
    assert Candidate(s.base.pool.zm, victim);
    if victim in dead {
      assert dead == (dead - {victim}) + {victim};
    } else {
      assert dead - {victim} == dead;
      assert MappedIn(s.base, victim) > 0;
    }
  }

  // ---------- the choice of a victim ----------

  /** The segments ever written to a zone that are no longer mapped into it. */
  ghost function DeadIn(b: Base, z: nat): int
    requires z < |b.pool.zm.zones|
  {
    b.pool.zm.zones[z].total - MappedIn(b, z) - Phantom(b.pool.zm.zones[z], z)
  }

  /** In every coherent state the victim has the largest share of dead segments among the closed zones, and is the
      first that does; so of zones written equally often, none costs fewer copies. */
  lemma VictimCostsLeast(s: Ztl)
    requires Inv(s)
    ensures var zm := s.base.pool.zm;
      match SelectGCVictim(zm)
      case Failure(_) => forall i: nat :: !Eligible(zm, i)
      case Success(v) =>
        && Eligible(zm, v)
        && forall i: nat :: Eligible(zm, i) ==>
             && DeadIn(s.base, v) * zm.zones[i].total >= DeadIn(s.base, i) * zm.zones[v].total
             && (i < v ==> DeadIn(s.base, v) * zm.zones[i].total > DeadIn(s.base, i) * zm.zones[v].total)
             && (zm.zones[i].total == zm.zones[v].total ==>
                   MappedIn(s.base, v) + Phantom(zm.zones[v], v) <= MappedIn(s.base, i) + Phantom(zm.zones[i], i))
  {
    hide Core, Lru, Logged, Covers, ReverseExact, MappedIn, SelectGCVictim, Phantom;
    var zm := s.base.pool.zm;
    forall i | 0 <= i < |zm.zones| ensures zm.zones[i].valid <= zm.zones[i].total { CountedAt(s.base, i); }
    VictimIsFewest(zm);
    if SelectGCVictim(zm).Success? {
      var v := SelectGCVictim(zm).value;
      CountedAt(s.base, v);
      forall i: nat | Eligible(zm, i)
        ensures DeadIn(s.base, v) * zm.zones[i].total >= DeadIn(s.base, i) * zm.zones[v].total
        ensures i < v ==> DeadIn(s.base, v) * zm.zones[i].total > DeadIn(s.base, i) * zm.zones[v].total
        ensures zm.zones[i].total == zm.zones[v].total ==>
                  MappedIn(s.base, v) + Phantom(zm.zones[v], v) <= MappedIn(s.base, i) + Phantom(zm.zones[i], i) {
        CountedAt(s.base, i);
        if zm.zones[i].total == zm.zones[v].total { Cancels(DeadIn(s.base, v), DeadIn(s.base, i), zm.zones[v].total); }
      }
    }
  }

  lemma Cancels(a: int, b: int, n: nat)
    requires n > 0 && a * n >= b * n
    ensures a >= b
  {
    if a < b { LessTimes(a, b, n); }
  }

  lemma {:induction false} LessTimes(a: int, b: int, n: nat)
    requires n > 0 && a < b
    ensures a * n < b * n
    decreases n
  {
    if n > 1 {
      LessTimes(a, b, n - 1);
      assert a * n == a * (n - 1) + a && b * n == b * (n - 1) + b;
    }
  }

  // ---------- when an emergency succeeds ----------

  /** Zones a collection frees without moving anything: closed or full as tracked, with none of the segments ever
      written to them left. */
  ghost predicate Spent(b: Base, z: nat) {
    z < |b.pool.zm.zones| && Candidate(b.pool.zm, z) && b.pool.zm.zones[z].valid == 0 && NoneIn(b.l2p, z)
  }

  /** Starts are right, and a zone counted as having no valid segment has none. */
  ghost predicate Countable(b: Base) {
    && Ready(b) && |b.pool.zm.zones| == |b.pool.dev.zones|
    && forall z :: 0 <= z < |b.pool.zm.zones| ==> CountsRight(b, z)
  }

  ghost predicate CountsRight(b: Base, z: nat)
    requires z < |b.pool.zm.zones| == |b.pool.dev.zones|
  {
    var info := b.pool.zm.zones[z];
    info.start == b.pool.dev.Start(z) && info.valid <= info.total && (info.valid == 0 ==> NoneIn(b.l2p, z))
  }

  lemma InvCountable(s: Ztl)
    requires Inv(s)
    ensures Countable(s.base)
  {
    hide Lru, Logged, D.Sane, Covers, ReverseExact, AllLocated, FreeIsEmpty, Pointers, ZoneID;
    InvReady(s);
    forall z | 0 <= z < |s.base.pool.zm.zones| ensures CountsRight(s.base, z) {
      assert Counted(s.base, z);
      if s.base.pool.zm.zones[z].valid == 0 { NoneMapped(s.base, z); }
    }
  }

  /** Where there is a spent zone, the victim is one: its score is the largest there is. */
  lemma SpentFirst(b: Base, z: nat)
    requires Countable(b) && Spent(b, z)
    ensures SelectGCVictim(b.pool.zm).Success? && Spent(b, SelectGCVictim(b.pool.zm).value)
  {
    var zm := b.pool.zm;
    forall i | 0 <= i < |zm.zones| ensures zm.zones[i].valid <= zm.zones[i].total {
      assert CountsRight(b, i);
    }
    VictimIsBest(zm, |zm.zones|);
    var v := VictimAmong(zm, |zm.zones|).value;
    ScoreOne(zm.zones[z]);
    ScoreOne(zm.zones[v]);
    assert CountsRight(b, v);
  }

  lemma ScoreOne(info: ZoneInfo)
    requires info.valid <= info.total && info.total > 0
    ensures GCScore(info) >= 1.0 <==> info.valid == 0
  {
    var t, i := info.total as real, (info.total - info.valid) as real;
    assert i / t * t == i;
    if i / t >= 1.0 { assert i >= t; }
  }

  /** Nothing is gathered from a zone without mapped segments, whatever the order. */
  lemma {:induction false} GatherNone(b: Base, z: nat, order: seq<nat>)
    requires NoneIn(b.l2p, z)
    ensures Gather(b, z, order) == []
  {
    hide ZoneID, OffsetSectors;
    if order != [] { GatherNone(b, z, order[..|order| - 1]); }
  }

  /** Collecting a spent zone needs no other zone: it succeeds whatever the state of the pool, and frees it. */
  lemma SpentCollects(b: Base, z: nat, order: seq<nat>)
    requires Countable(b) && Spent(b, z)
    ensures var (c, r) := CollectZone(b, z, order);
      && r == Ok && Countable(c)
      && |c.pool.zm.freeList| == |b.pool.zm.freeList| + 1
      && forall i :: i != z && Spent(b, i) ==> Spent(c, i)
  {
    hide ZoneID, OffsetSectors, Gather, Reclaim, Seal, NoneIn;
    SpentUnfolds(b, z, order);
    var c := CollectZone(b, z, order).0;
    hide CollectZone;
    SealLogOnly(Freeze(b, z), z);
    ReclaimKeeps(b, Seal(Freeze(b, z), z), z);
    forall i | 0 <= i < |c.pool.zm.zones| ensures CountsRight(c, i) {
      assert CountsRight(b, i);
    }
  }

  lemma SpentUnfolds(b: Base, z: nat, order: seq<nat>)
    requires Ready(b) && NoneIn(b.l2p, z)
    ensures Ready(Seal(Freeze(b, z), z))
    ensures var (c, r) := Reclaim(Seal(Freeze(b, z), z), z);
      CollectZone(b, z, order) == (Unfreeze(c, z), r)
  {
    hide Gather, Reclaim;
    GatherNone(Freeze(b, z), z, order);
  }

  lemma ReclaimKeeps(b: Base, sealed: Base, z: nat)
    requires Countable(b) && z < |b.pool.zm.zones| && Ready(sealed)
    requires sealed == Freeze(b, z).(log := sealed.log)
    ensures var (c, r) := Reclaim(sealed, z);
      && r == Ok && c.l2p == b.l2p && |c.pool.zm.zones| == |b.pool.zm.zones| == |c.pool.dev.zones|
      && c.pool.dev.zoneSectors == b.pool.dev.zoneSectors
      && c.pool.zm.freeList == b.pool.zm.freeList + [z] && c.pool.zm.frozen == b.pool.zm.frozen - {z}
      && c.pool.zm.maxOpen == b.pool.zm.maxOpen
      && (forall i :: 0 <= i < |c.pool.zm.zones| && i != z ==> c.pool.zm.zones[i] == b.pool.zm.zones[i])
      && c.pool.zm.zones[z] == b.pool.zm.zones[z].(cond := D.Empty, wp := b.pool.zm.zones[z].start, valid := 0, total := 0)
  {
    ZoneIndexAt(b.pool.dev, z, 0);
    assert CountsRight(b, z);
    hide Without;
  }

  /** An emergency succeeds when free and spent zones together reach the reserve and it is given a cycle for each
      zone it lacks; no other zone is then collected, and nothing is moved. */
  lemma EmergencyGives(s: Ztl, reserve: int, orders: seq<seq<nat>>)
    requires Inv(s) && Ready(s.base)
    requires |s.base.pool.zm.freeList| + |set z | 0 <= z < |s.base.pool.zm.zones| && Spent(s.base, z)| >= reserve
    requires |s.base.pool.zm.freeList| + |orders| >= reserve
    ensures RunEmergencyGC(s.base, reserve, orders).1 == Ok
    ensures RunEmergencyGC(s.base, reserve, orders).0.l2p == s.base.l2p
  {
    hide Inv, RunEmergencyGC, Spent;
    InvCountable(s);
    GivesAmong(s.base, reserve, orders, set z | 0 <= z < |s.base.pool.zm.zones| && Spent(s.base, z));
  }

  lemma {:induction false} GivesAmong(b: Base, reserve: int, orders: seq<seq<nat>>, spent: set<nat>)
    requires Countable(b) && Ready(b) && forall z :: z in spent ==> Spent(b, z)
    requires |b.pool.zm.freeList| + |spent| >= reserve && |b.pool.zm.freeList| + |orders| >= reserve
    ensures RunEmergencyGC(b, reserve, orders).1 == Ok
    ensures RunEmergencyGC(b, reserve, orders).0.l2p == b.l2p
    decreases |orders|
  {
    hide Countable, Spent, CollectZone, SelectGCVictim;
    if |b.pool.zm.freeList| < reserve {
      var z :| z in spent;
      SpentFirst(b, z);
      var v := SelectGCVictim(b.pool.zm).value;
      SpentCollects(b, v, orders[0]);
      SpentTable(b, v, orders[0]);
      assert |spent| <= |spent - {v}| + 1 by { if v in spent { assert spent == (spent - {v}) + {v}; } else { assert spent - {v} == spent; } }
      GivesAmong(CollectZone(b, v, orders[0]).0, reserve, orders[1..], spent - {v});
    }
  }

  lemma SpentTable(b: Base, z: nat, order: seq<nat>)
    requires Countable(b) && Ready(b) && Spent(b, z)
    ensures CollectZone(b, z, order).0.l2p == b.l2p
  {
    hide ZoneID, OffsetSectors, Gather;
    GatherNone(Freeze(b, z), z, order);
    ReclaimLog(Seal(Freeze(b, z), z), z);
    hide Reclaim;
  }
}
