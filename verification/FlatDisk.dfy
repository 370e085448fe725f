/** The disk the layer presents: one flat array of sectors. Reading gives a slice of it, writing stores into
    it, unmapping zeroes it, and flushing and collecting leave it alone. */
module FlatDisk {
  import opened Arith
  import opened Errors
  import opened Segment
  import opened Pool
  import opened Log
  import opened Ztl
  import opened Coherence
  import opened PoolSteps
  import opened FlushSteps
  import opened WriteSteps
  import opened GcSteps
  import opened Collect
  import D = Device

  /** The sector at a logical address. */
  function DiskAt(s: Ztl, lba: nat): D.Sector
    requires s.base.spp > 0
  {
    Content(s, lba / s.base.spp)[lba % s.base.spp]
  }

  function Disk(s: Ztl): (d: seq<D.Sector>)
    requires s.base.spp > 0
    ensures |d| == |s.base.l2p| * s.base.spp
  {
    seq(|s.base.l2p| * s.base.spp, i requires 0 <= i => DiskAt(s, i))
  }

  // ---------- reading ----------

  /** Where a segment that is still in a buffer lies in it. */
  lemma BufferedWithin(p: Pool, bufs: Buffers, spp: nat, phys: PhysAddr, at: nat, n: nat, lba: nat)
    requires Config(p, spp) && Pointers(p, bufs) && phys != UNMAPPED && Located(p, spp, phys) && 0 < n && at + n <= spp
    requires lba == p.dev.Start(ZoneID(phys)) + OffsetSectors(phys) + at
    requires p.dev.zones[ZoneID(phys)].wp + at <= lba
    ensures ZoneID(phys) in bufs
    ensures var b := bufs[ZoneID(phys)]; b.wp <= lba && lba + n <= b.wp + |b.data|
    ensures OffsetSectors(phys) + spp <= |p.dev.zones[ZoneID(phys)].data|
  {
    hide D.Sane, ZoneID, OffsetSectors, D.Device.Start;
    SaneAt(p.dev, ZoneID(phys));
  }

  lemma LookupInside(bufs: Buffers, z: nat, lba: nat, n: nat)
    requires z in bufs && 0 < n && bufs[z].wp <= lba && lba + n <= bufs[z].wp + |bufs[z].data|
    ensures Lookup(bufs, z, lba, n) == Success(bufs[z].data[lba - bufs[z].wp..lba - bufs[z].wp + n])
  {
  }

  /** A segment still in a buffer is found there. */
  lemma ReadBuffered(p: Pool, bufs: Buffers, spp: nat, phys: PhysAddr, at: nat, n: nat, lba: nat)
    requires Config(p, spp) && Pointers(p, bufs) && phys != UNMAPPED && Located(p, spp, phys) && 0 < n && at + n <= spp
    requires lba == p.dev.Start(ZoneID(phys)) + OffsetSectors(phys) + at
    requires p.dev.zones[ZoneID(phys)].wp + at <= lba
    ensures Lookup(bufs, ZoneID(phys), lba, n) == Success(Behind(p.dev, bufs, spp, phys)[at..at + n])
  {
    hide Config, Pointers, Lookup, Behind, ZoneID, OffsetSectors, D.Device.Start;
    BufferedWithin(p, bufs, spp, phys, at, n, lba);
    BufferedSlice(p.dev, bufs, spp, phys, at, n, lba);
    LookupInside(bufs, ZoneID(phys), lba, n);
  }

  lemma BufferedSlice(d: D.Device, bufs: Buffers, spp: nat, phys: PhysAddr, at: nat, n: nat, lba: nat)
    requires phys != UNMAPPED && ZoneID(phys) < |d.zones| && ZoneID(phys) in bufs && at + n <= spp
    requires lba == d.Start(ZoneID(phys)) + OffsetSectors(phys) + at
    requires bufs[ZoneID(phys)].wp <= lba && lba + n <= bufs[ZoneID(phys)].wp + |bufs[ZoneID(phys)].data|
    requires OffsetSectors(phys) + spp <= |d.zones[ZoneID(phys)].data|
    ensures var b := bufs[ZoneID(phys)];
      b.data[lba - b.wp..lba - b.wp + n] == Behind(d, bufs, spp, phys)[at..at + n]
  {
    hide ZoneID, OffsetSectors, D.Device.Start;
    var b, off := bufs[ZoneID(phys)], OffsetSectors(phys) + at;
    var image, behind := Image(d, bufs, ZoneID(phys)), Behind(d, bufs, spp, phys);
    var stored, piece := b.data[lba - b.wp..lba - b.wp + n], behind[at..at + n];
    forall i | 0 <= i < n ensures stored[i] == piece[i] {
      assert behind[at + i] == image[off + i];
    }
  }

  /** A segment on the device is not in a buffer, and the device returns it. */
  lemma ReadStored(p: Pool, bufs: Buffers, spp: nat, phys: PhysAddr, at: nat, n: nat, lba: nat)
    requires Config(p, spp) && Pointers(p, bufs) && phys != UNMAPPED && Located(p, spp, phys) && 0 < n && at + n <= spp
    requires lba == p.dev.Start(ZoneID(phys)) + OffsetSectors(phys) + at
    requires p.dev.zones[ZoneID(phys)].wp + at > lba
    ensures Lookup(bufs, ZoneID(phys), lba, n).Failure?
    ensures D.ReadSectors(p.dev, lba, n) == Success(Behind(p.dev, bufs, spp, phys)[at..at + n])
  {
    hide D.ReadSectors, D.Sane, ZoneID, OffsetSectors, D.Device.Start;
    var z, off := ZoneID(phys), OffsetSectors(phys);
    SaneAt(p.dev, z);
    assert lba + n <= p.dev.zones[z].wp && off + spp <= p.dev.zoneSectors;
    assert z in bufs ==> bufs[z].wp == p.dev.zones[z].wp;
    hide Located, Pointers;
    ReadsZone(p.dev, z, off + at, n);
    StoredSlice(p.dev, bufs, spp, phys, at, n);
  }

  lemma StoredSlice(d: D.Device, bufs: Buffers, spp: nat, phys: PhysAddr, at: nat, n: nat)
    requires phys != UNMAPPED && ZoneID(phys) < |d.zones| && at + n <= spp
    requires OffsetSectors(phys) + spp <= |d.zones[ZoneID(phys)].data|
    requires ZoneID(phys) in bufs ==> d.Start(ZoneID(phys)) + OffsetSectors(phys) + at + n <= bufs[ZoneID(phys)].wp
    ensures var off := OffsetSectors(phys) + at;
      d.zones[ZoneID(phys)].data[off..off + n] == Behind(d, bufs, spp, phys)[at..at + n]
  {
    hide ZoneID, OffsetSectors, D.Device.Start;
    var z, off := ZoneID(phys), OffsetSectors(phys) + at;
    var image, behind := Image(d, bufs, z), Behind(d, bufs, spp, phys);
    var stored, piece := d.zones[z].data[off..off + n], behind[at..at + n];
    forall i | 0 <= i < n ensures stored[i] == piece[i] {
      assert behind[at + i] == image[off + i];
    }
  }

  /** The part of a read inside one mapped segment, from the buffer or from the device. */
  lemma ReadMapped(s: Ztl, phys: PhysAddr, at: nat, n: nat)
    requires Core(s) && phys != UNMAPPED && Located(s.base.pool, s.base.spp, phys) && 0 < n && at + n <= s.base.spp
    ensures var z := ZoneID(phys);
      var lba := s.base.pool.zm.zones[z].start + OffsetSectors(phys) + at;
      (match Lookup(s.bufs, z, lba, n)
       case Success(data) => Success(data)
       case Failure(_) => D.ReadSectors(s.base.pool.dev, lba, n))
      == Success(Behind(s.base.pool.dev, s.bufs, s.base.spp, phys)[at..at + n])
  {
    hide Pointers, AllLocated, FreeIsEmpty, D.Sane, D.ReadSectors, Lookup, Behind, ZoneID, OffsetSectors;
    var d, z := s.base.pool.dev, ZoneID(phys);
    var lba := d.Start(z) + OffsetSectors(phys) + at;
    if d.zones[z].wp + at <= lba {
      ReadBuffered(s.base.pool, s.bufs, s.base.spp, phys, at, n, lba);
    } else {
      ReadStored(s.base.pool, s.bufs, s.base.spp, phys, at, n, lba);
    }
  }

  lemma ReadPieceDisk(s: Ztl, lba: nat, n: nat)
    requires Core(s) && 0 < n && lba % s.base.spp + n <= s.base.spp
    ensures ReadPiece(s, lba, n) == Success(Content(s, lba / s.base.spp)[lba % s.base.spp..lba % s.base.spp + n])
  {
    hide Core, Behind, D.ReadSectors, Lookup, ZoneID, OffsetSectors;
    CoreReady(s);
    var spp := s.base.spp;
    DivBounds(lba, spp);
    var seg := lba / spp;
    var phys := Get(s.base.l2p, seg);
    if phys != UNMAPPED {
      MappedLocated(s, seg);
      ReadMapped(s, phys, lba % spp, n);
    } else {
      BehindUnmapped(s.base.pool.dev, s.bufs, spp);
      assert Content(s, seg)[lba % spp..lba % spp + n] == D.Zeros(n);
    }
  }

  /** Reads inside one segment return what is behind it. */
  ghost predicate PiecesRead(s: Ztl)
    requires Ready(s.base)
  {
    forall lba: nat, n: nat :: 0 < n && lba % s.base.spp + n <= s.base.spp ==>
      ReadPiece(s, lba, n) == Success(Content(s, lba / s.base.spp)[lba % s.base.spp..lba % s.base.spp + n])
  }

  /** A range of the disk; past its end, zeros. */
  function Slice(s: Ztl, lba: nat, count: nat): (r: seq<D.Sector>)
    requires s.base.spp > 0
    ensures |r| == count
    ensures forall i :: 0 <= i < count ==> r[i] == DiskAt(s, lba + i)
  {
    seq(count, i requires 0 <= i => DiskAt(s, lba + i))
  }

  lemma SameSegment(lba: nat, i: nat, spp: nat)
    requires spp > 0 && lba % spp + i < spp
    ensures (lba + i) / spp == lba / spp && (lba + i) % spp == lba % spp + i
  {
    DivBounds(lba, spp);
    DivMod(lba / spp, lba % spp + i, spp);
  }

  /** Inside one segment a range of the disk is a range of the segment. */
  lemma SlicePiece(s: Ztl, lba: nat, n: nat)
    requires s.base.spp > 0 && lba % s.base.spp + n <= s.base.spp
    ensures Slice(s, lba, n) == Content(s, lba / s.base.spp)[lba % s.base.spp..lba % s.base.spp + n]
  {
    hide Content, Slice;
    var seg, k, slice := lba / s.base.spp, lba % s.base.spp, Slice(s, lba, n);
    forall i | 0 <= i < n ensures slice[i] == Content(s, seg)[k + i] {
      SameSegment(lba, i, s.base.spp);
    }
  }

  lemma SliceSplit(s: Ztl, lba: nat, n: nat, count: nat)
    requires s.base.spp > 0 && n <= count
    ensures Slice(s, lba, n) + Slice(s, lba + n, count - n) == Slice(s, lba, count)
  {
    hide DiskAt;
    var a, b, whole := Slice(s, lba, n), Slice(s, lba + n, count - n), Slice(s, lba, count);
    forall i | 0 <= i < count ensures (a + b)[i] == whole[i] {
      if i >= n { assert b[i - n] == DiskAt(s, lba + n + (i - n)); }
    }
  }

  lemma {:induction false} ReadPieces(s: Ztl, lba: nat, count: nat)
    requires Ready(s.base) && PiecesRead(s)
    ensures Read(s, lba, count) == Success(Slice(s, lba, count))
    decreases count
  {
    hide Content, ReadPiece, Slice, Piece;
    if count > 0 {
      var n := Piece(lba, count, s.base.spp);
      DivBounds(lba, s.base.spp);
      ReadPieces(s, lba + n, count - n);
      SlicePiece(s, lba, n);
      SliceSplit(s, lba, n, count);
    }
  }

  /** Any read, of any range, unaligned or across segments, zones, buffer and device, returns the slice. */
  lemma ReadDisk(s: Ztl, lba: nat, count: nat)
    requires Core(s)
    ensures Ready(s.base)
    ensures Read(s, lba, count) == Success(Slice(s, lba, count))
  {
    hide Core, Content, ReadPiece;
    CoreReady(s);
    forall at: nat, n: nat | 0 < n && at % s.base.spp + n <= s.base.spp
      ensures ReadPiece(s, at, n) == Success(Content(s, at / s.base.spp)[at % s.base.spp..at % s.base.spp + n]) {
      ReadPieceDisk(s, at, n);
    }
    ReadPieces(s, lba, count);
  }

  // ---------- writing ----------

  /** Replacing the data behind one segment stores into the disk. */
  lemma DiskUpdate(s: Ztl, t: Ztl, seg: nat, data: seq<D.Sector>)
    requires s.base.spp > 0 && t.base.spp == s.base.spp && |t.base.l2p| == |s.base.l2p| && seg < |s.base.l2p|
    requires |data| == s.base.spp && Content(t, seg) == data
    requires forall other :: other != seg ==> Content(t, other) == Content(s, other)
    ensures Disk(t) == D.Store(Disk(s), seg * s.base.spp, data)
  {
    hide Content;
    var spp := s.base.spp;
    var after := D.Store(Disk(s), seg * spp, data);
    forall i | 0 <= i < |Disk(s)| ensures Disk(t)[i] == after[i] {
      DivBounds(i, spp);
      if i / spp < seg {
        MulGap(i / spp, seg, spp);
      } else if i / spp > seg {
        MulGap(seg, i / spp, spp);
      }
    }
  }

  lemma DiskSame(s: Ztl, t: Ztl)
    requires s.base.spp > 0 && t.base.spp == s.base.spp && |t.base.l2p| == |s.base.l2p|
    requires forall seg :: Content(t, seg) == Content(s, seg)
    ensures Disk(t) == Disk(s)
  {
    hide Content;
  }

  /** What a write leaves on the disk, up to the piece that was refused if one was: the data of each piece,
      except for one that lands on the address that means unmapped, which reads as zeros. */
  function LandedFrom(s: Ztl, lba: nat, data: seq<D.Sector>): seq<D.Sector>
    requires Ready(s.base)
    decreases |data|
  {
    if data == [] then [] else
    var n := Piece(lba, |data|, s.base.spp);
    var (t, r) := WriteSegment(s, LBAToSegmentID(lba, s.base.spp), data[..n]);
    if r != Ok then [] else Stored(s, data[..n]) + LandedFrom(t, lba + n, data[n..])
  }

  /** No segment of a write lands on the address that means unmapped. */
  predicate Lands(s: Ztl, lba: nat, data: seq<D.Sector>)
    requires Ready(s.base)
    decreases |data|
  {
    data == [] ||
    var n := Piece(lba, |data|, s.base.spp);
    var (t, zone) := GetWriteZone(s);
    var (u, r) := WriteSegment(s, LBAToSegmentID(lba, s.base.spp), data[..n]);
    && (zone.Success? ==> NextAddr(t.base.pool.zm, zone.value) != UNMAPPED)
    && (r == Ok ==> Lands(u, lba + n, data[n..]))
  }

  /** A write is not refused by a flush of a zone it fills up: only for want of a zone. */
  predicate Fills(s: Ztl, lba: nat, data: seq<D.Sector>)
    requires Ready(s.base)
    decreases |data|
  {
    data == [] ||
    var n := Piece(lba, |data|, s.base.spp);
    var (u, r) := WriteSegment(s, LBAToSegmentID(lba, s.base.spp), data[..n]);
    if r == Ok then Fills(u, lba + n, data[n..]) else GetWriteZone(s).1.Failure?
  }

  /** Where none lands on it, what is left is a beginning of the data, all of it if no piece was refused. */
  lemma {:induction false} LandsKeeps(s: Ztl, lba: nat, data: seq<D.Sector>)
    requires Ready(s.base) && Lands(s, lba, data)
    ensures LandedFrom(s, lba, data) <= data
    decreases |data|
  {
    hide GetWriteZone, WriteSegment, NextAddr, Piece, Stored;
    if data != [] {
      var n := Piece(lba, |data|, s.base.spp);
      var (u, r) := WriteSegment(s, LBAToSegmentID(lba, s.base.spp), data[..n]);
      if r == Ok {
        StoredLands(s, LBAToSegmentID(lba, s.base.spp), data[..n]);
        LandsKeeps(u, lba + n, data[n..]);
        PrefixGrows(data, n, LandedFrom(u, lba + n, data[n..]));
      }
    }
  }

  lemma StoredLands(s: Ztl, seg: nat, data: seq<D.Sector>)
    requires Ready(s.base) && WriteSegment(s, seg, data).1 == Ok
    requires var (t, zone) := GetWriteZone(s); zone.Success? ==> NextAddr(t.base.pool.zm, zone.value) != UNMAPPED
    ensures Stored(s, data) == data
  {
    hide GetWriteZone, NextAddr, WriteInto;
  }

  lemma PrefixGrows(data: seq<D.Sector>, n: nat, rest: seq<D.Sector>)
    requires n <= |data| && rest <= data[n..]
    ensures data[..n] + rest <= data
  {
  }

  /** The first piece of an aligned range is a whole segment. */
  lemma WholePiece(seg: nat, n: nat, lba: nat, count: nat, spp: nat)
    requires spp > 0 && n > 0 && lba == seg * spp && count == n * spp
    ensures count >= spp && Piece(lba, count, spp) == spp && lba / spp == seg
    ensures lba + spp == (seg + 1) * spp && count - spp == (n - 1) * spp
  {
    DivMod(seg, 0, spp);
    MulMono(1, n, spp);
  }

  /** A write, or what it leaves on the disk, is that of its first piece and of the rest. */
  lemma WriteFromSplits(s: Ztl, lba: nat, data: seq<D.Sector>)
    requires Ready(s.base) && |data| >= s.base.spp && Piece(lba, |data|, s.base.spp) == s.base.spp
    ensures var (t, r) := WriteSegment(s, lba / s.base.spp, data[..s.base.spp]);
      && t.base.spp == s.base.spp && |t.base.l2p| == |s.base.l2p| && Ready(t.base)
      && (r != Ok ==> WriteFrom(s, lba, data) == (t, r) && LandedFrom(s, lba, data) == [])
      && (r == Ok ==>
            && WriteFrom(s, lba, data) == WriteFrom(t, lba + s.base.spp, data[s.base.spp..])
            && LandedFrom(s, lba, data) == Stored(s, data[..s.base.spp]) + LandedFrom(t, lba + s.base.spp, data[s.base.spp..]))
      && (Fills(s, lba, data) <==> if r == Ok then Fills(t, lba + s.base.spp, data[s.base.spp..]) else GetWriteZone(s).1.Failure?)
      && (Lands(s, lba, data) <==>
            && (GetWriteZone(s).1.Success? ==> NextAddr(GetWriteZone(s).0.base.pool.zm, GetWriteZone(s).1.value) != UNMAPPED)
            && (r == Ok ==> Lands(t, lba + s.base.spp, data[s.base.spp..])))
  {
    hide WriteSegment, Stored, Piece, GetWriteZone, NextAddr;
    assert data != [];
  }

  lemma ReadyPositive(b: Base)
    requires Ready(b)
    ensures b.spp > 0
  {
  }

  lemma WriteFromNothing(s: Ztl, lba: nat)
    requires Ready(s.base)
    ensures WriteFrom(s, lba, []) == (s, Ok) && LandedFrom(s, lba, []) == [] && Fills(s, lba, []) && Lands(s, lba, [])
  {
  }

  /** A write of whole segments stores a beginning of its data, whole segments of it, and touches no other
      sector; it is accepted exactly when that is all of the data. */
  lemma {:induction false} WriteFromDisk(s: Ztl, seg: nat, n: nat, lba: nat, data: seq<D.Sector>)
    requires Core(s) && seg + n <= |s.base.l2p| && lba == seg * s.base.spp && |data| == n * s.base.spp
    requires Ready(s.base) && Fills(s, lba, data)
    ensures var (t, r) := WriteFrom(s, lba, data);
      && Core(t)
      && Disk(t) == D.Store(Disk(s), lba, LandedFrom(s, lba, data))
      && |LandedFrom(s, lba, data)| <= |data| && |LandedFrom(s, lba, data)| % s.base.spp == 0
      && (r == Ok <==> |LandedFrom(s, lba, data)| == |data|)
    decreases n
  {
    hide Core, Content, WriteSegment, WriteFrom, LandedFrom, Stored, D.Store, Disk, GetWriteZone, Fills;
    var spp := s.base.spp;
    if n == 0 {
      assert data == [];
      WriteFromNothing(s, lba);
      StoreNothing(Disk(s), lba);
    } else {
      WholePiece(seg, n, lba, |data|, spp);
      WriteFromSplits(s, lba, data);
      var head, tail := data[..spp], data[spp..];
      WriteSegmentCore(s, seg, head);
      var (t, r) := WriteSegment(s, seg, head);
      if r != Ok {
        DiskSame(s, t);
        StoreNothing(Disk(s), lba);
      } else {
        DiskUpdate(s, t, seg, Stored(s, head));
        WriteFromDisk(t, seg + 1, n - 1, lba + spp, tail);
        StoreAppend(Disk(s), lba, Stored(s, head), LandedFrom(t, lba + spp, tail));
        SegmentMore(|LandedFrom(t, lba + spp, tail)|, spp);
      }
    }
  }

  lemma SegmentMore(n: nat, spp: nat)
    requires spp > 0 && n % spp == 0
    ensures (spp + n) % spp == 0
  {
    DivBounds(n, spp);
    DivMod(n / spp + 1, 0, spp);
  }

  // ---------- unmapping ----------

  /** The disk with every segment that meets a range zeroed. */
  function Zeroed(d: seq<D.Sector>, first: nat, end: nat, spp: nat): (r: seq<D.Sector>)
    requires spp > 0
    ensures |r| == |d|
  {
    seq(|d|, i requires 0 <= i < |d| => if first <= i / spp < end then D.ZERO else d[i])
  }

  lemma UnmapDisk(s: Ztl, first: nat, end: nat)
    requires Core(s)
    ensures Ready(s.base)
    ensures var t := s.(base := UnmapRange(s.base, first, end));
      Core(t) && Disk(t) == Zeroed(Disk(s), first, end, s.base.spp)
  {
    hide Core, Content, UnmapRange;
    CoreReady(s);
    UnmapRangeCore(s, first, end);
    var t := s.(base := UnmapRange(s.base, first, end));
    forall i | 0 <= i < |Disk(s)| ensures Disk(t)[i] == Zeroed(Disk(s), first, end, s.base.spp)[i] {
      assert Content(t, i / s.base.spp) == if first <= i / s.base.spp < end then D.Zeros(s.base.spp) else Content(s, i / s.base.spp);
    }
  }

  /** The segment that holds sector `i` meets a range; an empty range meets the segment it lies inside, and at
      address 0 every segment. */
  predicate Meets(lba: nat, count: nat, spp: nat, i: nat)
    requires spp > 0
  {
    if count > 0 then i / spp * spp + spp > lba && i / spp * spp < lba + count
    else lba == 0 || (lba % spp != 0 && i / spp == lba / spp)
  }

  /** A range of 64-bit addresses, empty or not, zeroes exactly the sectors of the segments it meets, so a
      nonempty one exactly itself when both its ends are on segment boundaries. */
  lemma UnmapMeets(d: seq<D.Sector>, lba: nat, count: nat, spp: nat, i: nat)
    requires spp > 0 && lba + count <= TWO_64 && i < |d| <= TWO_64
    ensures Zeroed(d, lba / spp, LastLBA(lba, count) / spp + 1, spp)[i] == if Meets(lba, count, spp, i) then D.ZERO else d[i]
    ensures count > 0 && lba % spp == 0 && (lba + count) % spp == 0 ==> (Meets(lba, count, spp, i) <==> lba <= i < lba + count)
  {
    DivBounds(i, spp);
    if count > 0 {
      NonemptyMeets(lba, count, spp, i);
    } else {
      EmptyMeets(lba, spp, i);
    }
  }

  lemma NonemptyMeets(lba: nat, count: nat, spp: nat, i: nat)
    requires spp > 0 && count > 0 && lba + count <= TWO_64
    ensures lba / spp <= i / spp < LastLBA(lba, count) / spp + 1 <==> Meets(lba, count, spp, i)
    ensures lba % spp == 0 && (lba + count) % spp == 0 ==> (Meets(lba, count, spp, i) <==> lba <= i < lba + count)
  {
    var last := lba + count - 1;
    assert LastLBA(lba, count) == last by {
      assert lba + count + TWO_64 - 1 == TWO_64 + last;
    }
    DivBounds(lba, spp);
    DivBounds(last, spp);
    DivBounds(lba + count, spp);
    DivBounds(i, spp);
    var q := i / spp;
    if q < lba / spp { MulGap(q, lba / spp, spp); } else { MulMono(lba / spp, q, spp); }
    if q > last / spp { MulGap(last / spp, q, spp); } else { MulMono(q, last / spp, spp); }
    if lba % spp == 0 && (lba + count) % spp == 0 && i >= lba + count && q * spp < lba + count {
      MulGap2(q, (lba + count) / spp, spp);
    }
  }

  /** An empty range ends before it starts: in the segment before on a boundary, in its own inside a segment, and
      at the top of the address space at address 0, where the end wraps around. */
  lemma EmptyMeets(lba: nat, spp: nat, i: nat)
    requires spp > 0 && lba <= TWO_64 && i < TWO_64
    ensures lba / spp <= i / spp < LastLBA(lba, 0) / spp + 1 <==> Meets(lba, 0, spp, i)
  {
    if lba == 0 {
      DivMod(0, 0, spp);
      DivMono(i, TWO_64 - 1, spp);
    } else {
      assert LastLBA(lba, 0) == lba - 1 by { assert lba + 0 + TWO_64 - 1 == TWO_64 + (lba - 1); }
      hide LastLBA;
      Before(lba, spp);
    }
  }

  lemma Before(lba: nat, spp: nat)
    requires spp > 0 && lba > 0
    ensures (lba - 1) / spp == if lba % spp == 0 then lba / spp - 1 else lba / spp
  {
    DivBounds(lba, spp);
    var q, r := lba / spp, lba % spp;
    if r != 0 {
      DivMod(q, r - 1, spp);
    } else {
      MulPred(q, spp);
      DivMod(q - 1, spp - 1, spp);
    }
  }

  lemma DivMono(a: nat, b: nat, m: nat)
    requires a <= b && m > 0
    ensures a / m <= b / m
  {
    DivBounds(a, m);
    DivBounds(b, m);
    if a / m > b / m { MulGap(b / m, a / m, m); }
  }

  lemma MulPred(q: nat, m: nat)
    requires q * m > 0
    ensures q > 0 && q * m - 1 == (q - 1) * m + (m - 1)
  {
  }

  lemma MulGap2(a: nat, b: nat, m: nat)
    requires a * m < b * m
    ensures a * m + m <= b * m
  {
    if a >= b { MulMono(b, a, m); } else { MulGap(a, b, m); }
  }
}
