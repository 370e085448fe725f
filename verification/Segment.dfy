/** Physical addresses and segment arithmetic (internal/ztl/segment.go). */
module Segment {
  import opened Arith

  const TWO_64: nat := 0x1_0000_0000_0000_0000

  /** 2^40: one more than the offset mask. */
  const OFFSET_SPAN: nat := 0x100_0000_0000

  /** 2^24: one more than the zone mask. */
  const ZONE_SPAN: nat := 0x100_0000

  type PhysAddr = p: nat | p < TWO_64

  const UNMAPPED: PhysAddr := 0

  /** `uint64(zoneID) << 40 | offset & mask`. The shift drops the bits above 2^64, and because the two
      operands of the disjunction share no bit it is a sum. */
  function EncodePhysAddr(zone: nat, offset: nat): PhysAddr {
    zone * OFFSET_SPAN % TWO_64 + offset % OFFSET_SPAN
  }

  function ZoneID(p: PhysAddr): nat {
    p / OFFSET_SPAN % ZONE_SPAN
  }

  function OffsetSectors(p: PhysAddr): nat {
    p % OFFSET_SPAN
  }

  predicate IsUnmapped(p: PhysAddr) {
    p == 0
  }

  function LBAToSegmentID(lba: nat, sectorsPerSeg: nat): nat
    requires sectorsPerSeg > 0
  {
    lba / sectorsPerSeg
  }

  /** Packing keeps the low 24 bits of the zone and the low 40 bits of the offset, so unpacking returns
      the arguments exactly when both are in range. */
  lemma PackUnpack(zone: nat, offset: nat)
    ensures ZoneID(EncodePhysAddr(zone, offset)) == zone % ZONE_SPAN
    ensures OffsetSectors(EncodePhysAddr(zone, offset)) == offset % OFFSET_SPAN
    ensures ZoneID(EncodePhysAddr(zone, offset)) == zone && OffsetSectors(EncodePhysAddr(zone, offset)) == offset
            <==> zone < ZONE_SPAN && offset < OFFSET_SPAN
  {
    var z := zone % ZONE_SPAN;
    assert zone * OFFSET_SPAN % TWO_64 == z * OFFSET_SPAN by {
      assert zone == zone / ZONE_SPAN * ZONE_SPAN + z;
      assert zone * OFFSET_SPAN == (zone / ZONE_SPAN) * TWO_64 + z * OFFSET_SPAN;
    }
  }

  /** Every 64-bit address is the packing of its own two fields, so distinct addresses differ in a field. */
  lemma UnpackPack(p: PhysAddr)
    ensures ZoneID(p) < ZONE_SPAN && OffsetSectors(p) < OFFSET_SPAN
    ensures EncodePhysAddr(ZoneID(p), OffsetSectors(p)) == p
  {
    PackUnpack(ZoneID(p), OffsetSectors(p));
    assert p / OFFSET_SPAN < ZONE_SPAN;
    var z := p / OFFSET_SPAN;
    assert z * OFFSET_SPAN < TWO_64;
  }

  /** The unmapped marker is a real location: offset 0 of zone 0 packs to it, and nothing else in range does. */
  lemma PackedUnmapped(zone: nat, offset: nat)
    requires zone < ZONE_SPAN && offset < OFFSET_SPAN
    ensures IsUnmapped(EncodePhysAddr(zone, offset)) <==> zone == 0 && offset == 0
  {
    PackUnpack(zone, offset);
  }

  /** The zone is in the high 24 bits of an address, the offset in the low 40. */
  lemma PackedAs(zone: nat, offset: nat)
    requires zone < 0x100_0000 && offset < 0x100_0000_0000
    ensures EncodePhysAddr(zone, offset) == zone * 0x100_0000_0000 + offset
  {
  }
}
