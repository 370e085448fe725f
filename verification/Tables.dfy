/** The two maps of the translation layer as objects: the table of physical addresses, changed entry by entry,
    and the reverse map (internal/ztl/l2p.go, p2l.go). */
module Tables {
  import opened Errors
  import opened Segment
  import Z = Ztl

  class L2PTable {
    const entries: array<PhysAddr>

    function View(): seq<PhysAddr>
      reads entries
    {
      entries[..]
    }

    constructor (totalSegments: nat)
      ensures fresh(entries) && entries.Length == totalSegments
      ensures forall i :: 0 <= i < totalSegments ==> View()[i] == UNMAPPED
    {
      entries := new PhysAddr[totalSegments](_ => UNMAPPED);
    }

    method Get(seg: nat) returns (phys: PhysAddr)
      ensures phys == Z.Get(View(), seg)
    {
      if seg >= entries.Length { return UNMAPPED; }
      phys := entries[seg];
    }

    method Set(seg: nat, phys: PhysAddr) returns (r: Status)
      modifies entries
      ensures r == (if seg < entries.Length then Ok else NoSuchSegment)
      ensures View() == if seg < entries.Length then old(View())[seg := phys] else old(View())
    {
      if seg >= entries.Length { return NoSuchSegment; }
      entries[seg] := phys;
      r := Ok;
    }

    method CAS(seg: nat, expected: PhysAddr, replacement: PhysAddr) returns (won: bool)
      modifies entries
      ensures (View(), won) == Z.CAS(old(View()), seg, expected, replacement)
    {
      if seg >= entries.Length { return false; }
      won := entries[seg] == expected;
      if won { entries[seg] := replacement; }
    }

    method Snapshot() returns (snap: seq<PhysAddr>)
      ensures snap == View()
    {
      snap := [];
      for i := 0 to entries.Length
        invariant snap == entries[..i]
      {
        snap := snap + [entries[i]];
      }
    }

    method LoadSnapshot(snap: seq<PhysAddr>) returns (r: Status)
      modifies entries
      ensures r == (if |snap| == entries.Length then Ok else NoSuchSegment)
      ensures View() == if |snap| == entries.Length then snap else old(View())
    {
      if |snap| != entries.Length { return NoSuchSegment; }
      for i := 0 to |snap|
        invariant entries[..i] == snap[..i]
      {
        entries[i] := snap[i];
      }
      r := Ok;
    }
  }

  class P2LMap {
    var entries: map<(nat, nat), nat>

    constructor ()
      ensures entries == map[]
    {
      entries := map[];
    }

    method Set(phys: PhysAddr, seg: nat)
      modifies this
      ensures entries == old(entries)[Z.Key(phys) := seg]
    {
      entries := entries[(ZoneID(phys), OffsetSectors(phys)) := seg];
    }

    method Delete(phys: PhysAddr)
      modifies this
      ensures entries == old(entries) - {Z.Key(phys)}
    {
      entries := entries - {(ZoneID(phys), OffsetSectors(phys))};
    }

    /** The offsets recorded for a zone, each once, in whatever order the map yields them. */
    method IterateZone(zone: nat) returns (order: seq<nat>)
      ensures forall i, j :: 0 <= i < j < |order| ==> order[i] != order[j]
      ensures forall off :: off in order <==> (zone, off) in entries
    {
      order := [];
      var left := entries.Keys;
      while left != {}
        invariant left <= entries.Keys
        invariant forall i, j :: 0 <= i < j < |order| ==> order[i] != order[j]
        invariant forall off :: off in order <==> (zone, off) in entries && (zone, off) !in left
        decreases |left|
      {
        var key :| key in left;
        left := left - {key};
        if key.0 == zone { order := order + [key.1]; }
      }
    }
  }
}
