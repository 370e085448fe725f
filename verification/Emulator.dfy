/** The in-memory zoned device: zone states, one buffer of sectors for each zone, and a count of the open zones,
    changed in place (internal/backend/emulator/emulator.go). Each command is the one on values. */
module EmulatorClass {
  import opened Arith
  import opened Errors
  import D = Device

  datatype ZoneState = ZoneState(cond: D.Condition, writePointer: nat)

  datatype Descriptor = Descriptor(cond: D.Condition, length: nat, start: nat, writePointer: nat)

  class Emulator {
    var zones: seq<ZoneState>
    const buffers: seq<array<D.Sector>>
    const zoneSectors: nat
    const maxOpenZones: int
    var openCount: int

    function View(): D.Device
      reads this, buffers
      requires |zones| == |buffers|
    {
      D.Device(
        seq(|buffers|, i requires 0 <= i < |buffers| reads this, buffers requires |zones| == |buffers| =>
          D.Zone(zones[i].cond, zones[i].writePointer, buffers[i][..])),
        zoneSectors, maxOpenZones, openCount)
    }

    ghost predicate Valid()
      reads this, buffers
    {
      && |zones| == |buffers|
      && (forall i, j :: 0 <= i < j < |buffers| ==> buffers[i] != buffers[j])
      && D.Sane(View())
    }

    constructor (zoneCount: nat, zoneSectors: nat, maxOpenZones: nat)
      requires zoneSectors > 0
      ensures Valid() && fresh(buffers) && View() == D.Fresh(zoneCount, zoneSectors, maxOpenZones)
      ensures this.zoneSectors == zoneSectors && |buffers| == zoneCount
    {
      var made: seq<array<D.Sector>> := [];
      while |made| < zoneCount
        invariant |made| <= zoneCount && fresh(made)
        invariant forall i, j :: 0 <= i < j < |made| ==> made[i] != made[j]
        invariant forall i :: 0 <= i < |made| ==> made[i][..] == D.Zeros(zoneSectors)
      {
        var buffer := new D.Sector[zoneSectors](_ => D.ZERO);
        assert buffer[..] == D.Zeros(zoneSectors);
        made := made + [buffer];
      }
      zones := seq(zoneCount, i requires 0 <= i => ZoneState(D.Empty, i * zoneSectors));
      buffers := made;
      this.zoneSectors := zoneSectors;
      this.maxOpenZones := maxOpenZones;
      openCount := 0;
      new;
      assert View() == D.Fresh(zoneCount, zoneSectors, maxOpenZones);
      D.FreshSane(zoneCount, zoneSectors, maxOpenZones);
    }

    function Capacity(): nat
    {
      |buffers| * zoneSectors
    }

    /** A report of every zone, in order. */
    method ReportZones() returns (report: seq<Descriptor>)
      requires Valid()
      ensures |report| == |View().zones|
      ensures forall i :: 0 <= i < |report| ==>
                report[i] == Descriptor(View().zones[i].cond, zoneSectors, View().Start(i), View().zones[i].wp)
    {
      report := [];
      for i := 0 to |buffers|
        invariant |report| == i
        invariant forall k :: 0 <= k < i ==>
                    report[k] == Descriptor(View().zones[k].cond, zoneSectors, View().Start(k), View().zones[k].wp)
      {
        report := report + [Descriptor(zones[i].cond, zoneSectors, i * zoneSectors, zones[i].writePointer)];
      }
    }

    /** Replaces the state of a zone whose buffer is as it was. */
    lemma Put(old_: D.Device, i: nat, z: ZoneState, delta: int)
      requires |zones| == |buffers| && |old_.zones| == |buffers| && i < |buffers|
      requires old_.zoneSectors == zoneSectors && old_.maxOpen == maxOpenZones && openCount == old_.openCount + delta
      requires forall k :: 0 <= k < |buffers| && k != i ==>
                 old_.zones[k] == D.Zone(zones[k].cond, zones[k].writePointer, buffers[k][..])
      requires zones[i] == z
      ensures View() == old_.Put(i, D.Zone(z.cond, z.writePointer, buffers[i][..]), delta)
    {
      assert View().zones == old_.Put(i, D.Zone(z.cond, z.writePointer, buffers[i][..]), delta).zones;
    }

    method OpenZoneLocked(i: nat, explicit: bool) returns (r: Status)
      requires Valid() && i < |buffers|
      modifies this
      ensures Valid() && (View(), r) == D.OpenLocked(old(View()), i, explicit)
    {
      ghost var was := View();
      D.OpenLockedSane(was, i, explicit);
      hide D.Sane;
      var z := zones[i];
      match z.cond {
        case ExplicitOpen => r := Ok;
        case ImplicitOpen =>
          if explicit {
            zones := zones[i := z.(cond := D.ExplicitOpen)];
            Put(was, i, zones[i], 0);
          }
          r := Ok;
        case Empty | Closed =>
          if openCount >= maxOpenZones { return TooManyOpenZones; }
          zones := zones[i := z.(cond := if explicit then D.ExplicitOpen else D.ImplicitOpen)];
          openCount := openCount + 1;
          Put(was, i, zones[i], 1);
          r := Ok;
        case Full => r := ZoneFull;
        case _ => r := BadZoneState;
      }
    }

    method OpenZone(lba: nat) returns (r: Status)
      requires Valid()
      modifies this
      ensures Valid() && (View(), r) == D.OpenZone(old(View()), lba)
    {
      D.SaneShaped(View());
      hide D.Sane, D.OpenLocked;
      var i := lba / zoneSectors;
      if i >= |buffers| { return InvalidLBA; }
      r := OpenZoneLocked(i, true);
    }

    method CloseZone(lba: nat) returns (r: Status)
      requires Valid()
      modifies this
      ensures Valid() && (View(), r) == D.CloseZone(old(View()), lba)
    {
      ghost var was := View();
      D.PerformSane(was, D.Close(lba));
      D.SaneShaped(was);
      hide D.Sane;
      var i := lba / zoneSectors;
      if i >= |buffers| { return InvalidLBA; }
      var z := zones[i];
      match z.cond {
        case ImplicitOpen | ExplicitOpen =>
          zones := zones[i := z.(cond := D.Closed)];
          openCount := openCount - 1;
          Put(was, i, zones[i], -1);
        case Closed | Empty =>
        case _ => return BadZoneState;
      }
      r := Ok;
    }

    method FinishZone(lba: nat) returns (r: Status)
      requires Valid()
      modifies this
      ensures Valid() && (View(), r) == D.FinishZone(old(View()), lba)
    {
      ghost var was := View();
      D.PerformSane(was, D.Finish(lba));
      D.SaneShaped(was);
      hide D.Sane;
      var i := lba / zoneSectors;
      if i >= |buffers| { return InvalidLBA; }
      var finished := ZoneState(D.Full, i * zoneSectors + zoneSectors);
      match zones[i].cond {
        case ImplicitOpen | ExplicitOpen =>
          zones := zones[i := finished];
          openCount := openCount - 1;
          Put(was, i, finished, -1);
        case Closed | Empty =>
          zones := zones[i := finished];
          Put(was, i, finished, 0);
        case Full =>
        case _ => return BadZoneState;
      }
      r := Ok;
    }

    /** Clears the zone's buffer sector by sector. */
    method ResetZone(lba: nat) returns (r: Status)
      requires Valid()
      modifies this, buffers
      ensures Valid() && (View(), r) == D.ResetZone(old(View()), lba)
    {
      ghost var was := View();
      D.PerformSane(was, D.Reset(lba));
      D.SaneShaped(was);
      hide D.Sane;
      var i := lba / zoneSectors;
      if i >= |buffers| { return InvalidLBA; }
      var wasOpen := D.IsOpen(zones[i].cond);
      zones := zones[i := ZoneState(D.Empty, i * zoneSectors)];
      var buffer := buffers[i];
      for k := 0 to buffer.Length
        invariant forall j :: 0 <= j < k ==> buffer[j] == D.ZERO
        invariant forall j :: 0 <= j < |buffers| && j != i ==> buffers[j][..] == old(buffers[j][..])
        modifies buffer
      {
        buffer[k] := D.ZERO;
      }
      assert buffer[..] == D.Zeros(buffer.Length);
      if wasOpen { openCount := openCount - 1; }
      Put(was, i, zones[i], if wasOpen then -1 else 0);
      r := Ok;
    }

    /** Copies piece by piece across zone boundaries. */
    method ReadSectors(lba: nat, count: nat) returns (r: Result<seq<D.Sector>>)
      requires Valid()
      ensures r == D.ReadSectors(View(), lba, count)
    {
      if count == 0 { return Success([]); }
      ghost var d := View();
      D.SaneShaped(d);
      hide D.Sane, D.Sectors;
      if lba + count > Capacity() { return Failure(InvalidLBA); }
      var result := [];
      NothingYet(d, lba);
      while |result| < count
        invariant |result| <= count && result == D.Sectors(d, lba, |result|)
      {
        var piece := PieceOf(lba + |result|, count - |result|);
        NextPiece(d, lba, |result|, piece);
        result := result + piece;
      }
      r := Success(result);
    }

    /** The sectors from an address on, as far as its zone and the request reach. */
    method PieceOf(at: nat, remaining: nat) returns (piece: seq<D.Sector>)
      requires Valid() && zoneSectors > 0 && at < Capacity() && remaining > 0
      ensures 0 < |piece| <= remaining && piece == D.Sectors(View(), at, |piece|)
    {
      ghost var d := View();
      DivLess(at, |buffers|, zoneSectors);
      var i := at / zoneSectors;
      assert |d.zones[i].data| == zoneSectors by { assert D.SaneZone(d, i); }
      hide D.Sane, D.SectorAt;
      DivBounds(at, zoneSectors);
      var offset := at - i * zoneSectors;
      var available := zoneSectors - offset;
      var toCopy := if remaining > available then available else remaining;
      piece := buffers[i][offset..offset + toCopy];
      assert piece == d.zones[i].data[offset..offset + toCopy];
      CopiedPiece(d, i, offset, at, toCopy);
    }

    /** Copies into the zone's buffer at the write pointer. */
    method WriteSectors(lba: nat, data: seq<D.Sector>) returns (r: Status)
      requires Valid()
      modifies this, buffers
      ensures Valid() && (View(), r) == D.WriteSectors(old(View()), lba, data)
    {
      if data == [] { return Ok; }
      ghost var was := View();
      D.PerformSane(was, D.Write(lba, data));
      D.SaneShaped(was);
      var i := lba / zoneSectors;
      if i >= |buffers| { return InvalidLBA; }
      if lba != zones[i].writePointer { return OutOfOrder; }
      assert i * zoneSectors <= lba && buffers[i].Length == zoneSectors by { assert D.SaneZone(was, i); }
      hide D.Sane, D.Advance;
      match zones[i].cond {
        case Empty | Closed =>
          var opening := OpenZoneLocked(i, false);
          if opening != Ok { return opening; }
        case ImplicitOpen | ExplicitOpen =>
        case Full => return ZoneFull;
        case ReadOnly => return ZoneReadOnly;
        case Offline => return ZoneOffline;
        case NotWritePointer => return BadZoneState;
      }
      assert View().zones[i].wp == zones[i].writePointer;
      r := Append(i, lba, data);
    }

    /** The part of a write after the zone is open. */
    method Append(i: nat, lba: nat, data: seq<D.Sector>) returns (r: Status)
      requires |zones| == |buffers| && i < |buffers| && lba == zones[i].writePointer && i * zoneSectors <= lba
      requires forall i, j :: 0 <= i < j < |buffers| ==> buffers[i] != buffers[j]
      requires buffers[i].Length == zoneSectors
      modifies this, buffers
      ensures |zones| == |buffers|
      ensures (View(), r) == if lba + |data| > old(View()).End(i) then (old(View()), CrossesZone)
                             else (D.Advance(old(View()), i, data), Ok)
    {
      ghost var ready := View();
      var start := i * zoneSectors;
      var zoneEnd := start + zoneSectors;
      var writeEnd := lba + |data|;
      if writeEnd > zoneEnd { return CrossesZone; }
      CopyInto(i, lba - start, data);
      zones := zones[i := zones[i].(writePointer := writeEnd)];
      if writeEnd == zoneEnd {
        zones := zones[i := zones[i].(cond := D.Full)];
        openCount := openCount - 1;
      }
      hide D.Store;
      Put(ready, i, zones[i], if writeEnd == zoneEnd then -1 else 0);
      r := Ok;
    }

    method CopyInto(i: nat, offset: nat, data: seq<D.Sector>)
      requires i < |buffers| && offset + |data| <= buffers[i].Length
      requires forall i, j :: 0 <= i < j < |buffers| ==> buffers[i] != buffers[j]
      modifies buffers[i]
      ensures buffers[i][..] == D.Store(old(buffers[i][..]), offset, data)
      ensures forall j :: 0 <= j < |buffers| && j != i ==> buffers[j][..] == old(buffers[j][..])
    {
      var buffer := buffers[i];
      for k := 0 to |data|
        invariant forall j :: 0 <= j < buffer.Length ==>
                    buffer[j] == if offset <= j < offset + k then data[j - offset] else old(buffer[j])
        invariant forall j :: 0 <= j < |buffers| && j != i ==> buffers[j][..] == old(buffers[j][..])
      {
        buffer[offset + k] := data[k];
      }
    }
  }

  lemma NothingYet(d: D.Device, lba: nat)
    requires d.zoneSectors > 0
    ensures D.Sectors(d, lba, 0) == []
  {
  }

  lemma NextPiece(d: D.Device, lba: nat, n: nat, piece: seq<D.Sector>)
    requires d.zoneSectors > 0 && piece == D.Sectors(d, lba + n, |piece|)
    ensures D.Sectors(d, lba, n) + piece == D.Sectors(d, lba, n + |piece|)
  {
    hide D.SectorAt;
    var whole := D.Sectors(d, lba, n + |piece|);
    forall k | n <= k < n + |piece| ensures whole[k] == piece[k - n] {
      assert piece[k - n] == D.SectorAt(d, lba + n + (k - n));
    }
  }

  /** Consecutive sectors of one zone are consecutive sectors of the device. */
  lemma CopiedPiece(d: D.Device, i: nat, offset: nat, at: nat, n: nat)
    requires d.zoneSectors > 0 && i < |d.zones| && offset + n <= d.zoneSectors == |d.zones[i].data|
    requires at == i * d.zoneSectors + offset
    ensures d.zones[i].data[offset..offset + n] == D.Sectors(d, at, n)
  {
    var s := D.Sectors(d, at, n);
    forall k | 0 <= k < n ensures s[k] == d.zones[i].data[offset + k] {
      DivMod(i, offset + k, d.zoneSectors);
    }
  }
}
