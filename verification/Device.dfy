/** The zoned device as a value: what each command of internal/backend/emulator/emulator.go does to it,
    and what every command keeps. */
module Device {
  import opened Arith
  import opened Errors

  /** One 512-byte sector, as the number its bytes spell; ZERO is the sector of zero bytes. */
  type Sector = int

  const ZERO: Sector := 0

  function Zeros(n: nat): (s: seq<Sector>)
    ensures |s| == n && forall i :: 0 <= i < n ==> s[i] == ZERO
  {
    seq(n, i => ZERO)
  }

  datatype Condition =
    NotWritePointer | Empty | ImplicitOpen | ExplicitOpen | Closed | ReadOnly | Full | Offline

  predicate IsOpen(c: Condition) {
    c == ImplicitOpen || c == ExplicitOpen
  }

  predicate IsEmpty(c: Condition) {
    c == Empty
  }

  datatype Zone = Zone(cond: Condition, wp: nat, data: seq<Sector>)

  datatype Device = Device(zones: seq<Zone>, zoneSectors: nat, maxOpen: int, openCount: int) {

    function Start(i: nat): nat {
      i * zoneSectors
    }

    function End(i: nat): nat {
      Start(i) + zoneSectors
    }

    function Capacity(): nat {
      |zones| * zoneSectors
    }

    /** The zone that holds an address: at or past the zone count when the address is past the capacity. */
    function ZoneIndex(lba: nat): nat
      requires zoneSectors > 0
    {
      lba / zoneSectors
    }

    function Put(i: nat, z: Zone, delta: int): Device
      requires i < |zones|
    {
      this.(zones := zones[i := z], openCount := openCount + delta)
    }
  }

  function Fresh(zoneCount: nat, zoneSectors: nat, maxOpen: int): Device {
    Device(seq(zoneCount, i requires 0 <= i => Zone(Empty, i * zoneSectors, Zeros(zoneSectors))), zoneSectors, maxOpen, 0)
  }

  // ---------- commands ----------

  /** The geometry no command changes. */
  ghost predicate Framed(d: Device, e: Device) {
    |e.zones| == |d.zones| && e.zoneSectors == d.zoneSectors
  }

  function OpenLocked(d: Device, i: nat, explicit: bool): (r: (Device, Status))
    requires i < |d.zones|
  {
    var z := d.zones[i];
    match z.cond
    case ExplicitOpen => (d, Ok)
    case ImplicitOpen => (if explicit then d.Put(i, z.(cond := ExplicitOpen), 0) else d, Ok)
    case Empty | Closed =>
      if d.openCount >= d.maxOpen then (d, TooManyOpenZones)
      else (d.Put(i, z.(cond := if explicit then ExplicitOpen else ImplicitOpen), 1), Ok)
    case Full => (d, ZoneFull)
    case _ => (d, BadZoneState)
  }

  function OpenZone(d: Device, lba: nat): (r: (Device, Status))
    requires d.zoneSectors > 0
    ensures Framed(d, r.0)
  {
    var i := d.ZoneIndex(lba);
    if i >= |d.zones| then (d, InvalidLBA) else OpenLocked(d, i, true)
  }

  function CloseZone(d: Device, lba: nat): (r: (Device, Status))
    requires d.zoneSectors > 0
    ensures Framed(d, r.0)
  {
    var i := d.ZoneIndex(lba);
    if i >= |d.zones| then (d, InvalidLBA) else
    var z := d.zones[i];
    match z.cond
    case ImplicitOpen | ExplicitOpen => (d.Put(i, z.(cond := Closed), -1), Ok)
    case Closed | Empty => (d, Ok)
    case _ => (d, BadZoneState)
  }

  function FinishZone(d: Device, lba: nat): (r: (Device, Status))
    requires d.zoneSectors > 0
    ensures Framed(d, r.0)
  {
    var i := d.ZoneIndex(lba);
    if i >= |d.zones| then (d, InvalidLBA) else
    var z := d.zones[i];
    var finished := z.(cond := Full, wp := d.End(i));
    match z.cond
    case ImplicitOpen | ExplicitOpen => (d.Put(i, finished, -1), Ok)
    case Closed | Empty => (d.Put(i, finished, 0), Ok)
    case Full => (d, Ok)
    case _ => (d, BadZoneState)
  }

  function ResetZone(d: Device, lba: nat): (r: (Device, Status))
    requires d.zoneSectors > 0
    ensures Framed(d, r.0)
  {
    var i := d.ZoneIndex(lba);
    if i >= |d.zones| then (d, InvalidLBA) else
    var z := d.zones[i];
    (d.Put(i, Zone(Empty, d.Start(i), Zeros(|z.data|)), if IsOpen(z.cond) then -1 else 0), Ok)
  }

  /** Copies `data` over the contents from `offset` on, as far as they reach. */
  function Store(contents: seq<Sector>, offset: int, data: seq<Sector>): (r: seq<Sector>)
    ensures |r| == |contents|
    ensures forall k :: 0 <= k < |contents| ==>
              r[k] == if offset <= k < offset + |data| then data[k - offset] else contents[k]
  {
    seq(|contents|, k requires 0 <= k < |contents| =>
      if offset <= k < offset + |data| then data[k - offset] else contents[k])
  }

  /** Where a zone's next sector goes, relative to the start of the zone. */
  function Fill(d: Device, i: nat): int
    requires i < |d.zones|
  {
    d.zones[i].wp - d.Start(i)
  }

  /** Stores `data` at the write pointer of a zone that is open and has room, and advances the pointer;
      a zone written to its end becomes full. */
  function Advance(d: Device, i: nat, data: seq<Sector>): Device
    requires i < |d.zones|
  {
    var z := d.zones[i];
    var end := z.wp + |data|;
    var written := z.(data := Store(z.data, Fill(d, i), data), wp := end);
    if end == d.End(i) then d.Put(i, written.(cond := Full), -1) else d.Put(i, written, 0)
  }

  /** A write that would cross the zone end is refused only after the zone was implicitly opened. */
  function WriteSectors(d: Device, lba: nat, data: seq<Sector>): (r: (Device, Status))
    requires d.zoneSectors > 0
    ensures Framed(d, r.0)
  {
    if data == [] then (d, Ok) else
    var i := d.ZoneIndex(lba);
    if i >= |d.zones| then (d, InvalidLBA) else
    if lba != d.zones[i].wp then (d, OutOfOrder) else
    var opening := match d.zones[i].cond
      case Empty | Closed => OpenLocked(d, i, false)
      case ImplicitOpen | ExplicitOpen => (d, Ok)
      case Full => (d, ZoneFull)
      case ReadOnly => (d, ZoneReadOnly)
      case Offline => (d, ZoneOffline)
      case NotWritePointer => (d, BadZoneState);
    if opening.1 != Ok then opening else
    var e := opening.0;
    if lba + |data| > e.End(i) then (e, CrossesZone) else
    (Advance(e, i, data), Ok)
  }

  /** The sector at an address of the device, read as one flat array. */
  function SectorAt(d: Device, lba: nat): Sector
    requires d.zoneSectors > 0
  {
    var i, k := lba / d.zoneSectors, lba % d.zoneSectors;
    if i < |d.zones| && k < |d.zones[i].data| then d.zones[i].data[k] else ZERO
  }

  function Sectors(d: Device, lba: nat, count: nat): (s: seq<Sector>)
    requires d.zoneSectors > 0
    ensures |s| == count
    ensures forall i :: 0 <= i < count ==> s[i] == SectorAt(d, lba + i)
  {
    seq(count, i requires 0 <= i < count => SectorAt(d, lba + i))
  }

  function ReadSectors(d: Device, lba: nat, count: nat): Result<seq<Sector>>
    requires d.zoneSectors > 0
  {
    if count == 0 then Success([])
    else if lba + count > d.Capacity() then Failure(InvalidLBA)
    else Success(Sectors(d, lba, count))
  }

  // ---------- what every command keeps ----------

  ghost predicate Shaped(d: Device) {
    d.zoneSectors > 0 && forall i :: 0 <= i < |d.zones| ==> |d.zones[i].data| == d.zoneSectors
  }

  ghost predicate SaneZone(d: Device, i: nat)
    requires i < |d.zones|
  {
    var z := d.zones[i];
    && |z.data| == d.zoneSectors
    && (z.cond in {Empty, ImplicitOpen, ExplicitOpen, Closed, Full})
    && d.Start(i) <= z.wp <= d.End(i)
    && (z.cond == Full <==> z.wp == d.End(i))
    && (z.cond == Empty ==> z.wp == d.Start(i))
    && forall k {:trigger z.data[k]} :: z.wp - d.Start(i) <= k < d.zoneSectors ==> z.data[k] == ZERO
  }

  function CountOpen(zones: seq<Zone>): nat {
    if zones == [] then 0
    else CountOpen(zones[..|zones| - 1]) + (if IsOpen(zones[|zones| - 1].cond) then 1 else 0)
  }

  /** A device some sequence of commands can leave: pointers inside their zones, full exactly at the end,
      nothing stored at or past a pointer, and a counter that counts the open zones within the limit. */
  ghost predicate Sane(d: Device) {
    && Shaped(d)
    && (forall i :: 0 <= i < |d.zones| ==> SaneZone(d, i))
    && d.openCount == CountOpen(d.zones)
    && 0 <= d.openCount <= d.maxOpen
  }

  lemma {:induction false} CountOpenPut(zones: seq<Zone>, i: nat, z: Zone)
    requires i < |zones|
    ensures CountOpen(zones[i := z]) ==
            CountOpen(zones) + (if IsOpen(z.cond) then 1 else 0) - (if IsOpen(zones[i].cond) then 1 else 0)
  {
    var n := |zones| - 1;
    if i == n {
      assert zones[i := z][..n] == zones[..n];
    } else {
      CountOpenPut(zones[..n], i, z);
      assert zones[i := z][..n] == zones[..n][i := z];
    }
  }

  lemma {:induction false} CountOpenPositive(zones: seq<Zone>, i: nat)
    requires i < |zones| && IsOpen(zones[i].cond)
    ensures CountOpen(zones) >= 1
  {
    if i < |zones| - 1 {
      CountOpenPositive(zones[..|zones| - 1], i);
    }
  }

  lemma {:induction false} CountOpenNone(zones: seq<Zone>)
    requires forall i :: 0 <= i < |zones| ==> !IsOpen(zones[i].cond)
    ensures CountOpen(zones) == 0
  {
    if zones != [] {
      CountOpenNone(zones[..|zones| - 1]);
    }
  }

  lemma FreshSane(zoneCount: nat, zoneSectors: nat, maxOpen: nat)
    requires zoneSectors > 0
    ensures Sane(Fresh(zoneCount, zoneSectors, maxOpen))
  {
    var d := Fresh(zoneCount, zoneSectors, maxOpen);
    CountOpenNone(d.zones);
    forall i | 0 <= i < |d.zones| ensures SaneZone(d, i) && |d.zones[i].data| == zoneSectors {
      assert d.zones[i] == Zone(Empty, i * zoneSectors, Zeros(zoneSectors));
    }
  }

  /** Replacing one zone by a sane one, with the counter moved by the change in openness. */
  lemma PutSane(d: Device, i: nat, z: Zone, delta: int)
    requires Sane(d) && i < |d.zones|
    requires delta == (if IsOpen(z.cond) then 1 else 0) - (if IsOpen(d.zones[i].cond) then 1 else 0)
    requires delta == 1 ==> d.openCount < d.maxOpen
    requires SaneZone(d.(zones := d.zones[i := z]), i)
    ensures Sane(d.Put(i, z, delta))
  {
    CountOpenPut(d.zones, i, z);
    if IsOpen(d.zones[i].cond) {
      CountOpenPositive(d.zones, i);
    }
    var e := d.Put(i, z, delta);
    forall j | 0 <= j < |e.zones| ensures SaneZone(e, j) {
      assert SaneZone(d, j);
    }
  }

  datatype Command =
    | Open(lba: nat)
    | Close(lba: nat)
    | Finish(lba: nat)
    | Reset(lba: nat)
    | Write(lba: nat, data: seq<Sector>)

  function Perform(d: Device, c: Command): (r: (Device, Status))
    requires d.zoneSectors > 0
    ensures Framed(d, r.0)
  {
    match c
    case Open(lba) => OpenZone(d, lba)
    case Close(lba) => CloseZone(d, lba)
    case Finish(lba) => FinishZone(d, lba)
    case Reset(lba) => ResetZone(d, lba)
    case Write(lba, data) => WriteSectors(d, lba, data)
  }

  lemma OpenLockedSane(d: Device, i: nat, explicit: bool)
    requires Sane(d) && i < |d.zones|
    ensures Sane(OpenLocked(d, i, explicit).0)
    ensures OpenLocked(d, i, explicit).1 == Ok ==> IsOpen(OpenLocked(d, i, explicit).0.zones[i].cond)
  {
    var z := d.zones[i];
    assert SaneZone(d, i);
    match z.cond {
      case ImplicitOpen => PutSane(d, i, z.(cond := ExplicitOpen), 0);
      case Empty | Closed =>
        if d.openCount < d.maxOpen {
          PutSane(d, i, z.(cond := if explicit then ExplicitOpen else ImplicitOpen), 1);
        }
      case _ =>
    }
  }

  lemma AdvanceSane(d: Device, i: nat, data: seq<Sector>)
    requires Sane(d) && i < |d.zones| && IsOpen(d.zones[i].cond)
    requires data != [] && Fill(d, i) + |data| <= d.zoneSectors
    ensures SaneZone(d, i)
    ensures Sane(Advance(d, i, data))
  {
    assert SaneZone(d, i);
    var z := d.zones[i];
    var end := z.wp + |data|;
    var written := z.(data := Store(z.data, Fill(d, i), data), wp := end);
    if end == d.End(i) {
      PutSane(d, i, written.(cond := Full), -1);
    } else {
      PutSane(d, i, written, 0);
    }
  }

  lemma WriteSane(d: Device, lba: nat, data: seq<Sector>)
    requires Sane(d)
    ensures Sane(WriteSectors(d, lba, data).0)
  {
    var i := d.ZoneIndex(lba);
    if data != [] && i < |d.zones| && lba == d.zones[i].wp {
      assert SaneZone(d, i);
      OpenLockedSane(d, i, false);
      var e := if d.zones[i].cond == Empty || d.zones[i].cond == Closed then OpenLocked(d, i, false).0 else d;
      if IsOpen(e.zones[i].cond) && lba + |data| <= e.End(i) {
        AdvanceSane(e, i, data);
      }
    }
  }

  /** Every command keeps the device sane, whether it succeeds or is refused. */
  lemma PerformSane(d: Device, c: Command)
    requires Sane(d)
    ensures Sane(Perform(d, c).0)
  {
    match c {
      case Write(lba, data) => WriteSane(d, lba, data);
      case Open(lba) =>
        if d.ZoneIndex(lba) < |d.zones| { OpenLockedSane(d, d.ZoneIndex(lba), true); }
      case Close(lba) =>
        var i := d.ZoneIndex(lba);
        if i < |d.zones| {
          assert SaneZone(d, i);
          if IsOpen(d.zones[i].cond) { PutSane(d, i, d.zones[i].(cond := Closed), -1); }
        }
      case Finish(lba) =>
        var i := d.ZoneIndex(lba);
        if i < |d.zones| {
          assert SaneZone(d, i);
          var finished := d.zones[i].(cond := Full, wp := d.End(i));
          if d.zones[i].cond != Full {
            PutSane(d, i, finished, if IsOpen(d.zones[i].cond) then -1 else 0);
          }
        }
      case Reset(lba) =>
        var i := d.ZoneIndex(lba);
        if i < |d.zones| {
          assert SaneZone(d, i);
          PutSane(d, i, Zone(Empty, d.Start(i), Zeros(d.zoneSectors)), if IsOpen(d.zones[i].cond) then -1 else 0);
        }
    }
  }

  function PerformAll(d: Device, cs: seq<Command>): Device
    requires Sane(d)
    decreases |cs|
  {
    if cs == [] then d else
    PerformSane(d, cs[0]);
    PerformAll(Perform(d, cs[0]).0, cs[1..])
  }

  lemma SaneShaped(d: Device)
    requires Sane(d)
    ensures d.zoneSectors > 0
  {
  }

  /** Over every sequence of commands, refused ones included. */
  lemma {:induction false} EveryRunSane(d: Device, cs: seq<Command>)
    requires Sane(d)
    ensures Sane(PerformAll(d, cs)) && Framed(d, PerformAll(d, cs))
    decreases |cs|
  {
    hide Sane, Perform;
    SaneShaped(d);
    if cs != [] {
      PerformSane(d, cs[0]);
      SaneShaped(Perform(d, cs[0]).0);
      EveryRunSane(Perform(d, cs[0]).0, cs[1..]);
    }
  }

  // ---------- when each command is accepted, and what it then does ----------

  /** Zone `i` alone differs, in its condition, and the count of open zones follows. */
  ghost predicate Turned(d: Device, e: Device, i: nat, c: Condition)
    requires i < |d.zones|
  {
    && e.zones == d.zones[i := d.zones[i].(cond := c)]
    && e.zoneSectors == d.zoneSectors && e.maxOpen == d.maxOpen
    && e.openCount == d.openCount + (if IsOpen(c) then 1 else 0) - (if IsOpen(d.zones[i].cond) then 1 else 0)
  }

  /** A zone can be opened if it is open already, or if it is empty or closed and the limit is not reached. */
  lemma OpenAccepted(d: Device, lba: nat)
    requires d.zoneSectors > 0
    ensures var i, (e, r) := lba / d.zoneSectors, OpenZone(d, lba);
      if i >= |d.zones| then r == InvalidLBA && e == d else
      var c := d.zones[i].cond;
      if IsOpen(c) || (c in {Empty, Closed} && d.openCount < d.maxOpen) then r == Ok && Turned(d, e, i, ExplicitOpen)
      else e == d && r == if c in {Empty, Closed} then TooManyOpenZones else if c == Full then ZoneFull else BadZoneState
  {
    var i := lba / d.zoneSectors;
    if i < |d.zones| { assert d.zones[i := d.zones[i]] == d.zones; }
  }

  /** An open zone can be closed; closing an empty or closed one changes nothing; any other is an error. */
  lemma CloseAccepted(d: Device, lba: nat)
    requires d.zoneSectors > 0
    ensures var i, (e, r) := lba / d.zoneSectors, CloseZone(d, lba);
      if i >= |d.zones| then r == InvalidLBA && e == d else
      var c := d.zones[i].cond;
      if IsOpen(c) then r == Ok && Turned(d, e, i, Closed)
      else e == d && r == if c in {Empty, Closed} then Ok else BadZoneState
  {
  }

  /** Any zone that can be written can be finished: it is full, with its pointer at its end and its data as it was. */
  lemma FinishAccepted(d: Device, lba: nat)
    requires d.zoneSectors > 0
    ensures var i, (e, r) := lba / d.zoneSectors, FinishZone(d, lba);
      if i >= |d.zones| then r == InvalidLBA && e == d else
      var z := d.zones[i];
      if IsOpen(z.cond) || z.cond in {Empty, Closed} then
        && r == Ok && e.zones[i].wp == d.End(i) && e.zones[i].data == z.data
        && Turned(d, e.(zones := e.zones[i := e.zones[i].(wp := z.wp)]), i, Full)
      else e == d && r == if z.cond == Full then Ok else BadZoneState
  {
  }

  /** Every zone can be reset, whatever its condition: it is empty, blank, and has its pointer at its start. */
  lemma ResetAccepted(d: Device, lba: nat)
    requires d.zoneSectors > 0
    ensures var i, (e, r) := lba / d.zoneSectors, ResetZone(d, lba);
      if i >= |d.zones| then r == InvalidLBA && e == d else
      var z, y := d.zones[i], e.zones[i];
      && r == Ok && y.wp == d.Start(i) && |y.data| == |z.data| && (forall k :: 0 <= k < |y.data| ==> y.data[k] == 0)
      && Turned(d, e.(zones := e.zones[i := y.(wp := z.wp, data := z.data)]), i, Empty)
  {
  }

  /** The sectors are stored from the pointer on, the pointer is after them, and the zone is full if that is its end. */
  ghost predicate StoredIn(d: Device, e: Device, i: nat, data: seq<Sector>, open: Condition)
    requires i < |d.zones|
  {
    var z, off := d.zones[i], d.zones[i].wp - d.Start(i);
    && |e.zones| == |d.zones|
    && var y := e.zones[i];
      && y.wp == z.wp + |data| && |y.data| == |z.data|
      && (forall k :: 0 <= k < |z.data| ==> y.data[k] == if off <= k < off + |data| then data[k - off] else z.data[k])
      && Turned(d, e.(zones := e.zones[i := y.(wp := z.wp, data := z.data)]), i,
                if y.wp == d.Start(i) + d.zoneSectors then Full else open)
  }

  lemma AdvanceStores(d: Device, i: nat, data: seq<Sector>)
    requires i < |d.zones| && IsOpen(d.zones[i].cond)
    ensures StoredIn(d, Advance(d, i, data), i, data, d.zones[i].cond)
  {
    var e, z := Advance(d, i, data), d.zones[i];
    hide Store;
    assert e.zones[i := e.zones[i].(wp := z.wp, data := z.data)] == d.zones[i := z.(cond := e.zones[i].cond)];
  }

  /** Opening a zone first changes nothing about what is stored in it. */
  lemma StoredAfterOpening(d: Device, m: Device, e: Device, i: nat, data: seq<Sector>, open: Condition)
    requires i < |d.zones| && IsOpen(open) && Turned(d, m, i, open) && i < |m.zones| && StoredIn(m, e, i, data, open)
    ensures StoredIn(d, e, i, data, open)
  {
    var z, y := d.zones[i], e.zones[i];
    assert m.zones[i] == z.(cond := open);
    var back := e.zones[i := y.(wp := z.wp, data := z.data)];
    assert back == d.zones[i := z.(cond := back[i].cond)];
  }

  /** A write of some sectors is accepted exactly at the pointer of a zone that is open or can be opened, and within
      it; then the sectors are stored there. One that would cross the end of its zone leaves the zone open; any other
      refused write changes nothing. */
  lemma WriteAccepted(d: Device, lba: nat, data: seq<Sector>)
    requires Sane(d) && data != []
    ensures d.zoneSectors > 0
    ensures var i, (e, r) := lba / d.zoneSectors, WriteSectors(d, lba, data);
      if i >= |d.zones| then r == InvalidLBA && e == d else
      var z := d.zones[i];
      var open := if IsOpen(z.cond) then z.cond else ImplicitOpen;
      if lba != z.wp then r == OutOfOrder && e == d
      else if z.cond == Full then r == ZoneFull && e == d
      else if !IsOpen(z.cond) && d.openCount >= d.maxOpen then r == TooManyOpenZones && e == d
      else if lba + |data| > d.Start(i) + d.zoneSectors then r == CrossesZone && Turned(d, e, i, open)
      else r == Ok && StoredIn(d, e, i, data, open)
  {
    SaneShaped(d);
    var i := lba / d.zoneSectors;
    if i < |d.zones| {
      assert SaneZone(d, i);
      hide Sane, Advance, StoredIn;
      var z := d.zones[i];
      assert d.zones[i := z] == d.zones;
      if IsOpen(z.cond) {
        AdvanceStores(d, i, data);
      } else if z.cond != Full && d.openCount < d.maxOpen {
        var m := OpenLocked(d, i, false).0;
        assert Turned(d, m, i, ImplicitOpen);
        AdvanceStores(m, i, data);
        StoredAfterOpening(d, m, Advance(m, i, data), i, data, ImplicitOpen);
      }
    }
  }

  /** A read is accepted exactly when it asks for nothing or for sectors that all exist, and then returns them, each
      from its place in its zone. */
  lemma ReadAccepted(d: Device, lba: nat, count: nat)
    requires Shaped(d)
    ensures var r := ReadSectors(d, lba, count);
      && (r.Success? <==> count == 0 || lba + count <= |d.zones| * d.zoneSectors)
      && (r.Failure? ==> r.error == InvalidLBA)
      && (r.Success? ==>
            && |r.value| == count
            && forall k :: 0 <= k < count ==>
                 var i, j := (lba + k) / d.zoneSectors, (lba + k) % d.zoneSectors;
                 i < |d.zones| && r.value[k] == d.zones[i].data[j])
  {
    var r := ReadSectors(d, lba, count);
    hide Sane;
    if r.Success? {
      forall k | 0 <= k < count ensures (lba + k) / d.zoneSectors < |d.zones| && r.value[k] == SectorAt(d, lba + k) {
        ZoneExists(lba + k, d.zoneSectors, |d.zones|);
      }
    }
  }

  lemma ZoneExists(lba: nat, size: nat, n: nat)
    requires size > 0 && lba < n * size
    ensures lba / size < n
  {
    DivBounds(lba, size);
    if n <= lba / size { MulMono(n, lba / size, size); }
  }
}
