/** The zone manager and the device under it, as values: allocation, the list of open zones in order of
    use, eviction and victim choice (internal/ztl/zone_manager.go). */
module Pool {
  import opened Errors
  import D = Device

  datatype ZoneInfo = ZoneInfo(
    cond: D.Condition, wp: nat, start: nat, size: nat, valid: nat, total: nat)

  /** `openList` runs from the least to the most recently used zone. */
  datatype Manager = Manager(
    zones: seq<ZoneInfo>, freeList: seq<nat>, openList: seq<nat>, openSet: set<nat>, frozen: set<nat>, maxOpen: int)

  datatype Pool = Pool(zm: Manager, dev: D.Device)

  function Without(list: seq<nat>, z: nat): (r: seq<nat>)
    ensures forall k :: 0 <= k < |r| ==> r[k] in list
  {
    if list == [] then []
    else if list[0] == z then list[1..]
    else [list[0]] + Without(list[1..], z)
  }

  function SetInfo(zm: Manager, z: nat, info: ZoneInfo): Manager
    requires z < |zm.zones|
  {
    zm.(zones := zm.zones[z := info])
  }

  /** What `Initialize` reads from a device report: empty zones are free, open zones are listed as open. */
  function Report(d: D.Device): Manager {
    var n := |d.zones|;
    Manager(
      seq(n, i requires 0 <= i < n => ZoneInfo(d.zones[i].cond, d.zones[i].wp, d.Start(i), d.zoneSectors, 0, 0)),
      Select(d.zones, n, D.IsEmpty),
      Select(d.zones, n, D.IsOpen),
      set i | 0 <= i < n && D.IsOpen(d.zones[i].cond), {}, d.maxOpen)
  }

  function Select(zones: seq<D.Zone>, n: nat, chosen: D.Condition -> bool): seq<nat>
    requires n <= |zones|
  {
    if n == 0 then []
    else Select(zones, n - 1, chosen) + (if chosen(zones[n - 1].cond) then [n - 1] else [])
  }

  /** The lists name zones that exist. */
  ghost predicate Listed(p: Pool) {
    && p.dev.zoneSectors > 0
    && (forall k :: 0 <= k < |p.zm.freeList| ==> p.zm.freeList[k] < |p.zm.zones|)
    && (forall k :: 0 <= k < |p.zm.openList| ==> p.zm.openList[k] < |p.zm.zones|)
  }

  /** What no operation changes: how many zones there are and how large, and that the lists name them. */
  ghost predicate Kept(p: Pool, q: Pool) {
    && Listed(q)
    && |q.zm.zones| == |p.zm.zones|
    && |q.dev.zones| == |p.dev.zones|
    && q.dev.zoneSectors == p.dev.zoneSectors
  }

  /** Closes the least recently used open zone; a full zone cannot be closed, and then nothing changes. */
  function EvictOldest(p: Pool): (Pool, Status)
    requires Listed(p)
    ensures Kept(p, EvictOldest(p).0)
  {
    if p.zm.openList == [] then (p, Ok) else
    var z := p.zm.openList[0];
    var info := p.zm.zones[z];
    var (d, r) := D.CloseZone(p.dev, info.start);
    if r != Ok then (p.(dev := d), r) else
    (Pool(SetInfo(p.zm, z, info.(cond := D.Closed)).(openList := p.zm.openList[1..], openSet := p.zm.openSet - {z}), d), Ok)
  }

  function MakeRoom(p: Pool): (Pool, Status)
    requires Listed(p)
    ensures Kept(p, MakeRoom(p).0)
  {
    if |p.zm.openSet| >= p.zm.maxOpen then EvictOldest(p) else (p, Ok)
  }

  function Opened(zm: Manager, z: nat): Manager
    requires z < |zm.zones|
  {
    SetInfo(zm, z, zm.zones[z].(cond := D.ExplicitOpen)).(openList := zm.openList + [z], openSet := zm.openSet + {z})
  }

  /** Takes the last zone of the free list and opens it, evicting first when the open set is at its limit. */
  function AllocateFree(p: Pool): (Pool, Result<nat>)
    requires Listed(p)
    ensures Kept(p, AllocateFree(p).0)
    ensures AllocateFree(p).1.Failure? ==> AllocateFree(p).1.error != Ok
  {
    hide D.OpenZone, MakeRoom;
    if p.zm.freeList == [] then (p, Failure(NoFreeZone)) else
    var (q, made) := MakeRoom(p);
    if made != Ok then (q, Failure(made)) else
    var last := |q.zm.freeList| - 1;
    var z := q.zm.freeList[last];
    var (d, r) := D.OpenZone(q.dev, q.zm.zones[z].start);
    if r != Ok then (Pool(q.zm, d), Failure(r)) else
    (Pool(Opened(q.zm.(freeList := q.zm.freeList[..last]), z), d), Success(z))
  }

  function GetOrOpen(p: Pool, z: nat): (Pool, Status)
    requires Listed(p)
    ensures Kept(p, GetOrOpen(p, z).0)
  {
    hide D.OpenZone, MakeRoom, Without, Opened;
    if z >= |p.zm.zones| then (p, NoSuchZone) else
    if z in p.zm.openSet then
      (p.(zm := p.zm.(openList := Without(p.zm.openList, z) + [z])), Ok)
    else
      var (q, made) := MakeRoom(p);
      if made != Ok then (q, made) else
      var (d, r) := D.OpenZone(q.dev, q.zm.zones[z].start);
      if r != Ok then (Pool(q.zm, d), r) else
      OpenedKept(q, z, d);
      (Pool(Opened(q.zm, z), d), Ok)
  }

  lemma OpenedKept(p: Pool, z: nat, d: D.Device)
    requires Listed(p) && z < |p.zm.zones| && |d.zones| == |p.dev.zones| && d.zoneSectors == p.dev.zoneSectors
    ensures Kept(p, Pool(Opened(p.zm, z), d))
  {
  }

  function Closing(zm: Manager, z: nat): Manager {
    if z in zm.openSet then zm.(openList := Without(zm.openList, z), openSet := zm.openSet - {z}) else zm
  }

  function MarkFull(p: Pool, z: nat): (Pool, Status)
    requires Listed(p)
    ensures Kept(p, MarkFull(p, z).0)
  {
    if z >= |p.zm.zones| then (p, NoSuchZone) else
    var info := p.zm.zones[z];
    var (d, r) := D.FinishZone(p.dev, info.start);
    if r != Ok then (p.(dev := d), r) else
    (Pool(Closing(SetInfo(p.zm, z, info.(cond := D.Full, wp := info.start + info.size)), z), d), Ok)
  }

  function MarkEmpty(zm: Manager, z: nat): (Manager, Status) {
    if z >= |zm.zones| then (zm, NoSuchZone) else
    var info := zm.zones[z];
    var cleared := Closing(SetInfo(zm, z, info.(cond := D.Empty, wp := info.start, valid := 0, total := 0)), z);
    (cleared.(frozen := zm.frozen - {z}, freeList := zm.freeList + [z]), Ok)
  }

  function UpdateWritePointer(zm: Manager, z: nat, wp: nat): Manager {
    if z < |zm.zones| then SetInfo(zm, z, zm.zones[z].(wp := wp)) else zm
  }

  function IncrementValidSegs(zm: Manager, z: nat): Manager {
    if z < |zm.zones| then
      SetInfo(zm, z, zm.zones[z].(valid := zm.zones[z].valid + 1, total := zm.zones[z].total + 1))
    else zm
  }

  function DecrementValidSegs(zm: Manager, z: nat): Manager {
    if z < |zm.zones| && zm.zones[z].valid > 0 then SetInfo(zm, z, zm.zones[z].(valid := zm.zones[z].valid - 1)) else zm
  }

  function WritePointer(zm: Manager, z: nat): nat {
    if z < |zm.zones| then zm.zones[z].wp else 0
  }

  function ZoneStart(zm: Manager, z: nat): nat {
    if z < |zm.zones| then zm.zones[z].start else 0
  }

  // ---------- victim choice ----------

  /** The fraction of the segments ever written to a zone that are no longer mapped. */
  function GCScore(info: ZoneInfo): real {
    if info.total == 0 then 0.0 else (info.total - info.valid) as real / info.total as real
  }

  predicate Candidate(zm: Manager, i: nat)
    requires i < |zm.zones|
  {
    i !in zm.frozen && (zm.zones[i].cond == D.Full || zm.zones[i].cond == D.Closed) && zm.zones[i].total != 0
  }

  /** The choice among the first `n` zones: a later zone wins only with a strictly larger score. */
  function VictimAmong(zm: Manager, n: nat): Result<nat>
    requires n <= |zm.zones|
    ensures VictimAmong(zm, n).Success? ==> VictimAmong(zm, n).value < n && Candidate(zm, VictimAmong(zm, n).value)
  {
    if n == 0 then Failure(NoVictim) else
    var best := VictimAmong(zm, n - 1);
    if !Candidate(zm, n - 1) then best
    else if best.Failure? then (if GCScore(zm.zones[n - 1]) > -1.0 then Success(n - 1) else best)
    else if GCScore(zm.zones[n - 1]) > GCScore(zm.zones[best.value]) then Success(n - 1)
    else best
  }

  function SelectGCVictim(zm: Manager): Result<nat> {
    VictimAmong(zm, |zm.zones|)
  }

  lemma ScoreRange(info: ZoneInfo)
    requires info.valid <= info.total
    ensures 0.0 <= GCScore(info) <= 1.0
  {
    if info.total != 0 {
      var t, i := info.total as real, (info.total - info.valid) as real;
      assert i / t * t == i;
    }
  }

  /** When no zone counts more valid segments than it ever held, the victim is a candidate of largest score,
      the first of them, and there is none exactly when there is no candidate. */
  lemma {:induction false} VictimIsBest(zm: Manager, n: nat)
    requires n <= |zm.zones|
    requires forall i :: 0 <= i < n ==> zm.zones[i].valid <= zm.zones[i].total
    ensures VictimAmong(zm, n).Failure? <==> forall i :: 0 <= i < n ==> !Candidate(zm, i)
    ensures VictimAmong(zm, n).Failure? ==> VictimAmong(zm, n).error == NoVictim
    ensures VictimAmong(zm, n).Success? ==>
              var best := VictimAmong(zm, n).value;
              forall i :: 0 <= i < n && Candidate(zm, i) ==>
                GCScore(zm.zones[i]) <= GCScore(zm.zones[best]) &&
                (i < best ==> GCScore(zm.zones[i]) < GCScore(zm.zones[best]))
  {
    if n > 0 {
      VictimIsBest(zm, n - 1);
      ScoreRange(zm.zones[n - 1]);
    }
  }

  // ---------- the choice, on the counters ----------

  /** No zone counts more valid segments than it ever held. */
  ghost predicate CountsWithin(zm: Manager) {
    forall i :: 0 <= i < |zm.zones| ==> zm.zones[i].valid <= zm.zones[i].total
  }

  /** A zone that may be collected: closed or full as tracked, not frozen, and written at least once. */
  predicate Eligible(zm: Manager, i: nat) {
    && i < |zm.zones| && i !in zm.frozen && zm.zones[i].total > 0
    && zm.zones[i].cond in {D.Full, D.Closed}
  }

  /** Of two zones the first has at least the share of dead segments that the second has. */
  predicate DeaderThan(a: ZoneInfo, b: ZoneInfo) {
    (a.total - a.valid) * b.total >= (b.total - b.valid) * a.total
  }

  /** The choice is an eligible zone with the largest share of dead segments, the first of those, and there is none
      only when no zone is eligible. */
  ghost predicate FewestLive(zm: Manager, r: Result<nat>) {
    match r
    case Failure(e) => e == NoVictim && forall i: nat :: !Eligible(zm, i)
    case Success(best) =>
      && Eligible(zm, best)
      && forall i: nat :: Eligible(zm, i) ==>
           && DeaderThan(zm.zones[best], zm.zones[i])
           && (i < best ==> !DeaderThan(zm.zones[i], zm.zones[best]))
  }

  /** Scores compare as the shares of dead segments do. */
  lemma ScoresCompare(a: ZoneInfo, b: ZoneInfo)
    requires a.total > 0 && b.total > 0
    ensures GCScore(a) >= GCScore(b) <==> DeaderThan(a, b)
  {
    var i, t, j, u := (a.total - a.valid) as real, a.total as real, (b.total - b.valid) as real, b.total as real;
    RatiosCompare(i, t, j, u);
    assert i * u == ((a.total - a.valid) * b.total) as real && j * t == ((b.total - b.valid) * a.total) as real;
  }

  lemma RatiosCompare(i: real, t: real, j: real, u: real)
    requires t > 0.0 && u > 0.0
    ensures i / t >= j / u <==> i * u >= j * t
  {
    var p, q := i / t, j / u;
    assert p * t == i && q * u == j;
    assert i * u == p * (t * u) && j * t == q * (t * u);
    var w := t * u;
    assert w > 0.0;
    if p >= q { assert p * w >= q * w; } else { assert p * w < q * w; }
  }

  lemma VictimIsFewest(zm: Manager)
    requires CountsWithin(zm)
    ensures FewestLive(zm, SelectGCVictim(zm))
  {
    VictimIsBest(zm, |zm.zones|);
    hide GCScore;
    forall i | 0 <= i < |zm.zones| ensures Candidate(zm, i) <==> Eligible(zm, i) {
    }
    var r := SelectGCVictim(zm);
    if r.Success? {
      var best := r.value;
      forall i: nat | Eligible(zm, i)
        ensures DeaderThan(zm.zones[best], zm.zones[i]) && (i < best ==> !DeaderThan(zm.zones[i], zm.zones[best])) {
        ScoresCompare(zm.zones[best], zm.zones[i]);
        ScoresCompare(zm.zones[i], zm.zones[best]);
      }
    }
  }
}
