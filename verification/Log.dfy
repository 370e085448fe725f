/** The write-ahead log as a list of entries: what each logging call appends, and what replaying a list
    of records does to a mapping table (internal/journal/journal.go, recovery.go). */
module Log {
  import opened Errors
  import opened Segment

  const L2P_UPDATE: nat := 0x01
  const ZONE_OPEN: nat := 0x02
  const ZONE_CLOSE: nat := 0x03
  const ZONE_RESET: nat := 0x04
  const CHECKPOINT: nat := 0xFF

  /** `id` is a segment for an update, a zone for a zone action and a table length for a checkpoint. */
  datatype Record = Record(kind: nat, lsn: nat, id: nat, oldPhys: nat, newPhys: nat, timestamp: nat)

  datatype Entry =
    | Plain(rec: Record)
    | Snapshot(rec: Record, table: seq<PhysAddr>)

  /** `durable` entries are in the file; `pending` ones are lost by a crash. `clock` is the time of day. */
  datatype Log = Log(durable: seq<Entry>, pending: seq<Entry>, lsn: nat, clock: nat) {

    function History(): seq<Entry> {
      durable + pending
    }
  }

  function Append(l: Log, kind: nat, id: nat, oldPhys: PhysAddr, newPhys: PhysAddr): Log {
    l.(lsn := l.lsn + 1, pending := l.pending + [Plain(Record(kind, l.lsn + 1, id, oldPhys, newPhys, l.clock))])
  }

  function LogL2PUpdate(l: Log, seg: nat, oldPhys: PhysAddr, newPhys: PhysAddr): Log {
    Append(l, L2P_UPDATE, seg, oldPhys, newPhys)
  }

  function LogZoneAction(l: Log, kind: nat, zone: nat): Log {
    Append(l, kind, zone, UNMAPPED, UNMAPPED)
  }

  function GroupCommit(l: Log): Log {
    l.(durable := l.durable + l.pending, pending := [])
  }

  function CheckpointEntry(lsn: nat, table: seq<PhysAddr>, clock: nat): Entry {
    Snapshot(Record(CHECKPOINT, lsn, |table|, 0, 0, clock), table)
  }

  /** A checkpoint commits itself, and everything pending before it. */
  function WriteCheckpoint(l: Log, table: seq<PhysAddr>): Log {
    GroupCommit(l.(lsn := l.lsn + 1, pending := l.pending + [CheckpointEntry(l.lsn + 1, table, l.clock)]))
  }

  function Records(es: seq<Entry>): (rs: seq<Record>)
    ensures |rs| == |es| && forall i :: 0 <= i < |es| ==> rs[i] == es[i].rec
  {
    seq(|es|, i requires 0 <= i < |es| => es[i].rec)
  }

  // ---------- replay ----------

  function Unmapped(n: nat): (t: seq<PhysAddr>)
    ensures |t| == n && forall i :: 0 <= i < n ==> t[i] == UNMAPPED
  {
    seq(n, i => UNMAPPED)
  }

  /** One step of the recovery loop over a table, with `zones` zones known to the zone manager. */
  function ReplayOne(t: seq<PhysAddr>, r: Record, zones: nat): Result<seq<PhysAddr>> {
    if r.kind == L2P_UPDATE then
      if r.id < |t| then Success(t[r.id := r.newPhys % TWO_64]) else Failure(NoSuchSegment)
    else if r.kind == ZONE_RESET then
      if r.id % 0x1_0000_0000 < zones then Success(t) else Failure(NoSuchZone)
    else Success(t)
  }

  function Replay(t: seq<PhysAddr>, rs: seq<Record>, zones: nat): Result<seq<PhysAddr>> {
    if rs == [] then Success(t) else
    match Replay(t, rs[..|rs| - 1], zones)
    case Failure(e) => Failure(e)
    case Success(u) => ReplayOne(u, rs[|rs| - 1], zones)
  }

  lemma ReplaySnoc(t: seq<PhysAddr>, rs: seq<Record>, r: Record, zones: nat)
    ensures Replay(t, rs + [r], zones) ==
            (match Replay(t, rs, zones)
             case Failure(e) => Failure(e)
             case Success(u) => ReplayOne(u, r, zones))
  {
    assert (rs + [r])[..|rs|] == rs;
  }
}
