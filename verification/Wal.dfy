/** The journal as an object: the bytes of its file, the payloads not yet committed, and the counter
    (internal/journal/journal.go, checkpoint.go, record.go). */
module Wal {
  import opened Bytes
  import opened Errors
  import opened Segment
  import L = Log
  import opened Codec
  import F = Frames
  import opened Tables

  // ---------- encoding into buffers ----------

  /** Writes a number into a buffer, most significant byte first. */
  method PutInto(buf: array<byte>, at: nat, x: nat, width: nat)
    requires at + width <= buf.Length
    modifies buf
    ensures buf[at..at + width] == PutUint(x, width)
    ensures buf[..at] == old(buf[..at]) && buf[at + width..] == old(buf[at + width..])
  {
    var rest := x;
    for n := 0 to width
      invariant PutUint(x, width) == PutUint(rest, width - n) + buf[at + width - n..at + width]
      invariant buf[..at] == old(buf[..at]) && buf[at + width..] == old(buf[at + width..])
    {
      ghost var done := buf[at + width - n..at + width];
      buf[at + width - n - 1] := rest % 256;
      assert buf[at + width - n - 1..at + width] == [rest % 256] + done;
      rest := rest / 256;
    }
  }

  /** Continues a stretch of the buffer that starts at `from` and holds `before` so far. */
  method PutNext(buf: array<byte>, from: nat, at: nat, x: nat, width: nat, ghost before: seq<byte>)
    requires from <= at && at + width <= buf.Length && buf[from..at] == before
    modifies buf
    ensures buf[from..at + width] == before + PutUint(x, width)
    ensures buf[..from] == old(buf[..from])
  {
    PutInto(buf, at, x, width);
    assert buf[from..at] == buf[..at][from..];
    assert buf[from..at + width] == buf[from..at] + buf[at..at + width];
    assert buf[..from] == buf[..at][..from];
  }

  /** Fills in the fields that the checksum covers. */
  method MarshalBody(buf: array<byte>, r: L.Record)
    requires buf.Length == BASE_SIZE
    modifies buf
    ensures buf[8..] == Body(r) && buf[..8] == old(buf[..8])
  {
    hide PutUint;
    ghost var b := PutUint(r.kind, 1);
    PutNext(buf, 8, 8, r.kind, 1, []);
    assert [] + b == b;
    PutNext(buf, 8, 9, r.lsn, 8, b);
    b := b + PutUint(r.lsn, 8);
    PutNext(buf, 8, 17, r.id, 8, b);
    b := b + PutUint(r.id, 8);
    PutNext(buf, 8, 25, r.oldPhys, 8, b);
    b := b + PutUint(r.oldPhys, 8);
    PutNext(buf, 8, 33, r.newPhys, 8, b);
    b := b + PutUint(r.newPhys, 8);
    PutNext(buf, 8, 41, r.timestamp, 8, b);
    assert buf[8..] == buf[8..49];
  }

  method MarshalRecord(crc: Checksum, r: L.Record) returns (buf: array<byte>)
    ensures fresh(buf) && buf[..] == Marshal(crc, r)
  {
    hide PutUint, Body;
    buf := new byte[BASE_SIZE](_ => 0);
    PutInto(buf, 0, RECORD_MAGIC, 4);
    ghost var head := buf[..8];
    assert head[..4] == PutUint(RECORD_MAGIC, 4) by { assert head[..4] == buf[0..4]; }
    MarshalBody(buf, r);
    PutInto(buf, 4, crc(buf[8..]), 4);
    assert buf[..4] == head[..4];
    assert buf[..] == buf[..4] + buf[4..8] + buf[8..];
  }

  method MarshalTable(table: seq<PhysAddr>) returns (buf: array<byte>)
    ensures fresh(buf) && buf[..] == PutTable(table)
  {
    buf := new byte[8 * |table|](_ => 0);
    for i := 0 to |table|
      invariant buf[..8 * i] == PutTable(table[..i])
    {
      PutNext(buf, 0, 8 * i, table[i], 8, PutTable(table[..i]));
      PutTableSnoc(table[..i], table[i]);
      assert table[..i] + [table[i]] == table[..i + 1];
      assert buf[0..8 * i + 8] == buf[..8 * (i + 1)];
    }
    assert table[..|table|] == table && buf[..8 * |table|] == buf[..];
  }

  lemma {:induction false} PutTableSnoc(t: seq<PhysAddr>, p: PhysAddr)
    ensures PutTable(t + [p]) == PutTable(t) + PutUint(p, 8)
  {
    hide PutUint;
    if t == [] {
      assert PutTable([]) == [];
      assert ([] + [p])[1..] == [];
    } else {
      PutTableSnoc(t[1..], p);
      assert (t + [p])[1..] == t[1..] + [p];
    }
  }

  // ---------- reading ----------

  /** The frame at a position of the file. */
  method ReadFrame(file: seq<byte>, pos: nat, limit: nat) returns (data: Option<seq<byte>>)
    requires pos <= |file|
    ensures data == F.NextFrame(file[pos..], limit)
  {
    if |file| - pos < 4 { return None; }
    var length := Uint(file[pos..pos + 4]);
    assert file[pos..][..4] == file[pos..pos + 4];
    if length < BASE_SIZE || length > limit { return None; }
    if |file| - pos - 4 < length { return None; }
    assert file[pos..][4..4 + length] == file[pos + 4..pos + 4 + length];
    data := Some(file[pos + 4..pos + 4 + length]);
  }

  method ScanMaxLSN(crc: Checksum, file: seq<byte>) returns (maxLSN: nat)
    ensures maxLSN == F.ScanMaxLSN(crc, file)
  {
    hide F.NextFrame, Unmarshal;
    maxLSN := 0;
    var pos := 0;
    assert file[0..] == file;
    while true
      invariant pos <= |file|
      invariant F.ScanMaxLSN(crc, file) ==
                var rest := F.ScanMaxLSN(crc, file[pos..]); if maxLSN > rest then maxLSN else rest
      decreases |file| - pos
    {
      var data := ReadFrame(file, pos, TWO_32);
      if data.None? { break; }
      var rec := Unmarshal(crc, data.value);
      assert file[pos..][4 + |data.value|..] == file[pos + 4 + |data.value|..];
      pos := pos + 4 + |data.value|;
      if rec.Success? && rec.value.lsn > maxLSN { maxLSN := rec.value.lsn; }
    }
  }

  method ReadRecords(crc: Checksum, file: seq<byte>, after: nat) returns (records: seq<L.Record>)
    ensures records == F.ReadRecords(crc, file, after)
  {
    hide F.NextFrame, Unmarshal;
    records := [];
    var pos := 0;
    assert file[0..] == file;
    while true
      invariant pos <= |file|
      invariant F.ReadRecords(crc, file, after) == records + F.ReadRecords(crc, file[pos..], after)
      decreases |file| - pos
    {
      var data := ReadFrame(file, pos, F.READ_LIMIT);
      if data.None? { break; }
      var rec := Unmarshal(crc, data.value);
      if rec.Failure? { break; }
      assert file[pos..][4 + |data.value|..] == file[pos + 4 + |data.value|..];
      pos := pos + 4 + |data.value|;
      if rec.value.lsn > after { records := records + [rec.value]; }
    }
  }

  /** Decodes the table of a checkpoint entry by entry. */
  method UnmarshalTable(data: seq<byte>, n: nat) returns (table: seq<PhysAddr>)
    requires 8 * n <= |data|
    ensures table == GetTable(data, n)
  {
    hide GetTable, Uint;
    table := [];
    assert data[0..] == data;
    for i := 0 to n
      invariant GetTable(data, n) == table + GetTable(data[8 * i..], n - i)
    {
      TableStep(data, 8 * i, n - i);
      var entry := Uint(data[8 * i..8 * i + 8]);
      table := table + [entry];
    }
    NoEntries(data[8 * n..]);
  }

  lemma TableStep(data: seq<byte>, at: nat, n: nat)
    requires n > 0 && at + 8 * n <= |data|
    ensures Uint(data[at..at + 8]) < TWO_64
    ensures GetTable(data[at..], n) == [Uint(data[at..at + 8])] + GetTable(data[at + 8..], n - 1)
  {
    Spans();
    GetPut(data[at..at + 8]);
    assert data[at..][..8] == data[at..at + 8] && data[at..][8..] == data[at + 8..];
  }

  lemma NoEntries(data: seq<byte>)
    ensures GetTable(data, 0) == []
  {
  }

  /** The better of the best checkpoint so far and a frame. */
  method Consider(crc: Checksum, data: seq<byte>, best: Option<L.Entry>) returns (better: Result<Option<L.Entry>>)
    requires |data| >= BASE_SIZE && (best.Some? ==> best.value.Snapshot?)
    ensures better == F.Better(crc, data, best)
  {
    hide Unmarshal, GetTable;
    if data[8] != L.CHECKPOINT { return Success(best); }
    var rec := Unmarshal(crc, data);
    if rec.Failure? || |data| < Signed(BASE_SIZE + 8 * rec.value.id) {
      assert rec.Failure? ==> rec.error != Panicked by { NeverPanics(crc, data); }
      return Success(best);
    }
    if |data| < BASE_SIZE + 8 * rec.value.id { return Failure(Panicked); }
    var table := UnmarshalTable(data[BASE_SIZE..], rec.value.id);
    if best.None? || rec.value.lsn > best.value.rec.lsn {
      better := Success(Some(L.Snapshot(rec.value, table)));
    } else {
      better := Success(best);
    }
  }

  lemma NeverPanics(crc: Checksum, data: seq<byte>)
    ensures Unmarshal(crc, data).Failure? ==> Unmarshal(crc, data).error != Panicked
  {
  }

  method ReadLatestCheckpoint(crc: Checksum, file: seq<byte>) returns (latest: Result<Option<L.Entry>>)
    ensures latest == F.ScanCheckpoints(crc, file, None)
  {
    hide F.NextFrame, F.Better;
    var best: Option<L.Entry> := None;
    var pos := 0;
    assert file[0..] == file;
    while true
      invariant pos <= |file| && (best.Some? ==> best.value.Snapshot?)
      invariant F.ScanCheckpoints(crc, file, None) == F.ScanCheckpoints(crc, file[pos..], best)
      decreases |file| - pos
    {
      var next := ReadFrame(file, pos, F.SCAN_LIMIT);
      if next.None? { return Success(best); }
      var data := next.value;
      assert file[pos..][4 + |data|..] == file[pos + 4 + |data|..];
      var better := Consider(crc, data, best);
      if better.Failure? { return Failure(better.error); }
      pos, best := pos + 4 + |data|, better.value;
    }
  }

  // ---------- the journal ----------

  /** `log` is what the journal holds as entries; `head` is what the file held when it was opened. */
  class Journal {
    const crc: Checksum
    var file: seq<byte>
    var pending: seq<seq<byte>>
    var lsn: nat
    var clock: nat
    ghost const head: seq<byte>
    ghost var log: L.Log

    ghost predicate Valid()
      reads this
    {
      && file == head + F.FrameAll(crc, log.durable)
      && Payloads(pending, log.pending)
      && lsn == log.lsn && clock == log.clock
    }

    ghost predicate Payloads(bytes: seq<seq<byte>>, es: seq<L.Entry>) {
      |bytes| == |es| && forall i :: 0 <= i < |es| ==> bytes[i] == F.Frame(Encode(crc, es[i]))
    }

    /** Opens a file, whatever is in it, and goes on from the largest number found. */
    constructor Open(crc: Checksum, contents: seq<byte>)
      ensures Valid() && this.crc == crc && head == contents && file == contents
      ensures log == L.Log([], [], F.ScanMaxLSN(crc, contents), 0)
    {
      var maxLSN := ScanMaxLSN(crc, contents);
      this.crc := crc;
      file, pending, lsn, clock := contents, [], maxLSN, 0;
      head := contents;
      log := L.Log([], [], maxLSN, 0);
      new;
      assert contents + [] == contents;
    }

    method Tick(now: nat)
      requires Valid()
      modifies this
      ensures Valid() && file == old(file) && log == old(log).(clock := now)
    {
      clock := now;
      log := log.(clock := now);
    }

    method AppendPayload(data: seq<byte>, ghost e: L.Entry)
      requires data == Encode(crc, e)
      requires Payloads(pending, log.pending)
      modifies this`pending
      ensures Payloads(pending, log.pending + [e])
    {
      var length := new byte[4](_ => 0);
      PutInto(length, 0, |data|, 4);
      assert length[..] == length[0..4];
      pending := pending + [length[..] + data];
    }

    method AppendRecord(rec: L.Record)
      requires Payloads(pending, log.pending)
      modifies this`pending
      ensures Payloads(pending, log.pending + [L.Plain(rec)])
    {
      var data := MarshalRecord(crc, rec);
      AppendPayload(data[..], L.Plain(rec));
    }

    method LogL2PUpdate(seg: nat, oldPhys: PhysAddr, newPhys: PhysAddr)
      requires Valid()
      modifies this
      ensures Valid() && file == old(file) && log == L.LogL2PUpdate(old(log), seg, oldPhys, newPhys)
    {
      hide F.FrameAll, F.Frame, Encode;
      lsn := lsn + 1;
      AppendRecord(L.Record(L.L2P_UPDATE, lsn, seg, oldPhys, newPhys, clock));
      log := L.LogL2PUpdate(log, seg, oldPhys, newPhys);
    }

    method LogZoneAction(kind: nat, zone: nat)
      requires Valid()
      modifies this
      ensures Valid() && file == old(file) && log == L.LogZoneAction(old(log), kind, zone)
    {
      hide F.FrameAll, F.Frame, Encode;
      lsn := lsn + 1;
      AppendRecord(L.Record(kind, lsn, zone, 0, 0, clock));
      log := L.LogZoneAction(log, kind, zone);
    }

    /** Writes the pending payloads one after the other. */
    method GroupCommit()
      requires Valid()
      modifies this
      ensures Valid() && log == L.GroupCommit(old(log))
    {
      if pending == [] {
        assert log.durable + log.pending == log.durable;
        return;
      }
      hide F.FrameAll, F.Frame, Encode;
      ghost var durable, es := log.durable, log.pending;
      var payloads := pending;
      assert es[..0] == [] && durable + [] == durable && Payloads(payloads, es);
      for i := 0 to |payloads|
        invariant file == head + F.FrameAll(crc, durable + es[..i])
        invariant unchanged(`pending) && unchanged(`log) && unchanged(`lsn) && unchanged(`clock)
      {
        assert payloads[i] == F.Frame(Encode(crc, es[i]));
        file := file + payloads[i];
        Committed(crc, head, durable, es, i);
      }
      assert es[..|es|] == es;
      pending := [];
      log := L.GroupCommit(log);
    }

    /** Appends a checkpoint of the table and commits at once. */
    method WriteCheckpoint(l2p: L2PTable)
      requires Valid()
      modifies this
      ensures Valid() && log == L.WriteCheckpoint(old(log), l2p.View())
    {
      hide F.FrameAll, F.Frame, Marshal, PutTable, L.GroupCommit;
      lsn := lsn + 1;
      var table := l2p.Snapshot();
      var rec := L.Record(L.CHECKPOINT, lsn, |table|, 0, 0, clock);
      ghost var e := L.CheckpointEntry(lsn, table, clock);
      var base := MarshalRecord(crc, rec);
      var entries := MarshalTable(table);
      assert rec.(id := |table|) == rec;
      AppendPayload(base[..] + entries[..], e);
      log := log.(lsn := lsn, pending := log.pending + [e]);
      GroupCommit();
    }

    method ReadAllRecords(after: nat) returns (records: seq<L.Record>)
      ensures records == F.ReadRecords(crc, file, after)
    {
      records := ReadRecords(crc, file, after);
    }
  }

  /** One more payload on disk is one more entry there. */
  lemma Committed(crc: Checksum, head: seq<byte>, durable: seq<L.Entry>, pending: seq<L.Entry>, i: nat)
    requires i < |pending|
    ensures head + F.FrameAll(crc, durable + pending[..i]) + F.Frame(Encode(crc, pending[i])) ==
            head + F.FrameAll(crc, durable + pending[..i + 1])
  {
    hide F.FrameAll, F.Frame, Encode;
    F.FrameAllAppend(crc, durable + pending[..i], [pending[i]]);
    F.FrameOne(crc, pending[i]);
    assert durable + pending[..i] + [pending[i]] == durable + pending[..i + 1];
  }
}
