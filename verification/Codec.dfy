/** The binary form of journal records and checkpoints (internal/journal/record.go). */
module Codec {
  import opened Bytes
  import opened Errors
  import opened Segment
  import opened Log

  /** CRC-32C in the source; nothing here depends on which checksum it is. */
  type Checksum = seq<byte> -> uint32

  const RECORD_MAGIC: uint32 := 0xADA50001
  const BASE_SIZE: nat := 49

  /** The fields of a record fit the widths they are written in. */
  predicate Encodable(r: Record) {
    r.kind < 256 && r.lsn < TWO_64 && r.id < TWO_64 && r.oldPhys < TWO_64 && r.newPhys < TWO_64 && r.timestamp < TWO_64
  }

  /** What the checksum covers: everything after it. */
  function Body(r: Record): (s: seq<byte>)
    ensures |s| == 41
  {
    PutUint(r.kind, 1) + PutUint(r.lsn, 8) + PutUint(r.id, 8) + PutUint(r.oldPhys, 8) + PutUint(r.newPhys, 8)
    + PutUint(r.timestamp, 8)
  }

  function Marshal(crc: Checksum, r: Record): (s: seq<byte>)
    ensures |s| == BASE_SIZE
  {
    PutUint(RECORD_MAGIC, 4) + PutUint(crc(Body(r)), 4) + Body(r)
  }

  /** Bytes past the fixed fields are not looked at. */
  function Unmarshal(crc: Checksum, data: seq<byte>): Result<Record> {
    if |data| < BASE_SIZE then Failure(RecordTooShort)
    else if Uint(data[..4]) != RECORD_MAGIC then Failure(BadMagic)
    else if Uint(data[4..8]) != crc(data[8..49]) then Failure(BadChecksum)
    else Success(Record(data[8], Uint(data[9..17]), Uint(data[17..25]), Uint(data[25..33]), Uint(data[33..41]), Uint(data[41..49])))
  }

  function PutTable(t: seq<PhysAddr>): (s: seq<byte>)
    ensures |s| == 8 * |t|
  {
    if t == [] then [] else PutUint(t[0], 8) + PutTable(t[1..])
  }

  function GetTable(data: seq<byte>, n: nat): (t: seq<PhysAddr>)
    requires 8 * n <= |data|
    ensures |t| == n
  {
    if n == 0 then [] else
    (Spans(); GetPut(data[..8]); [Uint(data[..8])]) + GetTable(data[8..], n - 1)
  }

  function Size(e: Entry): nat {
    BASE_SIZE + if e.Snapshot? then 8 * |e.table| else 0
  }

  /** A checkpoint carries its table after the fixed fields, outside the checksum. */
  function Encode(crc: Checksum, e: Entry): (s: seq<byte>)
    ensures |s| == Size(e)
  {
    match e
    case Plain(r) => Marshal(crc, r)
    case Snapshot(r, t) => Marshal(crc, r.(id := |t|)) + PutTable(t)
  }

  /** A number read as a 64-bit signed one. */
  function Signed(n: nat): int {
    var m := n % TWO_64; if m < TWO_64 / 2 then m else m - TWO_64
  }

  /** The length check is done in 64-bit arithmetic, both the product and the sum, so an enormous length in the
      header can pass it, and allocating the table then fails. */
  function UnmarshalCheckpoint(crc: Checksum, data: seq<byte>): (r: Result<Entry>)
    ensures r.Success? ==> r.value.Snapshot?
  {
    match Unmarshal(crc, data)
    case Failure(e) => Failure(e)
    case Success(r) =>
      if |data| < Signed(BASE_SIZE + 8 * r.id) then Failure(RecordTooShort)
      else if |data| < BASE_SIZE + 8 * r.id then Failure(Panicked)
      else Success(Snapshot(r, GetTable(data[BASE_SIZE..], r.id)))
  }

  // ---------- round trips ----------

  lemma BodyParts(r: Record)
    ensures var s := Body(r);
      && [s[0]] == PutUint(r.kind, 1) && s[1..9] == PutUint(r.lsn, 8) && s[9..17] == PutUint(r.id, 8)
      && s[17..25] == PutUint(r.oldPhys, 8) && s[25..33] == PutUint(r.newPhys, 8) && s[33..41] == PutUint(r.timestamp, 8)
  {
    hide PutUint;
  }

  lemma HeaderParts(crc: Checksum, r: Record, rest: seq<byte>)
    ensures var s := Marshal(crc, r) + rest;
      s[..4] == PutUint(RECORD_MAGIC, 4) && s[4..8] == PutUint(crc(Body(r)), 4) && s[8..49] == Body(r)
  {
    ThreeParts(PutUint(RECORD_MAGIC, 4), PutUint(crc(Body(r)), 4), Body(r), rest);
  }

  lemma ThreeParts(a: seq<byte>, b: seq<byte>, c: seq<byte>, rest: seq<byte>)
    requires |a| == 4 && |b| == 4 && |c| == 41
    ensures var s := a + b + c + rest; s[..4] == a && s[4..8] == b && s[8..49] == c
  {
    var s := a + b + c + rest;
    assert s[..4] == a;
    assert s[4..] == b + c + rest && s[4..8] == s[4..][..4] == b;
    assert s[8..] == c + rest && s[8..49] == s[8..][..41] == c;
  }

  lemma SliceOfBody(s: seq<byte>, body: seq<byte>, from: nat, to: nat)
    requires |s| >= 49 && s[8..49] == body && from <= to <= 41
    ensures s[8 + from..8 + to] == body[from..to]
  {
    forall i | from <= i < to ensures s[8 + i] == body[i] {
      assert s[8..49][i] == body[i];
    }
  }

  /** Whatever follows it, a written record is read back. */
  lemma MarshalUnmarshal(crc: Checksum, r: Record, rest: seq<byte>)
    requires Encodable(r)
    ensures Unmarshal(crc, Marshal(crc, r) + rest) == Success(r)
  {
    var s := Marshal(crc, r) + rest;
    HeaderParts(crc, r, rest);
    BodyParts(r);
    Spans();
    PutGetFits(RECORD_MAGIC, 4);
    PutGetFits(crc(Body(r)), 4);
    PutGetFits(r.kind, 1);
    PutGetFits(r.lsn, 8);
    PutGetFits(r.id, 8);
    PutGetFits(r.oldPhys, 8);
    PutGetFits(r.newPhys, 8);
    PutGetFits(r.timestamp, 8);
    OneByte(s[8]);
    hide PutUint, Uint, Marshal, Body, Span;
    SliceOfBody(s, Body(r), 1, 9);
    SliceOfBody(s, Body(r), 9, 17);
    SliceOfBody(s, Body(r), 17, 25);
    SliceOfBody(s, Body(r), 25, 33);
    SliceOfBody(s, Body(r), 33, 41);
    assert s[8] == Body(r)[0];
  }

  lemma OneByte(b: byte)
    ensures Uint([b]) == b && PutUint(b, 1) == [b]
  {
    assert PutUint(b / 256, 0) == [];
    assert Uint([]) == 0;
    assert [b][..0] == [];
  }

  /** Only written records are read: a string that decodes starts with the encoding of what it decodes to. */
  lemma UnmarshalMarshal(crc: Checksum, data: seq<byte>)
    requires Unmarshal(crc, data).Success?
    ensures Encodable(Unmarshal(crc, data).value)
    ensures data[..BASE_SIZE] == Marshal(crc, Unmarshal(crc, data).value)
  {
    var r := Unmarshal(crc, data).value;
    Spans();
    OneByte(data[8]);
    GetPut(data[..4]);
    GetPut(data[4..8]);
    GetPut(data[9..17]);
    GetPut(data[17..25]);
    GetPut(data[25..33]);
    GetPut(data[33..41]);
    GetPut(data[41..49]);
    hide PutUint, Uint, Span;
    assert [data[8]] == data[8..9];
    Join(data, 8, 9, 17);
    Join(data, 8, 17, 25);
    Join(data, 8, 25, 33);
    Join(data, 8, 33, 41);
    Join(data, 8, 41, 49);
    assert Body(r) == data[8..49];
    Join(data, 0, 4, 8);
    Join(data, 0, 8, 49);
  }

  lemma Join(data: seq<byte>, a: nat, b: nat, c: nat)
    requires a <= b <= c <= |data|
    ensures data[a..b] + data[b..c] == data[a..c]
  {
  }

  lemma {:induction false} TableRoundTrip(t: seq<PhysAddr>, rest: seq<byte>)
    ensures GetTable(PutTable(t) + rest, |t|) == t
  {
    if t != [] {
      var s := PutTable(t) + rest;
      Spans();
      PutGetFits(t[0], 8);
      assert s[..8] == PutUint(t[0], 8);
      assert s[8..] == PutTable(t[1..]) + rest;
      TableRoundTrip(t[1..], rest);
    }
  }

  /** Entries the journal can hold: update and zone records, and checkpoints that count their table. */
  predicate Storable(e: Entry) {
    && Encodable(e.rec)
    && match e
       case Plain(r) => r.kind != CHECKPOINT
       case Snapshot(r, t) => r.kind == CHECKPOINT && r.id == |t| && BASE_SIZE + 8 * |t| < TWO_32
  }

  /** A record of either kind is read by its fixed fields. */
  lemma EncodeUnmarshal(crc: Checksum, e: Entry, rest: seq<byte>)
    requires Storable(e)
    ensures Unmarshal(crc, Encode(crc, e) + rest) == Success(e.rec)
  {
    hide Unmarshal, Marshal;
    match e {
      case Plain(r) => MarshalUnmarshal(crc, r, rest);
      case Snapshot(r, t) =>
        MarshalUnmarshal(crc, r, PutTable(t) + rest);
        assert Encode(crc, e) + rest == Marshal(crc, r) + (PutTable(t) + rest);
    }
  }

  /** A checkpoint is read back with its table. */
  lemma CheckpointRoundTrip(crc: Checksum, e: Entry)
    requires Storable(e) && e.Snapshot?
    ensures UnmarshalCheckpoint(crc, Encode(crc, e)) == Success(e)
  {
    hide Unmarshal, Marshal;
    var s := Encode(crc, e);
    EncodeUnmarshal(crc, e, []);
    assert s + [] == s;
    assert s[BASE_SIZE..] == PutTable(e.table) + [];
    TableRoundTrip(e.table, []);
  }

  /** The ninth byte tells checkpoints from other records. */
  lemma KindByte(crc: Checksum, e: Entry, rest: seq<byte>)
    requires Storable(e)
    ensures |Encode(crc, e)| >= BASE_SIZE && (Encode(crc, e) + rest)[8] == e.rec.kind
  {
    EncodeUnmarshal(crc, e, rest);
    hide Marshal, Encodable;
  }

  // ---------- the layout ----------

  /** A record on disk: the magic number, the checksum of what follows it, the kind, and five numbers of eight bytes. */
  lemma RecordLayout(crc: Checksum, r: Record)
    requires r.kind < 256
    ensures var s := Marshal(crc, r);
      && |s| == 49
      && s[0..4] == [0xAD, 0xA5, 0x00, 0x01] && s[4..8] == PutUint(crc(s[8..49]), 4) && s[8] == r.kind
      && s[9..17] == PutUint(r.lsn, 8) && s[17..25] == PutUint(r.id, 8) && s[25..33] == PutUint(r.oldPhys, 8)
      && s[33..41] == PutUint(r.newPhys, 8) && s[41..49] == PutUint(r.timestamp, 8)
    ensures var kind := Marshal(crc, r)[8];
      && (r.kind == L2P_UPDATE <==> kind == 0x01) && (r.kind == ZONE_OPEN <==> kind == 0x02) && (r.kind == ZONE_CLOSE <==> kind == 0x03)
      && (r.kind == ZONE_RESET <==> kind == 0x04) && (r.kind == CHECKPOINT <==> kind == 0xFF)
  {
    HeaderParts(crc, r, []);
    BodyParts(r);
    var s := Marshal(crc, r);
    assert s + [] == s;
    MagicBytes();
    OneByte(r.kind);
    hide PutUint, Marshal, Body;
    SliceOfBody(s, Body(r), 1, 9);
    SliceOfBody(s, Body(r), 9, 17);
    SliceOfBody(s, Body(r), 17, 25);
    SliceOfBody(s, Body(r), 25, 33);
    SliceOfBody(s, Body(r), 33, 41);
    assert s[8] == Body(r)[0];
  }

  lemma MagicBytes()
    ensures PutUint(RECORD_MAGIC, 4) == [0xAD, 0xA5, 0x00, 0x01]
  {
    assert PutUint(0xAD, 1) == PutUint(0, 0) + [0xAD];
    assert PutUint(0xADA5, 2) == PutUint(0xAD, 1) + [0xA5];
    assert PutUint(0xADA500, 3) == PutUint(0xADA5, 2) + [0x00];
  }

  /** After it, a checkpoint holds the table, entry by entry, and its record counts the entries. */
  lemma CheckpointLayout(crc: Checksum, e: Entry, i: nat)
    requires Storable(e) && e.Snapshot? && i < |e.table|
    ensures var s := Encode(crc, e);
      && |s| == 49 + 8 * |e.table| && s[..49] == Marshal(crc, e.rec) && s[17..25] == PutUint(|e.table|, 8)
      && s[49 + 8 * i..57 + 8 * i] == PutUint(e.table[i], 8)
  {
    RecordLayout(crc, e.rec);
    TableAt(e.table, i);
    assert e.rec.(id := |e.table|) == e.rec;
    hide PutUint, Marshal, PutTable;
    var s := Encode(crc, e);
    assert s == Marshal(crc, e.rec) + PutTable(e.table);
    assert s[49..][8 * i..8 * i + 8] == PutTable(e.table)[8 * i..8 * i + 8];
  }

  lemma {:induction false} TableAt(t: seq<PhysAddr>, i: nat)
    requires i < |t|
    ensures PutTable(t)[8 * i..8 * i + 8] == PutUint(t[i], 8)
  {
    hide PutUint;
    if i > 0 {
      TableAt(t[1..], i - 1);
      assert PutTable(t)[8..] == PutTable(t[1..]);
      assert PutTable(t)[8 * i..8 * i + 8] == PutTable(t)[8..][8 * (i - 1)..8 * (i - 1) + 8];
    }
  }
}
