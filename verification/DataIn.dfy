/** Read data sent back in Data-In PDUs of bounded size (internal/iscsi/data_in.go; RFC 7143, section 11.7). */
module DataIn {
  import opened Bytes
  import opened Errors
  import opened Pdus
  import opened DataOut

  const DEFAULT_LIMIT: nat := 65536

  /** The fields that every PDU of one answer shares. */
  datatype Answer = Answer(itt: uint32, lun: nat, statSN: uint32, expCmdSN: uint32, maxCmdSN: uint32)

  const BLANK: Header := ZeroBytes(48)

  /** No target transfer tag, and the sequence numbers of the answer. */
  function StatusFields(h: Header, a: Answer): Header {
    Put(Put(Put(Put(h, 20, PutUint(0xFFFFFFFF, 4)), 24, PutUint(a.statSN, 4)), 28, PutUint(a.expCmdSN, 4)),
        32, PutUint(a.maxCmdSN, 4))
  }

  function DataInPDU(a: Answer, dataSN: nat, offset: nat, chunk: seq<byte>, final: bool): PDU {
    var flag: byte := if final then FINAL else 0;
    var h1 := Put(Put(Put(BLANK, 0, [OPCODE_DATA_IN]), 1, [flag]), 8, PutUint(a.lun, 8));
    var h3 := StatusFields(Put(h1, 16, PutUint(a.itt, 4)), a);
    PDU(Put(Put(Put(h3, 36, PutUint(dataSN, 4)), 40, PutUint(offset, 4)), 44, PutUint(0, 4)), [], chunk)
  }

  /** The PDUs for the data from an offset on; data of no bytes is one empty PDU. */
  function PDUsFrom(a: Answer, data: seq<byte>, offset: nat, dataSN: nat, limit: nat): (ps: seq<PDU>)
    requires limit > 0 && (offset < |data| || offset == |data| == 0)
    ensures ps != []
    decreases |data| - offset
  {
    var end := if offset + limit > |data| then |data| else offset + limit;
    [DataInPDU(a, dataSN, offset, data[offset..end], end == |data|)] +
    if end == |data| then [] else PDUsFrom(a, data, end, dataSN + 1, limit)
  }

  lemma Unfold(a: Answer, data: seq<byte>, offset: nat, dataSN: nat, limit: nat, end: nat)
    requires limit > 0 && (offset < |data| || offset == |data| == 0)
    requires end == if offset + limit > |data| then |data| else offset + limit
    ensures PDUsFrom(a, data, offset, dataSN, limit) ==
            [DataInPDU(a, dataSN, offset, data[offset..end], end == |data|)] +
            if end == |data| then [] else PDUsFrom(a, data, end, dataSN + 1, limit)
  {
    hide DataInPDU;
  }

  /** Writes the PDUs one after the other. */
  method SendDataIn(conn: Conn, a: Answer, data: seq<byte>, maxRecvLen: int)
    modifies conn`output
    ensures var limit: nat := if maxRecvLen <= 0 then 65536 else maxRecvLen;
      conn.output == old(conn.output) + WireAll(PDUsFrom(a, data, 0, 0, limit))
  {
    var limit: nat := if maxRecvLen <= 0 then DEFAULT_LIMIT else maxRecvLen;
    ghost var all := WireAll(PDUsFrom(a, data, 0, 0, limit));
    hide Wire, WireAll, DataInPDU, PDUsFrom, Stamped;
    var offset, dataSN := 0, 0;
    var done := false;
    assert conn.output + all == old(conn.output) + all;
    while !done
      invariant offset <= |data| && (!done ==> offset < |data| || |data| == 0)
      invariant !done ==> conn.output + WireAll(PDUsFrom(a, data, offset, dataSN, limit)) == old(conn.output) + all
      invariant done ==> conn.output == old(conn.output) + all
      decreases !done, |data| - offset
    {
      var end := if offset + limit > |data| then |data| else offset + limit;
      var final := end == |data|;
      var p := DataInPDU(a, dataSN, offset, data[offset..end], final);
      ghost var rest := if final then [] else PDUsFrom(a, data, end, dataSN + 1, limit);
      Unfold(a, data, offset, dataSN, limit, end);
      WireCons(conn.output, p, rest);
      var stamped := WritePDU(conn, p);
      offset := end;
      dataSN := dataSN + 1;
      done := final;
    }
  }

  lemma WireCons(out: seq<byte>, p: PDU, rest: seq<PDU>)
    ensures out + WireAll([p] + rest) == out + Wire(p) + WireAll(rest)
    ensures rest == [] ==> out + WireAll([p] + rest) == out + Wire(p)
  {
    hide Wire;
    assert ([p] + rest)[1..] == rest;
  }

  // ---------- what the initiator sees ----------

  /** Setting one field leaves the others alone. */
  lemma FieldKept(h: Header, at: nat, field: seq<byte>, from: nat, to: nat)
    requires at + |field| <= BHS_SIZE && from <= to <= BHS_SIZE && (to <= at || at + |field| <= from)
    ensures Put(h, at, field)[from..to] == h[from..to]
  {
  }

  /** The fields of a Data-In PDU, read back from its header. */
  lemma FieldsOf(a: Answer, dataSN: nat, offset: nat, chunk: seq<byte>, final: bool)
    ensures var p := DataInPDU(a, dataSN, offset, chunk, final);
      && DataOut.DataSN(p) == dataSN % TWO_32 && Carried(p) == Piece(offset % TWO_32, chunk)
      && TaskTag(p) == a.itt && (IsFinal(p) <==> final) && AHSLength(p.bhs) == |p.ahs| == 0
  {
    HeaderFields(a, dataSN, offset, chunk, final);
    hide DataInPDU, Put;
    Spans();
    PutGet(dataSN, 4);
    PutGet(offset, 4);
    PutGet(a.itt, 4);
    hide PutUint, Uint, Span;
  }

  lemma HeaderFields(a: Answer, dataSN: nat, offset: nat, chunk: seq<byte>, final: bool)
    ensures var p := DataInPDU(a, dataSN, offset, chunk, final);
      && p.data == chunk && p.ahs == [] && p.bhs[1] == (if final then FINAL else 0) && p.bhs[4] == 0
      && p.bhs[16..20] == PutUint(a.itt, 4) && p.bhs[36..40] == PutUint(dataSN, 4) && p.bhs[40..44] == PutUint(offset, 4)
  {
    hide PutUint;
    var flag: byte := if final then FINAL else 0;
    var h1 := Put(Put(Put(BLANK, 0, [OPCODE_DATA_IN]), 1, [flag]), 8, PutUint(a.lun, 8));
    assert h1[1] == flag && h1[4] == 0;
    var h2 := Put(h1, 16, PutUint(a.itt, 4));
    assert h2[16..20] == PutUint(a.itt, 4);
    var h3 := StatusFields(h2, a);
    StatusKeeps(h2, a);
    var h4 := Put(h3, 36, PutUint(dataSN, 4));
    FieldKept(h3, 36, PutUint(dataSN, 4), 16, 20);
    var h5 := Put(h4, 40, PutUint(offset, 4));
    FieldKept(h4, 40, PutUint(offset, 4), 16, 20);
    FieldKept(h4, 40, PutUint(offset, 4), 36, 40);
    FieldKept(h5, 44, PutUint(0, 4), 16, 20);
    FieldKept(h5, 44, PutUint(0, 4), 36, 40);
    FieldKept(h5, 44, PutUint(0, 4), 40, 44);
    hide StatusFields;
    assert h4[1] == h3[1] && h5[1] == h4[1] && h4[4] == h3[4] && h5[4] == h4[4];
  }

  lemma StatusKeeps(h: Header, a: Answer)
    ensures StatusFields(h, a)[16..20] == h[16..20] && StatusFields(h, a)[1] == h[1] && StatusFields(h, a)[4] == h[4]
  {
    hide PutUint;
    var h1 := Put(h, 20, PutUint(0xFFFFFFFF, 4));
    FieldKept(h, 20, PutUint(0xFFFFFFFF, 4), 16, 20);
    var h2 := Put(h1, 24, PutUint(a.statSN, 4));
    FieldKept(h1, 24, PutUint(a.statSN, 4), 16, 20);
    var h3 := Put(h2, 28, PutUint(a.expCmdSN, 4));
    FieldKept(h2, 28, PutUint(a.expCmdSN, 4), 16, 20);
    FieldKept(h3, 32, PutUint(a.maxCmdSN, 4), 16, 20);
  }

  // ---------- the header, byte by byte ----------

  /** A header of 48 bytes that begins with some bytes, the rest being zero. */
  function Filled(prefix: seq<byte>): Header
    requires |prefix| <= BHS_SIZE
  {
    prefix + ZeroBytes(BHS_SIZE - |prefix|)
  }

  lemma FillNext(h: Header, prefix: seq<byte>, gap: nat, field: seq<byte>)
    requires |prefix| + gap + |field| <= BHS_SIZE && h == Filled(prefix)
    ensures Put(h, |prefix| + gap, field) == Filled(prefix + ZeroBytes(gap) + field)
  {
  }

  /** The bytes of a Data-In header, field by field, as section 11.7 of RFC 7143 lays them out: operation code, flags,
      nothing of additional headers, logical unit, task tag, no transfer tag, the three sequence numbers, the number
      and offset of the data, and no residual. */
  ghost predicate HeaderIs(h: Header, a: Answer, dataSN: nat, offset: nat, final: bool) {
    && h[0] == 0x25 && h[1] == (if final then 0x80 else 0) && h[2] == 0 && h[3] == 0 && h[4] == 0
    && Uint(h[8..16]) == a.lun % 0x1_0000_0000_0000_0000
    && Uint(h[16..20]) == a.itt
    && h[20..24] == [0xFF, 0xFF, 0xFF, 0xFF]
    && Uint(h[24..28]) == a.statSN && Uint(h[28..32]) == a.expCmdSN && Uint(h[32..36]) == a.maxCmdSN
    && Uint(h[36..40]) == dataSN % 0x1_0000_0000 && Uint(h[40..44]) == offset % 0x1_0000_0000
    && h[44..48] == [0, 0, 0, 0]
  }

  lemma AllOnes()
    ensures PutUint(0xFFFFFFFF, 4) == [0xFF, 0xFF, 0xFF, 0xFF] && PutUint(0, 4) == [0, 0, 0, 0]
  {
    assert PutUint(0xFF, 1) == PutUint(0, 0) + [0xFF];
    assert PutUint(0xFFFF, 2) == PutUint(0xFF, 1) + [0xFF];
    assert PutUint(0xFFFFFF, 3) == PutUint(0xFFFF, 2) + [0xFF];
    assert PutUint(0, 1) == PutUint(0, 0) + [0];
    assert PutUint(0, 2) == PutUint(0, 1) + [0];
    assert PutUint(0, 3) == PutUint(0, 2) + [0];
  }

  function First(final: bool): seq<byte> {
    [OPCODE_DATA_IN, if final then FINAL else 0, 0, 0, 0, 0, 0, 0]
  }

  function Status(a: Answer): (s: seq<byte>)
    ensures |s| == 12
  {
    PutUint(a.statSN, 4) + PutUint(a.expCmdSN, 4) + PutUint(a.maxCmdSN, 4)
  }

  function Place(dataSN: nat, offset: nat): (s: seq<byte>)
    ensures |s| == 12
  {
    PutUint(dataSN, 4) + PutUint(offset, 4) + PutUint(0, 4)
  }

  /** The whole header in one line. */
  function Spelled(a: Answer, dataSN: nat, offset: nat, final: bool): (h: seq<byte>)
    ensures |h| == 48
  {
    First(final) + PutUint(a.lun, 8) + (PutUint(a.itt, 4) + PutUint(0xFFFFFFFF, 4)) + Status(a) + Place(dataSN, offset)
  }

  lemma HeaderSpelled(a: Answer, dataSN: nat, offset: nat, chunk: seq<byte>, final: bool)
    ensures DataInPDU(a, dataSN, offset, chunk, final).bhs == Spelled(a, dataSN, offset, final)
  {
    hide PutUint, Put;
    var flag: byte := if final then FINAL else 0;
    assert BLANK == Filled([]);
    FillNext(BLANK, [], 0, [OPCODE_DATA_IN]);
    var p0 := [OPCODE_DATA_IN];
    assert [] + ZeroBytes(0) + [OPCODE_DATA_IN] == p0;
    FillNext(Filled(p0), p0, 0, [flag]);
    var p1 := p0 + ZeroBytes(0) + [flag];
    FillNext(Filled(p1), p1, 6, PutUint(a.lun, 8));
    var p2 := p1 + ZeroBytes(6) + PutUint(a.lun, 8);
    assert p1 + ZeroBytes(6) == First(final);
    var p3 := p2 + PutUint(a.itt, 4);
    NextField(p2, PutUint(a.itt, 4));
    var p4 := p3 + PutUint(0xFFFFFFFF, 4);
    NextField(p3, PutUint(0xFFFFFFFF, 4));
    var p5 := p4 + PutUint(a.statSN, 4);
    NextField(p4, PutUint(a.statSN, 4));
    var p6 := p5 + PutUint(a.expCmdSN, 4);
    NextField(p5, PutUint(a.expCmdSN, 4));
    var p7 := p6 + PutUint(a.maxCmdSN, 4);
    NextField(p6, PutUint(a.maxCmdSN, 4));
    var p8 := p7 + PutUint(dataSN, 4);
    NextField(p7, PutUint(dataSN, 4));
    var p9 := p8 + PutUint(offset, 4);
    NextField(p8, PutUint(offset, 4));
    NextField(p9, PutUint(0, 4));
    Regrouped(First(final), PutUint(a.lun, 8), PutUint(a.itt, 4), PutUint(0xFFFFFFFF, 4), PutUint(a.statSN, 4),
              PutUint(a.expCmdSN, 4), PutUint(a.maxCmdSN, 4), PutUint(dataSN, 4), PutUint(offset, 4), PutUint(0, 4));
    assert Filled(p9 + PutUint(0, 4)) == p9 + PutUint(0, 4);
  }

  lemma Regrouped(f: seq<byte>, l: seq<byte>, t: seq<byte>, x: seq<byte>, s: seq<byte>, e: seq<byte>, m: seq<byte>, d: seq<byte>,
                  o: seq<byte>, r: seq<byte>)
    ensures f + l + t + x + s + e + m + d + o + r == f + l + (t + x) + (s + e + m) + (d + o + r)
  {
    assert f + l + t + x == f + l + (t + x);
    var g := f + l + (t + x);
    assert g + s + e + m == g + (s + e + m);
    var k := g + (s + e + m);
    assert k + d + o + r == k + (d + o + r);
  }

  lemma NextField(prefix: seq<byte>, field: seq<byte>)
    requires |prefix| + |field| <= BHS_SIZE
    ensures Put(Filled(prefix), |prefix|, field) == Filled(prefix + field)
  {
    FillNext(Filled(prefix), prefix, 0, field);
    assert prefix + ZeroBytes(0) == prefix;
  }

  lemma Shift(front: seq<byte>, back: seq<byte>, rest: seq<byte>, from: nat, to: nat)
    requires from <= to <= |back|
    ensures (front + back + rest)[|front| + from..|front| + to] == back[from..to]
  {
  }

  lemma Three(x: seq<byte>, y: seq<byte>, z: seq<byte>)
    requires |x| == |y| == |z| == 4
    ensures var s := x + y + z; s[0..4] == x && s[4..8] == y && s[8..12] == z
  {
  }

  lemma Slices(a: Answer, dataSN: nat, offset: nat, final: bool)
    ensures var h := Spelled(a, dataSN, offset, final);
      && h[..8] == First(final) && h[8..16] == PutUint(a.lun, 8) && h[16..20] == PutUint(a.itt, 4)
      && h[20..24] == PutUint(0xFFFFFFFF, 4) && h[24..28] == PutUint(a.statSN, 4) && h[28..32] == PutUint(a.expCmdSN, 4)
      && h[32..36] == PutUint(a.maxCmdSN, 4) && h[36..40] == PutUint(dataSN, 4) && h[40..44] == PutUint(offset, 4)
      && h[44..48] == PutUint(0, 4)
  {
    var t := PutUint(a.itt, 4) + PutUint(0xFFFFFFFF, 4);
    Three(PutUint(a.statSN, 4), PutUint(a.expCmdSN, 4), PutUint(a.maxCmdSN, 4));
    Three(PutUint(dataSN, 4), PutUint(offset, 4), PutUint(0, 4));
    assert t[0..4] == PutUint(a.itt, 4) && t[4..8] == PutUint(0xFFFFFFFF, 4);
    var st, pl := Status(a), Place(dataSN, offset);
    assert st == PutUint(a.statSN, 4) + PutUint(a.expCmdSN, 4) + PutUint(a.maxCmdSN, 4);
    assert pl == PutUint(dataSN, 4) + PutUint(offset, 4) + PutUint(0, 4);
    hide PutUint, Status, Place;
    FourSlices(First(final), PutUint(a.lun, 8), t, st, pl);
  }

  lemma FourSlices(f: seq<byte>, l: seq<byte>, t: seq<byte>, st: seq<byte>, pl: seq<byte>)
    requires |f| == |l| == |t| == 8 && |st| == |pl| == 12
    ensures var h := f + l + t + st + pl;
      && h[..8] == f && h[8..16] == l && h[16..20] == t[0..4] && h[20..24] == t[4..8]
      && h[24..28] == st[0..4] && h[28..32] == st[4..8] && h[32..36] == st[8..12]
      && h[36..40] == pl[0..4] && h[40..44] == pl[4..8] && h[44..48] == pl[8..12]
  {
    FiveParts(f, l, t, st, pl);
    Shift(f + l, t, st + pl, 0, 4);
    Shift(f + l, t, st + pl, 4, 8);
    Shift(f + l + t, st, pl, 0, 4);
    Shift(f + l + t, st, pl, 4, 8);
    Shift(f + l + t, st, pl, 8, 12);
    Shift(f + l + t + st, pl, [], 0, 4);
    Shift(f + l + t + st, pl, [], 4, 8);
    Shift(f + l + t + st, pl, [], 8, 12);
  }

  lemma FiveParts(f: seq<byte>, l: seq<byte>, t: seq<byte>, s: seq<byte>, p: seq<byte>)
    ensures var h := f + l + t + s + p;
      && h == f + l + t + (s + p) && h == h + []
      && h[..|f|] == f && h[|f|..|f| + |l|] == l
  {
  }

  lemma SpellsBack(a: Answer, dataSN: nat, offset: nat)
    ensures Uint(PutUint(a.lun, 8)) == a.lun % 0x1_0000_0000_0000_0000 && Uint(PutUint(a.itt, 4)) == a.itt
    ensures Uint(PutUint(a.statSN, 4)) == a.statSN && Uint(PutUint(a.expCmdSN, 4)) == a.expCmdSN
    ensures Uint(PutUint(a.maxCmdSN, 4)) == a.maxCmdSN
    ensures Uint(PutUint(dataSN, 4)) == dataSN % 0x1_0000_0000 && Uint(PutUint(offset, 4)) == offset % 0x1_0000_0000
  {
    Spans();
    PutGet(a.lun, 8);
    PutGetFits(a.itt, 4);
    PutGetFits(a.statSN, 4);
    PutGetFits(a.expCmdSN, 4);
    PutGetFits(a.maxCmdSN, 4);
    PutGet(dataSN, 4);
    PutGet(offset, 4);
    hide PutUint, Uint, Span;
  }

  lemma HeaderOf(a: Answer, dataSN: nat, offset: nat, chunk: seq<byte>, final: bool)
    ensures HeaderIs(DataInPDU(a, dataSN, offset, chunk, final).bhs, a, dataSN, offset, final)
  {
    var h := Spelled(a, dataSN, offset, final);
    HeaderSpelled(a, dataSN, offset, chunk, final);
    Slices(a, dataSN, offset, final);
    AllOnes();
    SpellsBack(a, dataSN, offset);
    hide PutUint, Uint, Span, Spelled, DataInPDU;
    FirstBytes(h, final);
  }

  lemma FirstBytes(h: seq<byte>, final: bool)
    requires |h| == 48 && h[..8] == First(final)
    ensures h[0] == 0x25 && h[1] == (if final then 0x80 else 0) && h[2] == 0 && h[3] == 0 && h[4] == 0
  {
    assert forall i :: 0 <= i < 8 ==> h[i] == h[..8][i];
  }

  /** Every PDU of an answer has that header, with its place in the data, and so has every PDU read back off the wire;
      there the three length bytes spell the number of bytes that came with it. */
  lemma HeadersOnTheWire(a: Answer, data: seq<byte>, limit: nat, k: nat, at: nat)
    requires 0 < limit < 0x100_0000 && |data| < TWO_32 && k < |PDUsFrom(a, data, 0, 0, limit)| && at == k * limit
    ensures var ps := PDUsFrom(a, data, 0, 0, limit);
      && HeaderIs(ps[k].bhs, a, k, at, k == |ps| - 1)
      && |ReadAll(WireAll(ps)).0| == |ps|
      && var q := ReadAll(WireAll(ps)).0[k];
         HeaderIs(q.bhs, a, k, at, k == |ps| - 1) && q.data == ps[k].data && Uint(q.bhs[5..8]) == |q.data|
  {
    hide PDUsFrom, ReadAll, WireAll, HeaderIs, Carried, PieceOf, AHSLength, TaskTag, IsFinal, DataOut.DataSN, Stamped;
    var ps := PDUsFrom(a, data, 0, 0, limit);
    HeaderAt(a, data, 0, 0, limit, k, at);
    OverTheWire(a, data, limit);
    ChunksInOrder(a, data, 0, 0, limit, k);
    NoAHS(a, data, 0, 0, limit, k);
    StampHeader(ps[k], a, k, at, k == |ps| - 1);
    StampLength(ps[k]);
  }

  lemma StampLength(p: PDU)
    requires |p.data| < 0x100_0000
    ensures Uint(Stamped(p).bhs[5..8]) == |p.data| && Stamped(p).data == p.data
  {
    hide WithLength, Uint;
    assert |p.data| % TWO_32 == |p.data|;
    ShortLength(p.bhs, |p.data|);
    assert Stamped(p).bhs == WithLength(p.bhs, |p.data|);
  }

  lemma {:induction false} HeaderAt(a: Answer, data: seq<byte>, offset: nat, dataSN: nat, limit: nat, k: nat, at: nat)
    requires limit > 0 && (offset < |data| || offset == |data| == 0) && |data| < TWO_32
    requires k < |PDUsFrom(a, data, offset, dataSN, limit)| && at == offset + k * limit
    ensures var ps := PDUsFrom(a, data, offset, dataSN, limit);
      HeaderIs(ps[k].bhs, a, dataSN + k, at, k == |ps| - 1)
    decreases |data| - offset
  {
    hide PDUsFrom, HeaderIs;
    var end, rest := FirstHeader(a, data, offset, dataSN, limit);
    if k > 0 {
      NextPlace(offset, k, limit);
      HeaderAt(a, data, end, dataSN + 1, limit, k - 1, at);
    }
  }

  /** The first PDU has its header, and the rest are those of the rest of the data. */
  lemma FirstHeader(a: Answer, data: seq<byte>, offset: nat, dataSN: nat, limit: nat) returns (end: nat, rest: seq<PDU>)
    requires limit > 0 && (offset < |data| || offset == |data| == 0)
    ensures offset <= end <= |data| && (offset < |data| ==> offset < end) && (end < |data| ==> end == offset + limit)
    ensures var ps := PDUsFrom(a, data, offset, dataSN, limit);
      && ps[1..] == rest && HeaderIs(ps[0].bhs, a, dataSN, offset, rest == [])
      && rest == if end == |data| then [] else PDUsFrom(a, data, end, dataSN + 1, limit)
  {
    end := if offset + limit > |data| then |data| else offset + limit;
    rest := if end == |data| then [] else PDUsFrom(a, data, end, dataSN + 1, limit);
    Unfold(a, data, offset, dataSN, limit, end);
    HeaderOf(a, dataSN, offset, data[offset..end], end == |data|);
    hide PDUsFrom, DataInPDU, HeaderIs;
  }

  lemma NextPlace(offset: nat, k: nat, limit: nat)
    requires k > 0
    ensures offset + k * limit == (offset + limit) + (k - 1) * limit
  {
  }

  lemma StampHeader(p: PDU, a: Answer, dataSN: nat, offset: nat, final: bool)
    requires HeaderIs(p.bhs, a, dataSN, offset, final)
    ensures HeaderIs(Stamped(p).bhs, a, dataSN, offset, final)
  {
    hide PutUint, Uint;
    var h, g := p.bhs, Stamped(p).bhs;
    assert g[8..16] == h[8..16] && g[16..20] == h[16..20] && g[20..24] == h[20..24] && g[24..28] == h[24..28];
    assert g[28..32] == h[28..32] && g[32..36] == h[32..36] && g[36..40] == h[36..40] && g[40..44] == h[40..44];
    assert g[44..48] == h[44..48];
  }

  /** The stamped length leaves the other fields alone. */
  lemma StampKeeps(p: PDU)
    ensures Carried(Stamped(p)) == Carried(p) && DataOut.DataSN(Stamped(p)) == DataOut.DataSN(p)
    ensures TaskTag(Stamped(p)) == TaskTag(p) && (IsFinal(Stamped(p)) <==> IsFinal(p))
  {
    hide PutUint, Uint;
    var h, g := p.bhs, Stamped(p).bhs;
    assert g[36..40] == h[36..40] && g[40..44] == h[40..44] && g[16..20] == h[16..20];
  }

  /** Every chunk is within the limit; the sequence numbers are consecutive and the offsets contiguous; the
      final bit is on the last alone. */
  lemma {:induction false} ChunksInOrder(a: Answer, data: seq<byte>, offset: nat, dataSN: nat, limit: nat, k: nat)
    requires limit > 0 && (offset < |data| || offset == |data| == 0) && |data| < TWO_32
    requires k < |PDUsFrom(a, data, offset, dataSN, limit)|
    ensures var ps := PDUsFrom(a, data, offset, dataSN, limit);
      var c := Carried(ps[k]);
      && |c.data| <= limit && PieceOf(c, data) && offset <= c.offset
      && DataOut.DataSN(ps[k]) == (dataSN + k) % TWO_32 && TaskTag(ps[k]) == a.itt
      && (k == 0 ==> c.offset == offset)
      && (k + 1 < |ps| ==> |c.data| == limit && Carried(ps[k + 1]).offset == c.offset + |c.data|)
      && (IsFinal(ps[k]) <==> k == |ps| - 1)
      && (k == |ps| - 1 ==> c.offset + |c.data| == |data|)
    decreases |data| - offset
  {
    hide PDUsFrom, TaskTag, DataOut.DataSN, Carried, IsFinal;
    var end, p, rest := FirstChunk(a, data, offset, dataSN, limit);
    if end < |data| {
      ChunksInOrder(a, data, end, dataSN + 1, limit, if k > 0 then k - 1 else 0);
    }
  }

  /** The first chunk, where it ends, and the rest. */
  lemma FirstChunk(a: Answer, data: seq<byte>, offset: nat, dataSN: nat, limit: nat)
    returns (end: nat, p: PDU, rest: seq<PDU>)
    requires limit > 0 && (offset < |data| || offset == |data| == 0) && |data| < TWO_32
    ensures offset <= end <= |data| && end <= offset + limit && (offset < |data| ==> offset < end)
    ensures end < |data| ==> end == offset + limit
    ensures PDUsFrom(a, data, offset, dataSN, limit) == [p] + rest
    ensures rest == if end == |data| then [] else PDUsFrom(a, data, end, dataSN + 1, limit)
    ensures Carried(p) == Piece(offset, data[offset..end]) && DataOut.DataSN(p) == dataSN % TWO_32
    ensures TaskTag(p) == a.itt && (IsFinal(p) <==> end == |data|) && AHSLength(p.bhs) == |p.ahs| == 0
  {
    end := if offset + limit > |data| then |data| else offset + limit;
    p := DataInPDU(a, dataSN, offset, data[offset..end], end == |data|);
    rest := if end == |data| then [] else PDUsFrom(a, data, end, dataSN + 1, limit);
    Unfold(a, data, offset, dataSN, limit, end);
    ChunkFields(a, dataSN, offset, data[offset..end], end == |data|);
    hide PDUsFrom, DataInPDU, TaskTag, DataOut.DataSN, Carried, IsFinal, AHSLength;
  }

  lemma ChunkFields(a: Answer, dataSN: nat, offset: nat, chunk: seq<byte>, final: bool)
    requires offset < TWO_32
    ensures var p := DataInPDU(a, dataSN, offset, chunk, final);
      && DataOut.DataSN(p) == dataSN % TWO_32 && Carried(p) == Piece(offset, chunk)
      && TaskTag(p) == a.itt && (IsFinal(p) <==> final) && AHSLength(p.bhs) == |p.ahs| == 0
  {
    FieldsOf(a, dataSN, offset, chunk, final);
    hide DataInPDU, TaskTag, DataOut.DataSN, Carried, IsFinal, AHSLength;
  }

  lemma {:induction false} ChunksCover(a: Answer, data: seq<byte>, offset: nat, dataSN: nat, limit: nat, i: nat) returns (k: nat)
    requires limit > 0 && offset <= i < |data| < TWO_32
    ensures k < |PDUsFrom(a, data, offset, dataSN, limit)|
    ensures Covers(Carried(PDUsFrom(a, data, offset, dataSN, limit)[k]), i)
    decreases |data| - offset
  {
    hide PDUsFrom, TaskTag, DataOut.DataSN, Carried, IsFinal;
    var end, p, rest := FirstChunk(a, data, offset, dataSN, limit);
    if i < end {
      k := 0;
    } else {
      var j := ChunksCover(a, data, end, dataSN + 1, limit, i);
      k := j + 1;
    }
  }

  function CarriedAll(ps: seq<PDU>): (cs: seq<Piece>)
    ensures |cs| == |ps| && forall i :: 0 <= i < |ps| ==> cs[i] == Carried(ps[i])
  {
    seq(|ps|, i requires 0 <= i < |ps| => Carried(ps[i]))
  }

  /** The chunks, handed to a reassembly buffer in any order, rebuild the data. */
  lemma AnyOrderRebuilds(a: Answer, data: seq<byte>, limit: nat, order: seq<PDU>, expectedLen: nat)
    requires limit > 0 && |data| < TWO_32
    requires multiset(order) == multiset(PDUsFrom(a, data, 0, 0, limit))
    ensures AddAll(NewBuf(expectedLen), CarriedAll(order)).Success?
    ensures AddAll(NewBuf(expectedLen), CarriedAll(order)).value.data == data
  {
    hide DataInPDU, Carried, PDUsFrom, AddAll, NewBuf;
    var ps, cs := PDUsFrom(a, data, 0, 0, limit), CarriedAll(order);
    forall j | 0 <= j < |cs| ensures PieceOf(cs[j], data) && InRange(cs[j]) {
      assert order[j] in multiset(order);
      var k :| 0 <= k < |ps| && ps[k] == order[j];
      ChunksInOrder(a, data, 0, 0, limit, k);
    }
    forall i | 0 <= i < |data| ensures Covered(cs, i) {
      var k := ChunksCover(a, data, 0, 0, limit, i);
      assert ps[k] in multiset(ps);
      var j :| 0 <= j < |order| && order[j] == ps[k];
      assert Covers(cs[j], i);
    }
    CoverAssembles(cs, data);
    ReassemblyIsLast(expectedLen, cs);
  }

  /** What `SendDataIn` writes is read off the wire as the same PDUs, their lengths stamped. */
  lemma OverTheWire(a: Answer, data: seq<byte>, limit: nat)
    requires 0 < limit < 0x100_0000 && |data| < TWO_32
    ensures var ps := PDUsFrom(a, data, 0, 0, limit);
      && ReadAll(WireAll(ps)) == (StampAll(ps), [])
      && CarriedAll(StampAll(ps)) == CarriedAll(ps)
  {
    hide Carried, Read, ReadAll, WireAll, Stamped;
    var ps := PDUsFrom(a, data, 0, 0, limit);
    hide PDUsFrom;
    forall k | 0 <= k < |ps| ensures Writable(ps[k]) && Carried(Stamped(ps[k])) == Carried(ps[k]) {
      ChunksInOrder(a, data, 0, 0, limit, k);
      NoAHS(a, data, 0, 0, limit, k);
      StampKeeps(ps[k]);
    }
    assert Read([]).Failure? by { NothingToRead(); }
    StreamRoundTrip(ps, []);
    assert WireAll(ps) + [] == WireAll(ps);
  }

  lemma NothingToRead()
    ensures Read([]).Failure?
  {
  }

  lemma {:induction false} NoAHS(a: Answer, data: seq<byte>, offset: nat, dataSN: nat, limit: nat, k: nat)
    requires limit > 0 && (offset < |data| || offset == |data| == 0)
    requires k < |PDUsFrom(a, data, offset, dataSN, limit)| && |data| < TWO_32
    ensures var p := PDUsFrom(a, data, offset, dataSN, limit)[k];
      AHSLength(p.bhs) == |p.ahs| == 0 && p.data == Carried(p).data
    decreases |data| - offset
  {
    hide PDUsFrom, TaskTag, DataOut.DataSN, AHSLength, IsFinal;
    var end, p, rest := FirstChunk(a, data, offset, dataSN, limit);
    if k > 0 { NoAHS(a, data, end, dataSN + 1, limit, k - 1); }
  }
}
