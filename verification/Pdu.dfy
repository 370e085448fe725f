/** iSCSI protocol data units on the wire: the header fields, and the stream of headers, additional headers and
    padded data segments (internal/iscsi/pdu.go; RFC 7143, sections 11.2.1 and 11.2.4). */
module Pdus {
  import opened Arith
  import opened Bytes
  import opened Errors

  const BHS_SIZE: nat := 48

  const OPCODE_DATA_IN: byte := 0x25
  const FINAL: byte := 0x80

  type Header = h: seq<byte> | |h| == 48 witness seq(48, i => 0)

  datatype PDU = PDU(bhs: Header, ahs: seq<byte>, data: seq<byte>)

  /** A header with some bytes replaced from a position on. */
  function Put(h: Header, at: nat, field: seq<byte>): (r: Header)
    requires at + |field| <= BHS_SIZE
    ensures r[at..at + |field|] == field
    ensures forall i :: 0 <= i < BHS_SIZE && !(at <= i < at + |field|) ==> r[i] == h[i]
  {
    h[..at] + field + h[at + |field|..]
  }

  /** The three bytes of the data length; a longer length loses its high bits. */
  function WithLength(h: Header, n: nat): Header {
    Put(h, 5, PutUint(n, 3))
  }

  function DataSegmentLength(h: Header): nat {
    Uint(h[5..8])
  }

  /** The header counts additional headers in words of four bytes. */
  function AHSLength(h: Header): nat {
    (h[4] as int) * 4
  }

  function Padding(n: nat): nat {
    (4 - n % 4) % 4
  }

  function ZeroBytes(n: nat): (s: seq<byte>)
    ensures |s| == n
  {
    seq(n, i => 0)
  }

  /** What writing a PDU puts on the wire. The length is first cut to 32 bits, and a length of zero writes no
      data at all. */
  function Wire(p: PDU): seq<byte> {
    var n := |p.data| % TWO_32;
    WithLength(p.bhs, n) + p.ahs + (if n > 0 then p.data + ZeroBytes(Padding(n)) else [])
  }

  /** Reads one PDU off a stream, and what is left of the stream. */
  function Read(stream: seq<byte>): Result<(PDU, seq<byte>)> {
    if |stream| < BHS_SIZE then Failure(Truncated) else
    var bhs: Header := stream[..48];
    var ahsLen := AHSLength(bhs);
    if |stream| < 48 + ahsLen then Failure(Truncated) else
    var ahs := stream[48..48 + ahsLen];
    var body := stream[48 + ahsLen..];
    var n := DataSegmentLength(bhs);
    if |body| < n + Padding(n) then Failure(Truncated)
    else Success((PDU(bhs, ahs, body[..n]), body[n + Padding(n)..]))
  }

  /** What can be written so that it is read back. */
  predicate Writable(p: PDU) {
    |p.data| < 0x100_0000 && |p.ahs| == AHSLength(p.bhs)
  }

  function Stamped(p: PDU): PDU {
    p.(bhs := WithLength(p.bhs, |p.data| % TWO_32))
  }

  lemma LengthField(h: Header, n: nat)
    ensures DataSegmentLength(WithLength(h, n)) == n % 0x100_0000
    ensures WithLength(h, n)[4] == h[4]
  {
    PutGet(n, 3);
    Spans();
    hide PutUint, Span;
  }

  /** Whatever follows on the stream, a PDU is read back, its length field set, exactly when its data is shorter
      than 2^24 bytes and its additional headers are as long as the header says; then the padding is consumed
      and the rest of the stream is what follows. */
  lemma ReadBack(p: PDU, rest: seq<byte>)
    ensures Read(Wire(p) + rest) == Success((Stamped(p), rest)) <==> Writable(p)
  {
    var n := |p.data| % TWO_32;
    LengthField(p.bhs, n);
    if Writable(p) {
      Written(p, rest);
    } else {
      hide PutUint, Put;
      var s := Wire(p) + rest;
      assert s[..48] == WithLength(p.bhs, n);
      if Read(s).Success? {
        assert |Read(s).value.0.ahs| == AHSLength(p.bhs);
        assert |Read(s).value.0.data| == n % 0x100_0000;
      }
    }
  }

  lemma Written(p: PDU, rest: seq<byte>)
    requires Writable(p)
    ensures Read(Wire(p) + rest) == Success((Stamped(p), rest))
  {
    var h := WithLength(p.bhs, |p.data|);
    assert |p.data| == DataSegmentLength(h) && |p.ahs| == AHSLength(h) && Stamped(p) == PDU(h, p.ahs, p.data) by {
      ShortLength(p.bhs, |p.data|);
    }
    WireIs(p);
    hide *;
    ReadParts(h, p.ahs, p.data, ZeroBytes(Padding(|p.data|)), rest);
  }

  lemma ShortLength(h: Header, n: nat)
    requires n < 0x100_0000
    ensures DataSegmentLength(WithLength(h, n)) == n && AHSLength(WithLength(h, n)) == AHSLength(h)
  {
    LengthField(h, n);
  }

  lemma WireIs(p: PDU)
    requires |p.data| < TWO_32
    ensures Wire(p) == WithLength(p.bhs, |p.data|) + p.ahs + (p.data + ZeroBytes(Padding(|p.data|)))
  {
    NoPadding();
    hide WithLength, Padding, ZeroBytes;
    if |p.data| == 0 {
      assert p.data + ZeroBytes(Padding(0)) == [];
    }
  }

  lemma ReadParts(h: Header, ahs: seq<byte>, data: seq<byte>, pad: seq<byte>, rest: seq<byte>)
    requires |ahs| == AHSLength(h) && |data| == DataSegmentLength(h) && |pad| == Padding(|data|)
    ensures Read(h + ahs + (data + pad) + rest) == Success((PDU(h, ahs, data), rest))
  {
    hide Padding, DataSegmentLength;
    WireParts(h, ahs, data, pad, rest);
  }

  lemma NoPadding()
    ensures Padding(0) == 0
  {
  }

  lemma WireParts(h: Header, ahs: seq<byte>, data: seq<byte>, pad: seq<byte>, rest: seq<byte>)
    ensures var s := h + ahs + (data + pad) + rest;
      && s[..48] == h && s[48..48 + |ahs|] == ahs
      && s[48 + |ahs|..] == data + (pad + rest)
      && s[48 + |ahs|..][..|data|] == data && s[48 + |ahs|..][|data| + |pad|..] == rest
  {
    var s := h + ahs + (data + pad) + rest;
    assert s == h + (ahs + (data + (pad + rest)));
    assert s[48..] == ahs + (data + (pad + rest));
    assert s[48..][..|ahs|] == ahs && s[48..][|ahs|..] == data + (pad + rest);
  }

  // ---------- whole streams ----------

  function WireAll(ps: seq<PDU>): seq<byte> {
    if ps == [] then [] else Wire(ps[0]) + WireAll(ps[1..])
  }

  /** Reads PDUs until the stream ends or one is cut off. */
  function ReadAll(stream: seq<byte>): (r: (seq<PDU>, seq<byte>))
    decreases |stream|
  {
    match Read(stream)
    case Failure(_) => ([], stream)
    case Success((p, rest)) =>
      if |rest| < |stream| then var (ps, left) := ReadAll(rest); ([p] + ps, left) else ([p], rest)
  }

  function StampAll(ps: seq<PDU>): (qs: seq<PDU>)
    ensures |qs| == |ps| && forall i :: 0 <= i < |ps| ==> qs[i] == Stamped(ps[i])
  {
    seq(|ps|, i requires 0 <= i < |ps| => Stamped(ps[i]))
  }

  lemma ReadShorter(stream: seq<byte>)
    ensures Read(stream).Success? ==> |Read(stream).value.1| < |stream|
  {
    hide Uint;
  }

  /** Any list of PDUs written back to back, with the start of another after them, is read back in order. */
  lemma {:induction false} StreamRoundTrip(ps: seq<PDU>, tail: seq<byte>)
    requires (forall i :: 0 <= i < |ps| ==> Writable(ps[i])) && Read(tail).Failure?
    ensures ReadAll(WireAll(ps) + tail) == (StampAll(ps), tail)
  {
    hide Read, Wire, Writable, Stamped;
    if ps == [] {
      assert WireAll(ps) + tail == tail;
    } else {
      var rest := WireAll(ps[1..]) + tail;
      assert WireAll(ps) + tail == Wire(ps[0]) + rest;
      ReadBack(ps[0], rest);
      ReadShorter(Wire(ps[0]) + rest);
      StreamRoundTrip(ps[1..], tail);
      assert StampAll(ps) == [Stamped(ps[0])] + StampAll(ps[1..]);
    }
  }

  // ---------- reading and writing a connection ----------

  /** A connection: what the peer sent and is not yet read, and what was written to the peer. */
  class Conn {
    var input: seq<byte>
    var output: seq<byte>

    constructor (input: seq<byte>)
      ensures this.input == input && output == []
    {
      this.input, output := input, [];
    }

    /** Fills a buffer from the stream; a stream that ends first fails. */
    method ReadFull(n: nat) returns (r: Result<seq<byte>>)
      modifies this`input
      ensures r == if n <= |old(input)| then Success(old(input)[..n]) else Failure(Truncated)
      ensures input == if n <= |old(input)| then old(input)[n..] else []
    {
      if n > |input| {
        input := [];
        return Failure(Truncated);
      }
      r := Success(input[..n]);
      input := input[n..];
    }

    method Write(bytes: seq<byte>)
      modifies this`output
      ensures output == old(output) + bytes
    {
      output := output + bytes;
    }
  }

  method ReadPDU(conn: Conn) returns (r: Result<PDU>)
    modifies conn`input
    ensures match Read(old(conn.input))
            case Success((p, rest)) => r == Success(p) && conn.input == rest
            case Failure(e) => r == Failure(e)
  {
    NoPadding();
    hide DataSegmentLength, AHSLength, Padding;
    ghost var stream := conn.input;
    var bhs := conn.ReadFull(BHS_SIZE);
    if bhs.Failure? { return Failure(bhs.error); }
    var header: Header := bhs.value;
    var ahs: seq<byte> := [];
    var ahsLen := AHSLength(header);
    assert stream[48..][..0] == [];
    if ahsLen > 0 {
      if ahsLen <= |conn.input| { assert stream[48..48 + ahsLen] == stream[48..][..ahsLen]; }
      var extra := conn.ReadFull(ahsLen);
      if extra.Failure? { return Failure(extra.error); }
      ahs := extra.value;
    }
    assert conn.input == stream[48 + ahsLen..];
    var data: seq<byte> := [];
    var dsLen := DataSegmentLength(header);
    if dsLen > 0 {
      ghost var body := conn.input;
      var buf := conn.ReadFull(dsLen + Padding(dsLen));
      if buf.Failure? { return Failure(buf.error); }
      data := buf.value[..dsLen];
      assert data == body[..dsLen];
    }
    r := Success(PDU(header, ahs, data));
  }

  /** Writes the parts one after the other, and stamps the length into the header. */
  method WritePDU(conn: Conn, p: PDU) returns (stamped: PDU)
    modifies conn`output
    ensures stamped == Stamped(p)
    ensures conn.output == old(conn.output) + Wire(p)
  {
    var dsLen := |p.data| % TWO_32;
    stamped := p.(bhs := WithLength(p.bhs, dsLen));
    conn.Write(stamped.bhs);
    if |p.ahs| > 0 { conn.Write(p.ahs); }
    if dsLen > 0 {
      conn.Write(p.data);
      var padBytes := Padding(dsLen);
      if padBytes > 0 { conn.Write(ZeroBytes(padBytes)); }
    }
    WrittenParts(old(conn.output), p);
    assert conn.output == old(conn.output) + Wire(p);
  }

  lemma WrittenParts(out: seq<byte>, p: PDU)
    ensures var n := |p.data| % TWO_32;
      && (n == 0 ==> out + Wire(p) == out + WithLength(p.bhs, n) + p.ahs)
      && (n > 0 ==> out + Wire(p) == out + WithLength(p.bhs, n) + p.ahs + p.data + ZeroBytes(Padding(n)))
  {
    hide WithLength, Padding, ZeroBytes;
  }

  // ---------- the layout ----------

  /** Data is padded to a multiple of four bytes, with fewer than four. */
  lemma PaddingIs(n: nat)
    ensures Padding(n) < 4 && (n + Padding(n)) % 4 == 0
  {
  }

  /** A PDU on the wire: its header, with bytes 5 to 8 spelling the length of the data; the additional headers; the
      data; and zeros up to a multiple of four bytes. */
  lemma WireLayout(p: PDU)
    requires |p.data| < 0x100_0000
    ensures var s, at := Wire(p), 48 + |p.ahs|;
      && |s| >= at + |p.data| && |s| - at - |p.data| < 4 && (|s| - at) % 4 == 0
      && s[..5] == p.bhs[..5] && Uint(s[5..8]) == |p.data| && s[8..48] == p.bhs[8..]
      && s[48..at] == p.ahs && s[at..at + |p.data|] == p.data
      && forall i :: at + |p.data| <= i < |s| ==> s[i] == 0
  {
    WireIs(p);
    PaddingIs(|p.data|);
    ShortLength(p.bhs, |p.data|);
    var h, pad := WithLength(p.bhs, |p.data|), ZeroBytes(Padding(|p.data|));
    assert h[..5] == p.bhs[..5] && h[8..] == p.bhs[8..] && Uint(h[5..8]) == |p.data|;
    hide WithLength, Padding, Wire, Uint, PutUint;
    WireParts(h, p.ahs, p.data, pad, []);
    var s := Wire(p);
    assert s + [] == s == h + p.ahs + (p.data + pad);
    assert s[..5] == h[..5] && s[5..8] == h[5..8] && s[8..48] == h[8..];
    var at := 48 + |p.ahs|;
    assert s[at..] == p.data + pad;
    assert s[at..at + |p.data|] == s[at..][..|p.data|];
    forall i | at + |p.data| <= i < |s| ensures s[i] == 0 { assert s[i] == s[at..][i - at]; }
  }

  /** What is read from any stream: 48 bytes of header, four times as many bytes of additional headers as byte 4 says,
      as much data as bytes 5 to 8 spell, and whatever fills the data up to a multiple of four bytes; nothing if the
      stream ends before that. */
  lemma ReadTakes(stream: seq<byte>)
    ensures |stream| < 48 ==> Read(stream) == Failure(Truncated)
    ensures |stream| >= 48 ==>
              var at, n := 48 + 4 * stream[4] as int, Uint(stream[5..8]);
              var end := at + (n + 3) / 4 * 4;
              if |stream| < end then Read(stream) == Failure(Truncated)
              else Read(stream) == Success((PDU(stream[..48], stream[48..at], stream[at..at + n]), stream[end..]))
  {
    hide Uint;
    if |stream| >= 48 {
      var at, n := 48 + 4 * stream[4] as int, Uint(stream[5..8]);
      PaddedUp(n);
      assert stream[..48][5..8] == stream[5..8];
      if |stream| >= at + n + Padding(n) {
        assert stream[at..][..n] == stream[at..at + n];
        assert stream[at..][n + Padding(n)..] == stream[at + n + Padding(n)..];
      }
    }
  }

  lemma PaddedUp(n: nat)
    ensures n + Padding(n) == (n + 3) / 4 * 4
  {
  }

  /** A PDU that is cut off anywhere, in its padding too, is not read. */
  lemma CutOff(p: PDU, k: nat)
    requires Writable(p) && k < |Wire(p)|
    ensures Read(Wire(p)[..k]) == Failure(Truncated)
  {
    var n := |p.data|;
    WireIs(p);
    ShortLength(p.bhs, n);
    var h := WithLength(p.bhs, n);
    hide WithLength, Wire, Padding, Uint;
    var s := Wire(p);
    assert s == h + p.ahs + (p.data + ZeroBytes(Padding(n)));
    assert |s| == 48 + |p.ahs| + n + Padding(n);
    if k >= 48 {
      assert s[..k][..48] == h;
      if k >= 48 + |p.ahs| { assert |s[..k][48 + |p.ahs|..]| == k - 48 - |p.ahs|; }
    }
  }
}
