/** Write commands over one connection: a command, the immediate data with it, the transfer it asks for, and
    the Data-Out PDUs that bring the rest (internal/iscsi/scsi_cmd.go, connection.go; RFC 7143, sections 11.3,
    11.7 and 11.8). */
module WriteCommand {
  import opened Bytes
  import opened Errors
  import opened Pdus
  import opened DataOut

  /** What a connection remembers: for each task waiting for data, the command block, the request and the buffer. */
  datatype Session = Session(
    cdbs: map<nat, seq<byte>>, reqs: map<nat, PDU>, buffers: Buffers, statSN: nat, initialR2T: bool)

  /** What the target does: asks for data, or runs a command on data. */
  datatype Event =
    | ReadyToTransfer(itt: nat, offset: nat, length: nat)
    | Execute(itt: nat, cdb: seq<byte>, data: seq<byte>)
    | Crash

  function Cdb(req: PDU): seq<byte> {
    req.bhs[32..48]
  }

  function ExpectedLen(req: PDU): nat {
    Uint(req.bhs[20..24])
  }

  /** The W bit of the flags. */
  predicate IsWrite(req: PDU) {
    (req.bhs[1] as int) / 32 % 2 == 1
  }

  function Length32(req: PDU): nat {
    |req.data| % TWO_32
  }

  /** A new buffer for a task, with the immediate data in it. */
  function Prefilled(expectedLen: nat, immediate: seq<byte>): Buf {
    var b := NewBuf(expectedLen);
    if immediate == [] then b else
    match Added(b, Piece(0, immediate))
    case Success(filled) => filled
    case Failure(_) => b
  }

  /** A command is remembered as pending when its immediate data is short of what it expects; independently of
      that, the final bit and the negotiated InitialR2T decide whether more data is waited for. */
  function HandleCommand(s: Session, req: PDU): (Session, seq<Event>) {
    var t := TaskTag(req);
    var short := IsWrite(req) && ExpectedLen(req) > Length32(req);
    var noted := s.(statSN := (s.statSN + 1) % TWO_32,
                    cdbs := if short then s.cdbs[t := Cdb(req)] else s.cdbs,
                    reqs := if short then s.reqs[t := req] else s.reqs);
    if IsWrite(req) && !IsFinal(req) && (s.initialR2T || short) then
      var from := Length32(req);
      (noted.(buffers := s.buffers[t := Prefilled(ExpectedLen(req), req.data)]),
       [ReadyToTransfer(t, from, (ExpectedLen(req) + TWO_32 - from) % TWO_32)])
    else (noted, [Execute(t, Cdb(req), if IsWrite(req) then req.data else [])])
  }

  function TakeDataOut(s: Session, p: PDU): (Session, seq<Event>) {
    var t := TaskTag(p);
    var (buffers, added) := AddDataOut(s.buffers, p);
    match added
    case Failure(e) => (s, if e == Panicked then [Crash] else [])
    case Success(None) => (s.(buffers := buffers), [])
    case Success(Some(bytes)) =>
      (s.(buffers := buffers, cdbs := s.cdbs - {t}, reqs := s.reqs - {t}, statSN := (s.statSN + 1) % TWO_32),
       if t in s.cdbs && t in s.reqs then [Execute(t, s.cdbs[t], bytes)] else [])
  }

  datatype Input = Command(req: PDU) | Data(p: PDU)

  function Handle(s: Session, i: Input): (Session, seq<Event>) {
    match i
    case Command(req) => HandleCommand(s, req)
    case Data(p) => TakeDataOut(s, p)
  }

  function Tag(i: Input): nat {
    match i
    case Command(req) => TaskTag(req)
    case Data(p) => TaskTag(p)
  }

  function After(s: Session, inputs: seq<Input>): Session {
    if inputs == [] then s else Handle(After(s, inputs[..|inputs| - 1]), inputs[|inputs| - 1]).0
  }

  /** The data that the inputs bring to a task, in order of arrival. */
  function PiecesFor(inputs: seq<Input>, t: nat): seq<Piece> {
    if inputs == [] then [] else
    var init, last := PiecesFor(inputs[..|inputs| - 1], t), inputs[|inputs| - 1];
    if last.Data? && TaskTag(last.p) == t then init + [Carried(last.p)] else init
  }

  // ---------- what a write command is run on ----------

  /** A task waits for data: its command is remembered, and its buffer holds the pieces that came so far. */
  ghost predicate Awaiting(s: Session, t: nat, cdb: seq<byte>, expectedLen: nat, ps: seq<Piece>) {
    && t in s.cdbs && s.cdbs[t] == cdb && t in s.reqs && t in s.buffers
    && AddAll(NewBuf(expectedLen), ps) == Success(s.buffers[t])
  }

  /** Data under the tag that does not end the transfer, or anything under another tag. */
  ghost predicate Unfinal(i: Input, t: nat) {
    && (Tag(i) == t ==> i.Data? && !IsFinal(i.p))
    && (i.Data? ==> InRange(Carried(i.p)))
  }

  lemma AddMore(b: Buf, ps: seq<Piece>, p: Piece)
    ensures AddAll(b, ps + [p]) ==
            (match AddAll(b, ps)
             case Failure(e) => Failure(e)
             case Success(m) => Added(m, p))
  {
    assert (ps + [p])[..|ps|] == ps;
  }

  lemma PrefillAwaits(expectedLen: nat, immediate: seq<byte>)
    requires |immediate| < TWO_32
    ensures AddAll(NewBuf(expectedLen), [Piece(0, immediate)]) == Success(Prefilled(expectedLen, immediate))
  {
    var b := NewBuf(expectedLen);
    AddMore(b, [], Piece(0, immediate));
    assert [] + [Piece(0, immediate)] == [Piece(0, immediate)];
    if immediate == [] {
      assert Added(b, Piece(0, [])) == Success(b) by {
        assert Grown(b, 0) == b;
        assert Overlay(b.data, 0, []) == b.data;
        assert immediate[..0] == [];
      }
    } else {
      AddFails(b, Piece(0, immediate));
    }
  }

  /** A command whose final bit is clear and whose immediate data falls short starts the wait, and asks for
      exactly the rest. */
  lemma CommandAwaits(s: Session, req: PDU)
    requires IsWrite(req) && !IsFinal(req) && |req.data| < ExpectedLen(req) && |req.data| < TWO_32
    ensures var (after, events) := HandleCommand(s, req);
      && Awaiting(after, TaskTag(req), Cdb(req), ExpectedLen(req), [Piece(0, req.data)])
      && events == [ReadyToTransfer(TaskTag(req), |req.data|, ExpectedLen(req) - |req.data|)]
  {
    ExpectedFits(req);
    hide Prefilled, TaskTag, ExpectedLen, AddAll, IsFinal, IsWrite, Cdb;
    PrefillAwaits(ExpectedLen(req), req.data);
  }

  lemma ExpectedFits(req: PDU)
    ensures ExpectedLen(req) < TWO_32
  {
    GetPut(req.bhs[20..24]);
    Spans();
  }

  /** Any other input leaves the wait as it is, and data under its tag is added to it. */
  lemma HandleAwaits(s: Session, i: Input, t: nat, cdb: seq<byte>, expectedLen: nat, ps: seq<Piece>)
    requires Awaiting(s, t, cdb, expectedLen, ps) && Unfinal(i, t)
    requires forall k :: 0 <= k < |ps| ==> InRange(ps[k])
    ensures Awaiting(Handle(s, i).0, t, cdb, expectedLen, if Tag(i) == t then ps + [Carried(i.p)] else ps)
    ensures Tag(i) == t ==> Handle(s, i).1 == []
  {
    hide AddAll, Prefilled, Added, TaskTag, Carried, IsFinal, Cdb, ExpectedLen, IsWrite, NewBuf;
    if Tag(i) == t {
      AddFails(s.buffers[t], Carried(i.p));
      AddMore(NewBuf(expectedLen), ps, Carried(i.p));
    }
  }

  lemma {:induction false} RunAwaits(s: Session, inputs: seq<Input>, t: nat, cdb: seq<byte>, expectedLen: nat, ps: seq<Piece>)
    requires Awaiting(s, t, cdb, expectedLen, ps)
    requires (forall k :: 0 <= k < |inputs| ==> Unfinal(inputs[k], t)) && forall k :: 0 <= k < |ps| ==> InRange(ps[k])
    ensures Awaiting(After(s, inputs), t, cdb, expectedLen, ps + PiecesFor(inputs, t))
    ensures forall k :: 0 <= k < |PiecesFor(inputs, t)| ==> InRange(PiecesFor(inputs, t)[k])
  {
    hide Awaiting, Handle, Carried, TaskTag, InRange, IsFinal;
    if inputs != [] {
      var init, last := inputs[..|inputs| - 1], inputs[|inputs| - 1];
      assert forall k :: 0 <= k < |init| ==> init[k] == inputs[k];
      RunAwaits(s, init, t, cdb, expectedLen, ps);
      HandleAwaits(After(s, init), last, t, cdb, expectedLen, ps + PiecesFor(init, t));
      if Tag(last) == t {
        assert ps + PiecesFor(init, t) + [Carried(last.p)] == ps + (PiecesFor(init, t) + [Carried(last.p)]);
      }
    } else {
      assert ps + [] == ps;
    }
  }

  /** The final data runs the command on everything that came for it. */
  lemma FinalRuns(s: Session, p: PDU, t: nat, cdb: seq<byte>, expectedLen: nat, ps: seq<Piece>)
    requires Awaiting(s, t, cdb, expectedLen, ps) && TaskTag(p) == t && IsFinal(p) && InRange(Carried(p))
    requires forall k :: 0 <= k < |ps| ==> InRange(ps[k])
    ensures TakeDataOut(s, p).1 == [Execute(t, cdb, Assembled(ps + [Carried(p)]))]
  {
    hide AddAll, Added, TaskTag, Carried, IsFinal, NewBuf, Assembled;
    AddFails(s.buffers[t], Carried(p));
    AddMore(NewBuf(expectedLen), ps, Carried(p));
    ReassemblyIsLast(expectedLen, ps + [Carried(p)]);
  }

  /** A write command with its final bit clear and more to come than it brought: whatever else happens on the
      connection, and however its data is cut and ordered, the target asks for the rest, runs nothing for the
      task while its data comes, and on the final Data-Out runs the command on the immediate data overlaid by
      the solicited data. */
  lemma WriteDelivered(s: Session, req: PDU, inputs: seq<Input>, final: PDU)
    requires IsWrite(req) && !IsFinal(req) && |req.data| < ExpectedLen(req) && |req.data| < TWO_32
    requires forall k :: 0 <= k < |inputs| ==> Unfinal(inputs[k], TaskTag(req))
    requires TaskTag(final) == TaskTag(req) && IsFinal(final) && InRange(Carried(final))
    ensures var t := TaskTag(req);
      var start := HandleCommand(s, req).0;
      && HandleCommand(s, req).1 == [ReadyToTransfer(t, |req.data|, ExpectedLen(req) - |req.data|)]
      && (forall k :: 0 <= k < |inputs| && Tag(inputs[k]) == t ==> Handle(After(start, inputs[..k]), inputs[k]).1 == [])
      && TakeDataOut(After(start, inputs), final).1 ==
         [Execute(t, Cdb(req), Assembled([Piece(0, req.data)] + PiecesFor(inputs, t) + [Carried(final)]))]
  {
    hide Awaiting, HandleCommand, TakeDataOut, Handle, TaskTag, Carried, IsFinal, IsWrite, Cdb, ExpectedLen, Assembled;
    var t, first := TaskTag(req), [Piece(0, req.data)];
    var start := HandleCommand(s, req).0;
    CommandAwaits(s, req);
    RunAwaits(start, inputs, t, Cdb(req), ExpectedLen(req), first);
    FinalRuns(After(start, inputs), final, t, Cdb(req), ExpectedLen(req), first + PiecesFor(inputs, t));
    forall k | 0 <= k < |inputs| && Tag(inputs[k]) == t ensures Handle(After(start, inputs[..k]), inputs[k]).1 == [] {
      assert forall j :: 0 <= j < k ==> inputs[..k][j] == inputs[j];
      RunAwaits(start, inputs[..k], t, Cdb(req), ExpectedLen(req), first);
      HandleAwaits(After(start, inputs[..k]), inputs[k], t, Cdb(req), ExpectedLen(req), first + PiecesFor(inputs[..k], t));
    }
  }

  /** Pieces of a whole that leave out no byte from `from` on. */
  ghost predicate Brings(ps: seq<Piece>, whole: seq<byte>, from: nat) {
    && (forall k :: 0 <= k < |ps| ==> PieceOf(ps[k], whole))
    && (forall i :: from <= i < |whole| ==> Covered(ps, i))
  }

  lemma LastPiece(ps: seq<Piece>, last: Piece, whole: seq<byte>, from: nat)
    requires Brings(ps + [last], whole, from)
    ensures PieceOf(last, whole)
  {
    assert (ps + [last])[|ps|] == last;
  }

  /** So when the immediate data begins the initiator's data, and the Data-Outs are pieces of it that leave no
      later byte out, the command runs on that data, for every split and order with the final bit last. */
  lemma WholeWriteDelivered(s: Session, req: PDU, inputs: seq<Input>, final: PDU, whole: seq<byte>)
    requires IsWrite(req) && !IsFinal(req) && |req.data| < |whole| == ExpectedLen(req) < TWO_32
    requires req.data == whole[..|req.data|]
    requires forall k :: 0 <= k < |inputs| ==> Unfinal(inputs[k], TaskTag(req))
    requires TaskTag(final) == TaskTag(req) && IsFinal(final)
    requires Brings(PiecesFor(inputs, TaskTag(req)) + [Carried(final)], whole, |req.data|)
    ensures TakeDataOut(After(HandleCommand(s, req).0, inputs), final).1 == [Execute(TaskTag(req), Cdb(req), whole)]
  {
    var middle := PiecesFor(inputs, TaskTag(req));
    LastPiece(middle, Carried(final), whole, |req.data|);
    WithImmediate(Piece(0, req.data), middle + [Carried(final)], whole);
    Regroup(Piece(0, req.data), middle, Carried(final));
    hide HandleCommand, TakeDataOut, TaskTag, Carried, IsFinal, IsWrite, Cdb, ExpectedLen, Assembled, Tag, PiecesFor, After;
    WriteDelivered(s, req, inputs, final);
  }

  lemma WithImmediate(first: Piece, ps: seq<Piece>, whole: seq<byte>)
    requires first.offset == 0 && PieceOf(first, whole) && Brings(ps, whole, |first.data|)
    ensures Assembled([first] + ps) == whole
  {
    var all := [first] + ps;
    forall k | 0 <= k < |all| ensures PieceOf(all[k], whole) {
      if k > 0 { assert all[k] == ps[k - 1]; }
    }
    forall i | 0 <= i < |whole| ensures Covered(all, i) {
      if i < |first.data| {
        assert Covers(all[0], i);
      } else {
        assert Covered(ps, i);
        var k :| 0 <= k < |ps| && Covers(ps[k], i);
        assert Covers(all[k + 1], i);
      }
    }
    CoverAssembles(all, whole);
  }

  lemma Regroup(first: Piece, middle: seq<Piece>, last: Piece)
    ensures [first] + (middle + [last]) == [first] + middle + [last]
  {
  }

  // ---------- what each command does, from its bytes ----------

  /** A command without the W bit, such as a read: it runs at once, on no data, whatever came with it, and nothing is
      remembered. */
  lemma OtherCommandRuns(s: Session, req: PDU)
    requires req.bhs[1] / 32 % 2 == 0
    ensures var (after, events) := HandleCommand(s, req);
      && events == [Execute(Uint(req.bhs[16..20]), req.bhs[32..48], [])]
      && after.cdbs == s.cdbs && after.reqs == s.reqs && after.buffers == s.buffers && after.initialR2T == s.initialR2T
      && after.statSN == (s.statSN + 1) % 0x1_0000_0000
  {
  }

  /** A write command, by its final bit, its expected length and the data with it. It runs at once, on exactly the
      data that came, if the final bit is set, or if InitialR2T is off and no data is missing; otherwise the target
      starts a buffer with that data in it and asks, in 32-bit arithmetic, for the rest. It is remembered exactly when
      data is missing. Nothing else of the session changes, but that the sequence number advances. */
  lemma WriteCommandDoes(s: Session, req: PDU)
    requires req.bhs[1] / 32 % 2 == 1 && |req.data| < 0x1_0000_0000
    ensures var (after, events) := HandleCommand(s, req);
      var t, expected := Uint(req.bhs[16..20]), Uint(req.bhs[20..24]);
      && (after.cdbs == if expected > |req.data| then s.cdbs[t := req.bhs[32..48]] else s.cdbs)
      && (after.reqs == if expected > |req.data| then s.reqs[t := req] else s.reqs)
      && after.initialR2T == s.initialR2T && after.statSN == (s.statSN + 1) % 0x1_0000_0000
      && if req.bhs[1] >= 0x80 || (!s.initialR2T && expected <= |req.data|) then
           after.buffers == s.buffers && events == [Execute(t, req.bhs[32..48], req.data)]
         else
           && after.buffers.Keys == s.buffers.Keys + {t} && after.buffers[t].data == req.data
           && (forall u :: u in s.buffers && u != t ==> after.buffers[u] == s.buffers[u])
           && |events| == 1 && events[0].ReadyToTransfer? && events[0].itt == t && events[0].offset == |req.data|
           && events[0].length == expected - |req.data| + (if expected < |req.data| then 0x1_0000_0000 else 0)
  {
    ExpectedFits(req);
    PrefilledHolds(ExpectedLen(req), req.data);
    hide Prefilled, TaskTag, Uint, ExpectedLen, IsWrite, IsFinal, Cdb;
    var expected, from := ExpectedLen(req), |req.data|;
    RestLength(expected, from);
    TagIs(req);
  }

  lemma RestLength(expected: nat, from: nat)
    requires expected < TWO_32 && from < TWO_32
    ensures (expected + TWO_32 - from) % TWO_32 == expected - from + (if expected < from then TWO_32 else 0)
  {
  }

  lemma TagIs(req: PDU)
    ensures TaskTag(req) == Uint(req.bhs[16..20]) && ExpectedLen(req) == Uint(req.bhs[20..24]) && Cdb(req) == req.bhs[32..48]
    ensures (IsWrite(req) <==> req.bhs[1] / 32 % 2 == 1) && (IsFinal(req) <==> req.bhs[1] >= 0x80)
  {
  }

  lemma PrefilledHolds(expectedLen: nat, immediate: seq<byte>)
    requires |immediate| < TWO_32
    ensures Prefilled(expectedLen, immediate).data == immediate
  {
    PrefillAwaits(expectedLen, immediate);
    ReassemblyIsLast(expectedLen, [Piece(0, immediate)]);
    CoverOne(immediate);
    hide Prefilled, AddAll, Assembled;
  }

  lemma CoverOne(whole: seq<byte>)
    ensures Assembled([Piece(0, whole)]) == whole
  {
    var ps := [Piece(0, whole)];
    assert ps[..0] == [];
    assert End(ps) == |whole|;
    forall i | 0 <= i < |whole| ensures LastAt(ps, i) == whole[i] {
    }
  }

  /** A Data-Out under a tag without a buffer is ignored; one that is not final adds its piece and runs nothing; the
      final one takes the buffer out, forgets the task, advances the sequence number, and runs what was remembered, if
      anything was, on all that was assembled. */
  lemma DataOutDoes(s: Session, p: PDU)
    requires Uint(p.bhs[40..44]) + |p.data| < 0x1_0000_0000
    ensures var (after, events) := TakeDataOut(s, p);
      var t := Uint(p.bhs[16..20]);
      if t !in s.buffers then after == s && events == []
      else
        var filled := Added(s.buffers[t], Piece(Uint(p.bhs[40..44]), p.data));
        && filled.Success?
        && if p.bhs[1] < 0x80 then after == s.(buffers := s.buffers[t := filled.value]) && events == []
           else
             && after == s.(buffers := s.buffers - {t}, cdbs := s.cdbs - {t}, reqs := s.reqs - {t},
                            statSN := (s.statSN + 1) % 0x1_0000_0000)
             && events == if t in s.cdbs && t in s.reqs then [Execute(t, s.cdbs[t], filled.value.data)] else []
  {
    var t := TaskTag(p);
    if t in s.buffers { AddFails(s.buffers[t], Carried(p)); }
    hide Added;
  }

  // ---------- where the code falls short ----------

  /** A write command with its final bit set that brings a beginning of the initiator's data runs on exactly that
      data if and only if it brought all of it. What is missing never reaches it: the command is remembered as
      pending, but it has no buffer, so no Data-Out that follows, with or without the final bit, runs anything. */
  lemma FinalCommandRunsShort(s: Session, req: PDU, whole: seq<byte>, inputs: seq<Input>)
    requires IsWrite(req) && IsFinal(req) && TaskTag(req) !in s.buffers
    requires |req.data| <= |whole| == ExpectedLen(req) && req.data == whole[..|req.data|]
    requires forall k :: 0 <= k < |inputs| && Tag(inputs[k]) == TaskTag(req) ==> inputs[k].Data?
    ensures HandleCommand(s, req).1 == [Execute(TaskTag(req), Cdb(req), whole)] <==> |req.data| >= ExpectedLen(req)
    ensures forall k :: 0 <= k < |inputs| && Tag(inputs[k]) == TaskTag(req) ==>
              Handle(After(HandleCommand(s, req).0, inputs[..k]), inputs[k]).1 == []
  {
    assert whole[..|whole|] == whole;
    var start, t := HandleCommand(s, req).0, TaskTag(req);
    hide HandleCommand;
    forall k | 0 <= k < |inputs| && Tag(inputs[k]) == t ensures Handle(After(start, inputs[..k]), inputs[k]).1 == [] {
      assert forall j :: 0 <= j < k ==> inputs[..k][j] == inputs[j];
      Unbuffered(start, inputs[..k], t);
      hide After, IsFinal, Added;
    }
  }

  /** A task without a buffer has none until a command for it comes. */
  lemma {:induction false} Unbuffered(s: Session, inputs: seq<Input>, t: nat)
    requires t !in s.buffers && forall k :: 0 <= k < |inputs| ==> Tag(inputs[k]) == t ==> inputs[k].Data?
    ensures t !in After(s, inputs).buffers
  {
    hide TaskTag, Prefilled, IsWrite, IsFinal, ExpectedLen, Added, Carried;
    if inputs != [] {
      assert forall k :: 0 <= k < |inputs| - 1 ==> inputs[..|inputs| - 1][k] == inputs[k];
      Unbuffered(s, inputs[..|inputs| - 1], t);
    }
  }

  /** For a task that is not remembered, Data-Outs run nothing. */
  lemma NothingRuns(s: Session, inputs: seq<Input>, t: nat)
    requires t !in s.cdbs
    requires forall k :: 0 <= k < |inputs| && Tag(inputs[k]) == t ==> inputs[k].Data? && InRange(Carried(inputs[k].p))
    ensures forall k :: 0 <= k < |inputs| && Tag(inputs[k]) == t ==> Handle(After(s, inputs[..k]), inputs[k]).1 == []
  {
    forall k | 0 <= k < |inputs| && Tag(inputs[k]) == t ensures Handle(After(s, inputs[..k]), inputs[k]).1 == [] {
      assert forall j :: 0 <= j < k ==> inputs[..k][j] == inputs[j];
      Forgotten(s, inputs[..k], t);
      hide After, TaskTag, Carried, IsFinal, Added, HandleCommand;
      var m := After(s, inputs[..k]);
      if t in m.buffers { AddFails(m.buffers[t], Carried(inputs[k].p)); }
    }
  }

  /** A write command that brings all its data at once with the final bit clear runs at once when InitialR2T was
      negotiated away. Otherwise it is never remembered: a transfer of nothing is asked for, and whatever
      answers it, even with the final bit, runs nothing. */
  lemma UnneededTransfer(s: Session, req: PDU, inputs: seq<Input>)
    requires IsWrite(req) && !IsFinal(req) && ExpectedLen(req) <= |req.data| < TWO_32
    requires TaskTag(req) !in s.cdbs
    requires forall k :: 0 <= k < |inputs| && Tag(inputs[k]) == TaskTag(req) ==> inputs[k].Data? && InRange(Carried(inputs[k].p))
    ensures HandleCommand(s, req).1 == [Execute(TaskTag(req), Cdb(req), req.data)] <==> !s.initialR2T
    ensures s.initialR2T ==>
              forall k :: 0 <= k < |inputs| && Tag(inputs[k]) == TaskTag(req) ==>
                Handle(After(HandleCommand(s, req).0, inputs[..k]), inputs[k]).1 == []
  {
    if s.initialR2T { NothingRuns(HandleCommand(s, req).0, inputs, TaskTag(req)); }
  }

  /** A task that is not remembered stays so until a command for it comes. */
  lemma {:induction false} Forgotten(s: Session, inputs: seq<Input>, t: nat)
    requires t !in s.cdbs && forall k :: 0 <= k < |inputs| ==> Tag(inputs[k]) == t ==> inputs[k].Data?
    ensures t !in After(s, inputs).cdbs
  {
    hide AddDataOut, TaskTag, Prefilled, IsWrite, IsFinal, ExpectedLen;
    if inputs != [] {
      assert forall k :: 0 <= k < |inputs| - 1 ==> inputs[..|inputs| - 1][k] == inputs[k];
      Forgotten(s, inputs[..|inputs| - 1], t);
    }
  }

  // ---------- the connection, in place ----------

  class Connection {
    var pendingCDB: map<nat, seq<byte>>
    var pendingReq: map<nat, PDU>
    const reassembly: ReassemblyMap
    var statSN: nat
    const initialR2T: bool

    ghost function State(): Session
      reads this, reassembly
    {
      Session(pendingCDB, pendingReq, reassembly.shown, statSN, initialR2T)
    }

    constructor (initialR2T: bool, statSN: uint32)
      ensures reassembly.Valid() && fresh(reassembly) && State() == Session(map[], map[], map[], statSN, initialR2T)
    {
      pendingCDB, pendingReq := map[], map[];
      reassembly := new ReassemblyMap();
      this.statSN, this.initialR2T := statSN, initialR2T;
    }

    /** Starts a buffer for a task and stores the immediate data in it as if a first Data-Out had brought it. */
    method Prefill(tag: nat, expectedLen: nat, immediate: seq<byte>)
      requires reassembly.Valid() && tag < TWO_32 && |immediate| < TWO_32
      modifies reassembly
      ensures reassembly.Valid()
      ensures reassembly.shown == old(reassembly.shown)[tag := Prefilled(expectedLen, immediate)]
    {
      reassembly.InitBuffer(tag, expectedLen);
      if |immediate| > 0 {
        FirstPieceFields(tag, immediate);
        AddFails(NewBuf(expectedLen), Piece(0, immediate));
        hide Added, NewBuf, FirstPiece, TaskTag, Carried, IsFinal;
        var stored := reassembly.AddPDU(FirstPiece(tag, immediate));
      }
    }

    /** Remembers a command that waits for data, then starts the transfer or runs the command. */
    method HandleSCSICommand(req: PDU) returns (events: seq<Event>)
      requires reassembly.Valid() && |req.data| < TWO_32
      modifies this, reassembly
      ensures reassembly.Valid() && (State(), events) == HandleCommand(old(State()), req)
    {
      TagFits(req);
      hide TaskTag, IsWrite, IsFinal, ExpectedLen, Cdb, Prefilled;
      var t, isWrite, expectedLen, sent := TaskTag(req), IsWrite(req), ExpectedLen(req), Length32(req);
      if isWrite && expectedLen > sent {
        pendingCDB := pendingCDB[t := Cdb(req)];
        pendingReq := pendingReq[t := req];
      }
      statSN := (statSN + 1) % TWO_32;
      var writeData := [];
      if isWrite {
        if IsFinal(req) || !initialR2T {
          writeData := req.data;
          if !IsFinal(req) && expectedLen > sent {
            Prefill(t, expectedLen, req.data);
            return [ReadyToTransfer(t, sent, (expectedLen + TWO_32 - sent) % TWO_32)];
          }
        } else {
          Prefill(t, expectedLen, req.data);
          return [ReadyToTransfer(t, sent, (expectedLen + TWO_32 - sent) % TWO_32)];
        }
      }
      events := [Execute(t, Cdb(req), writeData)];
    }

    /** Adds a Data-Out; the final one completes the command that is remembered for its task. */
    method HandleDataOut(p: PDU) returns (events: seq<Event>)
      requires reassembly.Valid()
      modifies this, reassembly, reassembly.Objects()
      ensures events == TakeDataOut(old(State()), p).1
      ensures events != [Crash] ==> reassembly.Valid() && State() == TakeDataOut(old(State()), p).0
    {
      hide TaskTag, AddDataOut;
      var t := TaskTag(p);
      var added := reassembly.AddPDU(p);
      if added.Failure? {
        if added.error == Panicked { return [Crash]; }
        AddDataOutFails(old(reassembly.shown), p);
        return [];
      }
      if added.value.None? { return []; }
      var found := t in pendingCDB && t in pendingReq;
      var cdb := if t in pendingCDB then pendingCDB[t] else [];
      pendingCDB := pendingCDB - {t};
      pendingReq := pendingReq - {t};
      statSN := (statSN + 1) % TWO_32;
      events := if found then [Execute(t, cdb, added.value.value)] else [];
    }
  }

  lemma TagFits(p: PDU)
    ensures TaskTag(p) < TWO_32
  {
    GetPut(p.bhs[16..20]);
    Spans();
  }

  /** A Data-Out PDU that carries the immediate data. */
  function FirstPiece(tag: nat, immediate: seq<byte>): PDU {
    PDU(Put(ZeroBytes(48), 16, PutUint(tag, 4)), [], immediate)
  }

  lemma FirstPieceFields(tag: nat, immediate: seq<byte>)
    requires tag < TWO_32
    ensures var p := FirstPiece(tag, immediate);
      TaskTag(p) == tag && Carried(p) == Piece(0, immediate) && !IsFinal(p)
  {
    Spans();
    PutGetFits(tag, 4);
    ZeroSpells();
    hide PutUint, Uint, Span;
    var h := FirstPiece(tag, immediate).bhs;
    assert h[16..20] == PutUint(tag, 4) && h[40..44] == [0, 0, 0, 0];
  }

  lemma ZeroSpells()
    ensures Uint([0, 0, 0, 0]) == 0
  {
    assert Uint([0, 0, 0]) == 0 by {
      assert Uint([0, 0]) == 0 by {
        assert [0, 0][..1] == [0] && [0][..0] == [];
      }
      assert [0, 0, 0][..2] == [0, 0];
    }
    assert [0, 0, 0, 0][..3] == [0, 0, 0];
  }
}
