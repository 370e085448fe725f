/** Reassembly of the data of a write command from Data-Out PDUs, in any order, with overlaps and holes
    (internal/iscsi/data_out.go; RFC 7143, section 11.7). */
module DataOut {
  import opened Bytes
  import opened Errors
  import opened Pdus

  /** A growing byte buffer: the bytes in use, and the cells after them that it may still grow into. */
  datatype Buf = Buf(data: seq<byte>, spare: seq<byte>)

  datatype Piece = Piece(offset: nat, data: seq<byte>)

  function Max(a: nat, b: nat): nat {
    if a > b then a else b
  }

  ghost predicate Sound(b: Buf) {
    forall i :: 0 <= i < |b.spare| ==> b.spare[i] == 0
  }

  function NewBuf(expectedLen: nat): (b: Buf)
    ensures Sound(b) && b.data == []
  {
    Buf([], ZeroBytes(expectedLen))
  }

  /** Makes room for `needed` bytes, at least doubling the cells when there are too few. */
  function Grown(b: Buf, needed: nat): (g: Buf)
    ensures |g.data| == Max(|b.data|, needed)
  {
    var cap := |b.data| + |b.spare|;
    if needed > cap then Buf(b.data + ZeroBytes(needed - |b.data|), ZeroBytes(Max(needed, 2 * cap) - needed))
    else if needed > |b.data| then Buf(b.data + b.spare[..needed - |b.data|], b.spare[needed - |b.data|..])
    else b
  }

  function Overlay(cells: seq<byte>, offset: nat, data: seq<byte>): (r: seq<byte>)
    requires offset + |data| <= |cells|
    ensures |r| == |cells|
    ensures forall i :: 0 <= i < |cells| ==> r[i] == if offset <= i < offset + |data| then data[i - offset] else cells[i]
  {
    cells[..offset] + data + cells[offset + |data|..]
  }

  /** The end of a piece in 32-bit arithmetic. */
  function Needed(p: Piece): nat {
    (p.offset + |p.data|) % TWO_32
  }

  /** Copies a piece into place. A piece whose end wraps around may start past the end of the buffer, and then
      the copy fails. */
  function Added(b: Buf, p: Piece): Result<Buf> {
    var g := Grown(b, Needed(p));
    if p.offset > |g.data| then Failure(Panicked) else
    var n := if |p.data| > |g.data| - p.offset then |g.data| - p.offset else |p.data|;
    Success(g.(data := Overlay(g.data, p.offset, p.data[..n])))
  }

  predicate InRange(p: Piece) {
    p.offset + |p.data| < TWO_32
  }

  // ---------- what was received ----------

  /** Where the furthest piece ends. */
  function End(ps: seq<Piece>): nat {
    if ps == [] then 0 else
    var last := ps[|ps| - 1];
    Max(End(ps[..|ps| - 1]), last.offset + |last.data|)
  }

  predicate Covers(p: Piece, i: nat) {
    p.offset <= i < p.offset + |p.data|
  }

  /** The byte at `i` of the last piece that covers it; zero in a hole. */
  function LastAt(ps: seq<Piece>, i: nat): byte {
    if ps == [] then 0 else
    var last := ps[|ps| - 1];
    if Covers(last, i) then last.data[i - last.offset] else LastAt(ps[..|ps| - 1], i)
  }

  function Assembled(ps: seq<Piece>): (s: seq<byte>)
    ensures |s| == End(ps) && forall i :: 0 <= i < |s| ==> s[i] == LastAt(ps, i)
  {
    seq(End(ps), i requires 0 <= i => LastAt(ps, i))
  }

  lemma {:induction false} PastEnd(ps: seq<Piece>, i: nat)
    requires i >= End(ps)
    ensures LastAt(ps, i) == 0
  {
    if ps != [] { PastEnd(ps[..|ps| - 1], i); }
  }

  /** A copy fails exactly when the piece starts past the buffer as grown, and that never happens to a piece
      that ends below 2^32. */
  lemma AddFails(b: Buf, p: Piece)
    ensures Added(b, p).Failure? <==> p.offset > Max(|b.data|, Needed(p))
    ensures InRange(p) ==> Added(b, p).Success?
  {
  }

  /** A buffer that holds what some pieces assemble to holds, after one more, what all of them do. */
  lemma AddAssembles(b: Buf, ps: seq<Piece>, p: Piece)
    requires Sound(b) && b.data == Assembled(ps) && InRange(p)
    ensures Added(b, p).Success? && Sound(Added(b, p).value)
    ensures Added(b, p).value.data == Assembled(ps + [p])
  {
    var r := Added(b, p).value.data;
    var all := ps + [p];
    assert all[..|ps|] == ps;
    GrownKeeps(b, Needed(p));
    assert |r| == End(all);
    hide Grown;
    assert p.data[..|p.data|] == p.data;
    forall i | 0 <= i < |r| ensures r[i] == LastAt(all, i) {
      if !Covers(p, i) && i >= |b.data| { PastEnd(ps, i); }
    }
  }

  lemma GrownKeeps(b: Buf, needed: nat)
    requires Sound(b)
    ensures var g := Grown(b, needed);
      && Sound(g) && forall i :: 0 <= i < |g.data| ==> g.data[i] == if i < |b.data| then b.data[i] else 0
  {
  }

  function AddAll(b: Buf, ps: seq<Piece>): Result<Buf> {
    if ps == [] then Success(b) else
    match AddAll(b, ps[..|ps| - 1])
    case Failure(e) => Failure(e)
    case Success(m) => Added(m, ps[|ps| - 1])
  }

  /** After any sequence of pieces, overlapping, out of order or past the size first expected, byte `i` is that
      of the last piece that covers it, or zero in a hole. */
  lemma {:induction false} ReassemblyIsLast(expectedLen: nat, ps: seq<Piece>)
    requires forall i :: 0 <= i < |ps| ==> InRange(ps[i])
    ensures AddAll(NewBuf(expectedLen), ps).Success?
    ensures Sound(AddAll(NewBuf(expectedLen), ps).value)
    ensures AddAll(NewBuf(expectedLen), ps).value.data == Assembled(ps)
  {
    hide Added, NewBuf;
    if ps != [] {
      var init := ps[..|ps| - 1];
      ReassemblyIsLast(expectedLen, init);
      assert init + [ps[|ps| - 1]] == ps;
      AddAssembles(AddAll(NewBuf(expectedLen), init).value, init, ps[|ps| - 1]);
    } else {
      assert Assembled(ps) == [];
    }
  }

  // ---------- pieces of one whole ----------

  predicate PieceOf(p: Piece, whole: seq<byte>) {
    p.offset + |p.data| <= |whole| && p.data == whole[p.offset..p.offset + |p.data|]
  }

  ghost predicate CoverAll(ps: seq<Piece>, n: nat) {
    forall i :: 0 <= i < n ==> Covered(ps, i)
  }

  ghost predicate Covered(ps: seq<Piece>, i: nat) {
    exists k :: 0 <= k < |ps| && Covers(ps[k], i)
  }

  /** Pieces of one whole assemble to it exactly when they reach its end and leave out no byte but zeros,
      however they were cut and in whatever order they came. */
  lemma WholeAssembles(ps: seq<Piece>, whole: seq<byte>)
    requires forall k :: 0 <= k < |ps| ==> PieceOf(ps[k], whole)
    ensures Assembled(ps) == whole <==>
            End(ps) == |whole| && forall i :: 0 <= i < |whole| ==> Covered(ps, i) || whole[i] == 0
  {
    EndWithin(ps, whole);
    forall i | 0 <= i < |whole| ensures LastAt(ps, i) == if Covered(ps, i) then whole[i] else 0 {
      if Covered(ps, i) {
        var k :| 0 <= k < |ps| && Covers(ps[k], i);
        LastOfWhole(ps, whole, i, k);
      } else {
        UncoveredZero(ps, i);
      }
    }
  }

  /** So pieces that leave no byte out do. */
  lemma CoverAssembles(ps: seq<Piece>, whole: seq<byte>)
    requires (forall k :: 0 <= k < |ps| ==> PieceOf(ps[k], whole)) && CoverAll(ps, |whole|)
    ensures Assembled(ps) == whole
  {
    EndWithin(ps, whole);
    if |whole| > 0 {
      assert Covered(ps, |whole| - 1);
      var k :| 0 <= k < |ps| && Covers(ps[k], |whole| - 1);
      EndReaches(ps, k);
    }
    WholeAssembles(ps, whole);
  }

  lemma {:induction false} UncoveredZero(ps: seq<Piece>, i: nat)
    requires !Covered(ps, i)
    ensures LastAt(ps, i) == 0
  {
    if ps != [] {
      assert !Covers(ps[|ps| - 1], i);
      assert forall k :: 0 <= k < |ps| - 1 ==> ps[..|ps| - 1][k] == ps[k];
      UncoveredZero(ps[..|ps| - 1], i);
    }
  }

  lemma {:induction false} EndWithin(ps: seq<Piece>, whole: seq<byte>)
    requires forall k :: 0 <= k < |ps| ==> PieceOf(ps[k], whole)
    ensures End(ps) <= |whole|
  {
    if ps != [] {
      assert forall k :: 0 <= k < |ps| - 1 ==> ps[..|ps| - 1][k] == ps[k];
      EndWithin(ps[..|ps| - 1], whole);
    }
  }

  lemma {:induction false} EndReaches(ps: seq<Piece>, k: nat)
    requires k < |ps|
    ensures End(ps) >= ps[k].offset + |ps[k].data|
  {
    if k < |ps| - 1 { EndReaches(ps[..|ps| - 1], k); }
  }

  lemma {:induction false} LastOfWhole(ps: seq<Piece>, whole: seq<byte>, i: nat, k: nat)
    requires (forall j :: 0 <= j < |ps| ==> PieceOf(ps[j], whole)) && k < |ps| && Covers(ps[k], i) && i < |whole|
    ensures LastAt(ps, i) == whole[i]
  {
    var n := |ps| - 1;
    if !Covers(ps[n], i) {
      assert forall j :: 0 <= j < n ==> ps[..n][j] == ps[j];
      LastOfWhole(ps[..n], whole, i, k);
    }
  }

  // ---------- the buffer and the map, in place ----------

  /** Copies cell by cell. */
  method CopyInto(cells: seq<byte>, offset: nat, data: seq<byte>) returns (r: seq<byte>)
    requires offset + |data| <= |cells|
    ensures r == Overlay(cells, offset, data)
  {
    r := cells;
    for k := 0 to |data|
      invariant |r| == |cells|
      invariant forall i :: 0 <= i < |r| ==> r[i] == if offset <= i < offset + k then data[i - offset] else cells[i]
    {
      r := r[offset + k := data[k]];
    }
  }

  /** The reassembly buffer of one command. */
  class DataOutBuffer {
    const itt: nat
    var data: seq<byte>
    var spare: seq<byte>
    var nextDataSN: nat

    function View(): Buf
      reads this
    {
      Buf(data, spare)
    }

    constructor (itt: nat, expectedLen: nat)
      ensures this.itt == itt && View() == NewBuf(expectedLen)
    {
      this.itt := itt;
      data, spare := [], ZeroBytes(expectedLen);
      nextDataSN := 0;
    }

    /** Copies a piece into place, after making room for it: a buffer that is too small is copied into one of at
        least twice the size. */
    method Add(p: Piece, dataSN: nat) returns (r: Status)
      modifies this
      ensures match Added(old(View()), p)
              case Success(b) => r == Ok && View() == b && nextDataSN == (dataSN + 1) % TWO_32
              case Failure(e) => r == e
    {
      var needed, cap := Needed(p), |data| + |spare|;
      if needed > cap {
        data, spare := data + ZeroBytes(needed - |data|), ZeroBytes(Max(needed, 2 * cap) - needed);
      } else if needed > |data| {
        data, spare := data + spare[..needed - |data|], spare[needed - |data|..];
      }
      assert View() == Grown(old(View()), needed);
      hide Grown, Needed;
      if p.offset > |data| { return Panicked; }
      var n := if |p.data| > |data| - p.offset then |data| - p.offset else |p.data|;
      data := CopyInto(data, p.offset, p.data[..n]);
      nextDataSN := (dataSN + 1) % TWO_32;
      r := Ok;
    }
  }

  // ---------- the map of buffers ----------

  function TaskTag(p: PDU): nat {
    Uint(p.bhs[16..20])
  }

  function DataSN(p: PDU): nat {
    Uint(p.bhs[36..40])
  }

  /** The part of a command's data that a Data-Out PDU carries. */
  function Carried(p: PDU): Piece {
    Piece(Uint(p.bhs[40..44]), p.data)
  }

  predicate IsFinal(p: PDU) {
    p.bhs[1] >= FINAL
  }

  type Buffers = map<nat, Buf>

  /** Adds a PDU to its command's buffer; the final one takes the buffer out and returns what it holds. */
  function AddDataOut(m: Buffers, p: PDU): (r: (Buffers, Result<Option<seq<byte>>>)) {
    var t := TaskTag(p);
    if t !in m then (m, Failure(NoTask)) else
    match Added(m[t], Carried(p))
    case Failure(e) => (m, Failure(e))
    case Success(b) =>
      if IsFinal(p) then (m - {t}, Success(Some(b.data))) else (m[t := b], Success(None))
  }

  lemma AddDataOutFails(m: Buffers, p: PDU)
    ensures AddDataOut(m, p).1.Failure? ==> AddDataOut(m, p).0 == m
  {
    hide Added;
  }

  lemma OnlyPanics(b: Buf, p: Piece)
    ensures Added(b, p).Failure? ==> Added(b, p).error == Panicked
  {
  }

  /** `shown` is what the buffers hold, as values. */
  class ReassemblyMap {
    var buffers: map<nat, DataOutBuffer>
    ghost var shown: Buffers

    ghost function Objects(): set<object>
      reads this
    {
      set t | t in buffers :: buffers[t]
    }

    ghost predicate Valid()
      reads this, Objects()
    {
      && shown.Keys == buffers.Keys
      && (forall t :: t in buffers ==> buffers[t].itt == t && buffers[t].View() == shown[t])
    }

    constructor ()
      ensures Valid() && shown == map[]
    {
      buffers := map[];
      shown := map[];
    }

    method InitBuffer(tag: nat, expectedLen: nat)
      requires Valid()
      modifies this
      ensures Valid() && shown == old(shown)[tag := NewBuf(expectedLen)]
      ensures tag in buffers && fresh(buffers[tag])
    {
      hide NewBuf;
      var b := new DataOutBuffer(tag, expectedLen);
      buffers := buffers[tag := b];
      shown := shown[tag := NewBuf(expectedLen)];
    }

    method AddPDU(p: PDU) returns (r: Result<Option<seq<byte>>>)
      requires Valid()
      modifies this, if TaskTag(p) in buffers then {buffers[TaskTag(p)]} else {}
      ensures r == AddDataOut(old(shown), p).1
      ensures r != Failure(Panicked) ==> Valid() && shown == AddDataOut(old(shown), p).0
    {
      var t := TaskTag(p);
      if t !in buffers { return Failure(NoTask); }
      hide Added, IsFinal, Carried, TaskTag;
      var b := buffers[t];
      var added := b.Add(Carried(p), DataSN(p));
      OnlyPanics(shown[t], Carried(p));
      if added != Ok { return Failure(added); }
      shown := AddDataOut(shown, p).0;
      if IsFinal(p) {
        buffers := buffers - {t};
        return Success(Some(b.data));
      }
      r := Success(None);
    }

    method ClearBuffer(tag: nat)
      requires Valid()
      modifies this
      ensures Valid() && shown == old(shown) - {tag}
    {
      buffers := buffers - {tag};
      shown := shown - {tag};
    }
  }

  // ---------- one piece, wherever it ends ----------

  /** What a copy that does not fail leaves: the buffer reaches to the end of the piece in 32-bit arithmetic, if it did
      not before, and holds as much of the piece as fits; the rest is as it was, or zero. */
  lemma AddIs(b: Buf, p: Piece)
    requires Sound(b) && Added(b, p).Success?
    ensures var r := Added(b, p).value;
      && Sound(r) && |r.data| == Max(|b.data|, (p.offset + |p.data|) % 0x1_0000_0000)
      && forall i :: 0 <= i < |r.data| ==>
           r.data[i] == if Covers(p, i) then p.data[i - p.offset] else if i < |b.data| then b.data[i] else 0
  {
    GrownKeeps(b, Needed(p));
    hide Grown;
  }
}
