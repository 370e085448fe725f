/** The journal file: frames of a length and an entry, and the scans over them (internal/journal/journal.go,
    checkpoint.go). What is read from every byte prefix of a file, and what a torn or oversized frame hides. */
module Frames {
  import opened Bytes
  import opened Errors
  import opened Segment
  import opened Log
  import opened Codec
  import opened R = Recovery

  /** The longest frame that the record reader takes, and the longest that the checkpoint scan takes. */
  const READ_LIMIT: nat := 104857600
  const SCAN_LIMIT: nat := 1073741824

  /** The length is cut to 32 bits. */
  function Frame(data: seq<byte>): (s: seq<byte>)
    ensures |s| == 4 + |data|
  {
    PutUint(|data|, 4) + data
  }

  function FrameAll(crc: Checksum, es: seq<Entry>): (s: seq<byte>)
    ensures es != [] ==> |s| >= 4 + BASE_SIZE
  {
    if es == [] then [] else Frame(Encode(crc, es[0])) + FrameAll(crc, es[1..])
  }

  /** The contents of the next frame, unless it is incomplete or its length is out of bounds. */
  function NextFrame(file: seq<byte>, limit: nat): (r: Option<seq<byte>>)
    ensures r.Some? ==> BASE_SIZE <= |r.value| <= limit && 4 + |r.value| <= |file|
  {
    if |file| < 4 then None else
    var n := Uint(file[..4]);
    if n < BASE_SIZE || n > limit || |file| < 4 + n then None else Some(file[4..4 + n])
  }

  /** The records above a number, up to the first frame that is not a whole valid record. */
  function ReadRecords(crc: Checksum, file: seq<byte>, after: nat): seq<Record>
    decreases |file|
  {
    match NextFrame(file, READ_LIMIT)
    case None => []
    case Some(data) =>
      match Unmarshal(crc, data)
      case Failure(_) => []
      case Success(r) => (if r.lsn > after then [r] else []) + ReadRecords(crc, file[4 + |data|..], after)
  }

  /** The better of the best checkpoint so far and a frame: frames that are not valid checkpoints are skipped. */
  function Better(crc: Checksum, data: seq<byte>, best: Option<Entry>): (r: Result<Option<Entry>>)
    requires |data| >= BASE_SIZE && (best.Some? ==> best.value.Snapshot?)
    ensures r.Success? && r.value.Some? ==> r.value.value.Snapshot?
  {
    if data[8] != CHECKPOINT then Success(best) else
    match UnmarshalCheckpoint(crc, data)
    case Success(cp) => Success(if best.None? || cp.rec.lsn > best.value.rec.lsn then Some(cp) else best)
    case Failure(e) => if e == Panicked then Failure(e) else Success(best)
  }

  function ScanCheckpoints(crc: Checksum, file: seq<byte>, best: Option<Entry>): (r: Result<Option<Entry>>)
    requires best.Some? ==> best.value.Snapshot?
    ensures r.Success? && r.value.Some? ==> r.value.value.Snapshot?
    decreases |file|
  {
    match NextFrame(file, SCAN_LIMIT)
    case None => Success(best)
    case Some(data) =>
      match Better(crc, data, best)
      case Failure(e) => Failure(e)
      case Success(better) => ScanCheckpoints(crc, file[4 + |data|..], better)
  }

  /** The largest number in a file; invalid records are passed over, and no frame is too long. */
  function ScanMaxLSN(crc: Checksum, file: seq<byte>): nat
    decreases |file|
  {
    match NextFrame(file, TWO_32)
    case None => 0
    case Some(data) =>
      var rest := ScanMaxLSN(crc, file[4 + |data|..]);
      match Unmarshal(crc, data)
      case Failure(_) => rest
      case Success(r) => if r.lsn > rest then r.lsn else rest
  }

  /** The records that recovery replays over the table. */
  function Replayed(crc: Checksum, file: seq<byte>): seq<Record> {
    match ScanCheckpoints(crc, file, None)
    case Failure(_) => []
    case Success(None) => ReadRecords(crc, file, 0)
    case Success(Some(cp)) => ReadRecords(crc, file, cp.rec.lsn)
  }

  /** Recovery from the bytes of a journal. */
  function RecoverFile(crc: Checksum, t: Table, file: seq<byte>, zones: nat): Result<Table> {
    match ScanCheckpoints(crc, file, None)
    case Failure(e) => Failure(e)
    case Success(None) => Replay(t, ReadRecords(crc, file, 0), zones)
    case Success(Some(cp)) =>
      if |cp.table| != |t| then Failure(NoSuchSegment)
      else Replay(cp.table, ReadRecords(crc, file, cp.rec.lsn), zones)
  }

  // ---------- prefixes ----------

  ghost predicate AllStorable(es: seq<Entry>) {
    forall i :: 0 <= i < |es| ==> Storable(es[i])
  }

  /** How many leading entries are wholly inside the first `k` bytes and within the limit. */
  function Visible(es: seq<Entry>, k: nat, limit: nat): (n: nat)
    ensures n <= |es|
  {
    if es == [] || k < 4 + Size(es[0]) || Size(es[0]) > limit then 0
    else 1 + Visible(es[1..], k - 4 - Size(es[0]), limit)
  }

  /** How many entries are wholly inside the first `k` bytes. */
  function Complete(es: seq<Entry>, k: nat): nat {
    Visible(es, k, TWO_32)
  }

  /** The visible entries are as many as fit, up to the first that is too long. */
  lemma {:induction false} VisibleIs(crc: Checksum, es: seq<Entry>, k: nat, limit: nat)
    ensures var n := Visible(es, k, limit);
      && |FrameAll(crc, es[..n])| <= k
      && (forall i :: 0 <= i < n ==> Size(es[i]) <= limit)
      && (n < |es| ==> k < |FrameAll(crc, es[..n + 1])| || Size(es[n]) > limit)
  {
    hide Encode, Frame;
    var n := Visible(es, k, limit);
    if es != [] {
      if n > 0 {
        VisibleIs(crc, es[1..], k - 4 - Size(es[0]), limit);
        assert es[..n][1..] == es[1..][..n - 1];
        assert n < |es| ==> es[..n + 1][1..] == es[1..][..n];
        assert forall i :: 1 <= i < n ==> es[i] == es[1..][i - 1];
      } else {
        assert es[..1][1..] == [];
        assert FrameAll(crc, es[..0]) == [];
        assert FrameAll(crc, es[..1]) == Frame(Encode(crc, es[0])) + [];
      }
    }
  }

  /** Without long entries the limit does not matter. */
  lemma {:induction false} VisibleComplete(es: seq<Entry>, k: nat, limit: nat)
    requires limit <= TWO_32 && forall i :: 0 <= i < |es| ==> Size(es[i]) <= limit
    ensures Visible(es, k, limit) == Complete(es, k)
  {
    if es != [] && k >= 4 + Size(es[0]) {
      VisibleComplete(es[1..], k - 4 - Size(es[0]), limit);
    }
  }

  /** A frame followed by anything is read first, unless it is cut or too long. */
  lemma FirstOf(data: seq<byte>, rest: seq<byte>, k: nat, limit: nat)
    requires BASE_SIZE <= |data| < TWO_32 && k <= 4 + |data| + |rest|
    ensures var s := (Frame(data) + rest)[..k];
      && (k < 4 + |data| || |data| > limit ==> NextFrame(s, limit) == None)
      && (k >= 4 + |data| && |data| <= limit ==>
            NextFrame(s, limit) == Some(data) && s[4 + |data|..] == rest[..k - 4 - |data|])
  {
    Spans();
    PutGetFits(|data|, 4);
    var length := PutUint(|data|, 4);
    var s := (Frame(data) + rest)[..k];
    assert Frame(data) == length + data;
    hide Frame, PutUint, Uint, Span;
    if k >= 4 {
      assert s[..4] == length;
    }
    if k >= 4 + |data| {
      assert s == length + (data + rest[..k - 4 - |data|]);
      assert s[4..4 + |data|] == data;
    }
  }

  lemma FirstFrame(crc: Checksum, e: Entry, rest: seq<byte>, k: nat, limit: nat)
    requires Storable(e) && k <= 4 + Size(e) + |rest|
    ensures var s := (Frame(Encode(crc, e)) + rest)[..k];
      && (k < 4 + Size(e) || Size(e) > limit ==> NextFrame(s, limit) == None)
      && (k >= 4 + Size(e) && Size(e) <= limit ==>
            NextFrame(s, limit) == Some(Encode(crc, e)) && s[4 + Size(e)..] == rest[..k - 4 - Size(e)])
  {
    hide Encode, Frame, NextFrame;
    FirstOf(Encode(crc, e), rest, k, limit);
  }

  lemma FirstWhole(crc: Checksum, e: Entry, rest: seq<byte>, limit: nat)
    requires Storable(e) && Size(e) <= limit
    ensures var s := Frame(Encode(crc, e)) + rest;
      NextFrame(s, limit) == Some(Encode(crc, e)) && |s| >= 4 + |Encode(crc, e)| && s[4 + |Encode(crc, e)|..] == rest
  {
    hide NextFrame, Frame, Encode;
    var s := Frame(Encode(crc, e)) + rest;
    FirstFrame(crc, e, rest, |s|, limit);
    assert s[..|s|] == s && rest[..|rest|] == rest;
  }

  lemma FrameAllCons(crc: Checksum, es: seq<Entry>, rest: seq<byte>)
    requires es != []
    ensures FrameAll(crc, es) + rest == Frame(Encode(crc, es[0])) + (FrameAll(crc, es[1..]) + rest)
  {
    hide Frame, Encode;
  }

  lemma FrameNone(crc: Checksum, rest: seq<byte>)
    ensures FrameAll(crc, []) + rest == rest
  {
  }

  lemma {:induction false} FrameAllAppend(crc: Checksum, a: seq<Entry>, b: seq<Entry>)
    ensures FrameAll(crc, a + b) == FrameAll(crc, a) + FrameAll(crc, b)
  {
    hide Frame, Encode, FrameAll;
    if a == [] {
      assert a + b == b;
      FrameNone(crc, FrameAll(crc, b));
    } else {
      FrameAllAppend(crc, a[1..], b);
      assert (a + b)[1..] == a[1..] + b;
      FrameAllCons(crc, a, FrameAll(crc, b));
      FrameAllCons(crc, a + b, []);
      assert FrameAll(crc, a + b) + [] == FrameAll(crc, a + b);
      assert FrameAll(crc, a[1..] + b) + [] == FrameAll(crc, a[1..] + b);
    }
  }

  lemma NothingNext(limit: nat)
    ensures NextFrame([], limit) == None
  {
  }

  lemma AboveSplit(r: Record, rs: seq<Record>, after: nat)
    ensures Above([r] + rs, after) == (if r.lsn > after then [r] else []) + Above(rs, after)
    decreases |rs|
  {
    if rs == [] {
      assert [r][..0] == [];
      assert [r] + rs == [r];
    } else {
      AboveSplit(r, rs[..|rs| - 1], after);
      assert ([r] + rs)[..|rs|] == [r] + rs[..|rs| - 1];
    }
  }

  /** One step of the reader over a whole frame. */
  lemma ReadStep(crc: Checksum, e: Entry, file: seq<byte>, rest: seq<byte>, after: nat)
    requires Storable(e) && NextFrame(file, READ_LIMIT) == Some(Encode(crc, e)) && file[4 + |Encode(crc, e)|..] == rest
    ensures ReadRecords(crc, file, after) == (if e.rec.lsn > after then [e.rec] else []) + ReadRecords(crc, rest, after)
  {
    EncodeUnmarshal(crc, e, []);
    hide Encode, NextFrame, Unmarshal;
    assert Encode(crc, e) + [] == Encode(crc, e);
  }

  lemma ReadStop(crc: Checksum, file: seq<byte>, after: nat)
    requires NextFrame(file, READ_LIMIT) == None
    ensures ReadRecords(crc, file, after) == []
  {
    hide NextFrame;
  }

  lemma AboveCons(e: Entry, es: seq<Entry>, after: nat)
    ensures Above(Records([e] + es), after) == (if e.rec.lsn > after then [e.rec] else []) + Above(Records(es), after)
  {
    RecordsCons(e, es);
    AboveSplit(e.rec, Records(es), after);
  }

  /** From every byte prefix of a journal, reading returns the records of the frames that are whole, in order
      and above the given number, up to the first frame that is too long for the reader. */
  lemma {:induction false} ReadPrefix(crc: Checksum, es: seq<Entry>, k: nat, after: nat)
    requires AllStorable(es) && k <= |FrameAll(crc, es)|
    ensures ReadRecords(crc, FrameAll(crc, es)[..k], after) == Above(Records(es[..Visible(es, k, READ_LIMIT)]), after)
  {
    hide ReadRecords, NextFrame, Encode, Frame, Storable, Records, Above;
    var n := Visible(es, k, READ_LIMIT);
    AboveNothing(after);
    assert es[..0] == [] && Records([]) == [] by { RecordsNone(); }
    var file := FrameAll(crc, es)[..k];
    if es == [] {
      NothingNext(READ_LIMIT);
      assert file == [];
      ReadStop(crc, file, after);
    } else {
      FirstFrame(crc, es[0], FrameAll(crc, es[1..]), k, READ_LIMIT);
      if n > 0 {
        ReadPrefix(crc, es[1..], k - 4 - Size(es[0]), after);
        ReadStep(crc, es[0], file, FrameAll(crc, es[1..])[..k - 4 - Size(es[0])], after);
        assert es[..n] == [es[0]] + es[1..][..n - 1];
        AboveCons(es[0], es[1..][..n - 1], after);
      } else {
        ReadStop(crc, file, after);
      }
    }
  }

  lemma RecordsNone()
    ensures Records([]) == []
  {
  }

  lemma RecordsCons(e: Entry, es: seq<Entry>)
    ensures Records([e] + es) == [e.rec] + Records(es)
  {
  }

  lemma BetterEntry(crc: Checksum, e: Entry, before: seq<Entry>)
    requires Storable(e)
    ensures |Encode(crc, e)| >= BASE_SIZE
    ensures Better(crc, Encode(crc, e), Latest(before)) == Success(Latest(before + [e]))
  {
    hide Unmarshal, UnmarshalCheckpoint;
    KindByte(crc, e, []);
    assert Encode(crc, e) + [] == Encode(crc, e);
    assert (before + [e])[..|before|] == before;
    if e.Snapshot? {
      CheckpointRoundTrip(crc, e);
    }
  }

  /** The checkpoint found in every byte prefix is the one of largest number among the whole frames, up to the
      first frame that is too long for the scan; `before` is what was scanned already. */
  lemma {:induction false} ScanPrefix(crc: Checksum, before: seq<Entry>, es: seq<Entry>, k: nat)
    requires AllStorable(es) && k <= |FrameAll(crc, es)|
    ensures ScanCheckpoints(crc, FrameAll(crc, es)[..k], Latest(before)) ==
            Success(Latest(before + es[..Visible(es, k, SCAN_LIMIT)]))
    decreases |es|
  {
    hide NextFrame, Better, Encode, Frame, Storable, Latest;
    NothingNext(SCAN_LIMIT);
    var n := Visible(es, k, SCAN_LIMIT);
    if es == [] {
      assert FrameAll(crc, es)[..k] == [];
      assert before + es[..0] == before;
    } else {
      FirstFrame(crc, es[0], FrameAll(crc, es[1..]), k, SCAN_LIMIT);
      if n > 0 {
        BetterEntry(crc, es[0], before);
        ScanPrefix(crc, before + [es[0]], es[1..], k - 4 - Size(es[0]));
        assert before + [es[0]] + es[1..][..n - 1] == before + es[..n];
      } else {
        assert before + es[..0] == before;
      }
    }
  }

  function MaxLSN(es: seq<Entry>): nat {
    if es == [] then 0 else
    var rest := MaxLSN(es[1..]);
    if es[0].rec.lsn > rest then es[0].rec.lsn else rest
  }

  /** Every number is at most the maximum, and the maximum is one of them, or 0 when there is none. */
  lemma {:induction false} MaxLSNIs(es: seq<Entry>)
    ensures forall i :: 0 <= i < |es| ==> es[i].rec.lsn <= MaxLSN(es)
    ensures MaxLSN(es) == 0 || exists i :: 0 <= i < |es| && es[i].rec.lsn == MaxLSN(es)
  {
    if es != [] {
      MaxLSNIs(es[1..]);
      assert forall i :: 1 <= i < |es| ==> es[i] == es[1..][i - 1];
      if MaxLSN(es) != es[0].rec.lsn && MaxLSN(es) != 0 {
        var i :| 0 <= i < |es[1..]| && es[1..][i].rec.lsn == MaxLSN(es[1..]);
        assert es[i + 1].rec.lsn == MaxLSN(es);
      }
    }
  }

  /** Opening a journal cut anywhere finds the largest number among its whole frames. */
  lemma {:induction false} MaxPrefix(crc: Checksum, es: seq<Entry>, k: nat)
    requires AllStorable(es) && k <= |FrameAll(crc, es)|
    ensures ScanMaxLSN(crc, FrameAll(crc, es)[..k]) == MaxLSN(es[..Complete(es, k)])
  {
    hide NextFrame, Unmarshal, Encode, Frame, Storable;
    NothingNext(TWO_32);
    var n := Complete(es, k);
    if es == [] {
      assert FrameAll(crc, es)[..k] == [];
    } else {
      FirstFrame(crc, es[0], FrameAll(crc, es[1..]), k, TWO_32);
      if n > 0 {
        MaxPrefix(crc, es[1..], k - 4 - Size(es[0]));
        EncodeUnmarshal(crc, es[0], []);
        assert Encode(crc, es[0]) + [] == Encode(crc, es[0]);
        assert es[..n][1..] == es[1..][..n - 1];
      }
    }
  }

  /** So after opening, the next number exceeds every one that survived. */
  lemma NextIsFresh(crc: Checksum, es: seq<Entry>, k: nat, i: nat)
    requires AllStorable(es) && k <= |FrameAll(crc, es)| && i < Complete(es, k)
    ensures es[i].rec.lsn < ScanMaxLSN(crc, FrameAll(crc, es)[..k]) + 1
  {
    MaxPrefix(crc, es, k);
    MaxLSNIs(es[..Complete(es, k)]);
    assert es[..Complete(es, k)][i] == es[i];
  }

  /** Recovery from a journal cut at any byte is recovery from its whole entries. */
  lemma RecoverPrefix(crc: Checksum, es: seq<Entry>, k: nat, t: Table, zones: nat)
    requires AllStorable(es) && k <= |FrameAll(crc, es)|
    requires forall i :: 0 <= i < |es| ==> Size(es[i]) <= READ_LIMIT
    ensures RecoverFile(crc, t, FrameAll(crc, es)[..k], zones) == Recover(t, es[..Complete(es, k)], zones)
  {
    hide Replay, Above, Latest, ReadRecords, ScanCheckpoints, Storable;
    var file, n := FrameAll(crc, es)[..k], Complete(es, k);
    VisibleComplete(es, k, READ_LIMIT);
    VisibleComplete(es, k, SCAN_LIMIT);
    LatestOfNone();
    ScanPrefix(crc, [], es, k);
    assert [] + es[..n] == es[..n];
    ReadPrefix(crc, es, k, 0);
    match Latest(es[..n]) {
      case None =>
      case Some(cp) => ReadPrefix(crc, es, k, cp.rec.lsn);
    }
  }

  /** The records that it replays are those of the whole entries whose numbers are above the latest checkpoint's. */
  lemma ReplayedPrefix(crc: Checksum, es: seq<Entry>, k: nat)
    requires AllStorable(es) && k <= |FrameAll(crc, es)|
    requires forall i :: 0 <= i < |es| ==> Size(es[i]) <= READ_LIMIT
    ensures var whole := es[..Complete(es, k)];
      Replayed(crc, FrameAll(crc, es)[..k])
      == Above(Records(whole), if Latest(whole).Some? then Latest(whole).value.rec.lsn else 0)
  {
    hide Above, Latest, ReadRecords, ScanCheckpoints, Storable;
    var n := Complete(es, k);
    VisibleComplete(es, k, READ_LIMIT);
    VisibleComplete(es, k, SCAN_LIMIT);
    LatestOfNone();
    ScanPrefix(crc, [], es, k);
    assert [] + es[..n] == es[..n];
    ReadPrefix(crc, es, k, 0);
    match Latest(es[..n]) {
      case None =>
      case Some(cp) => ReadPrefix(crc, es, k, cp.rec.lsn);
    }
  }

  lemma LatestOfNone()
    ensures Latest([]) == None
  {
  }

  // ---------- a frame too long for the reader ----------

  lemma {:induction false} VisibleUpTo(pre: seq<Entry>, e: Entry, post: seq<Entry>, k: nat, limit: nat)
    requires Size(e) > limit && forall i :: 0 <= i < |pre| ==> Size(pre[i]) <= limit
    ensures Visible(pre + [e] + post, k, limit) <= |pre|
    ensures k >= |pre| * 4 + Sizes(pre) ==> Visible(pre + [e] + post, k, limit) == |pre|
  {
    var es := pre + [e] + post;
    if pre == [] {
      assert es[0] == e;
    } else {
      assert es[0] == pre[0] && es[1..] == pre[1..] + [e] + post;
      if k >= 4 + Size(pre[0]) {
        VisibleUpTo(pre[1..], e, post, k - 4 - Size(pre[0]), limit);
      }
    }
  }

  function Sizes(es: seq<Entry>): nat {
    if es == [] then 0 else Size(es[0]) + Sizes(es[1..])
  }

  lemma {:induction false} FrameAllSize(crc: Checksum, es: seq<Entry>)
    ensures |FrameAll(crc, es)| == 4 * |es| + Sizes(es)
  {
    if es != [] {
      hide Encode, Frame;
      FrameAllSize(crc, es[1..]);
    }
  }

  lemma {:induction false} VisibleAll(crc: Checksum, es: seq<Entry>, limit: nat)
    requires forall i :: 0 <= i < |es| ==> Size(es[i]) <= limit
    ensures Visible(es, |FrameAll(crc, es)|, limit) == |es|
  {
    if es != [] {
      hide Encode, Frame;
      VisibleAll(crc, es[1..], limit);
    }
  }

  /** A checkpoint between the two limits is found by the scan but stops the reader, so nothing logged after
      it is replayed: recovery gives its table. That is right exactly when what follows changes nothing. */
  lemma LongCheckpointHides(crc: Checksum, pre: seq<Entry>, cp: Entry, post: seq<Entry>, t: Table, zones: nat)
    requires AllStorable(pre + [cp] + post) && cp.Snapshot? && READ_LIMIT < Size(cp) <= SCAN_LIMIT
    requires forall i :: 0 <= i < |pre| ==> Size(pre[i]) <= READ_LIMIT && pre[i].rec.lsn < cp.rec.lsn
    requires forall i :: 0 <= i < |post| ==> !post[i].Snapshot? && post[i].rec.lsn > cp.rec.lsn
    requires |t| == |cp.table|
    ensures var es := pre + [cp] + post;
      var recovered := RecoverFile(crc, t, FrameAll(crc, es), zones);
      && recovered == Success(cp.table)
      && (recovered == Recover(t, es, zones) <==> Replay(cp.table, Records(post), zones) == Success(cp.table))
  {
    hide ReadRecords, ScanCheckpoints, Storable, Replay, Latest, Above, FrameAll, Visible, Records, Sizes;
    var es := pre + [cp] + post;
    var file := FrameAll(crc, es);
    assert file[..|file|] == file;
    assert forall i :: 0 <= i < |es| ==> Size(es[i]) <= SCAN_LIMIT;
    VisibleAll(crc, es, SCAN_LIMIT);
    ScanPrefix(crc, [], es, |file|);
    LatestOfNone();
    assert [] + es[..|es|] == es;
    LatestLast(pre, cp, post);
    ReadPrefix(crc, es, |file|, cp.rec.lsn);
    FrameAllSize(crc, es);
    SizesSplit(pre, cp, post);
    VisibleUpTo(pre, cp, post, |file|, READ_LIMIT);
    assert es[..|pre|] == pre;
    NoneAbove(pre, cp.rec.lsn);
    AboveAround(pre, cp, post);
    ReplayNothing(cp.table, zones);
  }

  /** Above a checkpoint's number there is what follows it. */
  lemma AboveAround(pre: seq<Entry>, cp: Entry, post: seq<Entry>)
    requires forall i :: 0 <= i < |pre| ==> pre[i].rec.lsn < cp.rec.lsn
    requires forall i :: 0 <= i < |post| ==> post[i].rec.lsn > cp.rec.lsn
    ensures Above(Records(pre + [cp] + post), cp.rec.lsn) == Records(post)
  {
    assert Records(pre + [cp] + post) == Records(pre) + ([cp.rec] + Records(post));
    AboveAppend(Records(pre), [cp.rec] + Records(post), cp.rec.lsn);
    AboveNone(Records(pre), cp.rec.lsn);
    AboveSplit(cp.rec, Records(post), cp.rec.lsn);
    AboveAll(Records(post), cp.rec.lsn);
  }

  lemma ReplayNothing(t: Table, zones: nat)
    ensures Replay(t, [], zones) == Success(t)
  {
  }

  lemma {:induction false} SizesSplit(pre: seq<Entry>, e: Entry, post: seq<Entry>)
    ensures Sizes(pre + [e] + post) >= Sizes(pre)
  {
    if pre != [] {
      assert (pre + [e] + post)[1..] == pre[1..] + [e] + post;
      SizesSplit(pre[1..], e, post);
    }
  }

  // ---------- a torn tail ----------

  /** After whole frames, the reader goes on with whatever follows them. */
  lemma {:induction false} ReadOver(crc: Checksum, es: seq<Entry>, rest: seq<byte>, after: nat)
    requires AllStorable(es) && forall i :: 0 <= i < |es| ==> Size(es[i]) <= READ_LIMIT
    ensures ReadRecords(crc, FrameAll(crc, es) + rest, after) == Above(Records(es), after) + ReadRecords(crc, rest, after)
  {
    hide ReadRecords, NextFrame, Encode, Frame, FrameAll, Storable, Records, Above;
    if es == [] {
      FrameNone(crc, rest);
      RecordsNone();
      AboveNothing(after);
    } else {
      var tail := FrameAll(crc, es[1..]) + rest;
      FrameAllCons(crc, es, rest);
      FirstWhole(crc, es[0], tail, READ_LIMIT);
      ReadOver(crc, es[1..], rest, after);
      ReadStep(crc, es[0], FrameAll(crc, es) + rest, tail, after);
      assert es == [es[0]] + es[1..];
      AboveCons(es[0], es[1..], after);
    }
  }

  /** What the reader takes for a record when a torn one is followed by more frames. */
  function Spliced(crc: Checksum, e: Entry, r: nat, rest: seq<byte>): seq<byte>
    requires 4 <= r <= 53 && |rest| >= 53 - r && e.Plain?
  {
    Frame(Encode(crc, e))[4..r] + rest[..53 - r]
  }

  lemma PlainFrame(crc: Checksum, e: Entry)
    requires e.Plain?
    ensures |Frame(Encode(crc, e))| == 53
    ensures Frame(Encode(crc, e))[..4] == [0, 0, 0, 49]
    ensures Frame(Encode(crc, e))[4..8] == [0xAD, 0xA5, 0x00, 0x01]
  {
    PutFour(49, 0, 0, 0, 49);
    PutFour(RECORD_MAGIC, 0xAD, 0xA5, 0x00, 0x01);
    hide PutUint, Body;
  }

  /** A four-byte number, byte by byte. */
  lemma PutFour(x: nat, a: byte, b: byte, c: byte, d: byte)
    requires x == ((a * 256 + b) * 256 + c) * 256 + d
    ensures PutUint(x, 4) == [a, b, c, d] && Uint([a, b, c, d]) == x
  {
    var y := (a * 256 + b) * 256 + c;
    var z := a * 256 + b;
    OneByte(a);
    PutMore(a, 1, b);
    PutMore(z, 2, c);
    PutMore(y, 3, d);
    Spans();
    PutGetFits(x, 4);
  }

  lemma PutMore(x: nat, width: nat, b: byte)
    ensures PutUint(x * 256 + b, width + 1) == PutUint(x, width) + [b]
  {
  }

  /** Between one and seven bytes of a plain frame, continued by another: the length or the magic number that
      results is wrong. */
  lemma TornShort(crc: Checksum, e: Entry, r: nat, rest: seq<byte>)
    requires e.Plain? && 0 < r < 8 && |rest| >= 53 && rest[..4] == [0, 0, 0, 49]
    ensures forall after :: ReadRecords(crc, Frame(Encode(crc, e))[..r] + rest, after) == []
  {
    PlainFrame(crc, e);
    var f := Frame(Encode(crc, e));
    var file := f[..r] + rest;
    hide Encode, Frame, NextFrame, Unmarshal;
    if r < 4 {
      TornLength(f, rest, r);
    } else {
      TornMagic(f, rest, r);
      assert Unmarshal(crc, file[4..53]).Failure? by { WrongMagic(crc, file[4..53]); }
    }
  }

  lemma TornLength(f: seq<byte>, rest: seq<byte>, r: nat)
    requires |f| == 53 && f[..4] == [0, 0, 0, 49] && 0 < r < 4 && |rest| >= 53 && rest[..4] == [0, 0, 0, 49]
    ensures NextFrame(f[..r] + rest, READ_LIMIT) == None
  {
    PutFour(0, 0, 0, 0, 0);
    assert f[..r] == f[..4][..r] && rest[..4 - r] == rest[..4][..4 - r];
    assert (f[..r] + rest)[..4] == f[..r] + rest[..4 - r] == [0, 0, 0, 0];
  }

  lemma TornMagic(f: seq<byte>, rest: seq<byte>, r: nat)
    requires |f| == 53 && f[..4] == [0, 0, 0, 49] && f[4..8] == [0xAD, 0xA5, 0x00, 0x01]
    requires 4 <= r < 8 && |rest| >= 53 && rest[..4] == [0, 0, 0, 49]
    ensures NextFrame(f[..r] + rest, READ_LIMIT) == Some((f[..r] + rest)[4..53])
    ensures (f[..r] + rest)[4..53][..4] != [0xAD, 0xA5, 0x00, 0x01]
  {
    PutFour(49, 0, 0, 0, 49);
    SplicedParts(f, rest, r);
    var m := (f[..r] + rest)[4..53][..4];
    assert m[3] == rest[..4][7 - r];
    hide PutUint, Uint;
  }

  lemma WrongMagic(crc: Checksum, data: seq<byte>)
    requires |data| >= BASE_SIZE && data[..4] != [0xAD, 0xA5, 0x00, 0x01]
    ensures Unmarshal(crc, data).Failure?
  {
    Spell(data[..4]);
  }

  /** Four bytes that spell the magic number are its bytes. */
  lemma Spell(m: seq<byte>)
    requires |m| == 4
    ensures Uint(m) == RECORD_MAGIC ==> m == [0xAD, 0xA5, 0x00, 0x01]
  {
    GetPut(m);
    PutFour(RECORD_MAGIC, 0xAD, 0xA5, 0x00, 0x01);
  }

  /** A longer piece is completed by the bytes that follow; the checksum decides. */
  lemma TornLong(crc: Checksum, e: Entry, r: nat, rest: seq<byte>)
    requires e.Plain? && 8 <= r < 53 && |rest| >= 53
    requires Unmarshal(crc, Spliced(crc, e, r, rest)).Failure?
    ensures forall after :: ReadRecords(crc, Frame(Encode(crc, e))[..r] + rest, after) == []
  {
    PlainFrame(crc, e);
    PutFour(49, 0, 0, 0, 49);
    var f := Frame(Encode(crc, e));
    var file := f[..r] + rest;
    hide Encode, Frame, Unmarshal;
    SplicedParts(f, rest, r);
    assert NextFrame(file, READ_LIMIT) == Some(Spliced(crc, e, r, rest));
    hide NextFrame;
  }

  lemma SplicedParts(f: seq<byte>, rest: seq<byte>, r: nat)
    requires |f| == 53 && 4 <= r < 53 && |rest| >= 53
    ensures (f[..r] + rest)[..4] == f[..4] && (f[..r] + rest)[4..53] == f[4..r] + rest[..53 - r]
  {
  }

  /** Opening does not cut a torn tail off, and what is committed after it is lost to the reader: with `r`
      bytes of a torn record left over, the frames appended later are read exactly when nothing was left over,
      or there is nothing in them to read. (A spliced record that passes its checksum is set aside.) */
  lemma TornTailHides(crc: Checksum, es: seq<Entry>, e: Entry, r: nat, later: seq<Entry>, after: nat)
    requires AllStorable(es) && AllStorable(later)
    requires forall i :: 0 <= i < |es| ==> Size(es[i]) <= READ_LIMIT
    requires forall i :: 0 <= i < |later| ==> Size(later[i]) <= READ_LIMIT
    requires e.Plain? && r < 53 && (later != [] ==> later[0].Plain?)
    requires later != [] && r >= 8 ==> Unmarshal(crc, Spliced(crc, e, r, FrameAll(crc, later))).Failure?
    ensures var read := ReadRecords(crc, FrameAll(crc, es) + (Frame(Encode(crc, e))[..r] + FrameAll(crc, later)), after);
      && (r > 0 ==> read == Above(Records(es), after))
      && (read == Above(Records(es + later), after) <==> r == 0 || Above(Records(later), after) == [])
  {
    hide ReadRecords, Encode, Storable, Unmarshal, Spliced, Above;
    PlainFrame(crc, e);
    var f, rest := Frame(Encode(crc, e)), FrameAll(crc, later);
    assert |f| == 53;
    hide Frame;
    ReadOver(crc, es, f[..r] + rest, after);
    assert Records(es + later) == Records(es) + Records(later);
    AboveAppend(Records(es), Records(later), after);
    if r == 0 {
      assert f[..0] + rest == rest;
      ReadOver(crc, later, [], after);
      assert rest + [] == rest;
      ReadNothing(crc, after);
    } else if later == [] {
      assert f[..r] + rest == f[..r];
      CutFrame(crc, e, r, after);
      AboveNothing(after);
      assert Records(later) == [];
    } else {
      FirstLater(crc, later);
      if r < 8 { TornShort(crc, e, r, rest); } else { TornLong(crc, e, r, rest); }
    }
  }

  lemma ReadNothing(crc: Checksum, after: nat)
    ensures ReadRecords(crc, [], after) == []
  {
  }

  lemma AboveNothing(after: nat)
    ensures Above([], after) == []
  {
  }

  lemma CutFrame(crc: Checksum, e: Entry, r: nat, after: nat)
    requires e.Plain? && r < 53
    ensures ReadRecords(crc, Frame(Encode(crc, e))[..r], after) == []
  {
    PlainFrame(crc, e);
    PutFour(49, 0, 0, 0, 49);
    var f := Frame(Encode(crc, e));
    hide Encode, Frame;
    if r >= 4 { assert f[..r][..4] == f[..4]; }
  }

  lemma FirstLater(crc: Checksum, later: seq<Entry>)
    requires later != [] && later[0].Plain?
    ensures FrameAll(crc, later)[..4] == [0, 0, 0, 49]
  {
    PlainFrame(crc, later[0]);
    var f := Frame(Encode(crc, later[0]));
    hide Frame, Encode;
    assert FrameAll(crc, later)[..4] == f[..4];
  }

  // ---------- a torn checkpoint ----------

  lemma {:induction false} GetTableBytes(data: seq<byte>, n: nat)
    requires |data| == 8 * n
    ensures PutTable(GetTable(data, n)) == data
  {
    if n > 0 {
      GetTableBytes(data[8..], n - 1);
      GetPut(data[..8]);
      assert data == data[..8] + data[8..];
    }
  }

  /** After whole frames, the scan goes on with whatever follows them. */
  lemma {:induction false} ScanOver(crc: Checksum, before: seq<Entry>, es: seq<Entry>, rest: seq<byte>)
    requires AllStorable(es) && forall i :: 0 <= i < |es| ==> Size(es[i]) <= SCAN_LIMIT
    ensures ScanCheckpoints(crc, FrameAll(crc, es) + rest, Latest(before)) == ScanCheckpoints(crc, rest, Latest(before + es))
    decreases |es|
  {
    hide ScanCheckpoints, NextFrame, Better, Encode, Frame, FrameAll, Storable, Latest;
    if es == [] {
      FrameNone(crc, rest);
      assert before + [] == before;
    } else {
      var tail := FrameAll(crc, es[1..]) + rest;
      FrameAllCons(crc, es, rest);
      FirstWhole(crc, es[0], tail, SCAN_LIMIT);
      ScanStep(crc, es[0], FrameAll(crc, es) + rest, tail, before);
      ScanOver(crc, before + [es[0]], es[1..], rest);
      assert before + [es[0]] + es[1..] == before + es;
    }
  }

  lemma ScanStep(crc: Checksum, e: Entry, file: seq<byte>, rest: seq<byte>, before: seq<Entry>)
    requires Storable(e) && NextFrame(file, SCAN_LIMIT) == Some(Encode(crc, e)) && file[4 + |Encode(crc, e)|..] == rest
    ensures ScanCheckpoints(crc, file, Latest(before)) == ScanCheckpoints(crc, rest, Latest(before + [e]))
  {
    BetterEntry(crc, e, before);
    hide Encode, NextFrame, Better, Latest;
  }

  lemma ScanStop(crc: Checksum, file: seq<byte>, best: Option<Entry>)
    requires NextFrame(file, SCAN_LIMIT) == None && (best.Some? ==> best.value.Snapshot?)
    ensures ScanCheckpoints(crc, file, best) == Success(best)
  {
    hide NextFrame;
  }

  /** The scan never leaves a checkpoint for one of smaller number. */
  lemma {:induction false} ScanGrows(crc: Checksum, file: seq<byte>, best: Entry)
    requires best.Snapshot?
    ensures var r := ScanCheckpoints(crc, file, Some(best));
      r.Success? ==> r.value.Some? && r.value.value.rec.lsn >= best.rec.lsn
    decreases |file|
  {
    hide NextFrame, UnmarshalCheckpoint;
    match NextFrame(file, SCAN_LIMIT)
    case None =>
    case Some(data) =>
      match Better(crc, data, Some(best))
      case Failure(_) =>
      case Success(better) => ScanGrows(crc, file[4 + |data|..], better.value);
  }

  /** Recovery that goes on from a checkpoint, with the bytes after it. */
  function RecoverFrom(crc: Checksum, t: Table, taken: Entry, rest: seq<byte>, zones: nat): Result<Table>
    requires taken.Snapshot?
  {
    match ScanCheckpoints(crc, rest, Some(taken))
    case Failure(e) => Failure(e)
    case Success(None) => Failure(NoSuchSegment)
    case Success(Some(cp)) =>
      if |cp.table| != |t| then Failure(NoSuchSegment) else Replay(cp.table, ReadRecords(crc, rest, cp.rec.lsn), zones)
  }

  /** The checksum does not cover a checkpoint's table, so of a checkpoint torn inside its table, with other frames
      written after it, this becomes. While they do not fill the gap, the torn frame and they are all hidden:
      recovery is from what came before. As soon as they fill it the torn checkpoint is taken as valid, with their
      bytes as addresses, and whatever is left over is read on from the middle of a frame. When they fill it
      exactly, recovery gives that table. */
  lemma TornCheckpoint(crc: Checksum, es: seq<Entry>, cp: Entry, r: nat, later: seq<Entry>, t: Table, zones: nat)
    returns (taken: Entry)
    requires AllStorable(es) && Storable(cp) && cp.Snapshot? && Size(cp) <= READ_LIMIT
    requires forall i :: 0 <= i < |es| ==> Size(es[i]) <= READ_LIMIT && es[i].rec.lsn < cp.rec.lsn
    requires 53 <= r < 4 + Size(cp)
    ensures taken.Snapshot? && taken.rec == cp.rec && |taken.table| == |cp.table|
    ensures var gap, rest := 4 + Size(cp) - r, FrameAll(crc, later);
      var recovered := RecoverFile(crc, t, FrameAll(crc, es) + (Frame(Encode(crc, cp))[..r] + rest), zones);
      && (|rest| < gap ==> recovered == Recover(t, es, zones))
      && (|rest| >= gap ==>
            && PutTable(taken.table) == PutTable(cp.table)[..r - 53] + rest[..gap]
            && recovered == RecoverFrom(crc, t, taken, rest[gap..], zones))
      && (|rest| == gap && |t| == |cp.table| ==> recovered == Success(taken.table))
  {
    hide RecoverFile, RecoverFrom, FrameAll, Frame, Encode, Recover, Storable;
    var gap, rest := 4 + Size(cp) - r, FrameAll(crc, later);
    taken := cp;
    if |rest| < gap {
      TornHides(crc, es, cp, r, rest, t, zones);
    } else {
      taken := Filled(crc, cp, r, rest[..gap]);
      FilledRecovers(crc, es, cp, r, rest, taken, t, zones);
      if |rest| == gap { assert rest[gap..] == []; NothingMore(crc, t, taken, zones); }
    }
  }

  lemma NothingMore(crc: Checksum, t: Table, taken: Entry, zones: nat)
    requires taken.Snapshot?
    ensures |t| == |taken.table| ==> RecoverFrom(crc, t, taken, [], zones) == Success(taken.table)
  {
    hide ReadRecords;
    NothingNext(SCAN_LIMIT);
    ScanStop(crc, [], Some(taken));
    ReadNothing(crc, taken.rec.lsn);
    ReplayNothing(taken.table, zones);
  }

  /** The torn frame does not become whole: neither scan goes past it. */
  lemma TornHides(crc: Checksum, es: seq<Entry>, cp: Entry, r: nat, rest: seq<byte>, t: Table, zones: nat)
    requires AllStorable(es) && Storable(cp) && cp.Snapshot? && Size(cp) <= READ_LIMIT
    requires forall i :: 0 <= i < |es| ==> Size(es[i]) <= READ_LIMIT
    requires 53 <= r && r + |rest| < 4 + Size(cp)
    ensures RecoverFile(crc, t, FrameAll(crc, es) + (Frame(Encode(crc, cp))[..r] + rest), zones) == Recover(t, es, zones)
  {
    hide FrameAll, Frame, Encode, Storable, ScanCheckpoints, ReadRecords, Latest, Above, Replay;
    var torn := Frame(Encode(crc, cp))[..r] + rest;
    TornNext(Encode(crc, cp), r, rest);
    assert forall i :: 0 <= i < |es| ==> Size(es[i]) <= SCAN_LIMIT;
    ScanOver(crc, [], es, torn);
    LatestOfNone();
    assert [] + es == es;
    ScanStop(crc, torn, Latest(es));
    var lsn := match Latest(es) case None => 0 case Some(best) => best.rec.lsn;
    ReadOver(crc, es, torn, lsn);
    ReadStop(crc, torn, lsn);
    assert Above(Records(es), lsn) + [] == Above(Records(es), lsn);
  }

  /** A frame whose length is there but not all of whose bytes. */
  lemma TornNext(data: seq<byte>, r: nat, rest: seq<byte>)
    requires |data| < TWO_32 && 4 <= r <= 4 + |data| && r + |rest| < 4 + |data|
    ensures NextFrame(Frame(data)[..r] + rest, SCAN_LIMIT) == None && NextFrame(Frame(data)[..r] + rest, READ_LIMIT) == None
  {
    Spans();
    PutGetFits(|data|, 4);
    hide PutUint, Uint, Span;
    assert (Frame(data)[..r] + rest)[..4] == PutUint(|data|, 4);
  }

  /** The checkpoint that the torn frame and the bytes filling it spell. */
  lemma Filled(crc: Checksum, cp: Entry, r: nat, filler: seq<byte>) returns (taken: Entry)
    requires Storable(cp) && cp.Snapshot? && 53 <= r < 4 + Size(cp) && |filler| == 4 + Size(cp) - r
    ensures taken.Snapshot? && taken.rec == cp.rec && |taken.table| == |cp.table|
    ensures Storable(taken) && Size(taken) == Size(cp)
    ensures PutTable(taken.table) == PutTable(cp.table)[..r - 53] + filler
    ensures Frame(Encode(crc, taken)) == Frame(Encode(crc, cp))[..r] + filler
  {
    var entries := PutTable(cp.table)[..r - 53] + filler;
    var table := GetTable(entries, |cp.table|);
    GetTableBytes(entries, |cp.table|);
    taken := Snapshot(cp.rec, table);
    TornIs(crc, cp, r, filler, taken);
  }

  lemma FilledRecovers(crc: Checksum, es: seq<Entry>, cp: Entry, r: nat, rest: seq<byte>, taken: Entry, t: Table, zones: nat)
    requires AllStorable(es) && Storable(taken) && cp.Snapshot? && taken.Snapshot? && Size(taken) == Size(cp) <= READ_LIMIT
    requires forall i :: 0 <= i < |es| ==> Size(es[i]) <= READ_LIMIT && es[i].rec.lsn < taken.rec.lsn
    requires 53 <= r < 4 + Size(cp) && |rest| >= 4 + Size(cp) - r
    requires Frame(Encode(crc, taken)) == Frame(Encode(crc, cp))[..r] + rest[..4 + Size(cp) - r]
    ensures RecoverFile(crc, t, FrameAll(crc, es) + (Frame(Encode(crc, cp))[..r] + rest), zones)
            == RecoverFrom(crc, t, taken, rest[4 + Size(cp) - r..], zones)
  {
    hide FrameAll, Frame, Encode, Storable, RecoverFile, RecoverFrom, Size;
    var gap := 4 + Size(cp) - r;
    FrameAllAppend(crc, es, [taken]);
    FrameOne(crc, taken);
    Regrouped(FrameAll(crc, es), Frame(Encode(crc, cp))[..r], rest, gap);
    RecoverOver(crc, es, taken, rest[gap..], t, zones);
  }

  lemma Regrouped(a: seq<byte>, b: seq<byte>, rest: seq<byte>, gap: nat)
    requires gap <= |rest|
    ensures a + (b + rest) == a + (b + rest[..gap]) + rest[gap..]
  {
    assert rest == rest[..gap] + rest[gap..];
  }

  /** Recovery from whole frames that end with the latest checkpoint goes on from it with whatever follows. */
  lemma RecoverOver(crc: Checksum, es: seq<Entry>, taken: Entry, left: seq<byte>, t: Table, zones: nat)
    requires AllStorable(es) && Storable(taken) && taken.Snapshot? && Size(taken) <= READ_LIMIT
    requires forall i :: 0 <= i < |es| ==> Size(es[i]) <= READ_LIMIT && es[i].rec.lsn < taken.rec.lsn
    ensures RecoverFile(crc, t, FrameAll(crc, es + [taken]) + left, zones) == RecoverFrom(crc, t, taken, left, zones)
  {
    hide FrameAll, Storable, ScanCheckpoints, ReadRecords, Latest, Above, Replay, Size;
    var all := es + [taken];
    assert forall i :: 0 <= i < |all| ==> Size(all[i]) <= READ_LIMIT;
    ScanOver(crc, [], all, left);
    LatestOfNone();
    assert [] + all == all && es + [taken] + [] == all;
    LatestLast(es, taken, []);
    ScanGrows(crc, left, taken);
    if ScanCheckpoints(crc, left, Some(taken)).Success? {
      var lsn := ScanCheckpoints(crc, left, Some(taken)).value.value.rec.lsn;
      ReadOver(crc, all, left, lsn);
      NoneAbove(all, lsn);
      assert [] + ReadRecords(crc, left, lsn) == ReadRecords(crc, left, lsn);
    }
  }

  lemma FrameOne(crc: Checksum, e: Entry)
    ensures FrameAll(crc, [e]) == Frame(Encode(crc, e))
  {
    assert FrameAll(crc, []) == [];
  }

  lemma NoneAbove(es: seq<Entry>, lsn: nat)
    requires forall i :: 0 <= i < |es| ==> es[i].rec.lsn <= lsn
    ensures Above(Records(es), lsn) == []
  {
    AboveNone(Records(es), lsn);
  }

  /** The torn frame and what follows it spell a whole frame. */
  lemma TornIs(crc: Checksum, cp: Entry, r: nat, rest: seq<byte>, taken: Entry)
    requires Storable(cp) && cp.Snapshot? && taken.Snapshot? && taken.rec == cp.rec && |taken.table| == |cp.table|
    requires 53 <= r < 4 + Size(cp) && |rest| == 4 + Size(cp) - r
    requires PutTable(taken.table) == PutTable(cp.table)[..r - 53] + rest
    ensures Frame(Encode(crc, taken)) == Frame(Encode(crc, cp))[..r] + rest
  {
    hide Marshal, PutTable, PutUint;
    var head := PutUint(Size(cp), 4) + Marshal(crc, cp.rec);
    assert cp.rec.(id := |cp.table|) == cp.rec;
    assert Frame(Encode(crc, cp)) == head + PutTable(cp.table);
    assert Frame(Encode(crc, taken)) == head + PutTable(taken.table);
    assert (head + PutTable(cp.table))[..r] == head + PutTable(cp.table)[..r - 53];
  }

  // ---------- a frame that is no record ----------

  lemma FrameBack(data: seq<byte>, rest: seq<byte>, limit: nat)
    requires BASE_SIZE <= |data| <= limit && |data| < TWO_32
    ensures NextFrame(Frame(data) + rest, limit) == Some(data) && (Frame(data) + rest)[4 + |data|..] == rest
  {
    Spans();
    PutGetFits(|data|, 4);
    hide PutUint, Uint, Span;
    var s := Frame(data) + rest;
    assert s[..4] == PutUint(|data|, 4) && s[4..4 + |data|] == data;
  }

  /** A whole frame that does not decode, behind frames that do: the reader stops at it and never sees what follows,
      while both scans pass over it. */
  lemma BadFrame(crc: Checksum, es: seq<Entry>, bad: seq<byte>, rest: seq<byte>, after: nat)
    requires AllStorable(es) && forall i :: 0 <= i < |es| ==> Size(es[i]) <= READ_LIMIT
    requires BASE_SIZE <= |bad| <= READ_LIMIT && Unmarshal(crc, bad).Failure?
    ensures ReadRecords(crc, FrameAll(crc, es) + (Frame(bad) + rest), after) == Above(Records(es), after)
    ensures ScanCheckpoints(crc, FrameAll(crc, es) + (Frame(bad) + rest), None) == ScanCheckpoints(crc, FrameAll(crc, es) + rest, None)
    ensures ScanMaxLSN(crc, Frame(bad) + rest) == ScanMaxLSN(crc, rest)
  {
    FrameBack(bad, rest, READ_LIMIT);
    FrameBack(bad, rest, SCAN_LIMIT);
    FrameBack(bad, rest, TWO_32);
    LatestOfNone();
    ReadOver(crc, es, Frame(bad) + rest, after);
    ScanOver(crc, [], es, Frame(bad) + rest);
    ScanOver(crc, [], es, rest);
    BadSteps(crc, bad, rest, after, Latest([] + es));
    hide *;
    assert Above(Records(es), after) + [] == Above(Records(es), after);
  }

  lemma BadSteps(crc: Checksum, bad: seq<byte>, rest: seq<byte>, after: nat, best: Option<Entry>)
    requires BASE_SIZE <= |bad| <= READ_LIMIT && Unmarshal(crc, bad).Failure? && (best.Some? ==> best.value.Snapshot?)
    requires forall limit :: limit in {READ_LIMIT, SCAN_LIMIT, TWO_32} ==>
      NextFrame(Frame(bad) + rest, limit) == Some(bad) && (Frame(bad) + rest)[4 + |bad|..] == rest
    ensures ReadRecords(crc, Frame(bad) + rest, after) == []
    ensures ScanCheckpoints(crc, Frame(bad) + rest, best) == ScanCheckpoints(crc, rest, best)
    ensures ScanMaxLSN(crc, Frame(bad) + rest) == ScanMaxLSN(crc, rest)
  {
    NeverPanics(crc, bad);
    hide NextFrame, Frame, Unmarshal;
    var s := Frame(bad) + rest;
    assert NextFrame(s, READ_LIMIT) == NextFrame(s, SCAN_LIMIT) == NextFrame(s, TWO_32) == Some(bad);
  }

  /** Bytes that are no record are an error, not a crash. */
  lemma NeverPanics(crc: Checksum, data: seq<byte>)
    requires Unmarshal(crc, data).Failure?
    ensures Unmarshal(crc, data).error != Panicked && UnmarshalCheckpoint(crc, data) == Failure(Unmarshal(crc, data).error)
  {
  }

  /** Which whole frames each reader takes, by their length in bytes. */
  lemma FrameTaken(data: seq<byte>, rest: seq<byte>)
    requires |data| < 0x1_0000_0000
    ensures NextFrame(Frame(data) + rest, READ_LIMIT) == if 49 <= |data| <= 104857600 then Some(data) else None
    ensures NextFrame(Frame(data) + rest, SCAN_LIMIT) == if 49 <= |data| <= 1073741824 then Some(data) else None
    ensures NextFrame(Frame(data) + rest, TWO_32) == if 49 <= |data| then Some(data) else None
  {
    if |data| >= BASE_SIZE { FrameBack(data, rest, |data|); }
    Spans();
    PutGetFits(|data|, 4);
    hide PutUint, Uint, Span;
    var s := Frame(data) + rest;
    assert s[..4] == PutUint(|data|, 4) && s[4..4 + |data|] == data;
  }
}
