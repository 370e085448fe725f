/** Crash recovery over the log as a list of entries: a checkpoint and the records after it stand for the
    whole log, recovery is repeatable, and what a crash leaves readable (internal/journal/recovery.go). */
module Recovery {
  import opened Errors
  import opened Segment
  import opened Log

  type Table = seq<PhysAddr>

  /** The checkpoint of largest sequence number among the entries, the first of them. */
  function Latest(es: seq<Entry>): (r: Option<Entry>)
    ensures r.Some? ==> r.value.Snapshot?
  {
    if es == [] then None else
    var best, e := Latest(es[..|es| - 1]), es[|es| - 1];
    if e.Snapshot? && (best.None? || e.rec.lsn > best.value.rec.lsn) then Some(e) else best
  }

  function Above(rs: seq<Record>, lsn: nat): seq<Record> {
    if rs == [] then [] else
    var rest, r := Above(rs[..|rs| - 1], lsn), rs[|rs| - 1];
    if r.lsn > lsn then rest + [r] else rest
  }

  /** Loads the latest checkpoint, if there is one, into a table and replays the records above it. */
  function Recover(t: Table, es: seq<Entry>, zones: nat): Result<Table> {
    match Latest(es)
    case None => Replay(t, Above(Records(es), 0), zones)
    case Some(cp) =>
      if |cp.table| != |t| then Failure(NoSuchSegment)
      else Replay(cp.table, Above(Records(es), cp.rec.lsn), zones)
  }

  // ---------- replay, segment by segment ----------

  /** Every record names a segment or zone that exists. */
  ghost predicate Fits(rs: seq<Record>, n: nat, zones: nat) {
    forall i :: 0 <= i < |rs| ==>
      && (rs[i].kind == L2P_UPDATE ==> rs[i].id < n)
      && (rs[i].kind == ZONE_RESET ==> rs[i].id % 0x1_0000_0000 < zones)
  }

  predicate Updates(r: Record, seg: nat) {
    r.kind == L2P_UPDATE && r.id == seg
  }

  /** The address a segment has after the records, starting from `v`. */
  function Final(v: PhysAddr, rs: seq<Record>, seg: nat): PhysAddr {
    if rs == [] then v
    else if Updates(rs[|rs| - 1], seg) then rs[|rs| - 1].newPhys % TWO_64
    else Final(v, rs[..|rs| - 1], seg)
  }

  lemma {:induction false} ReplayFinal(t: Table, rs: seq<Record>, zones: nat)
    ensures Replay(t, rs, zones).Success? <==> Fits(rs, |t|, zones)
    ensures Replay(t, rs, zones).Success? ==>
              var u := Replay(t, rs, zones).value;
              |u| == |t| && forall seg :: 0 <= seg < |t| ==> u[seg] == Final(t[seg], rs, seg)
  {
    if rs != [] {
      var last := |rs| - 1;
      ReplayFinal(t, rs[..last], zones);
      assert Fits(rs, |t|, zones) <==> Fits(rs[..last], |t|, zones) && Fits([rs[last]], |t|, zones) by {
        assert forall i :: 0 <= i < last ==> rs[..last][i] == rs[i];
      }
      assert Fits([rs[last]], |t|, zones) <==>
        (rs[last].kind == L2P_UPDATE ==> rs[last].id < |t|) && (rs[last].kind == ZONE_RESET ==> rs[last].id % 0x1_0000_0000 < zones) by {
        assert [rs[last]][0] == rs[last];
      }
    }
  }

  /** Records that do not touch a segment do not matter to it. */
  lemma {:induction false} FinalSuffix(v: PhysAddr, rs: seq<Record>, m: nat, seg: nat)
    requires m <= |rs| && forall i :: m <= i < |rs| ==> !Updates(rs[i], seg)
    ensures Final(v, rs, seg) == Final(v, rs[..m], seg)
  {
    if m < |rs| {
      assert rs[..|rs| - 1][..m] == rs[..m];
      FinalSuffix(v, rs[..|rs| - 1], m, seg);
    } else {
      assert rs[..m] == rs;
    }
  }

  /** Once a record touches a segment, where it started does not matter. */
  lemma {:induction false} FinalForgets(v: PhysAddr, w: PhysAddr, rs: seq<Record>, seg: nat)
    requires (exists i :: 0 <= i < |rs| && Updates(rs[i], seg)) || v == w
    ensures Final(v, rs, seg) == Final(w, rs, seg)
  {
    if rs != [] && !Updates(rs[|rs| - 1], seg) {
      if v != w {
        var i :| 0 <= i < |rs| && Updates(rs[i], seg);
        assert rs[..|rs| - 1][i] == rs[i];
      }
      FinalForgets(v, w, rs[..|rs| - 1], seg);
    }
  }

  // ---------- filtering ----------

  /** Updates are in the order of their numbers; a checkpoint, numbered before its table is read, may come
      later in the log than updates with larger numbers. */
  ghost predicate Increasing(rs: seq<Record>) {
    forall i, j :: 0 <= i < j < |rs| && rs[i].kind == L2P_UPDATE && rs[j].kind == L2P_UPDATE ==> rs[i].lsn < rs[j].lsn
  }

  lemma {:induction false} AboveAll(rs: seq<Record>, lsn: nat)
    requires forall i :: 0 <= i < |rs| ==> rs[i].lsn > lsn
    ensures Above(rs, lsn) == rs
  {
    if rs != [] {
      AboveAll(rs[..|rs| - 1], lsn);
      assert rs[..|rs| - 1] + [rs[|rs| - 1]] == rs;
    }
  }

  lemma {:induction false} AboveFits(rs: seq<Record>, lsn: nat, n: nat, zones: nat)
    requires Fits(rs, n, zones)
    ensures Fits(Above(rs, lsn), n, zones)
  {
    if rs != [] {
      AboveFits(rs[..|rs| - 1], lsn, n, zones);
    }
  }

  /** Some record above a number updates the segment. */
  ghost predicate Later(rs: seq<Record>, lsn: nat, seg: nat) {
    exists i :: 0 <= i < |rs| && rs[i].lsn > lsn && Updates(rs[i], seg)
  }

  lemma LaterSnoc(rs: seq<Record>, lsn: nat, seg: nat)
    requires rs != []
    ensures Later(rs, lsn, seg) <==>
            Later(rs[..|rs| - 1], lsn, seg) || (rs[|rs| - 1].lsn > lsn && Updates(rs[|rs| - 1], seg))
  {
    var n := |rs| - 1;
    assert forall i :: 0 <= i < n ==> rs[..n][i] == rs[i];
  }

  /** The records above a number act on a segment like the whole list does, when one of them updates it, and
      leave it alone otherwise. */
  lemma {:induction false} FinalAbove(v: PhysAddr, rs: seq<Record>, lsn: nat, seg: nat)
    ensures !Later(rs, lsn, seg) ==> Final(v, Above(rs, lsn), seg) == v
    ensures Later(rs, lsn, seg) && Increasing(rs) ==> Final(v, Above(rs, lsn), seg) == Final(v, rs, seg)
  {
    if rs != [] {
      var last := |rs| - 1;
      FinalAbove(v, rs[..last], lsn, seg);
      LaterSnoc(rs, lsn, seg);
      hide Later;
      var rest := Above(rs[..last], lsn);
      if rs[last].lsn > lsn {
        assert (rest + [rs[last]])[..|rest|] == rest;
      } else if Increasing(rs) && Updates(rs[last], seg) {
        NoneLater(rs, lsn, seg);
      }
    }
  }

  /** In an increasing list whose last update is not above `lsn`, none is. */
  lemma NoneLater(rs: seq<Record>, lsn: nat, seg: nat)
    requires Increasing(rs) && rs != [] && rs[|rs| - 1].lsn <= lsn && Updates(rs[|rs| - 1], seg)
    ensures !Later(rs, lsn, seg)
  {
  }

  // ---------- checkpoints ----------

  /** A snapshot taken entry by entry while the log grew: each segment's entry is the address it had after
      some prefix of the records that includes every update of it numbered below the checkpoint. */
  ghost predicate FuzzySnapshot(table: Table, rs: seq<Record>, lsn: nat) {
    forall seg :: 0 <= seg < |table| ==> Taken(table[seg], rs, lsn, seg)
  }

  ghost predicate Taken(p: PhysAddr, rs: seq<Record>, lsn: nat, seg: nat) {
    exists m :: TakenAt(p, rs, lsn, seg, m)
  }

  ghost predicate TakenAt(p: PhysAddr, rs: seq<Record>, lsn: nat, seg: nat, m: nat) {
    && m <= |rs|
    && (forall i :: m <= i < |rs| && Updates(rs[i], seg) ==> rs[i].lsn >= lsn)
    && p == Final(UNMAPPED, rs[..m], seg)
  }

  /** Loading such a snapshot and replaying only the later records gives the address that replaying the whole
      log gives, for every segment, although different segments were caught at different moments. */
  lemma SnapshotStands(table: Table, rs: seq<Record>, lsn: nat, seg: nat)
    requires Increasing(rs) && FuzzySnapshot(table, rs, lsn) && seg < |table|
    requires forall i :: 0 <= i < |rs| && rs[i].lsn == lsn ==> !Updates(rs[i], seg)
    ensures Final(table[seg], Above(rs, lsn), seg) == Final(UNMAPPED, rs, seg)
  {
    FinalAbove(table[seg], rs, lsn, seg);
    if Later(rs, lsn, seg) {
      FinalForgets(table[seg], UNMAPPED, rs, seg);
    } else {
      var m :| TakenAt(table[seg], rs, lsn, seg, m);
      FinalSuffix(UNMAPPED, rs, m, seg);
    }
  }

  /** A log that recovery can trust: numbered upward from above 0, naming what exists, with every checkpoint
      of the right size and taken while the log grew. */
  ghost predicate Sound(es: seq<Entry>, n: nat, zones: nat) {
    var rs := Records(es);
    && Increasing(rs)
    && (forall i :: 0 <= i < |rs| ==> rs[i].lsn > 0)
    && Fits(rs, n, zones)
    && forall i :: 0 <= i < |es| && es[i].Snapshot? ==>
         && |es[i].table| == n
         && (forall j :: 0 <= j < |rs| && rs[j].kind == L2P_UPDATE ==> rs[j].lsn != es[i].rec.lsn)
         && FuzzySnapshot(es[i].table, rs, es[i].rec.lsn)
  }

  lemma {:induction false} LatestIsEntry(es: seq<Entry>) returns (i: nat)
    requires Latest(es).Some?
    ensures i < |es| && es[i] == Latest(es).value && es[i].Snapshot?
  {
    var best, e := Latest(es[..|es| - 1]), es[|es| - 1];
    if e.Snapshot? && (best.None? || e.rec.lsn > best.value.rec.lsn) {
      i := |es| - 1;
    } else {
      i := LatestIsEntry(es[..|es| - 1]);
    }
  }

  /** The checkpoint found is one of the entries, of the largest number; none is found only when there is none. */
  lemma {:induction false} LatestIsLargest(es: seq<Entry>, i: nat)
    requires i < |es| && es[i].Snapshot?
    ensures Latest(es).Some? && Latest(es).value.rec.lsn >= es[i].rec.lsn
  {
    if i < |es| - 1 {
      assert es[..|es| - 1][i] == es[i];
      LatestIsLargest(es[..|es| - 1], i);
    }
  }

  /** Checkpoint and suffix together are worth the whole log. */
  lemma RecoverIsReplay(es: seq<Entry>, n: nat, zones: nat)
    requires Sound(es, n, zones)
    ensures Recover(Unmapped(n), es, zones) == Replay(Unmapped(n), Records(es), zones)
    ensures Recover(Unmapped(n), es, zones).Success?
  {
    var rs := Records(es);
    ReplayFinal(Unmapped(n), rs, zones);
    match Latest(es)
    case None => AboveAll(rs, 0);
    case Some(cp) =>
      var i := LatestIsEntry(es);
      AboveFits(rs, cp.rec.lsn, n, zones);
      ReplayFinal(cp.table, Above(rs, cp.rec.lsn), zones);
      var u, v := Replay(cp.table, Above(rs, cp.rec.lsn), zones).value, Replay(Unmapped(n), rs, zones).value;
      forall seg | 0 <= seg < n ensures u[seg] == v[seg] {
        SnapshotStands(cp.table, rs, cp.rec.lsn, seg);
      }
      assert u == v;
  }

  /** Recovering again, over whatever recovery left, changes nothing. */
  lemma RecoverTwice(t: Table, es: seq<Entry>, zones: nat)
    requires Recover(t, es, zones).Success?
    ensures Recover(Recover(t, es, zones).value, es, zones) == Recover(t, es, zones)
  {
    match Latest(es)
    case None =>
      var rs := Above(Records(es), 0);
      ReplayFinal(t, rs, zones);
      var u := Replay(t, rs, zones).value;
      ReplayFinal(u, rs, zones);
      var v := Replay(u, rs, zones).value;
      forall seg | 0 <= seg < |t| ensures v[seg] == u[seg] {
        FinalTwice(t[seg], rs, seg);
      }
      assert v == u;
    case Some(cp) =>
      ReplayFinal(cp.table, Above(Records(es), cp.rec.lsn), zones);
  }

  lemma {:induction false} FinalTwice(v: PhysAddr, rs: seq<Record>, seg: nat)
    ensures Final(Final(v, rs, seg), rs, seg) == Final(v, rs, seg)
  {
    if i :| 0 <= i < |rs| && Updates(rs[i], seg) {
      FinalForgets(Final(v, rs, seg), v, rs, seg);
    } else {
      FinalSuffix(v, rs, 0, seg);
      FinalSuffix(Final(v, rs, seg), rs, 0, seg);
    }
  }

  // ---------- the end of a log ----------

  /** A checkpoint of larger number than all before it, with none after it, is the one found. */
  lemma {:induction false} LatestLast(pre: seq<Entry>, cp: Entry, post: seq<Entry>)
    requires cp.Snapshot? && forall i :: 0 <= i < |post| ==> !post[i].Snapshot?
    requires forall i :: 0 <= i < |pre| ==> pre[i].rec.lsn < cp.rec.lsn
    ensures Latest(pre + [cp] + post) == Some(cp)
    decreases |post|
  {
    var es := pre + [cp] + post;
    if post == [] {
      assert es == pre + [cp] && es[..|es| - 1] == pre;
      if Latest(pre).Some? {
        var i := LatestIsEntry(pre);
      }
    } else {
      LatestLast(pre, cp, post[..|post| - 1]);
      assert es[..|es| - 1] == pre + [cp] + post[..|post| - 1];
    }
  }

  /** No record is above a number that bounds them all. */
  lemma {:induction false} AboveNone(rs: seq<Record>, lsn: nat)
    requires forall i :: 0 <= i < |rs| ==> rs[i].lsn <= lsn
    ensures Above(rs, lsn) == []
  {
    if rs != [] { AboveNone(rs[..|rs| - 1], lsn); }
  }

  lemma {:induction false} AboveAppend(a: seq<Record>, b: seq<Record>, lsn: nat)
    ensures Above(a + b, lsn) == Above(a, lsn) + Above(b, lsn)
    decreases |b|
  {
    if b == [] {
      assert a + b == a;
    } else {
      AboveAppend(a, b[..|b| - 1], lsn);
      assert (a + b)[..|a + b| - 1] == a + b[..|b| - 1];
    }
  }

  /** Recovery succeeds exactly when the latest checkpoint, if there is one, has as many entries as the table, and every
      later record names a segment and a zone that exist. */
  lemma RecoverSucceeds(t: Table, es: seq<Entry>, zones: nat)
    ensures var latest := Latest(es);
      var from := if latest.Some? then latest.value.rec.lsn else 0;
      && (Recover(t, es, zones).Success? <==>
            (latest.Some? ==> |latest.value.table| == |t|) && Fits(Above(Records(es), from), |t|, zones))
      && (Recover(t, es, zones).Success? ==> |Recover(t, es, zones).value| == |t|)
  {
    hide Latest, Above, Fits, Replay;
    match Latest(es)
    case None => ReplayFinal(t, Above(Records(es), 0), zones);
    case Some(cp) => ReplayFinal(cp.table, Above(Records(es), cp.rec.lsn), zones);
  }

  /** The records that are replayed, each as often as it occurs: those numbered above the checkpoint. */
  lemma {:induction false} AboveAre(rs: seq<Record>, lsn: nat, r: Record)
    ensures multiset(Above(rs, lsn))[r] == if r.lsn > lsn then multiset(rs)[r] else 0
    ensures forall i :: 0 <= i < |Above(rs, lsn)| ==> Above(rs, lsn)[i].lsn > lsn
  {
    if rs != [] {
      var n := |rs| - 1;
      AboveAre(rs[..n], lsn, r);
      assert rs == rs[..n] + [rs[n]];
    }
  }
}
