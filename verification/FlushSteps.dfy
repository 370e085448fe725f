/** A successful flush moves buffered sectors to the device and changes the data behind no segment. */
module FlushSteps {
  import opened Errors
  import opened Segment
  import opened Pool
  import opened Ztl
  import opened Coherence
  import opened PoolSteps
  import D = Device

  /** Device `e` is `d` with `data` stored at the pointer of zone `z`. */
  ghost predicate Wrote(d: D.Device, e: D.Device, z: nat, data: seq<D.Sector>)
    requires z < |d.zones|
  {
    && e.zoneSectors == d.zoneSectors && e.maxOpen == d.maxOpen && |e.zones| == |d.zones|
    && D.Sane(e)
    && e.zones[z].data == D.Store(d.zones[z].data, D.Fill(d, z), data)
    && e.zones[z].wp == d.zones[z].wp + |data|
    && e.zones[z].cond != D.Empty
    && (D.IsOpen(d.zones[z].cond) && e.zones[z].wp < e.End(z) ==> e.zones[z].cond == d.zones[z].cond)
    && (e.zones[z].wp == e.End(z) ==> e.zones[z].cond == D.Full)
    && forall i :: 0 <= i < |d.zones| && i != z ==> e.zones[i] == d.zones[i]
  }

  lemma AdvanceWrites(d: D.Device, z: nat, data: seq<D.Sector>)
    requires D.Sane(d) && z < |d.zones| && data != [] && d.zones[z].wp + |data| <= d.End(z)
    requires D.IsOpen(d.zones[z].cond)
    ensures Wrote(d, D.Advance(d, z, data), z, data)
  {
    hide D.Store, D.Sane;
    D.AdvanceSane(d, z, data);
  }

  /** The command, for an address that is the pointer of zone `z`. */
  lemma WriteUnfolds(d: D.Device, z: nat, data: seq<D.Sector>)
    requires D.Sane(d) && z < |d.zones| && data != [] && d.zones[z].wp + |data| <= d.End(z)
    ensures d.zones[z].cond in {D.Empty, D.ImplicitOpen, D.ExplicitOpen, D.Closed}
    ensures D.WriteSectors(d, d.zones[z].wp, data) ==
            if D.IsOpen(d.zones[z].cond) then (D.Advance(d, z, data), Ok)
            else
              var (e, r) := D.OpenLocked(d, z, false);
              if r != Ok then (e, r) else (D.Advance(e, z, data), Ok)
  {
    hide D.Store, D.Advance, D.OpenLocked;
    assert D.SaneZone(d, z);
    ZoneIndexAt(d, z, d.zones[z].wp - d.Start(z));
    OpenLockedMoves(d, z, false);
  }

  lemma WriteAtPointer(d: D.Device, z: nat, data: seq<D.Sector>)
    requires D.Sane(d) && z < |d.zones| && data != [] && d.zones[z].wp + |data| <= d.End(z)
    ensures var (e, r) := D.WriteSectors(d, d.zones[z].wp, data);
      && (r == Ok ==> Wrote(d, e, z, data))
      && (D.IsOpen(d.zones[z].cond) ==> r == Ok)
      && (r != Ok ==> e == d)
  {
    hide D.Store, D.Advance, D.OpenLocked, D.WriteSectors, D.Sane;
    WriteUnfolds(d, z, data);
    if D.IsOpen(d.zones[z].cond) {
      AdvanceWrites(d, z, data);
    } else {
      OpenLockedMoves(d, z, false);
      var e := D.OpenLocked(d, z, false).0;
      if D.OpenLocked(d, z, false).1 == Ok {
        AdvanceWrites(e, z, data);
        assert D.Fill(e, z) == D.Fill(d, z);
      }
    }
  }

  /** The pool after the zone's buffer reached the device: tracked pointers did not move. */
  ghost predicate Flushed(p: Pool, q: Pool, z: nat, data: seq<D.Sector>)
    requires z < |p.dev.zones|
  {
    && Kept(p, q)
    && q.zm.freeList == p.zm.freeList
    && q.zm.maxOpen == p.zm.maxOpen
    && (forall i :: 0 <= i < |q.zm.zones| ==>
          var a, b := q.zm.zones[i], p.zm.zones[i]; a.wp == b.wp && a.start == b.start && a.size == b.size)
    && q.dev.maxOpen == p.dev.maxOpen
    && D.Sane(q.dev)
    && q.dev.zones[z].data == D.Store(p.dev.zones[z].data, D.Fill(p.dev, z), data)
    && q.dev.zones[z].wp == p.dev.zones[z].wp + |data|
    && q.dev.zones[z].cond != D.Empty
    && (forall i :: 0 <= i < |q.dev.zones| && i != z ==>
          var a, b := q.dev.zones[i], p.dev.zones[i];
          a.wp == b.wp && a.data == b.data && (a.cond == D.Empty <==> b.cond == D.Empty))
  }

  lemma FlushZoneMoves(s: Ztl, z: nat)
    requires Core(s) && z in s.bufs
    requires FlushZone(s.bufs, s.base.pool, z).2 == Ok
    ensures z < |s.base.pool.dev.zones|
    ensures var (bufs, q, r) := FlushZone(s.bufs, s.base.pool, z);
      && bufs == s.bufs - {z}
      && Flushed(s.base.pool, q, z, s.bufs[z].data)
  {
    hide D.Sane, D.WriteSectors, GetOrOpen, AllLocated, FreeIsEmpty;
    var p := s.base.pool;
    var b := s.bufs[z];
    GetOrOpenQuiet(p, s.base.spp, z);
    var (q, ready) := GetOrOpen(p, z);
    assert q.dev.End(z) == p.dev.End(z);
    assert D.SaneZone(q.dev, z) by { SaneAt(q.dev, z); }
    WriteAtPointer(q.dev, z, b.data);
    assert D.Fill(q.dev, z) == D.Fill(p.dev, z);
  }

  lemma SaneAt(d: D.Device, z: nat)
    requires D.Sane(d) && z < |d.zones|
    ensures D.SaneZone(d, z)
  {
  }

  lemma FlushedConfig(p: Pool, q: Pool, spp: nat, z: nat, data: seq<D.Sector>)
    requires Config(p, spp) && z < |p.dev.zones| && Flushed(p, q, z, data)
    ensures Config(q, spp)
  {
    hide D.Sane, D.Store;
  }

  lemma FlushedPointers(p: Pool, q: Pool, z: nat, bufs: Buffers)
    requires |p.zm.zones| == |p.dev.zones| && Pointers(p, bufs) && z in bufs && z < |p.dev.zones|
    requires Flushed(p, q, z, bufs[z].data)
    ensures Pointers(q, bufs - {z})
  {
    hide D.Sane, D.Store;
  }

  lemma FlushedLocated(b: Base, q: Pool, z: nat, bufs: Buffers)
    requires |b.pool.zm.zones| == |b.pool.dev.zones| && AllLocated(b) && z < |b.pool.dev.zones|
    requires Pointers(b.pool, bufs) && z in bufs && Flushed(b.pool, q, z, bufs[z].data)
    ensures AllLocated(b.(pool := q))
  {
    hide D.Sane, D.Store, ZoneID, OffsetSectors;
    forall seg | 0 <= seg < |b.l2p| && b.l2p[seg] != UNMAPPED ensures Located(q, b.spp, b.l2p[seg]) {
      assert Located(b.pool, b.spp, b.l2p[seg]);
    }
  }

  lemma FlushedFree(p: Pool, q: Pool, z: nat, data: seq<D.Sector>)
    requires FreeIsEmpty(p) && z < |p.dev.zones| && p.dev.zones[z].cond != D.Empty && Flushed(p, q, z, data)
    ensures FreeIsEmpty(q)
  {
    hide D.Sane, D.Store;
  }

  lemma FlushedContent(s: Ztl, q: Pool, z: nat, seg: nat)
    requires Core(s) && z in s.bufs && z < |s.base.pool.dev.zones| && Flushed(s.base.pool, q, z, s.bufs[z].data)
    ensures Content(s.(base := s.base.(pool := q), bufs := s.bufs - {z}), seg) == Content(s, seg)
  {
    hide D.Sane, OffsetSectors, D.Store, AllLocated, FreeIsEmpty;
    var phys := Get(s.base.l2p, seg);
    assert D.Fill(s.base.pool.dev, z) == s.bufs[z].wp - s.base.pool.dev.Start(z);
    BehindSame(s.base.pool.dev, q.dev, s.bufs, s.bufs - {z}, s.base.spp, phys);
  }

  lemma FlushCore(s: Ztl, z: nat)
    requires Core(s)
    requires FlushZone(s.bufs, s.base.pool, z).2 == Ok
    ensures var (bufs, q, r) := FlushZone(s.bufs, s.base.pool, z);
      var t := s.(base := s.base.(pool := q), bufs := bufs);
      && Core(t) && bufs == s.bufs - {z}
      && forall seg :: Content(t, seg) == Content(s, seg)
  {
    if z in s.bufs {
      FlushZoneMoves(s, z);
      var q := FlushZone(s.bufs, s.base.pool, z).1;
      FlushedCore(s, q, z);
    }
  }

  lemma FlushedCore(s: Ztl, q: Pool, z: nat)
    requires Core(s) && z in s.bufs && z < |s.base.pool.dev.zones| && Flushed(s.base.pool, q, z, s.bufs[z].data)
    ensures var t := s.(base := s.base.(pool := q), bufs := s.bufs - {z});
      && Core(t)
      && forall seg :: Content(t, seg) == Content(s, seg)
  {
    hide D.Sane, Config, AllLocated, FreeIsEmpty, D.Store;
    hide Content;
    var data := s.bufs[z].data;
    ConfigSizes(s.base.pool, s.base.spp);
    FlushedConfig(s.base.pool, q, s.base.spp, z, data);
    FlushedPointers(s.base.pool, q, z, s.bufs);
    FlushedLocated(s.base, q, z, s.bufs);
    FlushedFree(s.base.pool, q, z, data);
    var t := s.(base := s.base.(pool := q), bufs := s.bufs - {z});
    forall seg: nat ensures Content(t, seg) == Content(s, seg) {
      FlushedContent(s, q, z, seg);
    }
  }

  /** The state a list of successful flushes leaves. */
  function FlushState(s: Ztl, zones: seq<nat>): Ztl
    requires Ready(s.base)
  {
    var (bufs, p, r) := FlushEach(s.bufs, s.base.pool, zones);
    s.(base := s.base.(pool := p), bufs := bufs)
  }

  lemma {:induction false} FlushEachCore(s: Ztl, zones: seq<nat>)
    requires Core(s)
    requires FlushEach(s.bufs, s.base.pool, zones).2 == Ok
    ensures var t := FlushState(s, zones);
      && Core(t)
      && (forall z :: z in t.bufs <==> z in s.bufs && z !in zones)
      && forall seg :: Content(t, seg) == Content(s, seg)
  {
    hide Core, Content;
    if zones != [] {
      var last := |zones| - 1;
      assert Ready(s.base) by { CoreReady(s); }
      FlushEachCore(s, zones[..last]);
      var m := FlushState(s, zones[..last]);
      assert Ready(m.base) by { CoreReady(m); }
      FlushCore(m, zones[last]);
      forall z ensures z in FlushState(s, zones).bufs <==> z in s.bufs && z !in zones {
        assert z in zones <==> z in zones[..last] || z == zones[last];
      }
      forall seg: nat ensures Content(FlushState(s, zones), seg) == Content(s, seg) {
        assert Content(m, seg) == Content(s, seg);
      }
    }
  }

  lemma CoreReady(s: Ztl)
    requires Core(s)
    ensures Ready(s.base)
  {
  }

  // ---------- refused flushes among others ----------

  /** Flushing a list of zones goes on after a refusal: every listed buffer is gone at the end. The outcome is Ok
      exactly when no flush was refused, and otherwise that of the first that was. */
  lemma {:induction false} FlushEachGoesOn(bufs: Buffers, p: Pool, zones: seq<nat>)
    requires Listed(p)
    ensures var (bufs', q, r) := FlushEach(bufs, p, zones);
      && (forall z :: z in bufs' <==> z in bufs && z !in zones) && (forall z :: z in bufs' ==> bufs'[z] == bufs[z])
      && FirstRefusal(Outcomes(bufs, p, zones), r)
  {
    FlushEachDrops(bufs, p, zones);
    if zones != [] {
      var n := |zones| - 1;
      FlushEachGoesOn(bufs, p, zones[..n]);
      LastFlush(bufs, p, zones);
      OutcomesMore(bufs, p, zones);
      hide FlushEach, FlushedAt, Outcomes, FirstRefusal;
      OneMoreOutcome(Outcomes(bufs, p, zones[..n]), FlushEach(bufs, p, zones[..n]).2, FlushedAt(bufs, p, zones, n));
    }
  }

  /** Ok, if all outcomes are; otherwise the first that is not. */
  ghost predicate FirstRefusal(outcomes: seq<Status>, r: Status) {
    && (r == Ok <==> forall i :: 0 <= i < |outcomes| ==> outcomes[i] == Ok)
    && (r != Ok ==> exists i :: 0 <= i < |outcomes| && outcomes[i] == r && forall j :: 0 <= j < i ==> outcomes[j] == Ok)
  }

  lemma OneMoreOutcome(outcomes: seq<Status>, r: Status, last: Status)
    requires FirstRefusal(outcomes, r)
    ensures FirstRefusal(outcomes + [last], if r != Ok then r else last)
  {
    var all := outcomes + [last];
    assert all[|outcomes|] == last && forall i :: 0 <= i < |outcomes| ==> all[i] == outcomes[i];
  }

  /** The outcome of each flush of a list, in its turn. */
  function Outcomes(bufs: Buffers, p: Pool, zones: seq<nat>): seq<Status>
    requires Listed(p)
  {
    seq(|zones|, i requires 0 <= i < |zones| => FlushedAt(bufs, p, zones, i))
  }

  lemma OutcomesMore(bufs: Buffers, p: Pool, zones: seq<nat>)
    requires Listed(p) && zones != []
    ensures Outcomes(bufs, p, zones) == Outcomes(bufs, p, zones[..|zones| - 1]) + [FlushedAt(bufs, p, zones, |zones| - 1)]
  {
    hide FlushEach, FlushZone;
    var n := |zones| - 1;
    forall i | 0 <= i < n ensures FlushedAt(bufs, p, zones, i) == FlushedAt(bufs, p, zones[..n], i) {
      assert zones[..n][..i] == zones[..i];
    }
  }

  lemma LastFlush(bufs: Buffers, p: Pool, zones: seq<nat>)
    requires Listed(p) && zones != []
    ensures var n, first := |zones| - 1, FlushEach(bufs, p, zones[..|zones| - 1]).2;
      FlushEach(bufs, p, zones).2 == if first != Ok then first else FlushedAt(bufs, p, zones, n)
  {
    hide FlushZone;
  }

  lemma {:induction false} FlushEachDrops(bufs: Buffers, p: Pool, zones: seq<nat>)
    requires Listed(p)
    ensures var bufs' := FlushEach(bufs, p, zones).0;
      (forall z :: z in bufs' <==> z in bufs && z !in zones) && (forall z :: z in bufs' ==> bufs'[z] == bufs[z])
  {
    hide FlushZone;
    if zones != [] {
      var n := |zones| - 1;
      FlushEachDrops(bufs, p, zones[..n]);
      var (m, q, _) := FlushEach(bufs, p, zones[..n]);
      FlushDrops(m, q, zones[n]);
      assert zones == zones[..n] + [zones[n]];
    }
  }

  /** The outcome of the flush of zone `i` of a list, in its turn. */
  function FlushedAt(bufs: Buffers, p: Pool, zones: seq<nat>, i: nat): Status
    requires Listed(p) && i < |zones|
  {
    var (m, q, _) := FlushEach(bufs, p, zones[..i]);
    FlushZone(m, q, zones[i]).2
  }

  lemma FlushDrops(bufs: Buffers, p: Pool, z: nat)
    requires Listed(p)
    ensures FlushZone(bufs, p, z).0 == bufs - {z}
  {
    hide GetOrOpen, D.WriteSectors;
    if z !in bufs { assert bufs - {z} == bufs; }
  }

  // ---------- the pointer after a flush ----------

  /** Whatever the state, an accepted flush of some sectors leaves the tracked pointer of its zone behind them. */
  lemma FlushPoints(bufs: Buffers, p: Pool, z: nat)
    requires Listed(p) && z in bufs && bufs[z].data != [] && FlushZone(bufs, p, z).2 == Ok
    ensures var q := FlushZone(bufs, p, z).1;
      z < |q.zm.zones| && q.zm.zones[z].wp == bufs[z].wp + |bufs[z].data|
  {
    hide D.WriteSectors, D.OpenZone, D.CloseZone, Without;
  }

  // ---------- what the buffer answers ----------

  /** The buffer answers for some sectors exactly when it holds all of them, and then with those. */
  lemma LookupIs(bufs: Buffers, z: nat, lba: nat, count: nat)
    ensures var r := Lookup(bufs, z, lba, count);
      && (r.Success? <==> z in bufs && count > 0 && bufs[z].wp <= lba && lba + count <= bufs[z].wp + |bufs[z].data|)
      && (r.Success? ==> |r.value| == count && forall k :: 0 <= k < count ==> r.value[k] == bufs[z].data[lba - bufs[z].wp + k])
  {
  }
}
