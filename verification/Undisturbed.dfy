/** The collector's steps with no foreground between them are the collection in one piece. */
module Undisturbed {
  import opened Errors
  import opened Segment
  import opened Pool
  import opened Log
  import opened Ztl
  import opened Interleave
  import D = Device

  /** Steps of the collector alone. */
  function Steps(w: World, n: nat): (r: World)
    requires Ready(w.s.base)
    ensures Ready(r.s.base)
    decreases n
  {
    if n == 0 then w else Steps(CollectorStep(w), n - 1)
  }

  lemma {:induction false} StepsAdd(w: World, m: nat, n: nat)
    requires Ready(w.s.base)
    ensures Steps(w, m + n) == Steps(Steps(w, m), n)
    decreases m
  {
    hide CollectorStep;
    if m > 0 {
      StepsAdd(CollectorStep(w), m - 1, n);
      assert m + n - 1 == m - 1 + n;
    }
  }

  /** A state in which the next segment of a collection is about to be looked at. */
  ghost predicate Checking(w: World) {
    Ready(w.s.base) && w.gc.Migrating? && w.gc.stage == Check
  }

  /** The state with another base, and the rest of the segments still to come. */
  function Onward(w: World, b: Base): World
    requires w.gc.Migrating? && w.gc.live != []
  {
    World(w.s.(base := b), w.gc.(live := w.gc.live[1..]))
  }

  lemma OneMigration(w: World) returns (n: nat)
    requires Checking(w) && w.gc.live != []
    ensures var (b, r) := MigrateSegment(w.s.base, w.gc.victim, w.gc.live[0].0, w.gc.live[0].1);
      Steps(w, n) == if r == Ok then Onward(w, b) else Quit(w, b)
  {
    var b, victim, seg, off := w.s.base, w.gc.victim, w.gc.live[0].0, w.gc.live[0].1;
    hide Fetch, Claim, Copy, Announce, Settle, Abandon, ZoneID, OffsetSectors, Steps, Unfreeze;
    OneStep(w);
    n := 1;
    if !IsUnmapped(Get(b.l2p, seg)) && StillThere(b, victim, seg, off) {
      hide StillThere;
      var w1 := CollectorStep(w);
      var rest := FetchOn(w1, Get(b.l2p, seg));
      StepsAdd(w, 1, rest);
      n := 1 + rest;
    } else {
      assert w.s == w.s.(base := b);
    }
  }

  lemma OneStep(w: World)
    requires Ready(w.s.base)
    ensures Steps(w, 1) == CollectorStep(w)
  {
    assert Steps(CollectorStep(w), 0) == CollectorStep(w);
  }

  /** The rest of a migration once its segment has been found where it was. */
  lemma FetchOn(w: World, from: PhysAddr) returns (n: nat)
    requires Ready(w.s.base) && w.gc.Migrating? && w.gc.stage == Fetching(from) && w.gc.live != []
    ensures Steps(w, n) ==
            match Fetch(w.s.base, w.gc.victim, w.gc.live[0].1)
            case Failure(_) => Quit(w, w.s.base)
            case Success(data) =>
              match Claim(w.s.base, w.gc.live[0].0, from, data)
              case (c, Failure(_)) => Quit(w, c)
              case (c, Success(m)) =>
                var (d, r) := Copy(Announce(c, m), m);
                if r != Ok then Quit(w, d) else Onward(w.(gc := w.gc.(stage := Check)), Swap(d, m))
  {
    hide Fetch, Claim, Copy, Announce, Settle, Abandon, Steps, Unfreeze, CAS;
    OneStep(w);
    n := 1;
    var fetched := Fetch(w.s.base, w.gc.victim, w.gc.live[0].1);
    if fetched.Success? {
      var w1 := CollectorStep(w);
      OneStep(w1);
      StepsAdd(w, 1, 1);
      n := 2;
      var (c, claimed) := Claim(w.s.base, w.gc.live[0].0, from, fetched.value);
      if claimed.Success? {
        var w2 := CollectorStep(w1);
        var rest := CopyOn(w2, claimed.value);
        StepsAdd(w, 2, rest);
        n := 2 + rest;
      }
    }
  }

  lemma CopyOn(w: World, m: Move) returns (n: nat)
    requires Ready(w.s.base) && w.gc.Migrating? && w.gc.stage == Announcing(m) && w.gc.live != []
    ensures var (d, r) := Copy(Announce(w.s.base, m), m);
      Steps(w, n) == if r != Ok then Quit(w, d) else Onward(w.(gc := w.gc.(stage := Check)), Swap(d, m))
  {
    hide Copy, Announce, Settle, Abandon, Steps, Unfreeze;
    var w1 := CollectorStep(w);
    var w2 := CollectorStep(w1);
    OneStep(w);
    OneStep(w1);
    StepsAdd(w, 1, 1);
    n := 2;
    var (d, r) := Copy(Announce(w.s.base, m), m);
    if r == Ok {
      OneStep(w2);
      assert !CAS(d.l2p, m.seg, m.from, m.to).1 ==> d.(l2p := CAS(d.l2p, m.seg, m.from, m.to).0) == d;
      var w3 := CollectorStep(w2);
      OneStep(w3);
      StepsAdd(w, 2, 1);
      StepsAdd(w, 3, 1);
      n := 4;
    }
  }

  /** The first migration, and then the others. */
  lemma {:induction false} FirstThenRest(b: Base, victim: nat, live: seq<(nat, nat)>)
    requires Ready(b) && live != []
    ensures var (c, r) := MigrateSegment(b, victim, live[0].0, live[0].1);
      MigrateAll(b, victim, live) == if r != Ok then (c, r) else MigrateAll(c, victim, live[1..])
  {
    hide MigrateSegment;
    var n := |live| - 1;
    if n > 0 {
      FirstThenRest(b, victim, live[..n]);
      assert live[..n][1..] == live[1..][..n - 1];
      assert live[1..][n - 1] == live[n];
    } else {
      assert live[..0] == [] && live[1..] == [];
    }
  }

  lemma {:induction false} AllMigrations(w: World) returns (n: nat)
    requires Checking(w)
    ensures var (b, r) := MigrateAll(w.s.base, w.gc.victim, w.gc.live);
      Steps(w, n) == if r == Ok then World(w.s.(base := b), w.gc.(live := [])) else Quit(w, b)
    decreases |w.gc.live|
  {
    hide MigrateSegment, CollectorStep, Unfreeze;
    n := 0;
    if w.gc.live != [] {
      var victim, live := w.gc.victim, w.gc.live;
      FirstThenRest(w.s.base, victim, live);
      n := OneMigration(w);
      var (c, r) := MigrateSegment(w.s.base, victim, live[0].0, live[0].1);
      if r == Ok {
        var t := Onward(w, c);
        hide Steps, MigrateAll;
        var rest := AllMigrations(t);
        StepsAdd(w, n, rest);
        n := n + rest;
      }
    }
  }

  /** From the beginning of a collection some number of steps ends it, in the state that the collection in one piece
      ends in, accepted or refused. */
  lemma StepsCollect(s: Ztl, victim: nat, order: seq<nat>) returns (n: nat)
    requires Ready(s.base)
    ensures var begun := Act(World(s, Idle), Begin(victim, order)).0;
      Ready(begun.s.base) && Steps(begun, n) == World(s.(base := CollectZone(s.base, victim, order).0), Idle)
  {
    hide MigrateAll, Gather, Seal, Reclaim, MigrateSegment;
    var begun := Act(World(s, Idle), Begin(victim, order)).0;
    n := AllMigrations(begun);
    var f := Freeze(s.base, victim);
    var (m, r) := MigrateAll(f, victim, Gather(f, victim, order));
    if r == Ok {
      var w := World(s.(base := m), Migrating(victim, [], Check));
      hide Freeze, Unfreeze;
      FinalSteps(w);
      StepsAdd(begun, n, 3);
      n := n + 3;
    }
  }

  lemma FinalSteps(w: World)
    requires Checking(w) && w.gc.live == []
    ensures Ready(Seal(w.s.base, w.gc.victim))
    ensures Steps(w, 3) == Quit(w, Reclaim(Seal(w.s.base, w.gc.victim), w.gc.victim).0)
  {
    hide Seal, Reclaim, Unfreeze, Steps;
    var w1 := CollectorStep(w);
    var w2 := CollectorStep(w1);
    OneStep(w);
    OneStep(w1);
    OneStep(w2);
    StepsAdd(w, 1, 1);
    StepsAdd(w, 2, 1);
  }
}
