/** A write and a migration of the same segment inside each other's steps. A write reads the segment's old address
    and sets the new one later, under a lock that the collector does not take (internal/ztl/ztl.go:232-257,
    internal/ztl/gc.go:247-263); here a migration wins its swap between the two. */
module Race {
  import opened Errors
  import opened Segment
  import opened Pool
  import opened Log
  import opened Ztl
  import opened Coherence
  import opened GcSteps
  import opened Collect
  import opened Bookkeeping
  import D = Device

  /** The state after: the swap of `m` and its bookkeeping, and then those of a write that had read `m.from`. */
  function Raced(b: Base, m: Move, phys: PhysAddr, zone: nat): Base {
    var c := Swap(b, m);
    Relocate(c.(l2p := if m.seg < |c.l2p| then c.l2p[m.seg := phys] else c.l2p), m.seg, m.from, phys, zone)
  }

  ghost predicate Races(s: Ztl, m: Move, phys: PhysAddr, zone: nat) {
    && Core(s) && Exact(s.base) && |s.base.pool.zm.zones| == |s.base.pool.dev.zones| && Copied(s, m)
    && m.seg < |s.base.l2p| && s.base.l2p[m.seg] == m.from != UNMAPPED
    && ZoneID(m.to) == m.zone && ZoneID(m.from) != m.zone
    && zone < |s.base.pool.zm.zones| && zone != m.zone && zone != ZoneID(m.from)
    && phys != UNMAPPED && ZoneID(phys) == zone && Vacant(s.base, m.seg, phys)
  }

  /** The write wins: the segment is at its new address, and the reverse map finds every segment, so that nothing is
      lost to a later collection. */
  lemma WriteStands(s: Ztl, m: Move, phys: PhysAddr, zone: nat)
    requires Races(s, m, phys, zone)
    ensures var c := Raced(s.base, m, phys, zone);
      c.l2p == s.base.l2p[m.seg := phys] && Covers(c)
  {
    hide Core, ZoneID, OffsetSectors, EncodePhysAddr, Copied, AllCounted;
    var b, c := s.base, Raced(s.base, m, phys, zone);
    assert c.l2p == b.l2p[m.seg := phys];
    CopiedNone(s, m);
    forall i | 0 <= i < |c.l2p| && c.l2p[i] != UNMAPPED
      ensures Key(c.l2p[i]) in c.p2l && c.p2l[Key(c.l2p[i])] == i {
      if i != m.seg {
        assert b.p2l[Key(b.l2p[i])] == i && b.p2l[Key(m.from)] == m.seg;
        if Key(b.l2p[i]) == Key(phys) { SameKey(b.l2p[i], phys); }
        if Key(b.l2p[i]) == Key(m.to) { SameKey(b.l2p[i], m.to); }
      }
    }
  }

  lemma CopiedNone(s: Ztl, m: Move)
    requires |s.base.pool.zm.zones| == |s.base.pool.dev.zones| && Copied(s, m)
    ensures NoneIn(s.base.l2p, m.zone) && m.zone < |s.base.pool.zm.zones|
  {
  }

  /** But the counters are wrong: the copy's zone counts a valid segment that nothing maps into it, and the segment's
      leaving the victim is counted twice, or once if it was the last. */
  lemma Miscounts(s: Ztl, m: Move, phys: PhysAddr, zone: nat)
    requires Races(s, m, phys, zone)
    ensures ZoneID(m.from) < |s.base.pool.zm.zones| && m.zone < |s.base.pool.zm.zones|
    ensures var c, v := Raced(s.base, m, phys, zone), ZoneID(m.from);
      && |c.pool.zm.zones| == |s.base.pool.zm.zones|
      && MappedIn(c, m.zone) == 0 && c.pool.zm.zones[m.zone].valid == s.base.pool.zm.zones[m.zone].valid + 1
      && MappedIn(c, v) == MappedIn(s.base, v) - 1
      && c.pool.zm.zones[v].valid == (if s.base.pool.zm.zones[v].valid >= 2 then s.base.pool.zm.zones[v].valid - 2 else 0)
  {
    hide Core, ZoneID, OffsetSectors, EncodePhysAddr, Covers, ReverseExact, Copied, Vacant, AllCounted, MappedIn;
    var b, c := s.base, Raced(s.base, m, phys, zone);
    MappedLocated(s, m.seg);
    CopiedNone(s, m);
    NoneMapped(b, m.zone);
    CountedValid(b, m.seg);
    MappedUpdate(b, c, m.seg, phys, m.zone);
    MappedUpdate(b, c, m.seg, phys, ZoneID(m.from));
  }

  // ---------- a copy that is given up ----------

  /** A lost swap leaves its copy counted once and as dead, so that the zone claimed for it, once closed, may be
      collected, frees a zone, and moves nothing. */
  lemma AbandonedIsSpent(b: Base, m: Move)
    requires m.zone < |b.pool.zm.zones| && b.pool.zm.zones[m.zone].valid == b.pool.zm.zones[m.zone].total == 0
    ensures var c := Abandon(b, m);
      && c == b.(pool := b.pool.(zm := c.pool.zm)) && |c.pool.zm.zones| == |b.pool.zm.zones|
      && c.pool.zm.zones[m.zone] == b.pool.zm.zones[m.zone].(total := 1)
      && (forall z :: 0 <= z < |b.pool.zm.zones| && z != m.zone ==> c.pool.zm.zones[z] == b.pool.zm.zones[z])
      && (m.zone !in c.pool.zm.frozen && c.pool.zm.zones[m.zone].cond == D.Closed ==>
            Eligible(c.pool.zm, m.zone) && forall i: nat :: Eligible(c.pool.zm, i) ==> DeaderThan(c.pool.zm.zones[m.zone], c.pool.zm.zones[i]))
  {
  }
}
