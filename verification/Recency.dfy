/** The list of open zones is in order of use: the zone at its front, which an eviction closes, is the one whose last
    allocation or reopening is longest ago. */
module Recency {
  import opened Errors
  import opened Pool
  import opened OpenZones
  import opened Coherence
  import D = Device

  /** When a zone was last used, as a position in the uses so far; -1 for a zone never used. */
  function LastUse(uses: seq<nat>, z: nat): (at: int)
    ensures -1 <= at < |uses|
    ensures at == -1 <==> z !in uses
    ensures at >= 0 ==> uses[at] == z && z !in uses[at + 1..]
  {
    if uses == [] then -1 else
    var last := |uses| - 1;
    if uses[last] == z then last
    else
      var at := LastUse(uses[..last], z);
      assert at >= 0 ==> uses[at + 1..] == uses[..last][at + 1..] + [uses[last]];
      at
  }

  /** Every listed zone was used, and each was used before all that follow it, unless it is listed again. */
  ghost predicate InOrder(list: seq<nat>, uses: seq<nat>) {
    && (forall i :: 0 <= i < |list| ==> list[i] in uses)
    && forall i, j :: 0 <= i < j < |list| && list[i] !in list[i + 1..] ==> LastUse(uses, list[i]) < LastUse(uses, list[j])
  }

  lemma UseMore(uses: seq<nat>, x: nat, z: nat)
    ensures LastUse(uses + [x], z) == if z == x then |uses| else LastUse(uses, z)
  {
    assert (uses + [x])[..|uses|] == uses;
  }

  /** Zones in the order of a report count as used in that order. */
  lemma StartsInOrder(list: seq<nat>)
    requires Distinct(list)
    ensures InOrder(list, list)
  {
    forall i | 0 <= i < |list| ensures LastUse(list, list[i]) == i {
      assert list[i] in list;
      var at := LastUse(list, list[i]);
      assert list[at] == list[i];
    }
  }

  /** A zone is used and goes to the back. */
  lemma UsedInOrder(list: seq<nat>, uses: seq<nat>, z: nat)
    requires InOrder(list, uses)
    ensures InOrder(list + [z], uses + [z])
  {
    hide LastUse;
    var l := list + [z];
    forall i | 0 <= i < |l| ensures l[i] in uses + [z] {
    }
    forall i, j | 0 <= i < j < |l| && l[i] !in l[i + 1..] ensures LastUse(uses + [z], l[i]) < LastUse(uses + [z], l[j]) {
      UseMore(uses, z, l[i]);
      UseMore(uses, z, l[j]);
      assert l[i + 1..][|l| - 1 - (i + 1)] == z;
      assert l[i + 1..] == list[i + 1..] + [z];
    }
  }

  function Cut(list: seq<nat>, p: nat): (l: seq<nat>)
    requires p < |list|
    ensures |l| == |list| - 1 && forall i :: 0 <= i < |l| ==> l[i] == list[Before(i, p)]
  {
    list[..p] + list[p + 1..]
  }

  /** Where an entry was before the cut. */
  function Before(i: nat, p: nat): nat {
    if i < p then i else i + 1
  }

  /** An entry not listed again after a cut was not listed again before it. */
  lemma LastInCut(list: seq<nat>, p: nat, i: nat)
    requires p < |list| && list[p] !in list[..p] && i < |list| - 1 && Cut(list, p)[i] !in Cut(list, p)[i + 1..]
    ensures list[Before(i, p)] !in list[Before(i, p) + 1..]
  {
    var l, i0 := Cut(list, p), Before(i, p);
    forall k | i0 < k < |list| ensures list[k] != list[i0] {
      if k == p {
        assert list[..p][i0] == list[i0];
      } else {
        var k1 := if k < p then k else k - 1;
        assert l[k1] == list[k] && l[i + 1..][k1 - i - 1] == l[k1];
      }
    }
  }

  /** The list with the first entry for a zone cut out. */
  lemma CutInOrder(list: seq<nat>, uses: seq<nat>, p: nat)
    requires InOrder(list, uses) && p < |list| && list[p] !in list[..p]
    ensures InOrder(Cut(list, p), uses)
  {
    hide LastUse;
    var l := Cut(list, p);
    forall i, j | 0 <= i < j < |l| && l[i] !in l[i + 1..] ensures LastUse(uses, l[i]) < LastUse(uses, l[j]) {
      LastInCut(list, p, i);
      assert Before(i, p) < Before(j, p);
    }
  }

  /** Where a zone is cut out of a list. */
  lemma {:induction false} WithoutCuts(list: seq<nat>, z: nat) returns (p: nat)
    ensures z in list ==> p < |list| && list[p] == z && z !in list[..p] && Without(list, z) == Cut(list, p)
    ensures z !in list ==> Without(list, z) == list
  {
    p := 0;
    if list != [] && list[0] != z {
      p := WithoutCuts(list[1..], z);
      if z in list[1..] {
        p := p + 1;
        assert list[..p] == [list[0]] + list[1..][..p - 1];
      }
    }
  }

  lemma WithoutInOrder(list: seq<nat>, uses: seq<nat>, z: nat)
    requires InOrder(list, uses)
    ensures InOrder(Without(list, z), uses)
  {
    var p := WithoutCuts(list, z);
    if z in list { CutInOrder(list, uses, p); }
  }

  lemma TailInOrder(list: seq<nat>, uses: seq<nat>)
    requires InOrder(list, uses) && list != []
    ensures InOrder(list[1..], uses)
  {
    CutInOrder(list, uses, 0);
    assert Cut(list, 0) == list[1..];
  }

  /** The zone at the front, if it is listed once, was last used before every other listed zone. */
  ghost predicate OldestFirst(list: seq<nat>, uses: seq<nat>) {
    list != [] && list[0] !in list[1..] ==> forall z :: z in list && z != list[0] ==> LastUse(uses, list[0]) < LastUse(uses, z)
  }

  lemma FrontIsOldest(list: seq<nat>, uses: seq<nat>)
    requires InOrder(list, uses)
    ensures OldestFirst(list, uses)
  {
  }

  lemma {:induction false} SelectDistinct(zones: seq<D.Zone>, n: nat, chosen: D.Condition -> bool)
    requires n <= |zones|
    ensures Distinct(Select(zones, n, chosen)) && forall z :: z in Select(zones, n, chosen) ==> z < n
  {
    if n > 0 {
      SelectDistinct(zones, n - 1, chosen);
      var rest := Select(zones, n - 1, chosen);
      assert forall k :: 0 <= k < |rest| ==> rest[k] in rest;
    }
  }

  // ---------- calls ----------

  /** A call of the zone manager, or anything that leaves its list alone: a device write, a counter, a pointer. */
  datatype Call = Allocate | Reopen(zone: nat) | Finish(zone: nat) | Recycle(zone: nat) | Other(after: Pool)

  ghost predicate LeavesList(p: Pool, q: Pool) {
    Listed(q) && q.zm.openList == p.zm.openList && q.zm.openSet == p.zm.openSet && q.zm.maxOpen == p.zm.maxOpen
  }

  /** The pool after a call, and the zone it used, if any. */
  ghost function Called(p: Pool, c: Call): (r: (Pool, seq<nat>))
    requires Listed(p) && (c.Other? ==> LeavesList(p, c.after))
    ensures Listed(r.0)
  {
    match c
    case Allocate => var (q, alloc) := AllocateFree(p); (q, if alloc.Success? then [alloc.value] else [])
    case Reopen(z) => var (q, r) := GetOrOpen(p, z); (q, if r == Ok then [z] else [])
    case Finish(z) => (MarkFull(p, z).0, [])
    case Recycle(z) => RecycleListed(p, z); (p.(zm := MarkEmpty(p.zm, z).0), [])
    case Other(q) => (q, [])
  }

  lemma RecycleListed(p: Pool, z: nat)
    requires Listed(p)
    ensures Listed(p.(zm := MarkEmpty(p.zm, z).0))
  {
  }

  /** Any sequence of calls in any states between them, and the uses they make. */
  ghost predicate Traced(ps: seq<Pool>, calls: seq<Call>, uses: seq<seq<nat>>) {
    && |ps| == |uses| == |calls| + 1
    && (forall i :: 0 <= i < |ps| ==> Listed(ps[i]))
    && forall i :: 0 <= i < |calls| ==>
         && (calls[i].Other? ==> LeavesList(ps[i], calls[i].after))
         && ps[i + 1] == Called(ps[i], calls[i]).0 && uses[i + 1] == uses[i] + Called(ps[i], calls[i]).1
  }

  lemma CallInOrder(p: Pool, uses: seq<nat>, c: Call)
    requires Listed(p) && (c.Other? ==> LeavesList(p, c.after)) && InOrder(p.zm.openList, uses)
    ensures InOrder(Called(p, c).0.zm.openList, uses + Called(p, c).1)
  {
    hide InOrder, D.OpenZone, D.CloseZone, D.FinishZone, Without;
    var list := p.zm.openList;
    assert uses + [] == uses;
    match c {
      case Allocate =>
        RoomInOrder(p, uses);
        var alloc := AllocateFree(p).1;
        if alloc.Success? { UsedInOrder(MakeRoom(p).0.zm.openList, uses, alloc.value); }
      case Reopen(z) =>
        RoomInOrder(p, uses);
        WithoutInOrder(list, uses, z);
        UsedInOrder(Without(list, z), uses, z);
        UsedInOrder(MakeRoom(p).0.zm.openList, uses, z);
      case Finish(z) => WithoutInOrder(list, uses, z);
      case Recycle(z) => WithoutInOrder(list, uses, z);
      case Other(q) =>
    }
  }

  lemma RoomInOrder(p: Pool, uses: seq<nat>)
    requires Listed(p) && InOrder(p.zm.openList, uses)
    ensures InOrder(MakeRoom(p).0.zm.openList, uses)
  {
    hide D.CloseZone, InOrder;
    if p.zm.openList != [] { TailInOrder(p.zm.openList, uses); }
  }

  /** After every sequence of calls the list of open zones is in the order of their last uses. */
  lemma {:induction false} OrderOfUse(ps: seq<Pool>, calls: seq<Call>, uses: seq<seq<nat>>)
    requires Traced(ps, calls, uses) && InOrder(ps[0].zm.openList, uses[0])
    ensures InOrder(ps[|calls|].zm.openList, uses[|calls|])
    decreases |calls|
  {
    if calls != [] {
      var n := |calls| - 1;
      OrderOfUse(ps[..n + 1], calls[..n], uses[..n + 1]);
      CallInOrder(ps[n], uses[n], calls[n]);
    }
  }

  /** So when room is made, the zone that is closed is the open zone whose last use is longest ago. */
  lemma EvictsOldest(p: Pool, uses: seq<nat>)
    requires Lru(p) && InOrder(p.zm.openList, uses) && MakeRoom(p).1 == Ok && |p.zm.openSet| >= p.zm.maxOpen
    ensures p.zm.openList != []
    ensures var z, q := p.zm.openList[0], MakeRoom(p).0;
      && q.zm.openSet == p.zm.openSet - {z} && z in p.zm.openSet && z < |q.dev.zones| && q.dev.zones[z].cond == D.Closed
      && forall y :: y in q.zm.openSet ==> LastUse(uses, z) < LastUse(uses, y)
  {
    hide D.Sane, Listed, LastUse;
    EvictMoves(p);
    FrontIsOldest(p.zm.openList, uses);
    var z := p.zm.openList[0];
    assert z in p.zm.openList;
    assert z !in p.zm.openList[1..];
  }

  // ---------- one call ----------

  /** Where the entries of one list stand in another, in the same order. */
  ghost predicate Places(kept: seq<nat>, list: seq<nat>, at: seq<nat>) {
    && |at| == |kept|
    && (forall i :: 0 <= i < |at| ==> at[i] < |list| && list[at[i]] == kept[i])
    && forall i, j :: 0 <= i < j < |at| ==> at[i] < at[j]
  }

  ghost predicate SameOrder(kept: seq<nat>, list: seq<nat>) {
    exists at :: Places(kept, list, at)
  }

  lemma CutKeepsOrder(list: seq<nat>, p: nat)
    requires p < |list|
    ensures SameOrder(Cut(list, p), list)
  {
    assert Places(Cut(list, p), list, seq(|list| - 1, i requires 0 <= i => Before(i, p)));
  }

  lemma SameKeepsOrder(list: seq<nat>)
    ensures SameOrder(list, list)
  {
    assert Places(list, list, seq(|list|, i requires 0 <= i => i));
  }

  lemma ReopenedList(p: Pool, z: nat)
    requires Lru(p) && GetOrOpen(p, z).1 == Ok
    ensures var list := p.zm.openList;
      && (z in list <==> z in p.zm.openSet) && |list| == |p.zm.openSet|
      && GetOrOpen(p, z).0.zm.openList ==
         (if z in list then Without(list, z) else if |list| >= p.zm.maxOpen && list != [] then list[1..] else list) + [z]
  {
    hide D.OpenZone, D.CloseZone, D.Sane, Without;
  }

  /** A zone made ready is last in the list, and the others stay in their order, but for the one at the front when it
      is closed to make room. */
  lemma ReopenedLast(p: Pool, z: nat)
    requires Lru(p) && GetOrOpen(p, z).1 == Ok
    ensures var list, list' := p.zm.openList, GetOrOpen(p, z).0.zm.openList;
      && list' != [] && list'[|list'| - 1] == z
      && SameOrder(list'[..|list'| - 1], list)
      && z !in list'[..|list'| - 1]
      && (forall x :: x in list && x != z ==> x in list' || (x == list[0] && z !in list && |list| >= p.zm.maxOpen))
  {
    ReopenedList(p, z);
    var list, list' := p.zm.openList, GetOrOpen(p, z).0.zm.openList;
    var kept := list'[..|list'| - 1];
    assert list' == kept + [z];
    assert Distinct(list);
    hide Lru, GetOrOpen, SameOrder;
    var cut := WithoutCuts(list, z);
    WithoutMembers(list, z);
    if z in list {
      CutKeepsOrder(list, cut);
    } else if |list| >= p.zm.maxOpen && list != [] {
      CutKeepsOrder(list, 0);
      assert Cut(list, 0) == list[1..];
      assert list == [list[0]] + list[1..];
    } else {
      SameKeepsOrder(list);
    }
  }
}
