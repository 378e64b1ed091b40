// The global pool of address-space regions (junction/kernel/mm.h,
// AllocateMMRegion, FreeMMRegion, RegisterMMRegion). A SimpleInterval is an
// area whose attributes are all fixed, so that touching intervals always merge.
module Regions {
  import opened Common
  import opened Areas
  import opened MapEdits
  import opened IntervalSet
  import opened FreeSpace

  const VIRTUAL_AREA_MAX := 0x5000_0000_0000

  function Plain(start: nat, end: nat): VMArea {
    VMArea(start, end, {}, false, Normal, None, 0)
  }

  // SimpleInterval::TryMergeRight only compares bounds, and so does Mergeable on plain areas.
  lemma PlainMergesOnTouch(a: nat, b: nat, c: nat, d: nat)
    ensures Mergeable(Plain(a, b), Plain(c, d)) <==> b == c
    ensures b == c ==> Plain(c, d).MergeRight(Plain(a, b)) == Plain(a, d)
    ensures a < c < b ==> Plain(a, b).TrimHead(c) == Plain(c, b) && Plain(a, b).TrimTail(c) == Plain(a, c)
  {
  }

  ghost predicate Inside(r: (nat, nat), x: nat) { r.0 <= x < r.1 }

  ghost predicate Disjoint(live: set<(nat, nat)>) {
    forall r, s | r in live && s in live && r != s :: r.1 <= s.0 || s.1 <= r.0
  }

  // The reserved addresses are exactly those of the live regions.
  ghost predicate ReservedIsUnion(m: AreaMap, live: set<(nat, nat)>) {
    forall x: nat :: At(m, x).Some? <==> exists r :: r in live && Inside(r, x)
  }

  ghost predicate RegionsOk(live: set<(nat, nat)>) {
    Disjoint(live) && forall r | r in live :: r.0 < r.1 <= VIRTUAL_AREA_MAX
  }

  class RegionPool {
    const areas: ExclusiveIntervalSet
    ghost var live: set<(nat, nat)>

    ghost predicate Consistent()
      reads this, areas
    {
      Canonical(areas.intervals) && RegionsOk(live) && ReservedIsUnion(areas.intervals, live)
    }

    constructor ()
      ensures Consistent() && live == {} && areas.intervals == map[] && fresh(areas)
    {
      areas := new ExclusiveIntervalSet();
      live := {};
    }

    // Returns the highest free range of len bytes and reserves it. When there
    // is no hole left, the scan's subtraction wraps: the caller gets a range
    // that runs past the end of the address space, and the interval stored for
    // it starts above its end, so that the pool is no longer the union of even
    // the regions that were live before.
    method AllocateMMRegion(len: nat) returns (r: Result<nat, Errno>)
      requires Consistent() && 0 < len < WORD
      modifies this, areas
      ensures r.Ok? && live == old(live) + {(r.value, r.value + len)}
      ensures Consistent() <==> HoleBelow(old(areas.intervals), len, VIRTUAL_AREA_MAX)
      ensures HoleBelow(old(areas.intervals), len, VIRTUAL_AREA_MAX) ==>
                && IsBestFit(r, old(areas.intervals), len, VIRTUAL_AREA_MAX, 0)
                && (r.value, r.value + len) !in old(live)
      ensures !HoleBelow(old(areas.intervals), len, VIRTUAL_AREA_MAX) ==>
                && r.value == WORD + Floor(old(areas.intervals), VIRTUAL_AREA_MAX) - len
                && !(Valid(areas.intervals) && ReservedIsUnion(areas.intervals, old(live)))
    {
      hide ReservedIsUnion, RegionsOk, Inserted, IsBestFit, HoleBelow, Floor, At, Valid, MaximallyMerged;
      ghost var m := areas.intervals;
      PoolBound(m, live);
      r := areas.FindFreeRange(len, VIRTUAL_AREA_MAX, 0);
      ghost var hole := HoleBelow(m, len, VIRTUAL_AREA_MAX);
      if hole {
        HoleFound(m, live, len, r);
      } else {
        FullPoolWraps(m, live, len);
        FullPoolBreaks(m, live, len);
      }
      areas.Insert(Plain(r.value, (r.value + len) % WORD));
      if hole {
        ReservedGrows(m, areas.intervals, live, r.value, len);
      }
      live := live + {(r.value, r.value + len)};
      if !hole {
        WrappedIsNotOk(live, r.value, len);
      }
    }

    // Also RegisterMMRegion, whose assertion is this precondition.
    method Reserve(base: nat, len: nat)
      requires Consistent() && 0 < len
      requires Fitting(areas.intervals, base, len, VIRTUAL_AREA_MAX, 0)
      modifies this, areas
      ensures Consistent()
      ensures live == old(live) + {(base, base + len)} && (base, base + len) !in old(live)
    {
      hide ReservedIsUnion;
      ghost var m := areas.intervals;
      FreeOfLive(m, live, base, len);
      areas.Insert(Plain(base, base + len));
      ReservedGrows(m, areas.intervals, live, base, len);
      live := live + {(base, base + len)};
    }

    method FreeMMRegion(start: nat, end: nat)
      requires Consistent() && (start, end) in live
      modifies this, areas
      ensures Consistent()
      ensures live == old(live) - {(start, end)}
    {
      hide ReservedIsUnion, MaximallyMerged, AllPageAligned, Remainder, ClearIterator;
      ghost var m := areas.intervals;
      var _ := areas.Clear(start, end);
      ReservedShrinks(m, areas.intervals, live, start, end);
      live := live - {(start, end)};
    }
  }

  lemma PoolBound(m: AreaMap, live: set<(nat, nat)>)
    requires Valid(m) && RegionsOk(live) && ReservedIsUnion(m, live)
    ensures AllBelow(m, VIRTUAL_AREA_MAX)
  {
    forall k | k in m ensures k <= VIRTUAL_AREA_MAX {
      AtCovered(m, k, k - 1);
    }
  }

  lemma ReservedGrows(m: AreaMap, n: AreaMap, live: set<(nat, nat)>, base: nat, len: nat)
    requires RegionsOk(live) && ReservedIsUnion(m, live) && 0 < len && base + len <= VIRTUAL_AREA_MAX
    requires forall r | r in live :: r.1 <= base || base + len <= r.0
    requires forall x: nat :: At(n, x).Some? <==> base <= x < base + len || At(m, x).Some?
    ensures RegionsOk(live + {(base, base + len)}) && ReservedIsUnion(n, live + {(base, base + len)})
    ensures (base, base + len) !in live
  {
    hide At;
    var r := (base, base + len);
    forall x: nat ensures At(n, x).Some? <==> exists s :: s in live + {r} && Inside(s, x) {
      if base <= x < base + len { assert r in live + {r} && Inside(r, x); }
      if s :| s in live && Inside(s, x) { assert s in live + {r}; }
    }
  }

  lemma ReservedShrinks(m: AreaMap, n: AreaMap, live: set<(nat, nat)>, start: nat, end: nat)
    requires RegionsOk(live) && ReservedIsUnion(m, live) && (start, end) in live
    requires forall x: nat :: At(n, x).Some? <==> !(start <= x < end) && At(m, x).Some?
    ensures ReservedIsUnion(n, live - {(start, end)})
  {
    hide At;
    var r := (start, end);
    forall x: nat ensures At(n, x).Some? <==> exists s :: s in live - {r} && Inside(s, x) {
      if s :| s in live && Inside(s, x) {
        assert start <= x < end ==> s == r;
        assert s != r ==> s in live - {r};
      }
    }
  }

  lemma HoleFound(m: AreaMap, live: set<(nat, nat)>, len: nat, r: Result<nat, Errno>)
    requires Valid(m) && RegionsOk(live) && ReservedIsUnion(m, live) && 0 < len < WORD
    requires AllBelow(m, VIRTUAL_AREA_MAX) && HoleBelow(m, len, VIRTUAL_AREA_MAX)
    requires IsBestFit(r, m, len, VIRTUAL_AREA_MAX, 0) <==> ScanSafe(m, len, VIRTUAL_AREA_MAX, 0)
    ensures IsBestFit(r, m, len, VIRTUAL_AREA_MAX, 0)
    ensures r.Ok? && r.value + len <= VIRTUAL_AREA_MAX && (r.value + len) % WORD == r.value + len
    ensures forall s | s in live :: s.1 <= r.value || r.value + len <= s.0
  {
    hide ReservedIsUnion, RegionsOk, Floor, At;
    assert IsBestFit(r, m, len, VIRTUAL_AREA_MAX, 0);
    FreeOfLive(m, live, r.value, len);
  }

  lemma WrappedIsNotOk(live: set<(nat, nat)>, base: nat, len: nat)
    requires base + len >= WORD && (base, base + len) in live
    ensures !RegionsOk(live)
  {
  }

  // The interval stored for a range that wrapped ends where the lowest area
  // starts, and there is nothing for Insert to clear.
  lemma FullPoolWraps(m: AreaMap, live: set<(nat, nat)>, len: nat)
    requires Valid(m) && AllBelow(m, VIRTUAL_AREA_MAX) && 0 < len < WORD && !HoleBelow(m, len, VIRTUAL_AREA_MAX)
    ensures var floor := Floor(m, VIRTUAL_AREA_MAX);
            var base := WORD + floor - len;
            && floor < len && floor <= VIRTUAL_AREA_MAX && (base + len) % WORD == floor
            && ScanResult(floor, len, 0) == Ok(base)
            && (forall k | k in m && base < k :: floor <= m[k].start)
  {
    hide Floor;
    var floor := Floor(m, VIRTUAL_AREA_MAX);
    FloorIsLowest(m, VIRTUAL_AREA_MAX);
    if len <= floor { HoleUnderFloor(m, len, VIRTUAL_AREA_MAX); }
  }

  lemma HoleUnderFloor(m: AreaMap, len: nat, upper: nat)
    requires Valid(m) && AllBelow(m, upper) && len <= Floor(m, upper)
    ensures HoleBelow(m, len, upper)
  {
    FloorIsLowest(m, upper);
    assert Fitting(m, Floor(m, upper) - len, len, upper, 0);
  }

  // Stored and merged, it leaves the first byte of the lowest live region
  // without an interval, unless it is itself no interval.
  lemma FullPoolBreaks(m: AreaMap, live: set<(nat, nat)>, len: nat)
    requires Valid(m) && ReservedIsUnion(m, live) && AllBelow(m, VIRTUAL_AREA_MAX) && 0 < len < WORD
    ensures var floor := Floor(m, VIRTUAL_AREA_MAX);
            var n := Inserted(m, Plain(WORD + floor - len, floor));
            !(Valid(n) && ReservedIsUnion(n, live))
  {
    hide Inserted;
    var floor := Floor(m, VIRTUAL_AREA_MAX);
    var item := Plain(WORD + floor - len, floor);
    match UpperBound(m, 0) {
      case None => EmptyInsert(m, item);
      case Some(low) =>
        assert m[low].Covers(floor) && At(m, floor).Some?;
        WrappedInsert(m, low, item);
    }
  }

  lemma EmptyInsert(m: AreaMap, item: VMArea)
    requires m == map[] && item.end < item.start
    ensures !Valid(Inserted(m, item))
  {
    var m1 := m[item.end := item];
    assert Before(m1, Some(item.end)) == None;
    assert UpperBound(m1, item.end) == None;
    assert Inserted(m, item) == m1 && item.end in m1;
  }

  lemma FloorIsLowest(m: AreaMap, upper: nat)
    requires Valid(m) && AllBelow(m, upper)
    ensures Floor(m, upper) <= upper && forall k | k in m :: Floor(m, upper) <= m[k].start && k != Floor(m, upper)
  {
    var first := UpperBound(m, 0);
    forall k | k in m ensures Floor(m, upper) <= m[k].start && k != Floor(m, upper) {
      if first.value < k { assert first.value <= m[k].start; }
    }
  }

  lemma WrappedInsert(m: AreaMap, low: nat, item: VMArea)
    requires Valid(m) && low in m && item.end == m[low].start < item.start
    requires forall k | k in m :: low <= k
    ensures var n := Inserted(m, item); Valid(n) ==> At(n, item.end).None?
  {
    var k := item.end;
    var m1 := m[k := item];
    assert k !in m && MapInsert(m, item) == m1;
    assert Before(m1, Some(k)) == None;
    assert low in m1 && UpperBound(m1, k).value in m;
    var n := MergeInto(m1, Some(k), low);
    assert n == Inserted(m, item);
    if Valid(n) {
      assert k !in n || !n[k].WellFormed();
      forall j | j in n ensures !n[j].Covers(k) {
        if j != low { assert low <= m[j].start; }
      }
    }
  }

  // A pool with nothing left, and one more page asked of it.
  method AllocateFromFullPool() returns (p: RegionPool, r: Result<nat, Errno>)
    ensures !p.Consistent() && r == Ok(WORD - 4096) && (0, VIRTUAL_AREA_MAX) in p.live
  {
    p := new RegionPool();
    p.Reserve(0, VIRTUAL_AREA_MAX);
    ghost var m := p.areas.intervals;
    forall x: nat | x < VIRTUAL_AREA_MAX ensures At(m, x).Some? {
      assert (0, VIRTUAL_AREA_MAX) in p.live && Inside((0, VIRTUAL_AREA_MAX), x);
    }
    FullPool(m);
    r := p.AllocateMMRegion(4096);
  }

  lemma FullPool(m: AreaMap)
    requires Valid(m) && forall x: nat | x < VIRTUAL_AREA_MAX :: At(m, x).Some?
    ensures !HoleBelow(m, 4096, VIRTUAL_AREA_MAX) && Floor(m, VIRTUAL_AREA_MAX) == 0
  {
    forall a: nat ensures !Fitting(m, a, 4096, VIRTUAL_AREA_MAX, 0) {
      if a < VIRTUAL_AREA_MAX {
        assert At(m, a).Some?;
        var k :| k in m && m[k].Covers(a);
      }
    }
    assert At(m, 0).Some?;
    var k :| k in m && m[k].Covers(0);
    var first := UpperBound(m, 0).value;
    assert first in m && k in m && first <= k;
  }

  lemma LiveIsNotFree(m: AreaMap, live: set<(nat, nat)>, r: (nat, nat), base: nat, len: nat, x: nat)
    requires Valid(m) && ReservedIsUnion(m, live) && r in live && Inside(r, x) && base <= x < base + len
    ensures !FreeRange(m, base, len)
  {
    assert At(m, x).Some?;
    var k :| k in m && m[k].Covers(x);
    assert base < k && m[k].start < base + len;
  }

  lemma FreeOfLive(m: AreaMap, live: set<(nat, nat)>, base: nat, len: nat)
    requires Valid(m) && RegionsOk(live) && ReservedIsUnion(m, live) && 0 < len && FreeRange(m, base, len)
    ensures forall r | r in live :: r.1 <= base || base + len <= r.0
  {
    forall r | r in live ensures r.1 <= base || base + len <= r.0 {
      var x := Max(r.0, base);
      if x < r.1 && x < base + len {
        LiveIsNotFree(m, live, r, base, len, x);
      }
    }
  }
}
