// What FindFreeRange (junction/base/interval_set.h) should return, and the
// exact condition under which its backward scan returns it. Addresses wrap
// modulo 2^64, as uintptr_t does.
module FreeSpace {
  import opened Common
  import opened Areas

  ghost predicate FreeRange(m: AreaMap, a: nat, len: nat) {
    forall k | k in m :: k <= a || a + len <= m[k].start
  }

  // [a, a + len) is free and lies within [lower, upper).
  ghost predicate Fitting(m: AreaMap, a: nat, len: nat, upper: nat, lower: nat) {
    lower <= a && a + len <= upper && FreeRange(m, a, len)
  }

  // The highest fitting address, or ENOMEM when there is none.
  ghost predicate IsBestFit(r: Result<nat, Errno>, m: AreaMap, len: nat, upper: nat, lower: nat) {
    match r
    case Ok(a) => Fitting(m, a, len, upper, lower) &&
                  forall b: nat | Fitting(m, b, len, upper, lower) :: b <= a
    case Err(e) => e == ENOMEM && forall b: nat :: !Fitting(m, b, len, upper, lower)
  }

  ghost predicate AllBelow(m: AreaMap, upper: nat) {
    forall k | k in m :: k <= upper
  }

  // Some hole of len bytes lies below the upper limit, whatever the lower limit.
  ghost predicate HoleBelow(m: AreaMap, len: nat, upper: nat) {
    exists a :: Fitting(m, a, len, upper, 0)
  }

  // The start of the lowest area, or the upper limit when there is none.
  ghost function Floor(m: AreaMap, upper: nat): nat {
    var first := UpperBound(m, 0);
    if first.None? then upper else m[first.value].start
  }

  // The exact condition for the scan to be right. When the areas stay below
  // the upper limit it needs a hole to exist at all, because otherwise the
  // last subtraction wraps; when they do not, the scan looks only at the
  // topmost len bytes.
  ghost predicate ScanSafe(m: AreaMap, len: nat, upper: nat, lower: nat) {
    if AllBelow(m, upper) then
      HoleBelow(m, len, upper) || WORD + Floor(m, upper) - len < lower
    else if len <= upper then
      upper - len < lower || FreeRange(m, upper - len, len)
    else
      WORD + upper - len < lower
  }

  // The value FindFreeRange returns when its scan stopped at prevStart.
  function ScanResult(prevStart: nat, len: nat, lower: nat): Result<nat, Errno>
    requires prevStart < WORD && len < WORD
  {
    var addr := Sub64(prevStart, len);
    if addr < lower then Err(ENOMEM) else Ok(addr)
  }

  // Where the scan can stop: at the limit or at the start of an area.
  ghost predicate ScanPoint(m: AreaMap, upper: nat, p: nat) {
    p < WORD && (p == upper || exists k :: k in m && m[k].start == p)
  }

  // Every fitting address ends at or below prevStart.
  ghost predicate NothingFitsAbove(m: AreaMap, prevStart: nat, len: nat, upper: nat) {
    forall a: nat | Fitting(m, a, len, upper, 0) :: a + len <= prevStart
  }

  // The scan stopped below a hole that is large enough, or below all areas.
  lemma ScanStops(m: AreaMap, len: nat, upper: nat, lower: nat, prevStart: nat, it: Option<nat>)
    requires Valid(m) && 0 < len && prevStart <= upper < WORD && AllBelow(m, upper) && len < WORD
    requires NothingFitsAbove(m, prevStart, len, upper)
    requires forall k | k in m :: prevStart <= m[k].start || (it.Some? && k <= it.value)
    requires it.Some? ==> it.value in m && it.value <= prevStart && len <= prevStart - it.value
    requires it.None? ==> prevStart == Floor(m, upper)
    ensures IsBestFit(ScanResult(prevStart, len, lower), m, len, upper, lower)
            <==> ScanSafe(m, len, upper, lower)
  {
    if len <= prevStart {
      var a := prevStart - len;
      assert Fitting(m, a, len, upper, 0);
      forall b: nat | Fitting(m, b, len, upper, lower) ensures b <= a {
        assert Fitting(m, b, len, upper, 0);
      }
    } else {
      assert !HoleBelow(m, len, upper);
      forall b: nat ensures !Fitting(m, b, len, upper, lower) {
        assert !Fitting(m, b, len, upper, 0);
      }
    }
  }

  // With no hole at all the scan runs down to the lowest area.
  lemma ScanFloor(m: AreaMap, len: nat, upper: nat, prevStart: nat, it: Option<nat>)
    requires Valid(m) && 0 < len && prevStart <= upper && AllBelow(m, upper)
    requires forall k | k in m :: prevStart <= m[k].start || (it.Some? && k <= it.value)
    requires it.Some? ==> it.value in m && it.value <= prevStart && len <= prevStart - it.value
    ensures it.Some? ==> HoleBelow(m, len, upper)
  {
    if it.Some? { assert Fitting(m, prevStart - len, len, upper, 0); }
  }

  // One step down, over an area k that leaves too small a hole above it.
  lemma ScanStep(m: AreaMap, len: nat, upper: nat, prevStart: nat, k: nat)
    requires Valid(m) && k in m && k <= prevStart && prevStart - k < len
    requires NothingFitsAbove(m, prevStart, len, upper)
    requires forall j | j in m :: prevStart <= m[j].start || j <= k
    ensures NothingFitsAbove(m, m[k].start, len, upper)
    ensures forall j | j in m :: m[k].start <= m[j].start || j < k
    ensures Before(m, Some(k)).None? ==> m[k].start == Floor(m, upper)
  {
    forall a: nat | Fitting(m, a, len, upper, 0) ensures a + len <= m[k].start { }
    if Before(m, Some(k)).None? {
      assert UpperBound(m, 0) == Some(k);
    }
  }

  // An area that ends above the upper limit ends the scan at once.
  lemma ScanBlind(m: AreaMap, len: nat, upper: nat, lower: nat)
    requires Valid(m) && 0 < len < WORD && upper < WORD && !AllBelow(m, upper)
    requires forall k | k in m :: k + len <= WORD
    ensures IsBestFit(ScanResult(upper, len, lower), m, len, upper, lower)
            <==> ScanSafe(m, len, upper, lower)
  {
    if len <= upper {
      assert forall b: nat | Fitting(m, b, len, upper, lower) :: b <= upper - len;
    } else {
      assert forall b: nat :: !Fitting(m, b, len, upper, lower);
    }
  }

  // An area above the limit hides a hole below it: the scan answers with the
  // topmost page, which is taken.
  lemma ScanMissesHole()
    ensures var m: AreaMap := map[8192 := VMArea(4096, 8192, {}, false, Normal, None, 0),
                                  12288 := VMArea(8192, 12288, {}, false, Normal, None, 0)];
            && Valid(m) && !AllBelow(m, 8192) && Fitting(m, 0, 4096, 8192, 0)
            && ScanResult(8192, 4096, 0) == Ok(4096) && !Fitting(m, 4096, 4096, 8192, 0)
  {
    var m: AreaMap := map[8192 := VMArea(4096, 8192, {}, false, Normal, None, 0),
                          12288 := VMArea(8192, 12288, {}, false, Normal, None, 0)];
    assert 8192 in m && 12288 in m;
  }

  // --- The scan as a loop ---

  // The scan looked at every area above `it`; prevStart is where it stands.
  ghost predicate ScanInv(m: AreaMap, len: nat, upper: nat, prevStart: nat, it: Option<nat>) {
    && ScanPoint(m, upper, prevStart) && (it.Some? ==> it.value in m)
    && (if AllBelow(m, upper) then
          && prevStart <= upper && NothingFitsAbove(m, prevStart, len, upper)
          && (forall k | k in m :: prevStart <= m[k].start || (it.Some? && k <= it.value))
          && (it.Some? ==> it.value <= prevStart) && (it.None? ==> prevStart == Floor(m, upper))
        else
          (forall k | k in m :: k + len <= WORD) ==> prevStart == upper && it == Before(m, None))
  }

  lemma ScanBegins(m: AreaMap, len: nat, upper: nat)
    requires Valid(m) && upper < WORD
    ensures ScanInv(m, len, upper, upper, Before(m, None))
  {
  }

  lemma ScanAdvances(m: AreaMap, len: nat, upper: nat, prevStart: nat, k: nat)
    requires Valid(m) && (forall j | j in m :: j < WORD) && upper < WORD
    requires ScanInv(m, len, upper, prevStart, Some(k)) && Sub64(prevStart, k) < len
    ensures ScanInv(m, len, upper, m[k].start, Before(m, Some(k)))
  {
    if AllBelow(m, upper) {
      ScanStep(m, len, upper, prevStart, k);
    }
  }

  lemma ScanFinishes(m: AreaMap, len: nat, upper: nat, lower: nat, prevStart: nat, it: Option<nat>)
    requires Valid(m) && (forall j | j in m :: j < WORD) && 0 < len < WORD && upper < WORD
    requires ScanInv(m, len, upper, prevStart, it) && (it.Some? ==> Sub64(prevStart, it.value) >= len)
    ensures AllBelow(m, upper) || (forall k | k in m :: k + len <= WORD) ==>
              (IsBestFit(ScanResult(prevStart, len, lower), m, len, upper, lower) <==> ScanSafe(m, len, upper, lower))
    ensures AllBelow(m, upper) && !HoleBelow(m, len, upper) ==> prevStart == Floor(m, upper)
  {
    hide IsBestFit, ScanSafe, Floor;
    if AllBelow(m, upper) {
      ScanStops(m, len, upper, lower, prevStart, it);
      ScanFloor(m, len, upper, prevStart, it);
    } else if forall k | k in m :: k + len <= WORD {
      ScanBlind(m, len, upper, lower);
    }
  }

  // With the whole range taken, the last subtraction wraps and the scan
  // reports an address far above the limit instead of ENOMEM.
  lemma ScanWraps()
    ensures var m: AreaMap := map[4096 := VMArea(0, 4096, {}, false, Normal, None, 0)];
            && Valid(m) && !ScanSafe(m, 4096, 4096, 0)
            && ScanResult(0, 4096, 0) == Ok(WORD - 4096)
            && !IsBestFit(ScanResult(0, 4096, 0), m, 4096, 4096, 0)
  {
    var m: AreaMap := map[4096 := VMArea(0, 4096, {}, false, Normal, None, 0)];
    assert 4096 in m && m[4096].start == 0;
    forall a: nat ensures !Fitting(m, a, 4096, 4096, 0) {
      assert 4096 in m;
    }
  }
}
