// ExclusiveIntervalSet (junction/base/interval_set.h), instantiated for VMArea.
module IntervalSet {
  import opened Common
  import opened Areas
  import opened MapEdits
  import opened Edits
  import opened FreeSpace
  import opened ModifyLoop

  // An entry that Clear leaves behind: an untouched area, the right remainder
  // of an area that reaches past b, or the left remainder of one that spans a.
  ghost predicate Remainder(m: AreaMap, a: nat, b: nat, k: nat, v: VMArea) {
    || (k in m && (k <= a || b <= m[k].start) && v == m[k])
    || (k in m && m[k].start < b < m[k].end && v == m[k].TrimHead(b))
    || (k == a && exists j :: j in m && m[j].start < a < m[j].end && v == m[j].TrimTail(a))
  }

  lemma RemaindersUnmerged(m: AreaMap, n: AreaMap, a: nat, b: nat)
    requires Canonical(m) && a < b
    requires forall k | k in n :: Remainder(m, a, b, k, n[k])
    ensures MaximallyMerged(n)
  {
    forall i, j | i in n && j in n ensures !Mergeable(n[i], n[j]) {
      if n[i].end == n[j].start { RemainderPairUnmerged(m, a, b, i, n[i], j, n[j]); }
    }
  }

  lemma RemainderPairUnmerged(m: AreaMap, a: nat, b: nat, i: nat, v: VMArea, j: nat, w: VMArea)
    requires Canonical(m) && a < b && v.end == w.start
    requires Remainder(m, a, b, i, v) && Remainder(m, a, b, j, w)
    ensures !Mergeable(v, w)
  {
    if w.end == a && j !in m {
      var l :| l in m && m[l].start < a < m[l].end && w == m[l].TrimTail(a);
      assert !Mergeable(m[i], m[l]);
    } else if w.start >= b {
      assert i in m && j in m && !Mergeable(m[i], m[j]);
    }
  }

  lemma RemaindersAligned(m: AreaMap, n: AreaMap, a: nat, b: nat)
    requires Valid(m) && AllPageAligned(m) && IsPageAligned(a) && IsPageAligned(b)
    requires forall k | k in n :: Remainder(m, a, b, k, n[k])
    ensures AllPageAligned(n)
  {
    hide IsPageAligned;
    forall k | k in n ensures IsPageAligned(n[k].start) && IsPageAligned(n[k].end) { }
  }

  // One iteration of Clear on the area stored under k.
  function ClearOne(m: AreaMap, a: nat, b: nat, k: nat): AreaMap
    requires k in m && a < m[k].end && m[k].start < b
  {
    var item := m[k];
    var m1 := if a > item.start then MapInsert(m, item.TrimTail(a)) else m;
    if b >= item.end then m1 - {k} else m1[k := item.TrimHead(b)]
  }

  function DropHead(m: AreaMap, b: nat, k: nat): AreaMap
    requires k in m && m[k].start < b
  {
    m[k := m[k].TrimHead(b)]
  }

  lemma DropHeadMeaning(m: AreaMap, b: nat, k: nat)
    requires Valid(m) && k in m && m[k].start < b < k
    ensures Valid(DropHead(m, b, k))
    ensures forall x: nat :: At(DropHead(m, b, k), x) == if m[k].start <= x < b then None else At(m, x)
  {
    var r := m[k].TrimHead(b);
    StoreMeaning(m, r);
    forall x: nat ensures At(DropHead(m, b, k), x) == if m[k].start <= x < b then None else At(m, x) {
      if m[k].Covers(x) { AtCovered(m, k, x); }
    }
  }

  lemma ClearOneMeaning(m: AreaMap, a: nat, b: nat, k: nat)
    requires Valid(m) && k in m && a < b && a < k && m[k].start < b
    ensures Valid(ClearOne(m, a, b, k))
    ensures forall x: nat :: At(ClearOne(m, a, b, k), x) ==
                        if a <= x < b && m[k].Covers(x) then None else At(m, x)
  {
    hide At, ClearOne;
    ClearOneIs(m, a, b, k);
    var m1: AreaMap := m;
    if m[k].start < a {
      SplitMeaning(m, k, a);
      m1 := Split(m, k, a);
    }
    if k <= b {
      EraseMeaning(m1, k);
    } else {
      DropHeadMeaning(m1, b, k);
    }
  }

  // An iteration is a split and then a removal of the right part's head.
  lemma ClearOneIs(m: AreaMap, a: nat, b: nat, k: nat)
    requires Valid(m) && k in m && a < b && a < k && m[k].start < b
    ensures var m1 := if m[k].start < a then Split(m, k, a) else m;
            ClearOne(m, a, b, k) == if k <= b then m1 - {k} else DropHead(m1, b, k)
  {
  }

  // Addresses below k that no earlier area reaches are free or k's own.
  lemma FreeBefore(m: AreaMap, was: nat, k: nat, x: nat)
    requires Valid(m) && k in m && was <= x < k
    requires forall j | j in m :: j <= was || k <= j
    ensures m[k].Covers(x) || At(m, x) == None
  {
    forall j | j in m && j != k ensures !m[j].Covers(x) {
      if k < j { assert k <= m[j].start; }
    }
  }

  lemma ClearRemainders(m0: AreaMap, m: AreaMap, a: nat, b: nat, was: nat, k: nat)
    requires Valid(m0) && a < b && a <= was < k && k in m0 && k in m && m0[k].start < b
    requires forall j | j in m0 :: j <= was || k <= j
    requires SameAbove(m0, m, was) && m[k] == m0[k]
    requires forall j | j in m && j <= was :: Remainder(m0, a, b, j, m[j])
    ensures SameAbove(m0, ClearOne(m, a, b, k), k)
    ensures var n := ClearOne(m, a, b, k);
            forall j | j in n && j <= k :: Remainder(m0, a, b, j, n[j])
  {
    hide ClearOne, Remainder;
    var n := ClearOne(m, a, b, k);
    forall j | j in n && j <= k ensures Remainder(m0, a, b, j, n[j]) {
      ClearOneAt(m, a, b, k, j);
      if j == k || j !in m { ClearOneRemainder(m0, a, b, k, j, n[j]); }
    }
    forall j: nat ensures j > k ==> (j in n <==> j in m) && (j in n ==> n[j] == m[j]) {
      ClearOneAbove(m, a, b, k, j);
    }
  }

  // What an iteration leaves under each key.
  lemma ClearOneAt(m: AreaMap, a: nat, b: nat, k: nat, j: nat)
    requires k in m && a < m[k].end && m[k].start < b && m[k].end == k && j in ClearOne(m, a, b, k)
    ensures var v := ClearOne(m, a, b, k)[j];
            if j == k then b < k && m[k].start < b && v == m[k].TrimHead(b)
            else if j in m then v == m[j]
            else j == a && m[k].start < a && v == m[k].TrimTail(a)
  {
  }

  lemma ClearOneAbove(m: AreaMap, a: nat, b: nat, k: nat, j: nat)
    requires k in m && a < m[k].end && m[k].start < b && m[k].end == k
    ensures var n := ClearOne(m, a, b, k);
            j > k ==> (j in n <==> j in m) && (j in n ==> n[j] == m[j])
  {
  }

  lemma ClearOneRemainder(m: AreaMap, a: nat, b: nat, k: nat, j: nat, v: VMArea)
    requires Valid(m) && k in m && a < b && a < k && m[k].start < b
    requires if j == k then b < k && v == m[k].TrimHead(b) else j == a && m[k].start < a && v == m[k].TrimTail(a)
    ensures Remainder(m, a, b, j, v)
  {
  }

  // Clear has dealt with every area whose key is at most `done`.
  ghost predicate ClearedUpTo(m0: AreaMap, m: AreaMap, a: nat, b: nat, done: nat) {
    && a <= done && (done > a ==> done in m0 && m0[done].start < b)
    && Valid(m) && SameAbove(m0, m, done)
    && (forall k | k in m && k <= done :: Remainder(m0, a, b, k, m[k]))
    && (forall x: nat :: At(m, x) == if a <= x < b && x < done then None else At(m0, x))
  }

  lemma ClearStart(m0: AreaMap, a: nat, b: nat)
    requires Valid(m0) && a < b
    ensures ClearedUpTo(m0, m0, a, b, a)
  {
  }

  lemma ClearStep(m0: AreaMap, m: AreaMap, a: nat, b: nat, was: nat, k: nat)
    requires Valid(m0) && a < b && ClearedUpTo(m0, m, a, b, was)
    requires was < k && k in m0 && m0[k].start < b
    requires forall j | j in m0 :: j <= was || k <= j
    ensures k in m && m[k] == m0[k] && m[k].end == k && ClearedUpTo(m0, ClearOne(m, a, b, k), a, b, k)
  {
    assert k in m && m[k] == m0[k];
    var n := ClearOne(m, a, b, k);
    ClearOneMeaning(m, a, b, k);
    ClearRemainders(m0, m, a, b, was, k);
    forall x: nat ensures At(n, x) == if a <= x < b && x < k then None else At(m0, x) {
      if was <= x < k { FreeBefore(m0, was, k, x); }
    }
  }

  lemma ClearEnd(m0: AreaMap, m: AreaMap, a: nat, b: nat, done: nat, it: Option<nat>)
    requires Valid(m0) && a < b && ClearedUpTo(m0, m, a, b, done)
    requires it.Some? ==> it.value in m0 && done < it.value && b <= m0[it.value].start
    requires forall k | k in m0 :: k <= done || (it.Some? && it.value <= k)
    ensures forall k | k in m :: Remainder(m0, a, b, k, m[k])
    ensures forall x: nat :: At(m, x) == if a <= x < b then None else At(m0, x)
    ensures MaximallyMerged(m0) ==> MaximallyMerged(m)
    ensures AllPageAligned(m0) && IsPageAligned(a) && IsPageAligned(b) ==> AllPageAligned(m)
  {
    hide MaximallyMerged, AllPageAligned;
    forall k | k in m ensures Remainder(m0, a, b, k, m[k]) {
      if done < k {
        assert k in m0 && m[k] == m0[k];
        if it.value < k { assert it.value <= m0[k].start; }
      }
    }
    forall x: nat | a <= x < b ensures At(m, x) == None {
      if done <= x { NoneBetween(m0, done, it, b, x); }
    }
    if MaximallyMerged(m0) {
      RemaindersUnmerged(m0, m, a, b);
    }
    if AllPageAligned(m0) && IsPageAligned(a) && IsPageAligned(b) {
      RemaindersAligned(m0, m, a, b);
    }
  }

  // Where Clear's iterator ends up.
  ghost function ClearIterator(m0: AreaMap, m: AreaMap, end: nat): Option<nat> {
    match UpperBound(m0, end)
    case None => None
    case Some(k) => if m0[k].start < end then UpperBound(m, k) else Some(k)
  }

  lemma ClearIteratorEnd(m0: AreaMap, m: AreaMap, a: nat, b: nat, done: nat)
    requires Valid(m0) && a < b && ClearedUpTo(m0, m, a, b, done)
    requires var it := UpperBound(m, done); it.Some? ==> it.value in m0 && b <= m0[it.value].start
    ensures UpperBound(m, done) == ClearIterator(m0, m, b)
  {
    match UpperBound(m0, b) {
      case None =>
      case Some(k) => assert k <= done || k in m;
    }
  }

  lemma ClearIteratorExact(m0: AreaMap, m: AreaMap, a: nat, b: nat)
    requires Valid(m0) && Valid(m) && a < b
    requires forall k | k in m :: Remainder(m0, a, b, k, m[k])
    requires forall x: nat :: At(m, x) == if a <= x < b then None else At(m0, x)
    ensures ClearIterator(m0, m, b) == UpperBound(m, b) <==> forall k | k in m0 :: !(m0[k].start < b < k)
  {
    hide At;
    KeysPastEnd(m0, m, a, b);
    var k0 := UpperBound(m0, b);
    assert k0 == UpperBound(m, b);
    if k0.Some? && m0[k0.value].start < b {
      assert UpperBound(m, k0.value) != k0;
    } else {
      forall k | k in m0 && b < k ensures b <= m0[k].start {
        if k0.value < k { assert k0.value <= m0[k].start; }
      }
    }
  }

  // Past the end of the range the keys are the old ones.
  lemma KeysPastEnd(m0: AreaMap, m: AreaMap, a: nat, b: nat)
    requires Valid(m0) && Valid(m) && a < b
    requires forall k | k in m :: Remainder(m0, a, b, k, m[k])
    requires forall x: nat :: At(m, x) == if a <= x < b then None else At(m0, x)
    ensures forall k: nat | b < k :: k in m <==> k in m0
  {
    hide At;
    forall k: nat | b < k && k in m0 ensures k in m {
      AtCovered(m0, k, k - 1);
      AtFree(m, k - 1);
      var j :| j in m && m[j].Covers(k - 1);
      assert Remainder(m0, a, b, j, m[j]);
    }
    forall k: nat | b < k && k in m ensures k in m0 {
      assert Remainder(m0, a, b, k, m[k]);
    }
  }

  // What Clear's loop keeps, whatever the range.
  ghost predicate Clearing(m0: AreaMap, m: AreaMap, a: nat, b: nat, done: nat, it: Option<nat>) {
    && a <= done && it == UpperBound(m, done) && SameAbove(m0, m, done)
    && (forall k | k in m0 :: k <= done || (it.Some? && it.value <= k))
    && (if done == a then m == m0 else done in m0 && m0[done].start < b)
    && (a < b ==> ClearedUpTo(m0, m, a, b, done))
  }

  lemma ClearingStart(m0: AreaMap, a: nat, b: nat)
    requires Valid(m0)
    ensures Clearing(m0, m0, a, b, a, UpperBound(m0, a))
    ensures UpperBound(m0, a).Some? ==> UpperBound(m0, a).value in m0
  {
    if a < b { ClearStart(m0, a, b); }
  }

  lemma ClearingStep(m0: AreaMap, m: AreaMap, a: nat, b: nat, done: nat, k: nat)
    requires Valid(m0) && Clearing(m0, m, a, b, done, Some(k)) && m[k].start < b
    ensures k in m && k in m0 && done < k && a < k && m[k].end == k
    ensures var n := ClearOne(m, a, b, k); Clearing(m0, n, a, b, k, UpperBound(n, k))
  {
    hide ClearedUpTo, At;
    assert k in m0 && m0[k] == m[k];
    var n := ClearOne(m, a, b, k);
    if a < b { ClearStep(m0, m, a, b, done, k); }
    forall j: nat | j > k ensures (j in n <==> j in m0) && (j in n ==> n[j] == m0[j]) {
      ClearOneAbove(m, a, b, k, j);
    }
    assert SameAbove(m0, n, k);
  }

  lemma ClearingEnd(m0: AreaMap, m: AreaMap, a: nat, b: nat, done: nat, it: Option<nat>)
    requires Valid(m0) && Clearing(m0, m, a, b, done, it) && (it.Some? ==> b <= m[it.value].start)
    ensures a < b ==> Valid(m) && forall k | k in m :: Remainder(m0, a, b, k, m[k])
    ensures a < b ==> forall x: nat :: At(m, x) == if a <= x < b then None else At(m0, x)
    ensures a < b && MaximallyMerged(m0) ==> MaximallyMerged(m)
    ensures a < b && AllPageAligned(m0) && IsPageAligned(a) && IsPageAligned(b) ==> AllPageAligned(m)
    ensures a < b ==> it == ClearIterator(m0, m, b)
    ensures a < b ==> (it == UpperBound(m, b) <==> forall k | k in m0 :: !(m0[k].start < b < k))
    ensures (forall k | k in m0 && a < k :: b <= m0[k].start) ==> m == m0
  {
    hide At, Remainder, MaximallyMerged, AllPageAligned, ClearIterator;
    if a < b {
      assert Valid(m) && ClearedUpTo(m0, m, a, b, done);
      ClearEnd(m0, m, a, b, done, it);
      ClearIteratorEnd(m0, m, a, b, done);
      ClearIteratorExact(m0, m, a, b);
    }
  }

  // Clearing the tail of one page leaves the iterator past the page it trimmed.
  lemma ClearSkipsRemainder()
    ensures var m0: AreaMap := map[8192 := VMArea(0, 8192, {}, false, Normal, None, 0)];
            var m: AreaMap := map[8192 := VMArea(4096, 8192, {}, false, Normal, None, 0)];
            && Valid(m0) && (forall k | k in m :: Remainder(m0, 0, 4096, k, m[k]))
            && UpperBound(m, 4096) == Some(8192) && ClearIterator(m0, m, 4096) == None
  {
    var m0: AreaMap := map[8192 := VMArea(0, 8192, {}, false, Normal, None, 0)];
    var m: AreaMap := map[8192 := VMArea(4096, 8192, {}, false, Normal, None, 0)];
    assert 8192 in m0 && 8192 in m;
  }

  // How Modify edits the left part of an area: the new area takes over its
  // predecessor if they merge, and the old one keeps the rest.
  lemma EditLeftIs(m: AreaMap, e: Edit, b: nat, prev: Option<nat>, k: nat)
    requires k in m && m[k].end == k && m[k].start < b < k && b !in m
    requires prev.Some? ==> prev.value in m && prev.value < b
    ensures var left, rest := e.Changed(m[k].TrimTail(b)), m[k].TrimHead(b);
            EditBelow(m, e, b, prev, k) ==
            if prev.Some? && Mergeable(m[prev.value], left)
            then (m - {prev.value})[b := left.MergeRight(m[prev.value])][k := rest]
            else m[b := left][k := rest]
  {
  }

  class ExclusiveIntervalSet {
    var intervals: AreaMap

    constructor ()
      ensures intervals == map[]
    {
      intervals := map[];
    }

    // The body of Clear's loop.
    method ClearItem(k: nat, start: nat, end: nat)
      requires k in intervals && start < intervals[k].end && intervals[k].start < end
      modifies this
      ensures intervals == ClearOne(old(intervals), start, end, k)
    {
      var item := intervals[k];
      if start > item.start {
        intervals := MapInsert(intervals, item.TrimTail(start));
      }
      if end >= item.end {
        intervals := intervals - {k};
      } else {
        intervals := intervals[k := item.TrimHead(end)];
      }
    }

    method Clear(start: nat, end: nat) returns (it: Option<nat>)
      requires Valid(intervals)
      modifies this
      ensures start < end ==> Valid(intervals)
      ensures start < end ==> forall x: nat :: At(intervals, x) ==
                                               if start <= x < end then None else At(old(intervals), x)
      ensures start < end && MaximallyMerged(old(intervals)) ==> MaximallyMerged(intervals)
      ensures start < end ==> forall k | k in intervals :: Remainder(old(intervals), start, end, k, intervals[k])
      ensures start < end && AllPageAligned(old(intervals)) && IsPageAligned(start) && IsPageAligned(end) ==>
                AllPageAligned(intervals)
      // The iterator is the first area after the range exactly when no area
      // spanned its end; otherwise it skips the remainder of that one.
      ensures start < end ==> it == ClearIterator(old(intervals), intervals, end)
      ensures start < end ==>
                (it == UpperBound(intervals, end) <==>
                 forall k | k in old(intervals) :: !(old(intervals)[k].start < end < k))
      ensures (forall k | k in old(intervals) && start < k :: end <= old(intervals)[k].start) ==>
                intervals == old(intervals)
    {
      hide At, Remainder, MaximallyMerged, AllPageAligned, Clearing, ClearedUpTo, ClearOne, ClearIterator;
      ghost var m0: AreaMap, done: nat := intervals, start;
      it := UpperBound(intervals, start);
      ClearingStart(m0, start, end);
      while it.Some? && intervals[it.value].start < end
        invariant (it.Some? ==> it.value in intervals) && Clearing(m0, intervals, start, end, done, it)
        decreases KeysAbove(m0, done)
      {
        var k := it.value;
        ClearingStep(m0, intervals, start, end, done, k);
        KeysAboveShrink(m0, done, k);
        ClearItem(k, start, end);
        done := k;
        it := UpperBound(intervals, k);
      }
      ClearingEnd(m0, intervals, start, end, done, it);
    }

    // Merge the area under `prev` into the one under k, if they may merge. No
    // address changes its meaning.
    method TryMergeRight(prev: Option<nat>, k: nat)
      requires k in intervals && (prev.Some? ==> prev.value in intervals)
      modifies this
      ensures intervals == MergeInto(old(intervals), prev, k)
      ensures Valid(old(intervals)) ==> Valid(intervals) && forall x: nat :: At(intervals, x) == At(old(intervals), x)
      ensures k in intervals && intervals[k].end == old(intervals)[k].end
      ensures prev.Some? && Valid(old(intervals)) ==>
                (prev.value !in intervals <==> Mergeable(old(intervals)[prev.value], old(intervals)[k]))
    {
      if Valid(intervals) { MergeMeaning(intervals, prev, k); }
      if prev.Some? && Mergeable(intervals[prev.value], intervals[k]) {
        var merged := intervals[k].MergeRight(intervals[prev.value]);
        intervals := (intervals - {prev.value})[k := merged];
      }
    }

    method Insert(item: VMArea)
      requires Valid(intervals)
      modifies this
      ensures item.WellFormed() ==> Valid(intervals)
      ensures item.WellFormed() ==>
                forall x: nat :: At(intervals, x) ==
                                 if item.Covers(x) then Some(item.AttrAt(x)) else At(old(intervals), x)
      ensures item.WellFormed() && MaximallyMerged(old(intervals)) ==> MaximallyMerged(intervals)
      ensures item.WellFormed() && AllPageAligned(old(intervals)) && IsPageAligned(item.start) && IsPageAligned(item.end) ==>
                AllPageAligned(intervals)
      // With nothing to clear, whatever the item: it is stored and merged.
      ensures (forall k | k in old(intervals) && item.start < k :: item.end <= old(intervals)[k].start) ==>
                intervals == Inserted(old(intervals), item)
    {
      hide At, MaximallyMerged, AllPageAligned, Remainder, Inserted;
      var _ := Clear(item.start, item.end);
      if item.WellFormed() {
        InsertedMeaning(intervals, item);
        if AllPageAligned(intervals) && IsPageAligned(item.start) && IsPageAligned(item.end) {
          InsertedAligned(intervals, item);
        }
      }
      StoreItem(item);
    }

    // Insert once the range is clear.
    method StoreItem(item: VMArea)
      modifies this
      ensures intervals == Inserted(old(intervals), item)
    {
      intervals := MapInsert(intervals, item);
      var prev := Before(intervals, Some(item.end));
      TryMergeRight(prev, item.end);
      var next := UpperBound(intervals, item.end);
      if next.Some? {
        TryMergeRight(Some(item.end), next.value);
      }
    }

    // The rest of Modify's loop body, once the area starts inside the range.
    method EditItemBelow(k: nat, e: Edit, end: nat, prev: Option<nat>, host: HostKernel)
      requires k in intervals && intervals[k].end == k && intervals[k].start < end
      requires e.Selects(intervals[k]) && (end !in intervals || k <= end)
      requires prev.Some? ==> prev.value in intervals && prev.value < k && prev.value < end
      modifies this, host
      ensures intervals == EditBelow(old(intervals), e, end, prev, k)
      ensures forall x: nat :: host.prot(x) ==
                               if old(intervals)[k].Covers(x) && x < end
                               then e.HostAfter(old(intervals)[k].AttrAt(x), old(host.prot)(x))
                               else old(host.prot)(x)
    {
      if end < intervals[k].end {
        EditLeft(k, e, end, prev, host);
        return;
      }
      var item := ApplyEdit(e, intervals[k], host);
      intervals := intervals[k := item];
      TryMergeRight(prev, k);
    }

    // Edits [item.start, end) as an area of its own, merged with the one before.
    method EditLeft(k: nat, e: Edit, end: nat, prev: Option<nat>, host: HostKernel)
      requires k in intervals && intervals[k].end == k && intervals[k].start < end < k && end !in intervals
      requires e.Selects(intervals[k])
      requires prev.Some? ==> prev.value in intervals && prev.value < end
      modifies this, host
      ensures intervals == EditBelow(old(intervals), e, end, prev, k)
      ensures forall x: nat :: host.prot(x) ==
                               if old(intervals)[k].Covers(x) && x < end
                               then e.HostAfter(old(intervals)[k].AttrAt(x), old(host.prot)(x))
                               else old(host.prot)(x)
    {
      hide EditBelow, Mergeable;
      EditLeftIs(intervals, e, end, prev, k);
      var item := intervals[k];
      var left := ApplyEdit(e, item.TrimTail(end), host);
      if prev.Some? && Mergeable(intervals[prev.value], left) {
        left := left.MergeRight(intervals[prev.value]);
        intervals := intervals - {prev.value};
      }
      intervals := MapInsert(intervals, left);
      intervals := intervals[k := item.TrimHead(end)];
    }

    // The body of Modify's loop; `prev` is None for end().
    method EditItem(k: nat, e: Edit, start: nat, end: nat, prev: Option<nat>, host: HostKernel)
      requires Valid(intervals) && k in intervals
      requires start < k && start < end && intervals[k].start < end
      requires prev.Some? ==> prev.value in intervals && prev.value < k
      modifies this, host
      ensures intervals == EditOne(old(intervals), e, start, end, prev, k)
      ensures var item := old(intervals)[k];
              forall x: nat :: host.prot(x) ==
                               if e.Selects(item) && item.Covers(x) && start <= x < end
                               then e.HostAfter(item.AttrAt(x), old(host.prot)(x))
                               else old(host.prot)(x)
    {
      var item := intervals[k];
      assert prev.Some? ==> prev.value <= item.start;
      if !e.Selects(item) {
        TryMergeRight(prev, k);
        return;
      }
      if start > item.start {
        intervals := MapInsert(intervals, item.TrimTail(start));
        item := item.TrimHead(start);
        intervals := intervals[k := item];
        assert intervals == Split(old(intervals), k, start);
      }
      EditItemBelow(k, e, end, prev, host);
    }

    // Applies e to the addresses in [start, end), in the map and in the host kernel.
    method Modify(start: nat, end: nat, e: Edit, host: HostKernel)
      requires Valid(intervals) && start < end
      requires e.EndTrace? ==> start == 0 && forall k | k in intervals :: k <= end
      modifies this, host
      ensures EditedMap(old(intervals), intervals, e, start, end)
      ensures HostEditedUpTo(old(intervals), e, old(host.prot), host.prot, start, end, end)
    {
      hide ModifyInv, EditedMap, HostEditedUpTo, EditOne;
      ghost var m0: AreaMap, h0, done: nat := intervals, host.prot, start;
      ModifyBegin(m0, h0, e, start, end);
      var it := UpperBound(intervals, start);
      var prev := Before(intervals, it);
      while it.Some? && intervals[it.value].start < end
        invariant it.Some? ==> it.value in intervals
        invariant ModifyInv(m0, h0, intervals, host.prot, e, start, end, done, it, prev)
        decreases KeysAbove(m0, done)
      {
        var k := it.value;
        ghost var m: AreaMap, h := intervals, host.prot;
        ModifyFacts(m0, h0, m, h, e, start, end, done, k, prev);
        EditItem(k, e, start, end, prev, host);
        ModifyAdvance(m0, h0, m, h, host.prot, e, start, end, done, k, prev);
        done := k;
        prev, it := Some(k), UpperBound(intervals, k);
      }
      ModifyFinish(m0, h0, intervals, host.prot, e, start, end, done, it, prev);
      if it.Some? {
        TryMergeRight(prev, it.value);
      }
    }

    // The area that contains x, if any.
    method Find(x: nat) returns (r: Result<VMArea, Errno>)
      requires Valid(intervals)
      ensures r.Ok? <==> At(intervals, x).Some?
      ensures r.Ok? ==> r.value.Covers(x) && r.value.end in intervals && r.value == intervals[r.value.end]
      ensures r.Ok? ==> At(intervals, x) == Some(r.value.AttrAt(x))
      ensures r.Err? ==> r.error == ENOENT
    {
      var it := UpperBound(intervals, x);
      if it.None? || intervals[it.value].start > x {
        forall k | k in intervals ensures !intervals[k].Covers(x) {
          if it.Some? && it.value < k { assert it.value <= intervals[k].start; }
        }
        return Err(ENOENT);
      }
      AtCovered(intervals, it.value, x);
      return Ok(intervals[it.value]);
    }

    // FindFreeRange without a hint: scan backwards from the upper limit. The
    // first clause covers all lengths a 47-bit address space can hold.
    method FindFreeRange(len: nat, upper: nat, lower: nat) returns (r: Result<nat, Errno>)
      requires Valid(intervals) && 0 < len < WORD && upper < WORD && forall k | k in intervals :: k < WORD
      ensures AllBelow(intervals, upper) || (forall k | k in intervals :: k + len <= WORD) ==>
                (IsBestFit(r, intervals, len, upper, lower) <==> ScanSafe(intervals, len, upper, lower))
      ensures AllBelow(intervals, upper) && !HoleBelow(intervals, len, upper) ==>
                r == ScanResult(Floor(intervals, upper), len, lower)
      ensures exists p: nat :: ScanPoint(intervals, upper, p) && r == ScanResult(p, len, lower)
    {
      hide ScanInv, IsBestFit, ScanSafe, AllBelow, HoleBelow, Floor;
      var prevStart := upper;
      var it := Before(intervals, None);
      ScanBegins(intervals, len, upper);
      while it.Some? && Sub64(prevStart, it.value) < len
        invariant 0 <= prevStart < WORD && (it.Some? ==> it.value in intervals)
        invariant ScanPoint(intervals, upper, prevStart) && ScanInv(intervals, len, upper, prevStart, it)
        decreases if it.Some? then it.value + 1 else 0
      {
        var k := it.value;
        ScanAdvances(intervals, len, upper, prevStart, k);
        prevStart := intervals[k].start;
        it := Before(intervals, it);
      }
      ScanFinishes(intervals, len, upper, lower, prevStart, it);
      var addr := Sub64(prevStart, len);
      if addr < lower {
        return Err(ENOMEM);
      }
      return Ok(addr);
    }
  }
}
