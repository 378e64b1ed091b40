// The primitive map edits that the interval set performs, and what each of
// them does to the address map. Iterators are modelled by the key they refer
// to; None stands for end().
module MapEdits {
  import opened Common
  import opened Areas

  // std::map::insert leaves an existing entry alone.
  function MapInsert(m: AreaMap, a: VMArea): AreaMap {
    if a.end in m then m else m[a.end := a]
  }

  function Split(m: AreaMap, k: nat, c: nat): AreaMap
    requires k in m && m[k].start < c < m[k].end
  {
    m[c := m[k].TrimTail(c)][k := m[k].TrimHead(c)]
  }

  // ExclusiveIntervalSet::TryMergeRight on two stored areas.
  function MergeInto(m: AreaMap, p: Option<nat>, k: nat): AreaMap
    requires k in m && (p.Some? ==> p.value in m)
  {
    if p.Some? && Mergeable(m[p.value], m[k])
    then (m - {p.value})[k := m[k].MergeRight(m[p.value])]
    else m
  }

  // Areas stored at or below lim do not merge with their left neighbour.
  ghost predicate UnmergedUpTo(m: AreaMap, lim: int) {
    forall j, k | j in m && k in m && k <= lim :: !Mergeable(m[j], m[k])
  }

  ghost predicate SameAbove(m: AreaMap, n: AreaMap, lim: int) {
    forall k: nat | k > lim :: (k in m <==> k in n) && (k in m ==> m[k] == n[k])
  }

  lemma SplitFits(m: AreaMap, k: nat, c: nat)
    requires Valid(m) && k in m && m[k].start < c < k
    ensures c !in m && Fits(m, m[k].TrimHead(c)) && Fits(m[k := m[k].TrimHead(c)], m[k].TrimTail(c))
  {
  }

  lemma SplitMeaning(m: AreaMap, k: nat, c: nat)
    requires Valid(m) && k in m && m[k].start < c < k
    ensures Valid(Split(m, k, c))
    ensures forall x :: At(Split(m, k, c), x) == At(m, x)
    ensures c !in m
  {
    hide At, Fits;
    var item := m[k];
    var left, right := item.TrimTail(c), item.TrimHead(c);
    var m1 := m[k := right];
    SplitFits(m, k, c);
    StoreMeaning(m, right);
    StoreMeaning(m1, left);
    assert Split(m, k, c) == m1[c := left];
    forall x ensures At(m1[c := left], x) == At(m, x) {
      if item.Covers(x) { AtCovered(m, k, x); }
    }
  }

  lemma MergedMeaning(m: AreaMap, p: nat, k: nat)
    requires Valid(m) && k in m && p in m && Mergeable(m[p], m[k])
    ensures Valid(MergeInto(m, Some(p), k))
    ensures forall x :: At(MergeInto(m, Some(p), k), x) == At(m, x)
  {
    hide At;
    var l, a := m[p], m[k].MergeRight(m[p]);
    var m1 := m - {p};
    EraseMeaning(m, p);
    assert Fits(m1, a) by {
      forall j | j in m1 && j != k ensures j <= a.start || a.end <= m1[j].start {
        assert if j < p then j <= m[p].start else p <= m[j].start;
        assert if j < k then j <= m[k].start else k <= m[j].start;
      }
    }
    StoreMeaning(m1, a);
    forall x ensures At(m1[k := a], x) == At(m, x) {
      if l.Covers(x) {
        AtCovered(m, p, x);
      } else if m[k].Covers(x) {
        AtCovered(m, k, x);
      }
    }
  }

  lemma MergeMeaning(m: AreaMap, p: Option<nat>, k: nat)
    requires Valid(m) && k in m && (p.Some? ==> p.value in m)
    ensures Valid(MergeInto(m, p, k))
    ensures forall x :: At(MergeInto(m, p, k), x) == At(m, x)
    ensures SameAbove(m, MergeInto(m, p, k), k)
  {
    if p.Some? && Mergeable(m[p.value], m[k]) {
      MergedMeaning(m, p.value, k);
    }
  }

  // Merging a stored area with the entry just before it leaves nothing to merge up to there.
  lemma MergeUnmerged(m: AreaMap, p: Option<nat>, k: nat)
    requires Valid(m) && k in m && p == Before(m, Some(k))
    requires UnmergedUpTo(m, k - 1)
    ensures UnmergedUpTo(MergeInto(m, p, k), k)
  {
    var n := MergeInto(m, p, k);
    forall i, j | i in n && j in n && j <= k ensures !Mergeable(n[i], n[j]) {
      if j == k && i < k {
        assert i <= p.value;
      }
    }
  }

  ghost predicate UnmergedAbove(m: AreaMap, lim: int) {
    forall j, k | j in m && k in m && k > lim :: !Mergeable(m[j], m[k])
  }

  // A merge into k does not change how k's area continues to the right.
  lemma MergeKeepsUnmergedAbove(m: AreaMap, p: Option<nat>, k: nat)
    requires Valid(m) && k in m && (p.Some? ==> p.value in m)
    requires UnmergedAbove(m, k)
    ensures UnmergedAbove(MergeInto(m, p, k), k)
  {
    var n := MergeInto(m, p, k);
    forall i, j | i in n && j in n && j > k ensures !Mergeable(n[i], n[j]) {
      assert !Mergeable(m[i], m[j]);
    }
  }

  // Insert once the range is clear: store the area, then merge it with its neighbours.
  function Inserted(m: AreaMap, a: VMArea): AreaMap {
    var m1 := MapInsert(m, a);
    var m2 := MergeInto(m1, Before(m1, Some(a.end)), a.end);
    var next := UpperBound(m2, a.end);
    if next.Some? then MergeInto(m2, Some(a.end), next.value) else m2
  }

  lemma InsertedMeaning(m: AreaMap, a: VMArea)
    requires Valid(m) && a.WellFormed()
    requires forall x: nat | a.Covers(x) :: At(m, x) == None
    ensures Valid(Inserted(m, a))
    ensures forall x: nat :: At(Inserted(m, a), x) == if a.Covers(x) then Some(a.AttrAt(x)) else At(m, x)
    ensures MaximallyMerged(m) ==> MaximallyMerged(Inserted(m, a))
  {
    ClearRangeFits(m, a);
    var m1 := MapInsert(m, a);
    StoreMeaning(m, a);
    var p := Before(m1, Some(a.end));
    var m2 := MergeInto(m1, p, a.end);
    MergeMeaning(m1, p, a.end);
    var next := UpperBound(m2, a.end);
    if next.Some? { MergeMeaning(m2, Some(a.end), next.value); }
    if MaximallyMerged(m) { InsertedUnmerged(m, a); }
  }

  lemma ClearRangeFits(m: AreaMap, a: VMArea)
    requires Valid(m) && a.WellFormed()
    requires forall x: nat | a.Covers(x) :: At(m, x) == None
    ensures a.end !in m && Fits(m, a)
  {
    forall j | j in m ensures j != a.end && (j <= a.start || a.end <= m[j].start) {
      var x := Max(m[j].start, a.start);
      if a.Covers(x) && m[j].Covers(x) {
        AtCovered(m, j, x);
        assert false;
      }
    }
  }

  // The last merge attempt: everything up to k is merged, and so is everything
  // beyond it; only k and its right neighbour remain to be tried.
  lemma LastMergeUnmerged(m: AreaMap, k: nat, next: nat)
    requires Valid(m) && k in m && UpperBound(m, k) == Some(next)
    requires UnmergedUpTo(m, k)
    requires forall i, j | i in m && j in m && k < i && k < j :: !Mergeable(m[i], m[j])
    ensures MaximallyMerged(MergeInto(m, Some(k), next))
  {
    assert UnmergedUpTo(m, next - 1);
    MergeUnmerged(m, Some(k), next);
    assert UnmergedAbove(m, next) by {
      forall i, j | i in m && j in m && j > next ensures !Mergeable(m[i], m[j]) {
        assert next <= m[j].start;
      }
    }
    MergeKeepsUnmergedAbove(m, Some(k), next);
  }

  lemma InsertedUnmerged(m: AreaMap, a: VMArea)
    requires Canonical(m) && a.WellFormed() && a.end !in m && Fits(m, a)
    ensures MaximallyMerged(Inserted(m, a))
  {
    StoreMeaning(m, a);
    var k := a.end;
    var m1 := m[k := a];
    var p := Before(m1, Some(k));
    assert UnmergedUpTo(m1, k - 1);
    MergeUnmerged(m1, p, k);
    MergeMeaning(m1, p, k);
    var m2 := MergeInto(m1, p, k);
    assert forall i | i in m2 && k < i :: i in m && m2[i] == m[i];
    var next := UpperBound(m2, k);
    if next.Some? {
      LastMergeUnmerged(m2, k, next.value);
    }
  }

  lemma MergeAligned(m: AreaMap, p: Option<nat>, k: nat)
    requires k in m && (p.Some? ==> p.value in m)
    ensures AllPageAligned(m) ==> AllPageAligned(MergeInto(m, p, k))
  {
  }

  lemma InsertedAligned(m: AreaMap, a: VMArea)
    requires AllPageAligned(m) && IsPageAligned(a.start) && IsPageAligned(a.end)
    ensures AllPageAligned(Inserted(m, a))
  {
  }

  // The keys an iteration has still to visit.
  ghost function KeysAbove(m: AreaMap, done: nat): set<nat> {
    set k | k in m && done < k
  }

  lemma KeysAboveShrink(m: AreaMap, done: nat, k: nat)
    requires k in m && done < k
    ensures KeysAbove(m, k) < KeysAbove(m, done)
  {
    assert k in KeysAbove(m, done) && k !in KeysAbove(m, k);
  }
}
