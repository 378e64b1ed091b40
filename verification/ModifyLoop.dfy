// The loop of ExclusiveIntervalSet::Modify: what it keeps, and what it has
// done once it stops.
module ModifyLoop {
  import opened Common
  import opened Areas
  import opened MapEdits
  import opened Edits

  // No area of m covers x when every area beyond `done` starts at or after `end`.
  lemma NoneBetween(m: AreaMap, done: nat, it: Option<nat>, end: nat, x: nat)
    requires Valid(m) && done <= x < end
    requires it.Some? ==> it.value in m && end <= m[it.value].start
    requires forall k | k in m :: k <= done || (it.Some? && it.value <= k)
    ensures At(m, x) == None
  {
    forall k | k in m ensures !m[k].Covers(x) {
      if it.Some? && it.value < k { assert it.value <= m[k].start; }
    }
  }

  // What Modify's loop knows about its iterators.
  ghost predicate AtFrontier(m0: AreaMap, m: AreaMap, done: nat, it: Option<nat>) {
    && it == UpperBound(m, done) && (it.Some? ==> it.value in m0)
    && forall k | k in m0 :: k <= done || (it.Some? && it.value <= k)
  }

  lemma FrontierAdvances(m0: AreaMap, n: AreaMap, k: nat)
    requires SameAbove(m0, n, k)
    ensures AtFrontier(m0, n, k, UpperBound(n, k))
  {
    var it := UpperBound(n, k);
    forall j | j in m0 ensures j <= k || (it.Some? && it.value <= j) {
      if k < j { assert j in n; }
    }
  }

  lemma ModifyUnmerged(m0: AreaMap, m: AreaMap, e: Edit, a: nat, b: nat, was: nat, k: nat)
    requires Valid(m0) && a < b && EditedUpTo(m0, m, e, a, b, was) && AtFrontier(m0, m, was, Some(k))
    requires m[k].start < b && (was == a ==> m == m0)
    requires e.EndTrace? ==> a == 0 && k <= b
    requires e.EndTrace? || MaximallyMerged(m0)
    requires UnmergedUpTo(m, was)
    ensures UnmergedUpTo(EditOne(m, e, a, b, Before(m, Some(k)), k), k)
  {
    assert UnmergedUpTo(m, k - 1);
    if m[k].start < a {
      assert was == a by { assert m[k] == m0[k]; }
      assert UnmergedUpTo(m, k);
    }
    EditOneUnmerged(m, e, a, b, Before(m, Some(k)), k);
  }

  ghost predicate HostEditedUpTo(m0: AreaMap, e: Edit, h0: nat -> set<Perm>, h: nat -> set<Perm>,
                                 a: nat, b: nat, done: nat)
  {
    forall x: nat :: h(x) == EditedHost(m0, e, h0(x), a, b, done, x)
  }

  lemma ModifyHost(m0: AreaMap, e: Edit, h0: nat -> set<Perm>, h: nat -> set<Perm>, h': nat -> set<Perm>,
                   a: nat, b: nat, was: nat, k: nat)
    requires Valid(m0) && a < b && k in m0 && a <= was < k && (was > a ==> was in m0)
    requires forall j | j in m0 :: j <= was || k <= j
    requires HostEditedUpTo(m0, e, h0, h, a, b, was)
    requires forall x: nat :: h'(x) == if e.Selects(m0[k]) && m0[k].Covers(x) && a <= x < b
                                       then e.HostAfter(m0[k].AttrAt(x), h(x)) else h(x)
    ensures HostEditedUpTo(m0, e, h0, h', a, b, k)
  {
    assert was == a || was <= m0[k].start;
    hide At;
    forall x: nat ensures h'(x) == EditedHost(m0, e, h0(x), a, b, k, x) {
      EditFrontier(m0, was, k, x);
      assert h(x) == EditedHost(m0, e, h0(x), a, b, was, x);
    }
  }

  lemma ModifyEnd(m0: AreaMap, m: AreaMap, e: Edit, h0: nat -> set<Perm>, h: nat -> set<Perm>,
                  a: nat, b: nat, done: nat, it: Option<nat>)
    requires Valid(m0) && a < b && EditedUpTo(m0, m, e, a, b, done) && AtFrontier(m0, m, done, it)
    requires it.Some? ==> b <= m0[it.value].start
    requires HostEditedUpTo(m0, e, h0, h, a, b, done)
    ensures forall x: nat :: At(m, x) == EditedAt(m0, e, a, b, b, x)
    ensures HostEditedUpTo(m0, e, h0, h, a, b, b)
  {
    forall x: nat | done <= x < b ensures At(m0, x) == None {
      NoneBetween(m0, done, it, b, x);
    }
    hide At;
  }

  lemma ModifyLastMerge(m0: AreaMap, m: AreaMap, e: Edit, a: nat, b: nat, done: nat, it: Option<nat>)
    requires Valid(m0) && a < b && EditedUpTo(m0, m, e, a, b, done) && AtFrontier(m0, m, done, it)
    requires it.Some? ==> b <= m0[it.value].start
    requires e.EndTrace? ==> forall k | k in m0 :: k <= b
    requires e.EndTrace? || MaximallyMerged(m0)
    requires UnmergedUpTo(m, done)
    requires done == a ==> m == m0
    requires done > a ==> done in m
    ensures it.Some? ==> MaximallyMerged(MergeInto(m, Before(m, it), it.value))
    ensures it.None? ==> MaximallyMerged(m)
  {
    if it.Some? {
      var k := it.value;
      assert MaximallyMerged(m0);
      if done > a {
        BeforeUnique(m, it, Some(done));
        forall i, j | i in m && j in m && done < i && done < j ensures !Mergeable(m[i], m[j]) { }
        LastMergeUnmerged(m, done, k);
      } else {
        assert MergeInto(m, Before(m, it), k) == m;
      }
    }
  }

  ghost predicate AlignedEdit(m: AreaMap, e: Edit, a: nat, b: nat) {
    AllPageAligned(m) && IsPageAligned(a) && (e.SetProt? ==> IsPageAligned(b))
  }

  // What Modify achieves: every address in [a, b) is edited and no other; the
  // result is maximally merged if the map was, and after EndTrace in any case.
  ghost predicate EditedMap(m0: AreaMap, m: AreaMap, e: Edit, a: nat, b: nat) {
    && Valid(m)
    && (forall x: nat :: At(m, x) == EditedAt(m0, e, a, b, b, x))
    && (e.EndTrace? || MaximallyMerged(m0) ==> MaximallyMerged(m))
    && (AlignedEdit(m0, e, a, b) ==> AllPageAligned(m))
  }

  ghost predicate ModifyInv(m0: AreaMap, h0: nat -> set<Perm>, m: AreaMap, h: nat -> set<Perm>, e: Edit,
                            a: nat, b: nat, done: nat, it: Option<nat>, prev: Option<nat>)
  {
    && a < b && Valid(m0) && (e.EndTrace? ==> a == 0 && forall k | k in m0 :: k <= b)
    && AtFrontier(m0, m, done, it) && prev == Before(m, it)
    && EditedUpTo(m0, m, e, a, b, done) && HostEditedUpTo(m0, e, h0, h, a, b, done)
    && (done == a ==> m == m0) && (done > a ==> done in m)
    && (e.EndTrace? || MaximallyMerged(m0) ==> UnmergedUpTo(m, done))
    && (AlignedEdit(m0, e, a, b) ==> AllPageAligned(m))
  }

  lemma ModifyBegin(m: AreaMap, h: nat -> set<Perm>, e: Edit, a: nat, b: nat)
    requires a < b && Valid(m) && (e.EndTrace? ==> a == 0 && forall k | k in m :: k <= b)
    ensures var it := UpperBound(m, a);
            ModifyInv(m, h, m, h, e, a, b, a, it, Before(m, it))
  {
  }

  lemma ModifyFacts(m0: AreaMap, h0: nat -> set<Perm>, m: AreaMap, h: nat -> set<Perm>, e: Edit,
                    a: nat, b: nat, done: nat, k: nat, prev: Option<nat>)
    requires ModifyInv(m0, h0, m, h, e, a, b, done, Some(k), prev)
    ensures Valid(m) && k in m && m[k].end == k && a < k && k in m0 && m[k] == m0[k]
    ensures prev.Some? ==> prev.value in m && prev.value < k
  {
  }

  lemma ModifyAdvance(m0: AreaMap, h0: nat -> set<Perm>, m: AreaMap, h: nat -> set<Perm>, h': nat -> set<Perm>,
                      e: Edit, a: nat, b: nat, done: nat, k: nat, prev: Option<nat>)
    requires ModifyInv(m0, h0, m, h, e, a, b, done, Some(k), prev) && k in m && m[k].start < b
    requires forall x: nat :: h'(x) == if e.Selects(m[k]) && m[k].Covers(x) && a <= x < b
                                       then e.HostAfter(m[k].AttrAt(x), h(x)) else h(x)
    requires m[k].end == k && a < k && (prev.Some? ==> prev.value in m && prev.value < k)
    ensures var n := EditOne(m, e, a, b, prev, k);
            ModifyInv(m0, h0, n, h', e, a, b, k, UpperBound(n, k), Some(k))
    ensures KeysAbove(m0, k) < KeysAbove(m0, done)
  {
    hide At, EditedAt, EditedHost, Mergeable, MergeInto, EditOne;
    var n := EditOne(m, e, a, b, prev, k);
    KeysAboveShrink(m0, done, k);
    EditStep(m0, m, e, a, b, done, prev, k);
    ModifyHost(m0, e, h0, h, h', a, b, done, k);
    FrontierAdvances(m0, n, k);
    BeforeUnique(n, UpperBound(n, k), Some(k));
    if e.EndTrace? || MaximallyMerged(m0) {
      ModifyUnmerged(m0, m, e, a, b, done, k);
    }
    if AlignedEdit(m0, e, a, b) {
      EditOneAligned(m, e, a, b, prev, k);
    }
  }

  lemma ModifyFinish(m0: AreaMap, h0: nat -> set<Perm>, m: AreaMap, h: nat -> set<Perm>, e: Edit,
                     a: nat, b: nat, done: nat, it: Option<nat>, prev: Option<nat>)
    requires ModifyInv(m0, h0, m, h, e, a, b, done, it, prev)
    requires it.Some? ==> it.value in m && b <= m[it.value].start
    ensures prev.Some? ==> prev.value in m
    ensures EditedMap(m0, if it.Some? then MergeInto(m, prev, it.value) else m, e, a, b)
    ensures HostEditedUpTo(m0, e, h0, h, a, b, b)
  {
    ModifyEnd(m0, m, e, h0, h, a, b, done, it);
    if e.EndTrace? || MaximallyMerged(m0) {
      ModifyLastMerge(m0, m, e, a, b, done, it);
    }
    if it.Some? {
      MergeMeaning(m, prev, it.value);
      MergeAligned(m, prev, it.value);
    }
  }
}
