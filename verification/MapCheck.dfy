// MappingsValid (junction/kernel/mm.cc), the check that the memory map asserts
// after every change.
module MapCheck {
  import opened Common
  import opened Areas
  import opened MapEdits

  // The areas with keys up to done pass.
  ghost predicate PassUpTo(m: AreaMap, done: int) {
    && (forall k | k in m && k <= done ::
          m[k].end == k && m[k].WellFormed() && IsPageAligned(m[k].start) && IsPageAligned(m[k].end))
    && (forall j, k | j in m && k in m && j < k <= done :: j <= m[k].start && !Mergeable(m[j], m[k]))
  }

  // Neighbours are the only candidates for merging.
  lemma PassAll(m: AreaMap, done: int)
    requires PassUpTo(m, done) && forall k | k in m :: k <= done
    ensures Canonical(m) && AllPageAligned(m)
  {
  }

  // One more area, compared with its predecessor only.
  lemma PassNext(m: AreaMap, prev: Option<nat>, k: nat)
    requires k in m && Before(m, Some(k)) == prev
    requires PassUpTo(m, if prev.Some? then prev.value else -1)
    requires m[k].end == k && m[k].WellFormed() && IsPageAligned(m[k].start) && IsPageAligned(m[k].end)
    requires prev.Some? ==> m[prev.value].end <= m[k].start && !Mergeable(m[prev.value], m[k])
    ensures PassUpTo(m, k)
  {
    hide IsPageAligned, VMArea.WellFormed;
    forall j | j in m && j < k ensures j <= m[k].start && !Mergeable(m[j], m[k]) {
      assert prev.Some? && j <= prev.value;
    }
  }

  method MappingsValid(m: AreaMap) returns (r: bool)
    ensures r <==> Canonical(m) && AllPageAligned(m)
  {
    hide PassUpTo, Mergeable, Canonical, AllPageAligned, IsPageAligned, VMArea.WellFormed;
    var lastEnd := 0;
    var it := if 0 in m then Some(0) else UpperBound(m, 0);
    var prev: Option<nat> := None;
    PassNone(m);
    while it.Some?
      invariant it.Some? ==> it.value in m
      invariant Before(m, it) == prev && PassUpTo(m, if prev.Some? then prev.value else -1)
      invariant prev.Some? ==> prev.value in m && m[prev.value].end == lastEnd == prev.value
      invariant prev.None? ==> lastEnd == 0
      decreases if it.Some? then KeysAbove(m, it.value) + {it.value} else {}
    {
      var k := it.value;
      var vma := m[k];
      MustHold(m, prev, k);
      if k != vma.end || !vma.WellFormed() || !IsPageAligned(vma.start) || !IsPageAligned(vma.end) {
        return false;
      }
      if lastEnd > vma.start || (prev.Some? && Mergeable(m[prev.value], vma)) {
        return false;
      }
      PassNext(m, prev, k);
      lastEnd, prev := vma.end, it;
      it := UpperBound(m, k);
      BeforeUnique(m, it, prev);
    }
    PassAll(m, if prev.Some? then prev.value else -1);
    return true;
  }

  // Each test is necessary.
  lemma MustHold(m: AreaMap, prev: Option<nat>, k: nat)
    requires k in m && Before(m, Some(k)) == prev
    ensures Canonical(m) && AllPageAligned(m) ==>
              && m[k].end == k && m[k].WellFormed() && IsPageAligned(m[k].start) && IsPageAligned(m[k].end)
              && (prev.Some? ==> prev.value <= m[k].start && !Mergeable(m[prev.value], m[k]))
  {
    hide IsPageAligned, Mergeable;
  }

  lemma PassNone(m: AreaMap)
    ensures PassUpTo(m, -1)
  {
  }
}
