// The two edits that MemoryMap passes to ExclusiveIntervalSet::Modify, with
// the host kernel calls they make (junction/kernel/mm.cc).
module Edits {
  import opened Common
  import opened Areas
  import opened MapEdits

  // The page protections held by the host kernel, as a function of the address.
  class HostKernel {
    var prot: nat -> set<Perm>

    constructor ()
      ensures forall x: nat :: prot(x) == {}
    {
      prot := (x: nat) => {};
    }

    method MProtect(lo: nat, hi: nat, p: set<Perm>)
      modifies this
      ensures forall x: nat :: prot(x) == if lo <= x < hi then p else old(prot)(x)
    {
      var was := prot;
      prot := (x: nat) => if lo <= x < hi then p else was(x);
    }
  }

  // SetProt is mprotect (`tracing` says whether a tracer is attached);
  // EndTrace is the edit that EndTracing applies to every area.
  datatype Edit = SetProt(prot: set<Perm>, tracing: bool) | EndTrace
  {
    predicate Selects(a: VMArea) { SetProt? ==> a.prot != prot }

    function Changed(a: VMArea): VMArea {
      if SetProt? then a.(prot := prot) else a.(traced := false)
    }

    // The effect on one address: on its attributes ...
    function AttrAfter(a: Attr): Attr {
      if SetProt? then a.(prot := prot) else a.(traced := false)
    }

    // ... and on its protection in the host kernel.
    function HostAfter(a: Attr, host: set<Perm>): set<Perm> {
      match this
      case SetProt(p, tracing) =>
        if !tracing || a.prot == p then host
        else if !a.traced then p
        else if a.prot <= p then host
        else {}
      case EndTrace =>
        if a.traced && a.prot != {} then a.prot else host
    }
  }

  // TracerModifyProt: mprotect while a tracer is attached.
  method TracerModifyProt(area: VMArea, p: set<Perm>, host: HostKernel) returns (r: VMArea)
    modifies host
    ensures r == area.(prot := p)
    ensures forall x: nat :: host.prot(x) ==
                             if area.Covers(x) && !area.traced then p
                             else if area.Covers(x) && !(area.prot <= p) then {}
                             else old(host.prot)(x)
  {
    r := area.(prot := p);
    if !area.traced {
      host.MProtect(area.start, area.end, p);
      return;
    }
    if area.prot <= p {
      return;
    }
    host.MProtect(area.start, area.end, {});
  }

  // The callback that Modify runs on each selected area.
  method ApplyEdit(e: Edit, area: VMArea, host: HostKernel) returns (r: VMArea)
    requires e.Selects(area)
    modifies host
    ensures r == e.Changed(area)
    ensures forall x: nat :: host.prot(x) ==
                             if area.Covers(x) then e.HostAfter(area.AttrAt(x), old(host.prot)(x))
                             else old(host.prot)(x)
  {
    match e {
      case SetProt(p, tracing) =>
        if tracing {
          r := TracerModifyProt(area, p, host);
        } else {
          r := area.(prot := p);
        }
      case EndTrace =>
        r := area.(traced := false);
        if area.traced && area.prot != {} {
          host.MProtect(area.start, area.end, area.prot);
        }
    }
  }

  // Edit the part of the area under k that lies below b.
  function EditBelow(m: AreaMap, e: Edit, b: nat, prev: Option<nat>, k: nat): AreaMap
    requires k in m && m[k].end == k && m[k].start < b
    requires prev.Some? ==> prev.value in m && prev.value < k
  {
    if b < k then
      var m2 := Split(m, k, b);
      MergeInto(m2[b := e.Changed(m2[b])], prev, b)
    else MergeInto(m[k := e.Changed(m[k])], prev, k)
  }

  // One iteration of Modify on the area stored under k; `prev` is the entry before it.
  function EditOne(m: AreaMap, e: Edit, a: nat, b: nat, prev: Option<nat>, k: nat): AreaMap
    requires k in m && m[k].end == k && a < k && a < b && m[k].start < b
    requires prev.Some? ==> prev.value in m && prev.value < k
  {
    if !e.Selects(m[k]) then MergeInto(m, prev, k)
    else EditBelow(if a > m[k].start then Split(m, k, a) else m, e, b, prev, k)
  }

  lemma ChangeMeaning(m: AreaMap, e: Edit, k: nat)
    requires Valid(m) && k in m
    ensures Valid(m[k := e.Changed(m[k])])
    ensures forall x: nat :: At(m[k := e.Changed(m[k])], x) ==
                             if m[k].Covers(x) then Some(e.AttrAfter(m[k].AttrAt(x))) else At(m, x)
  {
    StoreMeaning(m, e.Changed(m[k]));
  }

  lemma EditOneAbove(m: AreaMap, e: Edit, a: nat, b: nat, prev: Option<nat>, k: nat)
    requires k in m && m[k].end == k && a < k && a < b && m[k].start < b
    requires prev.Some? ==> prev.value in m && prev.value < k
    ensures SameAbove(m, EditOne(m, e, a, b, prev, k), k) && k in EditOne(m, e, a, b, prev, k)
  {
  }

  // What one iteration does to the address map: it edits the selected area's
  // addresses inside [a, b) and no others.
  lemma EditOneMeaning(m: AreaMap, e: Edit, a: nat, b: nat, prev: Option<nat>, k: nat)
    requires Valid(m) && k in m && a < k && a < b && m[k].start < b
    requires prev.Some? ==> prev.value in m && prev.value < k
    ensures var n := EditOne(m, e, a, b, prev, k);
            && Valid(n)
            && forall x: nat :: At(n, x) == if m[k].Covers(x) && a <= x < b
                                            then Some(e.AttrAfter(m[k].AttrAt(x))) else At(m, x)
  {
    hide At;
    if !e.Selects(m[k]) {
      MergeMeaning(m, prev, k);
      forall x: nat | m[k].Covers(x) ensures At(m, x) == Some(m[k].AttrAt(x)) { AtCovered(m, k, x); }
    } else if a > m[k].start {
      SplitMeaning(m, k, a);
      var m1, right := Split(m, k, a), m[k].TrimHead(a);
      EditBelowMeaning(m1, e, b, prev, k);
      forall x: nat ensures At(EditBelow(m1, e, b, prev, k), x) ==
                            if m[k].Covers(x) && a <= x < b then Some(e.AttrAfter(m[k].AttrAt(x))) else At(m, x)
      {
        assert At(m1, x) == At(m, x);
        assert m1[k] == right;
        assert right.Covers(x) <==> m[k].Covers(x) && a <= x;
      }
    } else {
      EditBelowMeaning(m, e, b, prev, k);
    }
  }

  lemma EditBelowMeaning(m: AreaMap, e: Edit, b: nat, prev: Option<nat>, k: nat)
    requires Valid(m) && k in m && m[k].start < b
    requires prev.Some? ==> prev.value in m && prev.value < k
    ensures var n := EditBelow(m, e, b, prev, k);
            && Valid(n)
            && forall x: nat :: At(n, x) == if m[k].Covers(x) && x < b
                                            then Some(e.AttrAfter(m[k].AttrAt(x))) else At(m, x)
  {
    hide At;
    if b < k {
      var left := m[k].TrimTail(b);
      var m2 := Split(m, k, b);
      SplitMeaning(m, k, b);
      assert m2[b] == left;
      var m3 := m2[b := e.Changed(left)];
      ChangeMeaning(m2, e, b);
      MergeMeaning(m3, prev, b);
      forall x: nat ensures At(EditBelow(m, e, b, prev, k), x) ==
                            if m[k].Covers(x) && x < b then Some(e.AttrAfter(m[k].AttrAt(x))) else At(m, x)
      {
        assert At(EditBelow(m, e, b, prev, k), x) == At(m3, x);
        assert At(m2, x) == At(m, x);
        assert left.Covers(x) <==> m[k].Covers(x) && x < b;
      }
    } else {
      ChangeMeaning(m, e, k);
      MergeMeaning(m[k := e.Changed(m[k])], prev, k);
    }
  }

  lemma EditBelowUnmerged(m: AreaMap, e: Edit, b: nat, prev: Option<nat>, k: nat)
    requires Valid(m) && k in m && m[k].start < b && prev == Before(m, Some(k))
    requires UnmergedUpTo(m, k - 1)
    requires b < k ==> e.SetProt? && e.Selects(m[k])
    ensures UnmergedUpTo(EditBelow(m, e, b, prev, k), k)
  {
    hide At, MergeInto, UnmergedUpTo;
    if b < k { EditLeftUnmerged(m, e, b, prev, k); } else { EditWholeUnmerged(m, e, b, prev, k); }
  }

  lemma EditLeftUnmerged(m: AreaMap, e: Edit, b: nat, prev: Option<nat>, k: nat)
    requires Valid(m) && k in m && m[k].start < b < k && prev == Before(m, Some(k))
    requires UnmergedUpTo(m, k - 1) && e.SetProt? && e.Selects(m[k])
    ensures UnmergedUpTo(EditBelow(m, e, b, prev, k), k)
  {
    hide At, MergeInto, UnmergedUpTo;
    var m2 := Split(m, k, b);
    SplitMeaning(m, k, b);
    var m3 := m2[b := e.Changed(m2[b])];
    ChangeMeaning(m2, e, b);
    SplitBefore(m, m3, k, b);
    MergeUnmerged(m3, prev, b);
    EditedLeftUnmerged(m3, prev, b, k);
  }

  lemma EditWholeUnmerged(m: AreaMap, e: Edit, b: nat, prev: Option<nat>, k: nat)
    requires Valid(m) && k in m && m[k].start < b && k <= b && prev == Before(m, Some(k))
    requires UnmergedUpTo(m, k - 1)
    ensures UnmergedUpTo(EditBelow(m, e, b, prev, k), k)
  {
    hide At, MergeInto;
    var n := m[k := e.Changed(m[k])];
    ChangeMeaning(m, e, k);
    BeforeDependsOnKeys(m, n, Some(k));
    assert UnmergedUpTo(n, k - 1);
    MergeUnmerged(n, prev, k);
  }

  // Up to the split point, splitting and editing change nothing.
  lemma SplitBefore(m: AreaMap, n: AreaMap, k: nat, b: nat)
    requires Valid(m) && k in m && m[k].start < b < k && UnmergedUpTo(m, k - 1) && Valid(n)
    requires forall j: nat | j < b :: (j in n <==> j in m) && (j in n ==> n[j] == m[j])
    ensures Before(n, Some(b)) == Before(m, Some(k)) && UnmergedUpTo(n, b - 1)
  {
    assert forall j | j in m && j < k :: j <= m[k].start;
    BeforeUnique(n, Some(b), Before(m, Some(k)));
    forall i, j | i in n && j in n && j <= b - 1 ensures !Mergeable(n[i], n[j]) {
      if i < b { assert !Mergeable(m[i], m[j]); }
    }
  }

  // After the merge at b, only k is left to look at, and it differs in protection.
  lemma EditedLeftUnmerged(m: AreaMap, prev: Option<nat>, b: nat, k: nat)
    requires Valid(m) && b in m && k in m && m[k].start == b && m[b].prot != m[k].prot
    requires prev.Some? ==> prev.value in m && prev.value < b
    requires UnmergedUpTo(MergeInto(m, prev, b), b)
    ensures UnmergedUpTo(MergeInto(m, prev, b), k)
  {
    var n := MergeInto(m, prev, b);
    forall i, j | i in n && j in n && j <= k ensures !Mergeable(n[i], n[j]) {
      if b < j { assert j == k; }
    }
  }

  // One iteration keeps everything up to its area merged. A split leaves
  // neighbours that differ in protection, so only SetProt may split.
  lemma EditOneUnmerged(m: AreaMap, e: Edit, a: nat, b: nat, prev: Option<nat>, k: nat)
    requires Valid(m) && k in m && a < k && a < b && m[k].start < b
    requires prev == Before(m, Some(k))
    requires UnmergedUpTo(m, k - 1)
    requires m[k].start < a || b < k ==> e.SetProt?
    requires m[k].start < a ==> UnmergedUpTo(m, k)
    ensures UnmergedUpTo(EditOne(m, e, a, b, prev, k), k)
  {
    if !e.Selects(m[k]) {
      MergeUnmerged(m, prev, k);
    } else if a > m[k].start {
      var m1 := Split(m, k, a);
      SplitMeaning(m, k, a);
      EditAfterSplit(m, e, a, b, prev, k);
      BeforeSplit(m, a, k);
      EditBelowUnmerged(m1, e, b, Some(a), k);
    } else {
      EditBelowUnmerged(m, e, b, prev, k);
    }
  }

  // The left piece of a split takes the place of `prev` ...
  lemma BeforeSplit(m: AreaMap, a: nat, k: nat)
    requires Valid(m) && k in m && m[k].start < a < k && UnmergedUpTo(m, k)
    ensures Before(Split(m, k, a), Some(k)) == Some(a) && UnmergedUpTo(Split(m, k, a), k - 1)
  {
    var m1 := Split(m, k, a);
    assert forall j | j in m && j < k :: j <= m[k].start;
    BeforeUnique(m1, Some(k), Some(a));
    forall i, j | i in m1 && j in m1 && j <= k - 1 ensures !Mergeable(m1[i], m1[j]) {
      if i < a { assert !Mergeable(m[i], if j == a then m[k] else m[j]); }
    }
  }

  // ... and neither of them merges with the edited part.
  lemma EditAfterSplit(m: AreaMap, e: Edit, a: nat, b: nat, prev: Option<nat>, k: nat)
    requires Valid(m) && k in m && m[k].start < a < k && a < b
    requires prev == Before(m, Some(k)) && e.SetProt? && e.Selects(m[k])
    ensures var m1 := Split(m, k, a);
            EditBelow(m1, e, b, prev, k) == EditBelow(m1, e, b, Some(a), k)
  {
    var m1 := Split(m, k, a);
    if prev.Some? { assert prev.value <= m[k].start; }
    if b < k {
      var m2 := Split(m1, k, b);
      var m3 := m2[b := e.Changed(m2[b])];
      assert MergeInto(m3, prev, b) == m3 == MergeInto(m3, Some(a), b);
    } else {
      var m3 := m1[k := e.Changed(m1[k])];
      assert MergeInto(m3, prev, k) == m3 == MergeInto(m3, Some(a), k);
    }
  }

  lemma EditOneAligned(m: AreaMap, e: Edit, a: nat, b: nat, prev: Option<nat>, k: nat)
    requires k in m && m[k].end == k && a < k && a < b && m[k].start < b
    requires prev.Some? ==> prev.value in m && prev.value < k
    requires AllPageAligned(m) && (m[k].start < a ==> IsPageAligned(a)) && (b < k ==> IsPageAligned(b))
    ensures AllPageAligned(EditOne(m, e, a, b, prev, k))
  {
    hide Mergeable;
    if !e.Selects(m[k]) {
      MergeAligned(m, prev, k);
    } else {
      var m1 := if a > m[k].start then Split(m, k, a) else m;
      assert AllPageAligned(m1);
      EditBelowAligned(m1, e, b, prev, k);
    }
  }

  lemma EditBelowAligned(m: AreaMap, e: Edit, b: nat, prev: Option<nat>, k: nat)
    requires k in m && m[k].end == k && m[k].start < b
    requires prev.Some? ==> prev.value in m && prev.value < k
    requires AllPageAligned(m) && (b < k ==> IsPageAligned(b))
    ensures AllPageAligned(EditBelow(m, e, b, prev, k))
  {
    hide MergeInto;
    if b < k {
      var m2 := Split(m, k, b);
      MergeAligned(m2[b := e.Changed(m2[b])], prev, b);
    } else {
      MergeAligned(m[k := e.Changed(m[k])], prev, k);
    }
  }

  // The address map after the edit has reached address `done`.
  ghost function EditedAt(m: AreaMap, e: Edit, a: nat, b: nat, done: nat, x: nat): Option<Attr> {
    if a <= x < b && x < done && At(m, x).Some? then Some(e.AttrAfter(At(m, x).value)) else At(m, x)
  }

  ghost function EditedHost(m: AreaMap, e: Edit, host: set<Perm>, a: nat, b: nat, done: nat, x: nat): set<Perm> {
    if a <= x < b && x < done && At(m, x).Some? then e.HostAfter(At(m, x).value, host) else host
  }

  ghost predicate EditedUpTo(m0: AreaMap, m: AreaMap, e: Edit, a: nat, b: nat, done: nat) {
    && a <= done && (done > a ==> done in m0) && Valid(m) && SameAbove(m0, m, done)
    && forall x: nat :: At(m, x) == EditedAt(m0, e, a, b, done, x)
  }

  lemma EditStep(m0: AreaMap, m: AreaMap, e: Edit, a: nat, b: nat, was: nat, prev: Option<nat>, k: nat)
    requires Valid(m0) && a < b && EditedUpTo(m0, m, e, a, b, was)
    requires was < k && k in m0 && m0[k].start < b
    requires forall j | j in m0 :: j <= was || k <= j
    requires prev.Some? ==> prev.value in m && prev.value < k
    ensures k in m && m[k] == m0[k] && m[k].end == k
    ensures EditedUpTo(m0, EditOne(m, e, a, b, prev, k), e, a, b, k)
    ensures k in EditOne(m, e, a, b, prev, k)
  {
    hide At, EditOne, EditedAt;
    assert k in m && m[k] == m0[k];
    assert was == a || was <= m0[k].start;
    EditOneMeaning(m, e, a, b, prev, k);
    EditOneAbove(m, e, a, b, prev, k);
    EditStepAt(m0, m, EditOne(m, e, a, b, prev, k), e, a, b, was, k);
  }

  lemma EditStepAt(m0: AreaMap, m: AreaMap, n: AreaMap, e: Edit, a: nat, b: nat, was: nat, k: nat)
    requires Valid(m0) && k in m0 && a <= was < k && (was == a || was <= m0[k].start)
    requires forall j | j in m0 :: j <= was || k <= j
    requires forall x: nat :: At(m, x) == EditedAt(m0, e, a, b, was, x)
    requires forall x: nat :: At(n, x) == if m0[k].Covers(x) && a <= x < b
                                          then Some(e.AttrAfter(m0[k].AttrAt(x))) else At(m, x)
    ensures forall x: nat :: At(n, x) == EditedAt(m0, e, a, b, k, x)
  {
    hide At;
    forall x: nat ensures At(n, x) == EditedAt(m0, e, a, b, k, x) {
      EditFrontier(m0, was, k, x);
      assert At(m, x) == EditedAt(m0, e, a, b, was, x);
    }
  }

  // Between two processed frontiers lies one area and otherwise free space.
  lemma EditFrontier(m: AreaMap, was: nat, k: nat, x: nat)
    requires Valid(m) && k in m && was < k
    requires forall j | j in m :: j <= was || k <= j
    ensures m[k].Covers(x) ==> At(m, x) == Some(m[k].AttrAt(x))
    ensures was <= x < k && !m[k].Covers(x) ==> At(m, x) == None
  {
    if m[k].Covers(x) {
      AtCovered(m, k, x);
    } else if was <= x < k {
      forall j | j in m ensures !m[j].Covers(x) {
        if k < j { assert k <= m[j].start; }
      }
    }
  }
}
