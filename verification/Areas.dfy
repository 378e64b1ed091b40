// VMArea (junction/kernel/mm.h) and the address map that a set of areas denotes.
module Areas {
  import opened Common

  datatype Perm = Read | Write | Exec

  datatype VMType = Normal | Heap | Stack | FileBacked

  // What a mapping says about one address. `pos` is the byte of the backing
  // file found there; it is 0 for memory that no file backs.
  datatype Attr = Attr(prot: set<Perm>, traced: bool, vmtype: VMType, file: Option<nat>, pos: int)

  datatype VMArea = VMArea(start: nat, end: nat, prot: set<Perm>, traced: bool,
                           vmtype: VMType, file: Option<nat>, offset: int)
  {
    predicate WellFormed() {
      start < end && (vmtype == FileBacked <==> file.Some?)
    }

    predicate Covers(x: nat) { start <= x < end }

    function AttrAt(x: nat): Attr {
      Attr(prot, traced, vmtype, file, if vmtype == FileBacked then offset + (x - start) else 0)
    }

    function TrimTail(newEnd: nat): VMArea
      requires newEnd < end
    {
      this.(end := newEnd)
    }

    function TrimHead(newStart: nat): VMArea
      requires start < newStart
    {
      this.(start := newStart,
            offset := if vmtype == FileBacked then offset + (newStart - start) else offset)
    }

    // VMArea::TryMergeRight once the two areas are known to be mergeable.
    function MergeRight(lhs: VMArea): VMArea {
      this.(start := lhs.start, offset := lhs.offset)
    }
  }

  // MappingsMergeable
  predicate Mergeable(lhs: VMArea, rhs: VMArea) {
    && lhs.end == rhs.start && lhs.vmtype == rhs.vmtype && lhs.prot == rhs.prot
    && lhs.traced == rhs.traced
    && (lhs.vmtype == FileBacked ==>
          lhs.offset + (lhs.end - lhs.start) == rhs.offset && lhs.file == rhs.file)
  }

  // std::map<uintptr_t, VMArea>, keyed by the end of each area.
  type AreaMap = map<nat, VMArea>

  ghost predicate Valid(m: AreaMap) {
    && (forall k | k in m :: m[k].end == k && m[k].WellFormed())
    && (forall j, k | j in m && k in m && j < k :: j <= m[k].start)
  }

  // No two neighbours could be merged; areas that do not touch never merge.
  ghost predicate MaximallyMerged(m: AreaMap) {
    forall j, k | j in m && k in m :: !Mergeable(m[j], m[k])
  }

  ghost predicate Canonical(m: AreaMap) {
    Valid(m) && MaximallyMerged(m)
  }

  ghost predicate AllPageAligned(m: AreaMap) {
    forall k | k in m :: IsPageAligned(m[k].start) && IsPageAligned(m[k].end)
  }

  // The address map that m denotes.
  ghost function At(m: AreaMap, x: nat): Option<Attr> {
    if exists k :: k in m && m[k].Covers(x) then
      var k :| k in m && m[k].Covers(x);
      Some(m[k].AttrAt(x))
    else None
  }

  lemma AtCovered(m: AreaMap, k: nat, x: nat)
    requires Valid(m) && k in m && m[k].Covers(x)
    ensures At(m, x) == Some(m[k].AttrAt(x))
  {
    var j :| j in m && m[j].Covers(x) && At(m, x) == Some(m[j].AttrAt(x));
    if j < k { assert j <= m[k].start; }
    if k < j { assert k <= m[j].start; }
  }

  lemma AtFree(m: AreaMap, x: nat)
    ensures At(m, x).None? <==> forall k | k in m :: !m[k].Covers(x)
  {
  }

  // upper_bound: the first key above x.
  function UpperBound(m: AreaMap, x: nat): (it: Option<nat>)
    ensures it.None? ==> forall k | k in m :: k <= x
    ensures it.Some? ==> it.value in m && x < it.value && forall k | k in m && x < k :: it.value <= k
  {
    var above := set k | k in m && x < k;
    if above == {} then
      assert forall k | k in m && x < k :: k in above;
      None
    else
      assert forall k | k in m && x < k :: k in above;
      Some(Least(above))
  }

  // std::prev: the last key below the one `it` refers to (end() is above all).
  function Before(m: AreaMap, it: Option<nat>): (p: Option<nat>)
    ensures p.None? ==> forall k | k in m :: it.Some? && it.value <= k
    ensures p.Some? ==> p.value in m && (it.Some? ==> p.value < it.value)
    ensures p.Some? ==> forall k | k in m && (it.Some? ==> k < it.value) :: k <= p.value
  {
    var below := set k | k in m && (it.Some? ==> k < it.value);
    if below == {} then
      assert forall k | k in m && (it.Some? ==> k < it.value) :: k in below;
      None
    else
      assert forall k | k in m && (it.Some? ==> k < it.value) :: k in below;
      Some(Greatest(below))
  }

  lemma BeforeUnique(m: AreaMap, it: Option<nat>, p: Option<nat>)
    requires p.None? ==> forall k | k in m :: it.Some? && it.value <= k
    requires p.Some? ==> p.value in m && (it.Some? ==> p.value < it.value)
    requires p.Some? ==> forall k | k in m && (it.Some? ==> k < it.value) :: k <= p.value
    ensures Before(m, it) == p
  {
  }

  lemma BeforeDependsOnKeys(m: AreaMap, n: AreaMap, it: Option<nat>)
    requires m.Keys == n.Keys
    ensures Before(m, it) == Before(n, it)
  {
    assert forall k :: k in m <==> k in n;
  }

  // An area fits next to every area of m except the one stored under its own key.
  ghost predicate Fits(m: AreaMap, a: VMArea) {
    forall j | j in m && j != a.end :: j <= a.start || a.end <= m[j].start
  }

  lemma StoreValid(m: AreaMap, a: VMArea)
    requires Valid(m) && a.WellFormed() && Fits(m, a)
    ensures Valid(m[a.end := a])
  {
    var n := m[a.end := a];
    forall j, k | j in n && k in n && j < k ensures j <= n[k].start {
      if j == a.end { assert k in m; } else { assert j in m; }
    }
  }

  lemma StoreMeaning(m: AreaMap, a: VMArea)
    requires Valid(m) && a.WellFormed() && Fits(m, a)
    ensures Valid(m[a.end := a])
    ensures forall x :: At(m[a.end := a], x) ==
                        if a.Covers(x) then Some(a.AttrAt(x))
                        else if a.end in m && m[a.end].Covers(x) then None
                        else At(m, x)
  {
    hide At;
    StoreValid(m, a);
    var n := m[a.end := a];
    forall x ensures At(n, x) == if a.Covers(x) then Some(a.AttrAt(x))
                                 else if a.end in m && m[a.end].Covers(x) then None
                                 else At(m, x)
    {
      AtFree(m, x);
      AtFree(n, x);
      if a.Covers(x) {
        AtCovered(n, a.end, x);
      } else if a.end in m && m[a.end].Covers(x) {
        AtCovered(m, a.end, x);
        assert forall k | k in n && k != a.end :: !m[k].Covers(x);
      } else if At(m, x).Some? {
        var k :| k in m && m[k].Covers(x);
        AtCovered(m, k, x);
        AtCovered(n, k, x);
      }
    }
  }

  lemma EraseMeaning(m: AreaMap, k: nat)
    requires Valid(m) && k in m
    ensures Valid(m - {k})
    ensures forall x :: At(m - {k}, x) == if m[k].Covers(x) then None else At(m, x)
  {
    var n := m - {k};
    forall x ensures At(n, x) == if m[k].Covers(x) then None else At(m, x) {
      if j :| j in m && m[j].Covers(x) && j != k {
        AtCovered(m, j, x);
        assert n[j].Covers(x);
        AtCovered(n, j, x);
      } else {
        forall j | j in n ensures !n[j].Covers(x) { }
      }
    }
  }

  // Two maximally merged maps that denote the same address map hold the same
  // areas, apart from the meaningless offsets of areas that no file backs.
  ghost predicate SameArea(a: VMArea, b: VMArea) {
    a == b.(offset := a.offset) && (a.vmtype == FileBacked ==> a.offset == b.offset)
  }

  // Where m ends an area and n does not, m's area has a mergeable right neighbour.
  lemma EndNotShared(m: AreaMap, n: AreaMap, k: nat) returns (l: nat)
    requires Valid(m) && Valid(n) && k in m && k !in n
    requires forall x :: At(m, x) == At(n, x)
    ensures l in m && Mergeable(m[k], m[l])
  {
    hide At;
    AtCovered(m, k, k - 1);
    AtFree(n, k - 1);
    var j :| j in n && n[j].Covers(k - 1);
    AtCovered(n, j, k - 1);
    AtCovered(n, j, k);
    AtFree(m, k);
    l :| l in m && m[l].Covers(k);
    AtCovered(m, l, k);
    assert k <= m[l].start;
  }

  // Where n's area reaches further left than m's, m's has a mergeable left neighbour.
  lemma StartNotShared(m: AreaMap, n: AreaMap, k: nat) returns (l: nat)
    requires Valid(m) && Valid(n) && k in m && k in n && n[k].start < m[k].start
    requires forall x :: At(m, x) == At(n, x)
    ensures l in m && Mergeable(m[l], m[k])
  {
    hide At;
    var s := m[k].start;
    AtCovered(m, k, s);
    AtCovered(n, k, s);
    AtCovered(n, k, s - 1);
    AtFree(m, s - 1);
    l :| l in m && m[l].Covers(s - 1);
    AtCovered(m, l, s - 1);
    assert l < k;
  }

  lemma SharedBounds(m: AreaMap, n: AreaMap, k: nat)
    requires Canonical(m) && Canonical(n) && k in m
    requires forall x :: At(m, x) == At(n, x)
    ensures k in n && m[k].start <= n[k].start
  {
    if k !in n {
      var l := EndNotShared(m, n, k);
    } else if n[k].start < m[k].start {
      var l := StartNotShared(m, n, k);
    }
  }

  lemma CanonicalUnique(m: AreaMap, n: AreaMap)
    requires Canonical(m) && Canonical(n)
    requires forall x :: At(m, x) == At(n, x)
    ensures m.Keys == n.Keys
    ensures forall k | k in m :: SameArea(m[k], n[k])
  {
    forall k | k in m ensures k in n && SameArea(m[k], n[k]) {
      SharedBounds(m, n, k);
      SharedBounds(n, m, k);
      AtCovered(m, k, m[k].start);
      AtCovered(n, k, m[k].start);
    }
    forall k | k in n ensures k in m { SharedBounds(n, m, k); }
  }
}
