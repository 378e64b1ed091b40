// MemoryMap (junction/kernel/mm.h, mm.cc): mmap, munmap, mprotect, brk, the
// page-fault handler and the tracer. Each operation is shown to be a step of
// the tracing protocol on the address map that its areas denote.
module MemoryMap {
  import opened Common
  import opened Areas
  import opened MapEdits
  import opened Edits
  import opened FreeSpace
  import opened ModifyLoop
  import opened IntervalSet
  import opened Tracing

  class PageAccessTracer {
    var access: map<nat, int>
    var writes: set<nat>

    constructor ()
      ensures access == map[] && writes == {}
    {
      access, writes := map[], {};
    }

    ghost function Trace(): Tracing.Trace
      reads this
    {
      Tracing.Trace(access, writes)
    }

    // Keeps the earliest time of each page; true on its first access (or first write).
    method RecordHit(page: nat, time: int, perm: Perm) returns (first: bool)
      modifies this
      ensures Trace() == Hit(old(Trace()), page, time, perm)
      // No page is forgotten or dated later, and only this one is dated earlier.
      ensures access.Keys == old(access.Keys) + {page} && access[page] <= time
      ensures forall p | p in old(access) :: access[p] <= old(access)[p] && (p != page ==> access[p] == old(access)[p])
      ensures access[page] == time || (page in old(access) && access[page] == old(access)[page])
      ensures old(writes) <= writes <= old(writes) + {page} && (page in writes <==> page in old(writes) || perm == Write)
      ensures first == if perm == Write then page !in old(writes) else page !in old(access)
    {
      var inserted := page !in access;
      if inserted {
        access := access[page := time];
      } else {
        access := access[page := Min(access[page], time)];
      }
      if perm == Write {
        first := page !in writes;
        writes := writes + {page};
        return;
      }
      first := inserted;
    }
  }

  ghost function TraceOf(tracer: PageAccessTracer?): Option<Tracing.Trace>
    reads if tracer == null then {} else {tracer}
  {
    if tracer == null then None else Some(tracer.Trace())
  }

  // What the areas, the host and the tracer say about every address.
  ghost function Denotes(m: AreaMap, host: nat -> set<Perm>, trace: Option<Tracing.Trace>): State {
    State((x: nat) => At(m, x), host, trace)
  }

  // EnableTracing marks every area as traced.
  ghost function AllTraced(m: AreaMap): AreaMap {
    map k | k in m :: m[k].(traced := true)
  }

  // The areas while EnableTracing's loop has passed key `done`.
  ghost function TracedUpTo(m: AreaMap, done: nat): AreaMap {
    map k | k in m :: if k <= done then m[k].(traced := true) else m[k]
  }

  ghost predicate NextAfter(m: AreaMap, done: nat, it: Option<nat>) {
    && (done > 0 ==> done in m) && (it.Some? ==> it.value in m && done < it.value)
    && forall k | k in m :: k <= done || (it.Some? && it.value <= k)
  }

  lemma TracedEnds(m: AreaMap, done: nat)
    requires Valid(m)
    ensures TracedUpTo(m, 0) == m
    ensures NextAfter(m, 0, UpperBound(m, 0))
    ensures NextAfter(m, done, None) ==> TracedUpTo(m, done) == AllTraced(m)
  {
  }

  lemma TracedStep(m: AreaMap, was: nat, k: nat)
    requires NextAfter(m, was, Some(k))
    ensures k in TracedUpTo(m, was) && TracedUpTo(m, was)[k] == m[k]
    ensures TracedUpTo(m, was)[k := m[k].(traced := true)] == TracedUpTo(m, k)
    ensures NextAfter(m, k, UpperBound(TracedUpTo(m, k), k))
  {
    var n, it := TracedUpTo(m, k), UpperBound(TracedUpTo(m, k), k);
    forall j | j in m ensures j <= k || (it.Some? && it.value <= j) { assert j in n; }
  }

  lemma AllTracedValid(m: AreaMap)
    requires Valid(m)
    ensures Valid(AllTraced(m)) && (AllPageAligned(m) ==> AllPageAligned(AllTraced(m)))
  {
  }

  lemma AllTracedMeaning(m: AreaMap)
    requires Valid(m)
    ensures Valid(AllTraced(m)) && (AllPageAligned(m) ==> AllPageAligned(AllTraced(m)))
    ensures forall x: nat :: At(AllTraced(m), x) ==
                             if At(m, x).Some? then Some(At(m, x).value.(traced := true)) else None
  {
    hide At, Valid, AllTraced;
    AllTracedValid(m);
    forall x: nat ensures At(AllTraced(m), x) == if At(m, x).Some? then Some(At(m, x).value.(traced := true)) else None {
      AllTracedAt(m, x);
    }
  }

  lemma AllTracedAt(m: AreaMap, x: nat)
    requires Valid(m) && Valid(AllTraced(m))
    ensures At(AllTraced(m), x) == if At(m, x).Some? then Some(At(m, x).value.(traced := true)) else None
  {
    hide At, Valid;
    var n := AllTraced(m);
    AtFree(m, x);
    AtFree(n, x);
    if At(m, x).Some? {
      var k :| k in m && m[k].Covers(x);
      AtCovered(m, k, x);
      AtCovered(n, k, x);
    } else {
      assert forall k | k in n :: k in m && n[k] == m[k].(traced := true);
    }
  }

  // Two neighbours that only the traced bit keeps apart.
  ghost predicate SplitOnlyByTrace(m: AreaMap) {
    exists j, k :: j in m && k in m && m[j].traced != m[k].traced &&
                   Mergeable(m[j].(traced := m[k].traced), m[k])
  }

  // Enabling the tracer keeps the areas maximally merged unless a previous
  // trace left such neighbours.
  lemma EnableStaysMerged(m: AreaMap)
    requires Canonical(m)
    ensures MaximallyMerged(AllTraced(m)) <==> !SplitOnlyByTrace(m)
  {
    var n := AllTraced(m);
    if SplitOnlyByTrace(m) {
      var j, k :| j in m && k in m && m[j].traced != m[k].traced && Mergeable(m[j].(traced := m[k].traced), m[k]);
      assert Mergeable(n[j], n[k]);
    } else {
      forall j, k | j in n && k in n ensures !Mergeable(n[j], n[k]) {
        assert !Mergeable(m[j], m[k]);
      }
    }
  }

  // A page that an earlier trace did not cover, next to one that it did.
  lemma EnableLeavesNeighbours()
    ensures var m: AreaMap := map[4096 := VMArea(0, 4096, {Read}, true, Normal, None, 0),
                                  8192 := VMArea(4096, 8192, {Read}, false, Normal, None, 0)];
            Canonical(m) && !MaximallyMerged(AllTraced(m))
  {
    var m: AreaMap := map[4096 := VMArea(0, 4096, {Read}, true, Normal, None, 0),
                          8192 := VMArea(4096, 8192, {Read}, false, Normal, None, 0)];
    assert 4096 in m && 8192 in m && m.Keys == {4096, 8192};
    assert Canonical(m);
    assert SplitOnlyByTrace(m);
    EnableStaysMerged(m);
  }

  // The host after EnableTracing's loop has passed address `done`.
  ghost predicate HostDroppedUpTo(m: AreaMap, h0: nat -> set<Perm>, h: nat -> set<Perm>, done: nat) {
    forall x: nat :: h(x) == if x < done && At(m, x).Some? && At(m, x).value.prot != {} then {} else h0(x)
  }

  lemma NothingDropped(m: AreaMap, h: nat -> set<Perm>)
    ensures HostDroppedUpTo(m, h, h, 0)
  {
  }

  lemma HostDrops(m: AreaMap, h0: nat -> set<Perm>, h: nat -> set<Perm>, h': nat -> set<Perm>, was: nat, k: nat)
    requires Valid(m) && NextAfter(m, was, Some(k))
    requires HostDroppedUpTo(m, h0, h, was)
    requires forall x: nat :: h'(x) == if m[k].prot != {} && m[k].Covers(x) then {} else h(x)
    ensures HostDroppedUpTo(m, h0, h', k)
  {
    assert was == 0 || was <= m[k].start;
    hide At;
    forall x: nat ensures h'(x) == if x < k && At(m, x).Some? && At(m, x).value.prot != {} then {} else h0(x) {
      EditFrontier(m, was, k, x);
      assert h(x) == if x < was && At(m, x).Some? && At(m, x).value.prot != {} then {} else h0(x);
    }
  }

  // All areas end at or below lim exactly when no address from lim on is mapped.
  lemma MappedBelow(m: AreaMap, lim: nat)
    requires Valid(m)
    ensures (forall k | k in m :: k <= lim) <==> (forall x: nat | At(m, x).Some? :: x < lim)
  {
    forall k | k in m ensures At(m, k - 1).Some? { AtCovered(m, k, k - 1); }
  }

  lemma StillBelow(m: AreaMap, n: AreaMap, lim: nat)
    requires Valid(m) && Valid(n) && forall k | k in m :: k <= lim
    requires forall x: nat | At(n, x).Some? :: At(m, x).Some? || x < lim
    ensures forall k | k in n :: k <= lim
  {
    MappedBelow(m, lim);
    MappedBelow(n, lim);
  }

  class MemoryMap {
    const areas: ExclusiveIntervalSet
    const host: HostKernel
    const mmStart: nat
    const mmEnd: nat
    var brk: nat
    var tracer: PageAccessTracer?

    ghost function Repr(): set<object>
      reads this
    {
      {this, areas, host} + if tracer == null then {} else {tracer}
    }

    ghost function Abs(): State
      reads Repr()
    {
      Denotes(areas.intervals, host.prot, TraceOf(tracer))
    }

    ghost predicate Consistent()
      reads Repr()
    {
      && Valid(areas.intervals) && AllPageAligned(areas.intervals)
      && (forall k | k in areas.intervals :: k < WORD)
      && IsPageAligned(mmStart) && IsPageAligned(mmEnd) && mmStart <= brk < mmEnd < WORD
      && Safe(Abs())
    }

    constructor (base: nat, len: nat)
      requires IsPageAligned(base) && IsPageAligned(len) && 0 < len && base + len < WORD
      ensures Consistent() && Inv(Abs()) && areas.intervals == map[] && tracer == null && brk == base
    {
      areas := new ExclusiveIntervalSet();
      host := new HostKernel();
      mmStart, mmEnd, brk, tracer := base, base + len, base, null;
      new;
      EmptySafe(Abs());
    }

    // AddressToBounds
    static function RangeEnd(addr: nat, len: nat): nat { PageAlign(addr + len) }

    static predicate AddressValid(addr: nat, len: nat) { len > 0 && IsPageAligned(addr) }

    // `hostOk` says whether the host's mprotect succeeds; it is only called
    // when no tracer is attached.
    method MProtect(addr: nat, len: nat, prot: set<Perm>, hostOk: bool) returns (r: Result<(), Errno>)
      requires Consistent() && RangeEnd(addr, len) < WORD
      modifies this, areas, host
      ensures Consistent() && tracer == old(tracer) && brk == old(brk)
      ensures old(Inv(Abs())) ==> Inv(Abs())
      ensures r == (if len == 0 || addr % 4096 != 0 then Err(EINVAL)
                    else if tracer == null && !hostOk then Err(EINVAL) else Ok(()))
      ensures r.Ok? ==> ProtectStep(old(Abs()), Abs(), addr, RangeEnd(addr, len), prot)
      // Exactly the mapped addresses in range get the protection asked for.
      ensures r.Ok? ==>
                forall x: nat ::
                  At(areas.intervals, x) ==
                  if addr <= x < RangeEnd(addr, len) && At(old(areas.intervals), x).Some?
                  then Some(At(old(areas.intervals), x).value.(prot := prot))
                  else At(old(areas.intervals), x)
      // The host follows at once, except on traced pages: these keep their rights
      // if none was taken away and lose them all otherwise.
      ensures r.Ok? ==>
                forall x: nat ::
                  host.prot(x) ==
                  if !(addr <= x < RangeEnd(addr, len)) || (tracer != null && At(old(areas.intervals), x).None?) then
                    old(host.prot)(x)
                  else if tracer == null then prot
                  else if !At(old(areas.intervals), x).value.traced then
                    (if At(old(areas.intervals), x).value.prot == prot then old(host.prot)(x) else prot)
                  else if At(old(areas.intervals), x).value.prot <= prot then old(host.prot)(x) else {}
      ensures r.Err? ==> Abs() == old(Abs())
      ensures MaximallyMerged(old(areas.intervals)) ==> MaximallyMerged(areas.intervals)
    {
      hide At, Safe, Full, PageAlign;
      PageAlignFacts(addr + len, 0);
      if !AddressValid(addr, len) {
        return Err(EINVAL);
      }
      var end := RangeEnd(addr, len);
      ghost var s := Abs();
      if tracer == null {
        if !hostOk {
          return Err(EINVAL);
        }
        host.MProtect(addr, end, prot);
      }
      areas.Modify(addr, end, SetProt(prot, tracer != null), host);
      ProtectKeeps(s, Abs(), addr, end, prot);
      ProtectMeans(s, Abs(), addr, end, prot);
      assert forall x: nat :: Abs().areas(x) == At(areas.intervals, x) && s.areas(x) == At(old(areas.intervals), x);
      StillBelow(old(areas.intervals), areas.intervals, WORD - 1);
      return Ok(());
    }

    // brk. It returns the break address, which it may refuse to move; `hostOk`
    // says whether the host maps or unmaps the pages.
    method SetBreak(newbrk: nat, hostOk: bool) returns (r: nat)
      requires Consistent()
      modifies this, areas, host
      ensures Consistent() && tracer == old(tracer) && r == brk
      ensures old(Inv(Abs())) ==> Inv(Abs())
      ensures brk == if newbrk < mmStart || mmEnd <= newbrk then old(brk)
                     else if PageAlign(old(brk)) == PageAlign(newbrk) then newbrk
                     else if hostOk && BreakMoves(old(areas.intervals), old(brk), newbrk) then newbrk
                     else old(brk)
      ensures PageAlign(brk) == PageAlign(old(brk)) ==> Abs() == old(Abs())
      ensures PageAlign(brk) > PageAlign(old(brk)) ==>
                MapStep(old(Abs()), Abs(), HeapArea(PageAlign(old(brk)), PageAlign(brk)))
      ensures PageAlign(brk) < PageAlign(old(brk)) ==>
                UnmapStep(old(Abs()), Abs(), PageAlign(brk), PageAlign(old(brk)))
      // Pages below the new break are heap, readable and writable; pages given
      // up are unmapped; nothing else changes.
      ensures forall x: nat :: At(areas.intervals, x) ==
                if PageAlign(old(brk)) <= x < PageAlign(brk) then Some(Attr({Read, Write}, false, Heap, None, 0))
                else if PageAlign(brk) <= x < PageAlign(old(brk)) then None
                else At(old(areas.intervals), x)
      ensures MaximallyMerged(old(areas.intervals)) ==> MaximallyMerged(areas.intervals)
    {
      hide At, Safe, Full, MapStep, UnmapStep, PageAlign, IsPageAligned;
      PageAlignFacts(brk, newbrk);
      PageAlignFacts(newbrk, brk);
      PageAlignFacts(brk, mmEnd);
      PageAlignFacts(newbrk, mmEnd);
      if newbrk < mmStart || newbrk >= mmEnd {
        return brk;
      }
      var oldbrk := brk;
      if PageAlign(oldbrk) == PageAlign(newbrk) {
        brk := newbrk;
        return brk;
      }
      var above := UpperBound(areas.intervals, brk);
      if above.Some? && areas.intervals[above.value].start < PageAlign(newbrk) {
        return brk;
      }
      if !hostOk {
        return brk;
      }
      ghost var s := Abs();
      if newbrk > oldbrk {
        Place(HeapArea(PageAlign(oldbrk), PageAlign(newbrk)));
        HeapMeans(s, Abs(), PageAlign(oldbrk), PageAlign(newbrk));
      } else {
        Remove(PageAlign(newbrk), PageAlign(oldbrk));
        UnmapMeans(s, Abs(), PageAlign(newbrk), PageAlign(oldbrk));
      }
      assert forall x: nat :: Abs().areas(x) == At(areas.intervals, x);
      brk := newbrk;
      return brk;
    }

    // munmap; `hostOk` says whether the host's munmap succeeds.
    method MUnmap(addr: nat, len: nat, hostOk: bool) returns (r: Result<(), Errno>)
      requires Consistent() && RangeEnd(addr, len) < WORD
      modifies this, areas, host
      ensures Consistent() && tracer == old(tracer) && brk == old(brk)
      ensures old(Inv(Abs())) ==> Inv(Abs())
      ensures r == (if len == 0 || addr % 4096 != 0 || !hostOk then Err(EINVAL) else Ok(()))
      ensures r.Ok? ==> UnmapStep(old(Abs()), Abs(), addr, RangeEnd(addr, len))
      ensures r.Ok? ==>
                forall x: nat ::
                  At(areas.intervals, x) ==
                  if addr <= x < RangeEnd(addr, len) then None else At(old(areas.intervals), x)
      ensures r.Err? ==> Abs() == old(Abs())
      ensures MaximallyMerged(old(areas.intervals)) ==> MaximallyMerged(areas.intervals)
    {
      if !AddressValid(addr, len) || !hostOk {
        return Err(EINVAL);
      }
      ghost var s := Abs();
      Remove(addr, RangeEnd(addr, len));
      UnmapMeans(s, Abs(), addr, RangeEnd(addr, len));
      assert forall x: nat :: Abs().areas(x) == At(areas.intervals, x);
      return Ok(());
    }

    // Starts a fresh trace and takes the host's rights away from every area.
    // The host calls are assumed to succeed.
    method EnableTracing()
      requires Consistent()
      modifies this, areas, host
      ensures Consistent() && Inv(Abs()) && fresh(tracer) && brk == old(brk)
      ensures EnableStep(old(Abs()), Abs())
      // Every mapping stays as it was, but traced and inaccessible; the report is empty.
      ensures forall x: nat ::
                if At(old(areas.intervals), x).None? then At(areas.intervals, x).None?
                else At(areas.intervals, x) == Some(At(old(areas.intervals), x).value.(traced := true)) && host.prot(x) == {}
      ensures tracer.access == map[] && tracer.writes == {}
      ensures areas.intervals == AllTraced(old(areas.intervals))
    {
      hide At, Safe, Full, EnableStep, HostDroppedUpTo;
      ghost var s, m0 := Abs(), areas.intervals;
      tracer := new PageAccessTracer();
      var last := TraceAreas();
      AllTracedMeaning(m0);
      EnableFinish(m0, s, Abs(), last);
      EnableKeeps(s, Abs());
      EnableMeans(s, Abs());
      assert forall x: nat :: s.areas(x) == At(m0, x) && Abs().areas(x) == At(areas.intervals, x);
    }

    // EnableTracing's loop over the areas; `last` is the last key.
    method TraceAreas() returns (last: nat)
      requires Valid(areas.intervals)
      modifies areas, host
      ensures areas.intervals == AllTraced(old(areas.intervals))
      ensures forall k | k in old(areas.intervals) :: k <= last
      ensures HostDroppedUpTo(old(areas.intervals), old(host.prot), host.prot, last)
    {
      hide At, HostDroppedUpTo, TracedUpTo, AllTraced;
      ghost var m0, h0 := areas.intervals, host.prot;
      last := 0;
      NothingDropped(m0, h0);
      TracedEnds(m0, last);
      var it := UpperBound(areas.intervals, 0);
      while it.Some?
        invariant NextAfter(m0, last, it)
        invariant areas.intervals == TracedUpTo(m0, last)
        invariant HostDroppedUpTo(m0, h0, host.prot, last)
        decreases KeysAbove(m0, last)
      {
        var k := it.value;
        ghost var h := host.prot;
        KeysAboveShrink(m0, last, k);
        TracedStep(m0, last, k);
        var vma := areas.intervals[k];
        areas.intervals := areas.intervals[k := vma.(traced := true)];
        if vma.prot != {} {
          host.MProtect(vma.start, vma.end, {});
        }
        HostDrops(m0, h0, h, host.prot, last, k);
        last := k;
        it := UpperBound(areas.intervals, k);
      }
      TracedEnds(m0, last);
    }

    // EnableTracing on a thread's rseq area: its pages count as written, and
    // the host makes them readable and writable.
    method EnableRseq(ptr: nat, len: nat, time: int)
      requires Consistent() && tracer != null && 0 < len
      modifies host, tracer
      ensures RseqStep(old(Abs()), Abs(), PageAlignDown(ptr), PageAlign(ptr + len), time)
      ensures Consistent() <==> old(RseqSafe(Abs(), PageAlignDown(ptr), PageAlign(ptr + len)))
      ensures old(Inv(Abs())) ==> (Inv(Abs()) <==> old(RseqFits(Abs(), PageAlignDown(ptr), PageAlign(ptr + len))))
    {
      hide At, Safe, Full, RseqSafe, RseqFits, HitPages, PageAlign, PageAlignDown;
      ghost var s := Abs();
      var page, end := PageAlignDown(ptr), PageAlign(ptr + len);
      RseqRange(ptr, len);
      RecordPages(page, end, time);
      host.MProtect(page, end, {Read, Write});
      RseqExact(s, Abs(), page, end, time);
    }

    // MemoryMap::RecordHit on whole pages, all of them written.
    method RecordPages(start: nat, end: nat, time: int)
      requires tracer != null
      modifies tracer
      ensures tracer.Trace() == HitPages(old(tracer.Trace()), start, end, time)
    {
      var page := start;
      while page < end
        invariant HitPages(tracer.Trace(), page, end, time) == HitPages(old(tracer.Trace()), start, end, time)
      {
        var _ := tracer.RecordHit(page, time, Write);
        page := page + PAGE_SIZE;
      }
    }

    method EndTracing() returns (r: Result<Tracing.Trace, Errno>)
      requires Consistent()
      modifies this, areas, host
      ensures Consistent() && tracer == null && brk == old(brk)
      ensures r == match old(TraceOf(tracer)) case None => Err(ENODATA) case Some(t) => Ok(t)
      ensures r.Ok? ==> EndStep(old(Abs()), Abs()) && Canonical(areas.intervals)
      ensures r.Err? ==> Abs() == old(Abs())
      ensures r.Ok? ==>
                forall x: nat ::
                  At(areas.intervals, x) ==
                  if At(old(areas.intervals), x).None? then None
                  else Some(At(old(areas.intervals), x).value.(traced := false))
      // All rights are restored exactly when untraced areas had theirs.
      ensures r.Ok? ==> (old(Full(Abs())) <==> forall x: nat | At(areas.intervals, x).Some? ::
                                                 host.prot(x) == At(areas.intervals, x).value.prot)
      ensures old(Inv(Abs())) ==> Inv(Abs())
    {
      hide SafeAt, FullAt, EndStep, At, MaximallyMerged;
      if tracer == null {
        return Err(ENODATA);
      }
      ghost var s := Abs();
      areas.Modify(0, WORD - 1, EndTrace, host);
      var pt := Tracing.Trace(tracer.access, tracer.writes);
      tracer := null;
      EndWholeMap(old(areas.intervals), s, Abs());
      EndRestores(s, Abs());
      assert forall x: nat :: Abs().areas(x) == At(areas.intervals, x);
      StillBelow(old(areas.intervals), areas.intervals, WORD - 1);
      return Ok(pt);
    }

    // Called on a fault for an access the host did not permit, possibly after
    // other threads have changed the page. `hostOk` says whether the host's
    // mprotect succeeds.
    method HandlePageFault(addr: nat, perm: Perm, time: int, hostOk: bool) returns (handled: bool)
      requires Consistent()
      modifies host, tracer
      ensures Consistent()
      ensures handled && tracer != null ==> FaultStep(old(Abs()), Abs(), addr, perm, time)
      // The access is granted on the whole page, with the mapping's other
      // rights; writing only to a write fault.
      ensures handled && tracer != null ==>
                forall x: nat | PageAlignDown(x) == PageAlignDown(addr) ::
                  && perm in host.prot(x) && At(areas.intervals, x).Some?
                  && (forall p | p in At(areas.intervals, x).value.prot && p != Write :: p in host.prot(x))
                  && (Write in host.prot(x) <==> perm == Write)
      ensures forall x: nat | PageAlignDown(x) != PageAlignDown(addr) :: host.prot(x) == old(host.prot)(x)
      // The whole invariant survives exactly the faults that fit.
      ensures old(Inv(Abs())) ==>
                (Inv(Abs()) <==> (handled && tracer != null ==> FaultFits(old(Abs()), addr, perm)))
      ensures !handled ==> host.prot == old(host.prot)
      // With a tracer, exactly the accesses that the mapping allows are handled.
      ensures tracer != null ==>
                (handled <==> hostOk && At(areas.intervals, addr).Some? &&
                              perm in At(areas.intervals, addr).value.prot)
      // Without one, only a spurious execute fault on read-execute memory is.
      ensures tracer == null ==>
                Abs() == old(Abs()) &&
                (handled <==> perm == Exec && At(areas.intervals, addr).Some? &&
                              At(areas.intervals, addr).value.prot == {Read, Exec})
    {
      hide At, Safe, Full, PageAlignDown, SamePageAttrs;
      ghost var s := Abs();
      var page := PageAlignDown(addr);
      PageBounds(addr);
      var found := areas.Find(page);
      SameOnPage(s, areas.intervals, addr);
      if found.Err? {
        return false;
      }
      var vma := found.value;
      if perm !in vma.prot {
        return false;
      }
      if tracer == null && vma.prot == {Read, Exec} && perm == Exec {
        return true;
      }
      if tracer == null {
        return false;
      }
      var _ := tracer.RecordHit(page, time, perm);
      var reprot := vma.prot;
      if perm != Write {
        reprot := reprot - {Write};
      }
      if !hostOk {
        HitKeeps(s, Abs(), page, time, perm);
        return false;
      }
      host.MProtect(page, page + PAGE_SIZE, reprot);
      PageOnly(page, addr);
      FaultHandled(s, Abs(), areas.intervals, addr, perm, time);
      return true;
    }

    // The host drops the pages, then the areas are cleared.
    method Remove(start: nat, end: nat)
      requires Consistent() && start < end < WORD && IsPageAligned(start) && IsPageAligned(end)
      modifies this, areas, host
      ensures Consistent() && tracer == old(tracer) && brk == old(brk)
      ensures old(Inv(Abs())) ==> Inv(Abs())
      ensures UnmapStep(old(Abs()), Abs(), start, end)
      ensures MaximallyMerged(old(areas.intervals)) ==> MaximallyMerged(areas.intervals)
    {
      ghost var s := Abs();
      host.MProtect(start, end, {});
      var _ := areas.Clear(start, end);
      UnmapKeeps(s, Abs(), start, end);
      StillBelow(old(areas.intervals), areas.intervals, WORD - 1);
    }

    // The host maps the pages, then the area is inserted.
    method Place(area: VMArea)
      requires Consistent() && area.WellFormed() && !area.traced && area.end < WORD
      requires IsPageAligned(area.start) && IsPageAligned(area.end)
      modifies this, areas, host
      ensures Consistent() && tracer == old(tracer) && brk == old(brk)
      ensures old(Inv(Abs())) ==> Inv(Abs())
      ensures MapStep(old(Abs()), Abs(), area)
      ensures MaximallyMerged(old(areas.intervals)) ==> MaximallyMerged(areas.intervals)
    {
      ghost var s := Abs();
      host.MProtect(area.start, area.end, area.prot);
      areas.Insert(area);
      MapKeeps(s, Abs(), area);
      StillBelow(old(areas.intervals), areas.intervals, WORD - 1);
    }

    // mmap at a fixed address, or (fixed == false, no hint) wherever the
    // backward scan finds room above the break. `hostOk` says whether the
    // host's mmap succeeds; it never does for a range that wraps.
    method MMap(addr: nat, len: nat, prot: set<Perm>, fixed: bool, anonymous: bool, isStack: bool,
                file: Option<nat>, offset: int, hostOk: bool) returns (r: Result<nat, Errno>)
      requires Consistent() && RangeEnd(addr, len) < WORD
      modifies this, areas, host
      ensures Consistent() && tracer == old(tracer) && brk == old(brk)
      ensures old(Inv(Abs())) ==> Inv(Abs())
      ensures r == Err(EINVAL) <==> len == 0 || addr % 4096 != 0
      ensures r == Err(EBADF) ==> !anonymous && file.None?
      ensures r.Err? ==> Abs() == old(Abs())
      ensures r.Ok? ==> (anonymous || file.Some?) && MapStep(old(Abs()), Abs(),
                MapArea(r.value, PageAlign(len), prot, isStack, if anonymous then None else file, offset))
      // Every address in range has what was asked for, the file's bytes in
      // order from the offset on; nothing else changes.
      ensures r.Ok? ==>
                forall x: nat ::
                  At(areas.intervals, x) ==
                  if r.value <= x < r.value + PageAlign(len) then
                    Some(if anonymous then Attr(prot, false, if isStack then Stack else Normal, None, 0)
                         else Attr(prot, false, FileBacked, file, offset + (x - r.value)))
                  else At(old(areas.intervals), x)
      ensures r.Ok? ==>
                forall x: nat ::
                  host.prot(x) ==
                  if r.value <= x < r.value + PageAlign(len) then prot else old(host.prot)(x)
      ensures r.Ok? && fixed ==> r.value == addr
      // Without MAP_FIXED no existing mapping is replaced, and it fails only
      // for lack of room, as long as no mapping lies above the map's range.
      ensures r.Ok? && !fixed && AllBelow(old(areas.intervals), mmEnd) ==>
                Fitting(old(areas.intervals), r.value, PageAlign(len), mmEnd, brk)
      ensures r == Err(ENOMEM) && AllBelow(old(areas.intervals), mmEnd) ==>
                !hostOk || (!fixed && forall a: nat :: !Fitting(old(areas.intervals), a, PageAlign(len), mmEnd, brk))
      ensures r.Err? ==> r.error == EINVAL || r.error == EBADF || r.error == ENOMEM
      ensures MaximallyMerged(old(areas.intervals)) ==> MaximallyMerged(areas.intervals)
    {
      hide At, Safe, Full, MapStep, PageAlign, IsPageAligned, FreeRange, ScanSafe, IsBestFit, MapArea, Valid, MaximallyMerged;
      AlignedMeans(addr);
      if !AddressValid(addr, len) {
        return Err(EINVAL);
      }
      var size := PageAlign(len);
      var at := addr;
      PageAlignFacts(len, len);
      AlignedRange(addr, len);
      if !fixed {
        var found := areas.FindFreeRange(size, mmEnd, brk);
        ScanMeans(areas.intervals, size, mmEnd, brk, found);
        if found.Err? {
          return Err(found.error);
        }
        at := found.value;
      }
      if !anonymous && file.None? {
        return Err(EBADF);
      }
      if !hostOk || at + size >= WORD {
        return Err(ENOMEM);
      }
      PlaceMapping(at, size, prot, anonymous, isStack, file, offset);
      return Ok(at);
    }

    method PlaceMapping(at: nat, size: nat, prot: set<Perm>, anonymous: bool, isStack: bool, file: Option<nat>, offset: int)
      requires Consistent() && 0 < size && at + size < WORD && IsPageAligned(at) && IsPageAligned(at + size)
      requires anonymous || file.Some?
      modifies this, areas, host
      ensures Consistent() && tracer == old(tracer) && brk == old(brk)
      ensures old(Inv(Abs())) ==> Inv(Abs())
      ensures MapStep(old(Abs()), Abs(), MapArea(at, size, prot, isStack, if anonymous then None else file, offset))
      ensures forall x: nat ::
                At(areas.intervals, x) ==
                if at <= x < at + size then
                  Some(if anonymous then Attr(prot, false, if isStack then Stack else Normal, None, 0)
                       else Attr(prot, false, FileBacked, file, offset + (x - at)))
                else At(old(areas.intervals), x)
      ensures forall x: nat :: host.prot(x) == if at <= x < at + size then prot else old(host.prot)(x)
      ensures MaximallyMerged(old(areas.intervals)) ==> MaximallyMerged(areas.intervals)
    {
      hide At, Safe, Full, MapStep, PageAlign, IsPageAligned;
      ghost var s := Abs();
      Place(MapArea(at, size, prot, isStack, if anonymous then None else file, offset));
      MapMeans(s, Abs(), at, size, prot, isStack, if anonymous then None else file, offset);
      assert forall x: nat :: Abs().areas(x) == At(areas.intervals, x);
    }
  }

  // What mmap makes of the scan's answer.
  lemma ScanMeans(m: AreaMap, size: nat, upper: nat, lower: nat, r: Result<nat, Errno>)
    requires Valid(m) && AllPageAligned(m) && 0 < size < WORD && upper < WORD && lower < WORD
    requires IsPageAligned(size) && IsPageAligned(upper)
    requires AllBelow(m, upper) ==> (IsBestFit(r, m, size, upper, lower) <==> ScanSafe(m, size, upper, lower))
    requires AllBelow(m, upper) && !HoleBelow(m, size, upper) ==> r == ScanResult(Floor(m, upper), size, lower)
    requires exists p: nat :: ScanPoint(m, upper, p) && r == ScanResult(p, size, lower)
    ensures r.Ok? && r.value + size < WORD ==> IsPageAligned(r.value) && IsPageAligned(r.value + size)
    ensures AllBelow(m, upper) && r.Ok? && r.value + size < WORD ==> Fitting(m, r.value, size, upper, lower)
    ensures AllBelow(m, upper) && (r.Err? || r.value + size >= WORD) ==>
              forall a: nat :: !Fitting(m, a, size, upper, lower)
  {
    hide IsBestFit, ScanSafe, Fitting, HoleBelow, IsPageAligned, Floor;
    var p: nat :| ScanPoint(m, upper, p) && r == ScanResult(p, size, lower);
    if r.Ok? && r.value + size < WORD { ScanAligned(m, size, upper, p); }
    if AllBelow(m, upper) {
      if HoleBelow(m, size, upper) {
        HoleScan(m, size, upper, lower, r);
      } else {
        NoHoleScan(m, size, upper, lower);
      }
    }
  }

  lemma ScanAligned(m: AreaMap, size: nat, upper: nat, p: nat)
    requires AllPageAligned(m) && IsPageAligned(size) && IsPageAligned(upper) && 0 < size < WORD
    requires ScanPoint(m, upper, p) && Sub64(p, size) + size < WORD
    ensures IsPageAligned(Sub64(p, size)) && IsPageAligned(Sub64(p, size) + size)
  {
  }

  lemma HoleScan(m: AreaMap, size: nat, upper: nat, lower: nat, r: Result<nat, Errno>)
    requires AllBelow(m, upper) && HoleBelow(m, size, upper) && 0 < size && upper < WORD
    requires IsBestFit(r, m, size, upper, lower) <==> ScanSafe(m, size, upper, lower)
    ensures r.Ok? ==> Fitting(m, r.value, size, upper, lower) && r.value + size < WORD
    ensures r.Err? ==> forall a: nat :: !Fitting(m, a, size, upper, lower)
  {
    assert ScanSafe(m, size, upper, lower);
  }

  lemma NoHoleScan(m: AreaMap, size: nat, upper: nat, lower: nat)
    requires Valid(m) && AllBelow(m, upper) && !HoleBelow(m, size, upper) && 0 < size < WORD && upper < WORD
    ensures forall a: nat :: !Fitting(m, a, size, upper, lower)
    ensures Floor(m, upper) < size
  {
    forall a: nat ensures !Fitting(m, a, size, upper, lower) {
      assert !Fitting(m, a, size, upper, 0);
    }
    assert size <= Floor(m, upper) ==> Fitting(m, Floor(m, upper) - size, size, upper, 0);
  }

  function HeapArea(start: nat, end: nat): VMArea {
    VMArea(start, end, {Read, Write}, false, Heap, None, 0)
  }

  // The first area that ends above the break leaves the new pages free.
  ghost predicate BreakMoves(m: AreaMap, brk: nat, newbrk: nat) {
    var above := UpperBound(m, brk);
    above.Some? ==> PageAlign(newbrk) <= m[above.value].start
  }

  // The break moves to another page exactly when no area ends above it and
  // starts below the new end. A heap whose last page is mapped ends above a
  // break that is not page-aligned, so such a break never leaves its page upwards.
  lemma BreakMovesExactly(m: AreaMap, brk: nat, newbrk: nat)
    requires Valid(m) && AllPageAligned(m)
    ensures BreakMoves(m, brk, newbrk) <==> forall k | k in m :: k <= brk || PageAlign(newbrk) <= m[k].start
    ensures At(m, brk).Some? && brk < newbrk && PageAlign(brk) < PageAlign(newbrk) ==> !BreakMoves(m, brk, newbrk)
  {
    var above := UpperBound(m, brk);
    if above.Some? {
      forall k | k in m && above.value < k ensures above.value <= m[k].start { }
    }
    if At(m, brk).Some? {
      var k :| k in m && m[k].Covers(brk);
      assert m[k].start <= brk;
    }
  }

  // A one-page heap with its break in the middle of the page cannot grow.
  lemma UnalignedBreakIsStuck()
    ensures var m: AreaMap := map[0x11000 := HeapArea(0x10000, 0x11000)];
            Canonical(m) && AllPageAligned(m) && !BreakMoves(m, 0x10064, 0x12000)
  {
    var m: AreaMap := map[0x11000 := HeapArea(0x10000, 0x11000)];
    assert m[0x11000].Covers(0x10064);
    BreakMovesExactly(m, 0x10064, 0x12000);
  }

  lemma EnableFinish(m: AreaMap, s: State, t: State, done: nat)
    requires Valid(m) && HostDroppedUpTo(m, s.host, t.host, done) && forall k | k in m :: k <= done
    requires forall x: nat :: s.areas(x) == At(m, x) && t.areas(x) == At(AllTraced(m), x)
    requires t.trace == Some(Trace(map[], {}))
    ensures EnableStep(s, t)
  {
    AllTracedMeaning(m);
    MappedBelow(m, done);
  }

  lemma RseqRange(ptr: nat, len: nat)
    ensures IsPageAligned(PageAlignDown(ptr)) && IsPageAligned(PageAlign(ptr + len))
  {
  }

  lemma EmptySafe(s: State)
    requires (forall x: nat :: s.areas(x).None?) && s.trace.None?
    ensures Inv(s)
  {
  }

  lemma FaultHandled(s: State, t: State, m: AreaMap, addr: nat, perm: Perm, time: int)
    requires Safe(s) && FaultStep(s, t, addr, perm, time) && forall x: nat :: t.areas(x) == At(m, x)
    ensures Safe(t) && (Inv(s) ==> (Inv(t) <==> FaultFits(s, addr, perm)))
    ensures forall x: nat | PageAlignDown(x) == PageAlignDown(addr) ::
              && perm in t.host(x) && At(m, x).Some?
              && (forall p | p in At(m, x).value.prot && p != Write :: p in t.host(x))
              && (Write in t.host(x) <==> perm == Write)
  {
    hide At, SafeAt, FullAt, FaultFits;
    FaultKeeps(s, t, addr, perm, time);
    FaultGrants(s, t, addr, perm, time);
    if Inv(s) { FaultExact(s, t, addr, perm, time); }
  }

  lemma PageOnly(page: nat, addr: nat)
    requires page == PageAlignDown(addr)
    ensures forall x: nat :: page <= x < page + PAGE_SIZE <==> PageAlignDown(x) == page
  {
  }

  // EndTracing's range covers every area.
  lemma EndWholeMap(m: AreaMap, s: State, t: State)
    requires Valid(m) && (forall k | k in m :: k < WORD)
    requires s.trace.Some? && t.trace == None
    requires forall x: nat :: s.areas(x) == At(m, x)
    requires forall x: nat :: t.areas(x) == EditedAt(m, EndTrace, 0, WORD - 1, WORD - 1, x)
    requires HostEditedUpTo(m, EndTrace, s.host, t.host, 0, WORD - 1, WORD - 1)
    ensures EndStep(s, t)
  {
    MappedBelow(m, WORD - 1);
  }

  lemma SameOnPage(s: State, m: AreaMap, addr: nat)
    requires Safe(s) && forall x: nat :: s.areas(x) == At(m, x)
    ensures var a, b := At(m, addr), At(m, PageAlignDown(addr));
            (a.Some? <==> b.Some?) && (a.Some? ==> a.value == b.value.(pos := a.value.pos))
  {
    assert SamePageAttrs(s, addr);
  }

  // Recording a hit without changing the host keeps the invariant.
  lemma HitKeeps(s: State, t: State, page: nat, time: int, perm: Perm)
    requires Safe(s) && s.trace.Some? && t.trace == Some(Hit(s.trace.value, page, time, perm))
    requires forall x: nat :: t.areas(x) == s.areas(x) && t.host(x) == s.host(x)
    ensures Safe(t) && (Inv(s) ==> Inv(t))
  {
    forall x: nat ensures SamePageAttrs(t, x) { assert SamePageAttrs(s, x); }
    forall x: nat | t.areas(x).Some? ensures SafeAt(t, x) && (FullAt(s, x) ==> FullAt(t, x)) { assert SafeAt(s, x); }
  }

  lemma EnableMeans(s: State, t: State)
    requires Safe(s) && EnableStep(s, t)
    ensures forall x: nat ::
              if s.areas(x).None? then t.areas(x).None?
              else t.areas(x) == Some(s.areas(x).value.(traced := true)) && t.host(x) == {}
  {
    forall x: nat | s.areas(x).Some? ensures t.host(x) == {} { assert SafeAt(s, x); }
  }

  lemma AlignedMeans(x: nat)
    ensures IsPageAligned(x) <==> x % 4096 == 0
  {
  }

  lemma ProtectMeans(s: State, t: State, a: nat, b: nat, p: set<Perm>)
    requires ProtectStep(s, t, a, b, p)
    ensures forall x: nat :: t.areas(x) ==
              if a <= x < b && s.areas(x).Some? then Some(s.areas(x).value.(prot := p)) else s.areas(x)
    ensures forall x: nat ::
              t.host(x) ==
              if !(a <= x < b) || (s.trace.Some? && s.areas(x).None?) then s.host(x)
              else if s.trace.None? then p
              else if !s.areas(x).value.traced then (if s.areas(x).value.prot == p then s.host(x) else p)
              else if s.areas(x).value.prot <= p then s.host(x) else {}
  {
  }

  lemma UnmapMeans(s: State, t: State, a: nat, b: nat)
    requires UnmapStep(s, t, a, b)
    ensures forall x: nat :: t.areas(x) == if a <= x < b then None else s.areas(x)
  {
  }

  lemma HeapMeans(s: State, t: State, a: nat, b: nat)
    requires MapStep(s, t, HeapArea(a, b))
    ensures forall x: nat :: t.areas(x) ==
              if a <= x < b then Some(Attr({Read, Write}, false, Heap, None, 0)) else s.areas(x)
  {
  }

  lemma MapMeans(s: State, t: State, a: nat, size: nat, prot: set<Perm>, isStack: bool, file: Option<nat>, offset: int)
    requires MapStep(s, t, MapArea(a, size, prot, isStack, file, offset))
    ensures forall x: nat :: t.areas(x) ==
              if !(a <= x < a + size) then s.areas(x)
              else if file.None? then Some(Attr(prot, false, if isStack then Stack else Normal, None, 0))
              else Some(Attr(prot, false, FileBacked, file, offset + (x - a)))
    ensures forall x: nat :: t.host(x) == if a <= x < a + size then prot else s.host(x)
  {
  }

  // The range of a call ends at the least page boundary that holds it.
  lemma RangeEndLeast(addr: nat, len: nat, y: nat)
    ensures IsPageAligned(MemoryMap.RangeEnd(addr, len)) && addr + len <= MemoryMap.RangeEnd(addr, len)
    ensures IsPageAligned(y) && addr + len <= y ==> MemoryMap.RangeEnd(addr, len) <= y
  {
    PageAlignFacts(addr + len, y);
  }

  function MapArea(addr: nat, size: nat, prot: set<Perm>, isStack: bool, file: Option<nat>, offset: int): VMArea {
    match file
    case Some(f) => VMArea(addr, addr + size, prot, false, FileBacked, Some(f), offset)
    case None => VMArea(addr, addr + size, prot, false, if isStack then Stack else Normal, None, offset)
  }
}
