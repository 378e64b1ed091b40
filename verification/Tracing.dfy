// The page-access tracing protocol of MemoryMap (junction/kernel/mm.cc), on
// address maps: what each operation does to every address, and what holds in
// every run of them.
module Tracing {
  import opened Common
  import opened Areas
  import opened Edits

  // PageAccessTracer: earliest access per page, and the pages written.
  datatype Trace = Trace(access: map<nat, int>, writes: set<nat>)

  datatype State = State(areas: nat -> Option<Attr>, host: nat -> set<Perm>, trace: Option<Trace>)

  // --- What the protocol keeps ---

  ghost predicate SamePageAttrs(s: State, x: nat) {
    var a, b := s.areas(x), s.areas(PageAlignDown(x));
    (a.Some? <==> b.Some?) && (a.Some? ==> a.value == b.value.(pos := a.value.pos))
  }

  // An address of a mapping has no more rights in the host than in the map; a
  // traced one that is accessible was recorded, and recorded as written if it
  // is writable.
  ghost predicate SafeAt(s: State, x: nat)
    requires s.areas(x).Some?
  {
    var a, page := s.areas(x).value, PageAlignDown(x);
    && s.host(x) <= a.prot
    && (a.traced ==> s.trace.Some?)
    && (a.traced && s.host(x) != {} ==> page in s.trace.value.access)
    && (a.traced && Write in s.host(x) ==> page in s.trace.value.writes)
  }

  // An untraced address has exactly its rights.
  ghost predicate FullAt(s: State, x: nat)
    requires s.areas(x).Some?
  {
    !s.areas(x).value.traced ==> s.host(x) == s.areas(x).value.prot
  }

  // What every run keeps.
  ghost predicate Safe(s: State) {
    && (forall x: nat :: SamePageAttrs(s, x))
    && (forall x: nat | s.areas(x).Some? :: SafeAt(s, x))
    && (s.trace.Some? ==> s.trace.value.writes <= s.trace.value.access.Keys)
  }

  ghost predicate Full(s: State) {
    forall x: nat | s.areas(x).Some? :: FullAt(s, x)
  }

  // What every orderly run keeps.
  ghost predicate Inv(s: State) {
    Safe(s) && Full(s)
  }

  // --- Steps ---

  function Hit(t: Trace, page: nat, time: int, perm: Perm): Trace {
    var access := if page in t.access then t.access[page := Min(t.access[page], time)] else t.access[page := time];
    Trace(access, if perm == Write then t.writes + {page} else t.writes)
  }

  // EnableTracing up to its treatment of rseq areas: a fresh trace, and no
  // host access to any mapping.
  ghost predicate EnableStep(s: State, t: State) {
    && t.trace == Some(Trace(map[], {}))
    && (forall x: nat :: t.areas(x) == if s.areas(x).Some? then Some(s.areas(x).value.(traced := true)) else None)
    && (forall x: nat :: t.host(x) == if s.areas(x).Some? && s.areas(x).value.prot != {} then {} else s.host(x))
  }

  // MemoryMap::RecordHit on the pages in [a, b).
  function HitPages(t: Trace, a: nat, b: nat, time: int): Trace
    decreases b - a
  {
    if a >= b then t else HitPages(Hit(t, a, time, Write), a + 4096, b, time)
  }

  // EnableTracing on the pages [a, b) of a thread's rseq area.
  ghost predicate RseqStep(s: State, t: State, a: nat, b: nat, time: int) {
    && IsPageAligned(a) && IsPageAligned(b) && s.trace.Some? && t.trace == Some(HitPages(s.trace.value, a, b, time))
    && (forall x: nat :: t.areas(x) == s.areas(x))
    && (forall x: nat :: t.host(x) == if a <= x < b then {Read, Write} else s.host(x))
  }

  // HandlePageFault when it handles the fault: `perm` is what the access
  // needed when it faulted. The handler does not look at what the host grants
  // by now.
  ghost predicate FaultStep(s: State, t: State, addr: nat, perm: Perm, time: int) {
    var page := PageAlignDown(addr);
    && s.areas(page).Some? && perm in s.areas(page).value.prot && s.trace.Some?
    && t.trace == Some(Hit(s.trace.value, page, time, perm))
    && (forall x: nat :: t.areas(x) == s.areas(x))
    && (forall x: nat :: t.host(x) ==
                         if PageAlignDown(x) != page then s.host(x)
                         else if perm == Write then s.areas(page).value.prot
                         else s.areas(page).value.prot - {Write})
  }

  // mprotect: the host call first when no tracer is attached, then the edit.
  ghost predicate ProtectStep(s: State, t: State, a: nat, b: nat, p: set<Perm>) {
    var e := SetProt(p, s.trace.Some?);
    && IsPageAligned(a) && IsPageAligned(b) && t.trace == s.trace
    && (forall x: nat :: t.areas(x) == if a <= x < b && s.areas(x).Some? then Some(e.AttrAfter(s.areas(x).value)) else s.areas(x))
    && (forall x: nat :: t.host(x) ==
                         if !(a <= x < b) then s.host(x)
                         else if s.trace.None? then p
                         else if s.areas(x).Some? then e.HostAfter(s.areas(x).value, s.host(x))
                         else s.host(x))
  }

  // mmap and the growing half of brk.
  ghost predicate MapStep(s: State, t: State, area: VMArea) {
    && IsPageAligned(area.start) && IsPageAligned(area.end) && !area.traced && t.trace == s.trace
    && (forall x: nat :: t.areas(x) == if area.Covers(x) then Some(area.AttrAt(x)) else s.areas(x))
    && (forall x: nat :: t.host(x) == if area.Covers(x) then area.prot else s.host(x))
  }

  // munmap and the shrinking half of brk.
  ghost predicate UnmapStep(s: State, t: State, a: nat, b: nat) {
    && IsPageAligned(a) && IsPageAligned(b) && t.trace == s.trace
    && (forall x: nat :: t.areas(x) == if a <= x < b then None else s.areas(x))
    && (forall x: nat :: t.host(x) == if a <= x < b then {} else s.host(x))
  }

  ghost predicate EndStep(s: State, t: State) {
    && s.trace.Some? && t.trace == None
    && (forall x: nat :: t.areas(x) == if s.areas(x).Some? then Some(EndTrace.AttrAfter(s.areas(x).value)) else None)
    && (forall x: nat :: t.host(x) == if s.areas(x).Some? then EndTrace.HostAfter(s.areas(x).value, s.host(x)) else s.host(x))
  }

  datatype Op = Enable
              | Rseq(ra: nat, rb: nat, rtime: int)
              | Fault(addr: nat, perm: Perm, ftime: int)
              | Protect(a: nat, b: nat, p: set<Perm>)
              | Map(area: VMArea)
              | Unmap(ua: nat, ub: nat)
              | End

  ghost predicate Step(s: State, op: Op, t: State) {
    match op
    case Enable => EnableStep(s, t)
    case Rseq(a, b, time) => RseqStep(s, t, a, b, time)
    case Fault(addr, perm, time) => FaultStep(s, t, addr, perm, time)
    case Protect(a, b, p) => ProtectStep(s, t, a, b, p)
    case Map(area) => MapStep(s, t, area)
    case Unmap(a, b) => UnmapStep(s, t, a, b)
    case End => EndStep(s, t)
  }

  // The rseq pages are readable and writable wherever they are mapped ...
  ghost predicate RseqSafe(s: State, a: nat, b: nat) {
    forall x: nat | a <= x < b && s.areas(x).Some? :: {Read, Write} <= s.areas(x).value.prot
  }

  // ... and no more than that where they are untraced.
  ghost predicate RseqFits(s: State, a: nat, b: nat) {
    && RseqSafe(s, a, b)
    && forall x: nat | a <= x < b && s.areas(x).Some? && !s.areas(x).value.traced ::
         s.areas(x).value.prot == {Read, Write}
  }

  // A fault handled on an untraced page must not take write rights away.
  ghost predicate FaultFits(s: State, addr: nat, perm: Perm)
    requires s.areas(PageAlignDown(addr)).Some?
  {
    var a := s.areas(PageAlignDown(addr)).value;
    a.traced || perm == Write || Write !in a.prot
  }

  ghost predicate SafeOp(s: State, op: Op) {
    op.Rseq? ==> RseqSafe(s, op.ra, op.rb)
  }

  ghost predicate Orderly(s: State, op: Op) {
    && (op.Rseq? ==> RseqFits(s, op.ra, op.rb))
    && (op.Fault? && s.areas(PageAlignDown(op.addr)).Some? ==> FaultFits(s, op.addr, op.perm))
  }

  ghost predicate Run(states: seq<State>, ops: seq<Op>) {
    && |states| == |ops| + 1
    && forall i | 0 <= i < |ops| :: Step(states[i], ops[i], states[i + 1])
  }

  // --- Every step keeps the invariant ---

  lemma PageBounds(x: nat)
    ensures PageAlignDown(x) <= x < PageAlignDown(x) + 4096 && PageAlignDown(PageAlignDown(x)) == PageAlignDown(x)
  {
  }

  // An aligned range contains an address exactly when it contains its page.
  lemma PageInRange(a: nat, b: nat, x: nat)
    requires IsPageAligned(a) && IsPageAligned(b)
    ensures a <= x < b <==> a <= PageAlignDown(x) < b
  {
  }

  // Enabling repairs whatever was wrong with untraced pages.
  lemma EnableKeeps(s: State, t: State)
    requires Safe(s) && EnableStep(s, t)
    ensures Inv(t)
  {
    forall x: nat ensures SamePageAttrs(t, x) { assert SamePageAttrs(s, x); }
    forall x: nat | t.areas(x).Some? ensures SafeAt(t, x) { assert SafeAt(s, x); }
  }

  lemma {:induction false} HitPagesAre(t: Trace, a: nat, b: nat, time: int)
    requires IsPageAligned(a) && IsPageAligned(b) && t.writes <= t.access.Keys
    ensures var u := HitPages(t, a, b, time);
            && t.access.Keys <= u.access.Keys && t.writes <= u.writes <= u.access.Keys
            && forall p: nat | IsPageAligned(p) && a <= p < b :: p in u.access && p in u.writes
    decreases b - a
  {
    if a < b {
      var u := Hit(t, a, time, Write);
      assert u.writes <= u.access.Keys;
      HitPagesAre(u, a + 4096, b, time);
      forall p: nat | IsPageAligned(p) && a < p ensures a + 4096 <= p { NextPage(a, p); }
    }
  }

  lemma NextPage(a: nat, p: nat)
    requires IsPageAligned(a) && IsPageAligned(p) && a < p
    ensures a + 4096 <= p
  {
  }

  lemma RseqAt(s: State, t: State, a: nat, b: nat, time: int, x: nat)
    requires Safe(s) && RseqStep(s, t, a, b, time) && s.areas(x).Some?
    ensures SafeAt(t, x) <==> (a <= x < b ==> {Read, Write} <= s.areas(x).value.prot)
  {
    assert SafeAt(s, x);
    HitPagesAre(s.trace.value, a, b, time);
    PageInRange(a, b, x);
    assert IsPageAligned(PageAlignDown(x));
  }

  // The rseq step does not look at the map; these are the exact conditions
  // under which it keeps what the protocol keeps.
  lemma RseqExact(s: State, t: State, a: nat, b: nat, time: int)
    requires Safe(s) && RseqStep(s, t, a, b, time)
    ensures Safe(t) <==> RseqSafe(s, a, b)
    ensures Inv(s) ==> (Inv(t) <==> RseqFits(s, a, b))
  {
    hide SafeAt, SamePageAttrs;
    RseqSamePages(s, t, a, b, time);
    HitPagesAre(s.trace.value, a, b, time);
    forall x: nat | s.areas(x).Some?
      ensures SafeAt(t, x) <==> (a <= x < b ==> {Read, Write} <= s.areas(x).value.prot)
    {
      RseqAt(s, t, a, b, time, x);
    }
    assert Safe(t) <==> RseqSafe(s, a, b);
    if Inv(s) {
      forall x: nat | s.areas(x).Some?
        ensures FullAt(t, x) <==>
                (a <= x < b && !s.areas(x).value.traced ==> s.areas(x).value.prot == {Read, Write})
      {
        assert FullAt(s, x);
      }
      RseqFull(s, t, a, b);
    }
  }

  lemma RseqFull(s: State, t: State, a: nat, b: nat)
    requires forall x: nat :: t.areas(x) == s.areas(x)
    requires forall x: nat | s.areas(x).Some? ::
               FullAt(t, x) <==>
               (a <= x < b && !s.areas(x).value.traced ==> s.areas(x).value.prot == {Read, Write})
    ensures Full(t) <==> forall x: nat | a <= x < b && s.areas(x).Some? && !s.areas(x).value.traced ::
              s.areas(x).value.prot == {Read, Write}
  {
  }

  lemma RseqSamePages(s: State, t: State, a: nat, b: nat, time: int)
    requires Safe(s) && RseqStep(s, t, a, b, time)
    ensures forall x: nat :: SamePageAttrs(t, x)
  {
    forall x: nat ensures SamePageAttrs(t, x) { assert SamePageAttrs(s, x); }
  }

  // A handled fault grants the access on the whole page, with all other rights
  // of the mapping except that only a write fault grants writing.
  lemma FaultGrants(s: State, t: State, addr: nat, perm: Perm, time: int)
    requires (forall x: nat :: SamePageAttrs(s, x)) && FaultStep(s, t, addr, perm, time)
    ensures forall x: nat | PageAlignDown(x) == PageAlignDown(addr) ::
              && perm in t.host(x) && t.areas(x).Some?
              && (forall p | p in t.areas(x).value.prot && p != Write :: p in t.host(x))
              && (Write in t.host(x) <==> perm == Write)
              && t.host(x) <= t.areas(x).value.prot
    ensures forall x: nat | PageAlignDown(x) != PageAlignDown(addr) :: t.host(x) == s.host(x)
    ensures PageAlignDown(addr) in t.trace.value.access && t.trace.value.access[PageAlignDown(addr)] <= time
    ensures perm == Write ==> PageAlignDown(addr) in t.trace.value.writes
  {
    forall x: nat | PageAlignDown(x) == PageAlignDown(addr)
      ensures t.areas(x).Some? && t.areas(x).value.prot == s.areas(PageAlignDown(addr)).value.prot
    {
      assert SamePageAttrs(s, x);
    }
  }

  // A fault handled at any time, also after another thread has changed the
  // page, grants nothing unrecorded.
  lemma FaultKeeps(s: State, t: State, addr: nat, perm: Perm, time: int)
    requires Safe(s) && FaultStep(s, t, addr, perm, time)
    ensures Safe(t)
  {
    forall x: nat ensures SamePageAttrs(t, x) { assert SamePageAttrs(s, x); }
    forall x: nat | t.areas(x).Some? ensures SafeAt(t, x) {
      assert SafeAt(s, x);
      assert SamePageAttrs(s, x);
    }
  }

  // Whether untraced pages keep exactly their rights.
  lemma FaultExact(s: State, t: State, addr: nat, perm: Perm, time: int)
    requires Inv(s) && FaultStep(s, t, addr, perm, time)
    ensures Inv(t) <==> FaultFits(s, addr, perm)
  {
    hide SafeAt;
    FaultKeeps(s, t, addr, perm, time);
    var page := PageAlignDown(addr);
    PageBounds(addr);
    forall x: nat | t.areas(x).Some? ensures FullAt(t, x) <==> (PageAlignDown(x) == page ==> FaultFits(s, addr, perm)) {
      assert FullAt(s, x);
      assert SamePageAttrs(s, x);
    }
    assert FullAt(t, page) <==> FaultFits(s, addr, perm);
  }

  // A fault handled in time is on a traced page, since an untraced one would
  // not have faulted.
  lemma TimelyFaultFits(s: State, addr: nat, perm: Perm)
    requires Inv(s) && s.areas(PageAlignDown(addr)).Some? && perm in s.areas(PageAlignDown(addr)).value.prot
    requires perm !in s.host(addr)
    ensures FaultFits(s, addr, perm)
  {
    assert SamePageAttrs(s, addr);
    assert FullAt(s, addr);
  }

  lemma ProtectKeeps(s: State, t: State, a: nat, b: nat, p: set<Perm>)
    requires Safe(s) && ProtectStep(s, t, a, b, p)
    ensures Safe(t) && (Inv(s) ==> Inv(t))
  {
    forall x: nat ensures SamePageAttrs(t, x) {
      assert SamePageAttrs(s, x);
      PageInRange(a, b, x);
    }
    forall x: nat | t.areas(x).Some? ensures SafeAt(t, x) && (FullAt(s, x) ==> FullAt(t, x)) { assert SafeAt(s, x); }
  }

  lemma MapKeeps(s: State, t: State, area: VMArea)
    requires Safe(s) && MapStep(s, t, area)
    ensures Safe(t) && (Inv(s) ==> Inv(t))
  {
    forall x: nat ensures SamePageAttrs(t, x) {
      assert SamePageAttrs(s, x);
      PageInRange(area.start, area.end, x);
    }
    forall x: nat | t.areas(x).Some?
      ensures SafeAt(t, x) && (area.Covers(x) || FullAt(s, x) ==> FullAt(t, x))
    {
      if !area.Covers(x) { assert SafeAt(s, x); }
    }
  }

  lemma UnmapKeeps(s: State, t: State, a: nat, b: nat)
    requires Safe(s) && UnmapStep(s, t, a, b)
    ensures Safe(t) && (Inv(s) ==> Inv(t))
  {
    forall x: nat ensures SamePageAttrs(t, x) {
      assert SamePageAttrs(s, x);
      PageInRange(a, b, x);
    }
    forall x: nat | t.areas(x).Some? ensures SafeAt(t, x) && (FullAt(s, x) ==> FullAt(t, x)) { assert SafeAt(s, x); }
  }

  // Ending the trace leaves no mapping traced, and gives every mapping its full
  // rights back exactly when the untraced ones had theirs.
  lemma EndRestores(s: State, t: State)
    requires Safe(s) && EndStep(s, t)
    ensures Safe(t) && forall x: nat | t.areas(x).Some? :: !t.areas(x).value.traced
    ensures (forall x: nat | t.areas(x).Some? :: t.host(x) == t.areas(x).value.prot) <==> Full(s)
    ensures Inv(s) ==> Inv(t)
  {
    forall x: nat ensures SamePageAttrs(t, x) { assert SamePageAttrs(s, x); }
    forall x: nat | t.areas(x).Some?
      ensures SafeAt(t, x) && !t.areas(x).value.traced
      ensures t.host(x) == t.areas(x).value.prot <==> FullAt(s, x)
    {
      assert SafeAt(s, x);
    }
  }

  lemma StepSafe(s: State, op: Op, t: State)
    requires Safe(s) && Step(s, op, t)
    ensures Safe(t) <==> SafeOp(s, op)
  {
    hide Safe, Full, RseqSafe;
    match op
    case Enable => EnableKeeps(s, t);
    case Rseq(a, b, time) => RseqExact(s, t, a, b, time);
    case Fault(addr, perm, time) => FaultKeeps(s, t, addr, perm, time);
    case Protect(a, b, p) => ProtectKeeps(s, t, a, b, p);
    case Map(area) => MapKeeps(s, t, area);
    case Unmap(a, b) => UnmapKeeps(s, t, a, b);
    case End => EndRestores(s, t);
  }

  // A step keeps the whole invariant if and only if it is orderly.
  lemma StepExact(s: State, op: Op, t: State)
    requires Inv(s) && Step(s, op, t)
    ensures Inv(t) <==> Orderly(s, op)
  {
    hide Safe, Full, RseqFits, FaultFits;
    match op
    case Enable => EnableKeeps(s, t);
    case Rseq(a, b, time) => RseqExact(s, t, a, b, time);
    case Fault(addr, perm, time) => FaultExact(s, t, addr, perm, time);
    case Protect(a, b, p) => ProtectKeeps(s, t, a, b, p);
    case Map(area) => MapKeeps(s, t, area);
    case Unmap(a, b) => UnmapKeeps(s, t, a, b);
    case End => EndRestores(s, t);
  }

  // --- Whole runs ---

  // In every run, late faults included: every state is safe if and only if
  // rseq areas are only where the mappings allow them.
  lemma RunSafe(states: seq<State>, ops: seq<Op>)
    requires Run(states, ops) && Safe(states[0])
    ensures (forall i | 0 <= i < |states| :: Safe(states[i])) <==> forall i | 0 <= i < |ops| :: SafeOp(states[i], ops[i])
  {
    hide Safe, SafeOp;
    if forall i | 0 <= i < |states| :: Safe(states[i]) {
      forall i | 0 <= i < |ops| ensures SafeOp(states[i], ops[i]) {
        StepSafe(states[i], ops[i], states[i + 1]);
        assert Safe(states[i + 1]);
      }
    } else if forall i | 0 <= i < |ops| :: SafeOp(states[i], ops[i]) {
      forall i | 0 <= i < |states| ensures Safe(states[i]) { SafeRun(states, ops, i); }
    }
  }

  lemma {:induction false} SafeRun(states: seq<State>, ops: seq<Op>, i: nat)
    requires Run(states, ops) && Safe(states[0]) && i < |states|
    requires forall j | 0 <= j < |ops| :: SafeOp(states[j], ops[j])
    ensures Safe(states[i])
    decreases i
  {
    if i > 0 {
      SafeRun(states, ops, i - 1);
      StepSafe(states[i - 1], ops[i - 1], states[i]);
    }
  }

  // What the host permits was recorded: no traced page can be touched, or
  // written, without the report saying so.
  lemma NoUnrecordedAccess(states: seq<State>, ops: seq<Op>, i: nat, x: nat, perm: Perm)
    requires Run(states, ops) && Safe(states[0]) && i < |states|
    requires forall j | 0 <= j < |ops| :: SafeOp(states[j], ops[j])
    requires states[i].areas(x).Some? && perm in states[i].host(x)
    ensures perm in states[i].areas(x).value.prot
    ensures states[i].areas(x).value.traced ==>
              && states[i].trace.Some? && PageAlignDown(x) in states[i].trace.value.access
              && (perm == Write ==> PageAlignDown(x) in states[i].trace.value.writes)
  {
    SafeRun(states, ops, i);
    assert SafeAt(states[i], x);
  }

  // Untraced pages have exactly their rights throughout a run, so that ending
  // a trace restores all of them, if and only if every step is orderly.
  lemma RunKeeps(states: seq<State>, ops: seq<Op>)
    requires Run(states, ops) && Inv(states[0])
    ensures (forall i | 0 <= i < |states| :: Inv(states[i])) <==> forall i | 0 <= i < |ops| :: Orderly(states[i], ops[i])
  {
    hide Inv, Orderly;
    if forall i | 0 <= i < |states| :: Inv(states[i]) {
      forall i | 0 <= i < |ops| ensures Orderly(states[i], ops[i]) {
        StepExact(states[i], ops[i], states[i + 1]);
        assert Inv(states[i + 1]);
      }
    } else if forall i | 0 <= i < |ops| :: Orderly(states[i], ops[i]) {
      forall i | 0 <= i < |states| ensures Inv(states[i]) { OrderlyRun(states, ops, i); }
    }
  }

  lemma {:induction false} OrderlyRun(states: seq<State>, ops: seq<Op>, i: nat)
    requires Run(states, ops) && Inv(states[0]) && i < |states|
    requires forall j | 0 <= j < |ops| :: Orderly(states[j], ops[j])
    ensures Inv(states[i])
    decreases i
  {
    hide Inv, Orderly;
    if i > 0 {
      OrderlyRun(states, ops, i - 1);
      StepExact(states[i - 1], ops[i - 1], states[i]);
    }
  }

  // --- Failing host calls, which the source only logs ---

  ghost predicate EnableFailing(s: State, t: State, fails: nat -> bool) {
    && t.trace == Some(Trace(map[], {}))
    && (forall x: nat :: t.areas(x) == if s.areas(x).Some? then Some(s.areas(x).value.(traced := true)) else None)
    && (forall x: nat :: t.host(x) ==
                         if s.areas(x).Some? && s.areas(x).value.prot != {} && !fails(x) then {} else s.host(x))
  }

  // Tracing is sound exactly when the calls that failed had no rights to take
  // away.
  lemma EnableFailingExact(s: State, t: State, fails: nat -> bool)
    requires Safe(s) && EnableFailing(s, t, fails)
    ensures Inv(t) <==> forall x: nat | s.areas(x).Some? && fails(x) :: s.host(x) == {}
  {
    forall x: nat ensures SamePageAttrs(t, x) { assert SamePageAttrs(s, x); }
    forall x: nat | t.areas(x).Some? ensures SafeAt(t, x) <==> (fails(x) ==> s.host(x) == {}) {
      assert SafeAt(s, x);
    }
  }

  // mprotect while tracing, with the host calls of TracerModifyProt failing on
  // some addresses.
  ghost predicate ProtectFailing(s: State, t: State, a: nat, b: nat, p: set<Perm>, fails: nat -> bool) {
    var e := SetProt(p, true);
    && IsPageAligned(a) && IsPageAligned(b) && s.trace.Some? && t.trace == s.trace
    && (forall x: nat :: t.areas(x) == if a <= x < b && s.areas(x).Some? then Some(e.AttrAfter(s.areas(x).value)) else s.areas(x))
    && (forall x: nat :: t.host(x) ==
                         if a <= x < b && s.areas(x).Some? && !fails(x) then e.HostAfter(s.areas(x).value, s.host(x))
                         else s.host(x))
  }

  // The host must already have had no more than the new rights where the page
  // is traced, and exactly those where it is not.
  lemma ProtectFailingExact(s: State, t: State, a: nat, b: nat, p: set<Perm>, fails: nat -> bool)
    requires Inv(s) && ProtectFailing(s, t, a, b, p, fails)
    ensures Inv(t) <==> forall x: nat | a <= x < b && s.areas(x).Some? && fails(x) ::
              if s.areas(x).value.traced then s.host(x) <= p else s.host(x) == p
  {
    forall x: nat ensures SamePageAttrs(t, x) {
      assert SamePageAttrs(s, x);
      PageInRange(a, b, x);
    }
    forall x: nat | t.areas(x).Some?
      ensures SafeAt(t, x) && FullAt(t, x) <==>
              (a <= x < b && fails(x) ==> if s.areas(x).value.traced then s.host(x) <= p else s.host(x) == p)
    {
      assert SafeAt(s, x) && FullAt(s, x);
    }
  }

  ghost predicate EndFailing(s: State, t: State, fails: nat -> bool) {
    && s.trace.Some? && t.trace == None
    && (forall x: nat :: t.areas(x) == if s.areas(x).Some? then Some(EndTrace.AttrAfter(s.areas(x).value)) else None)
    && (forall x: nat :: t.host(x) ==
                         if s.areas(x).Some? && !fails(x) then EndTrace.HostAfter(s.areas(x).value, s.host(x))
                         else s.host(x))
  }

  // Ending restores all rights exactly when the traced pages on which the call
  // failed had been given theirs back by faults.
  lemma EndFailingExact(s: State, t: State, fails: nat -> bool)
    requires Inv(s) && EndFailing(s, t, fails)
    ensures Inv(t) <==> forall x: nat | s.areas(x).Some? && fails(x) :: s.host(x) == s.areas(x).value.prot
  {
    forall x: nat ensures SamePageAttrs(t, x) { assert SamePageAttrs(s, x); }
    forall x: nat | t.areas(x).Some?
      ensures SafeAt(t, x) && FullAt(t, x) <==> (fails(x) ==> s.host(x) == s.areas(x).value.prot)
    {
      assert SafeAt(s, x) && FullAt(s, x);
    }
  }

  // --- Examples ---

  // One page at address zero.
  function OnePage(prot: set<Perm>, traced: bool): nat -> Option<Attr> {
    (x: nat) => if x < 4096 then Some(Attr(prot, traced, Normal, None, 0)) else None
  }

  function OneHost(prot: set<Perm>): nat -> set<Perm> {
    (x: nat) => if x < 4096 then prot else {}
  }

  lemma OnePageIs(prot: set<Perm>, traced: bool, host: set<Perm>, trace: Option<Trace>)
    ensures var s := State(OnePage(prot, traced), OneHost(host), trace);
            && (forall x: nat :: SamePageAttrs(s, x))
            && (forall x: nat :: PageAlignDown(x) == 0 <==> x < 4096)
            && (Safe(s) <==> SafeAt(s, 0) && (trace.Some? ==> trace.value.writes <= trace.value.access.Keys))
            && (Full(s) <==> FullAt(s, 0))
  {
    var s := State(OnePage(prot, traced), OneHost(host), trace);
    forall x: nat ensures PageAlignDown(x) == 0 <==> x < 4096 { PageBounds(x); }
    forall x: nat | x < 4096 ensures SafeAt(s, x) == SafeAt(s, 0) && FullAt(s, x) == FullAt(s, 0) { }
    forall x: nat ensures SamePageAttrs(s, x) { PageBounds(x); }
  }

  // A traced page is touched; before the fault is handled another thread maps
  // the page anew. The late read fault takes away write rights that the end of
  // the trace does not give back.
  lemma LateFault() returns (states: seq<State>, ops: seq<Op>)
    ensures Run(states, ops) && Inv(states[0]) && |ops| == 4 && ops[2] == Fault(0, Read, 0) && ops[3] == End
    ensures var t := states[4]; t.trace == None && t.areas(0).Some? && t.host(0) != t.areas(0).value.prot
  {
    var rw: set<Perm> := {Read, Write};
    var empty := Trace(map[], {});
    var s0 := State(OnePage(rw, true), OneHost({}), Some(empty));
    var s1 := State((x: nat) => None, OneHost({}), Some(empty));
    var s2 := State(OnePage(rw, false), OneHost(rw), Some(empty));
    var s3 := State(OnePage(rw, false), OneHost(rw - {Write}), Some(Hit(empty, 0, 0, Read)));
    var s4 := State(OnePage(rw, false), OneHost(rw - {Write}), None);
    var area := VMArea(0, 4096, rw, false, Normal, None, 0);
    assert Write !in s4.host(0) && Write in s4.areas(0).value.prot;
    LateFaultRemap(s0, s1, s2, rw, empty);
    LateFaultEnd(s2, s3, s4, rw, empty);
    states, ops := [s0, s1, s2, s3, s4], [Unmap(0, 4096), Map(area), Fault(0, Read, 0), End];
    assert Run(states, ops) by { hide UnmapStep, MapStep, FaultStep, EndStep; }
  }

  lemma LateFaultRemap(s0: State, s1: State, s2: State, rw: set<Perm>, empty: Trace)
    requires s0 == State(OnePage(rw, true), OneHost({}), Some(empty)) && empty == Trace(map[], {})
    requires s1 == State((x: nat) => None, OneHost({}), Some(empty))
    requires s2 == State(OnePage(rw, false), OneHost(rw), Some(empty))
    ensures Inv(s0) && UnmapStep(s0, s1, 0, 4096)
    ensures MapStep(s1, s2, VMArea(0, 4096, rw, false, Normal, None, 0))
  {
    OnePageIs(rw, true, {}, Some(empty));
  }

  lemma LateFaultEnd(s2: State, s3: State, s4: State, rw: set<Perm>, empty: Trace)
    requires rw == {Read, Write} && s2 == State(OnePage(rw, false), OneHost(rw), Some(empty))
    requires s3 == State(OnePage(rw, false), OneHost(rw - {Write}), Some(Hit(empty, 0, 0, Read)))
    requires s4 == State(OnePage(rw, false), OneHost(rw - {Write}), None)
    ensures FaultStep(s2, s3, 0, Read, 0) && EndStep(s3, s4)
  {
  }

  // An rseq area on a page that is mapped read-only.
  lemma RseqOnReadOnlyPage()
    ensures var trace := Some(Trace(map[], {}));
            var s := State(OnePage({Read}, true), OneHost({}), trace);
            var t := State(OnePage({Read}, true), OneHost({Read, Write}), Some(HitPages(trace.value, 0, 4096, 0)));
            Inv(s) && RseqStep(s, t, 0, 4096, 0) && !Safe(t)
  {
    var trace := Trace(map[], {});
    OnePageIs({Read}, true, {}, Some(trace));
    var s := State(OnePage({Read}, true), OneHost({}), Some(trace));
    var t := State(OnePage({Read}, true), OneHost({Read, Write}), Some(HitPages(trace, 0, 4096, 0)));
    assert RseqStep(s, t, 0, 4096, 0);
    RseqExact(s, t, 0, 4096, 0);
    assert Write !in s.areas(0).value.prot;
  }

  // A readable page that the failed call leaves accessible and unrecorded.
  lemma EnableLosesAccess()
    ensures var s := State(OnePage({Read}, false), OneHost({Read}), None);
            var t := State(OnePage({Read}, true), OneHost({Read}), Some(Trace(map[], {})));
            Inv(s) && EnableFailing(s, t, x => true) && !Safe(t)
  {
    OnePageIs({Read}, false, {Read}, None);
    OnePageIs({Read}, true, {Read}, Some(Trace(map[], {})));
    assert Read in {Read};
  }
}
