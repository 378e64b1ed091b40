// POSIX record locks (junction/fs/advisory_lock.cc, junction/fs/advisory_lock.h),
// without the waiting form of DoSet. A list of byte ranges is read as a table:
// how many locks of a kind a process has on each byte.
module RecordLocks {
  import opened Common

  const MAX_OFF := 0x7FFF_FFFF_FFFF_FFFF

  datatype Kind = ReadLock | WriteLock

  // end is inclusive.
  datatype Lock = Lock(kind: Kind, start: int, end: int, pid: nat) {
    predicate Covers(x: int) {
      start <= x <= end
    }

    predicate Overlaps(lo: int, hi: int) {
      lo <= end && hi >= start
    }

    predicate Conflicts(o: Lock) {
      Overlaps(o.start, o.end) && o.pid != pid && (o.kind != ReadLock || kind != ReadLock)
    }

    predicate WellFormed() {
      0 <= start <= end <= MAX_OFF
    }
  }

  // --- What a list of locks means ---

  function Covering(q: seq<Lock>, p: nat, x: int, k: Kind): nat {
    if q == [] then 0 else One(q[0].pid == p && q[0].kind == k && q[0].Covers(x)) + Covering(q[1..], p, x, k)
  }

  function Total(q: seq<Lock>, p: nat, x: int): nat {
    Covering(q, p, x, ReadLock) + Covering(q, p, x, WriteLock)
  }

  // A process has at most one lock on a byte, and a byte one process has
  // write-locked is locked by no other.
  ghost predicate TableOk(q: seq<Lock>) {
    && (forall i | 0 <= i < |q| :: q[i].WellFormed())
    && (forall p: nat, x: int :: Total(q, p, x) <= 1)
    && (forall p: nat, o: nat, x: int | p != o && Covering(q, p, x, WriteLock) > 0 :: Total(q, o, x) == 0)
  }

  lemma {:induction false} CoveringAppend(q: seq<Lock>, r: seq<Lock>, p: nat, x: int, k: Kind)
    ensures Covering(q + r, p, x, k) == Covering(q, p, x, k) + Covering(r, p, x, k)
  {
    if q == [] {
      assert q + r == r;
    } else {
      CoveringAppend(q[1..], r, p, x, k);
      assert (q + r)[0] == q[0] && (q + r)[1..] == q[1..] + r;
    }
  }

  lemma {:induction false} CoveringAt(q: seq<Lock>, i: nat, x: int)
    requires i < |q| && q[i].Covers(x)
    ensures Covering(q, q[i].pid, x, q[i].kind) > 0
  {
    if i > 0 { CoveringAt(q[1..], i - 1, x); }
  }

  // Ranges of one process do not overlap.
  lemma RangesDisjoint(q: seq<Lock>, i: nat, j: nat)
    requires TableOk(q) && i < j < |q| && q[i].pid == q[j].pid
    ensures !q[i].Overlaps(q[j].start, q[j].end)
  {
    var x := Max(q[i].start, q[j].start);
    if q[i].Overlaps(q[j].start, q[j].end) {
      CoveredTwice(q, i, j, x);
      assert false;
    }
  }

  lemma CoveredTwice(q: seq<Lock>, i: nat, j: nat, x: int)
    requires i < j < |q| && q[i].pid == q[j].pid && q[i].Covers(x) && q[j].Covers(x)
    ensures Total(q, q[i].pid, x) >= 2
  {
    var p := q[i].pid;
    assert q == q[..j] + q[j..];
    CoveringAppend(q[..j], q[j..], p, x, ReadLock);
    CoveringAppend(q[..j], q[j..], p, x, WriteLock);
    assert q[..j][i] == q[i] && q[j..][0] == q[j];
    CoveringAt(q[..j], i, x);
    CoveringAt(q[j..], 0, x);
    match q[i].kind
    case ReadLock => assert q[j].kind == ReadLock || q[j].kind == WriteLock;
    case WriteLock => assert q[j].kind == ReadLock || q[j].kind == WriteLock;
  }

  // --- Clearing a range ---

  // What stays in place of a lock, and the left fragment broken off it.
  function InPlace(l: Lock, lo: int, hi: int, pid: nat): seq<Lock> {
    if l.pid != pid || !l.Overlaps(lo, hi) then [l]
    else if hi < l.end then [l.(start := hi + 1)]
    else []
  }

  function Fragment(l: Lock, lo: int, hi: int, pid: nat): seq<Lock> {
    if l.pid == pid && l.Overlaps(lo, hi) && lo > l.start then [l.(end := lo - 1)] else []
  }

  function Kept(q: seq<Lock>, lo: int, hi: int, pid: nat): seq<Lock> {
    if q == [] then [] else Kept(q[..|q| - 1], lo, hi, pid) + InPlace(q[|q| - 1], lo, hi, pid)
  }

  function Fragments(q: seq<Lock>, lo: int, hi: int, pid: nat): seq<Lock> {
    if q == [] then [] else Fragments(q[..|q| - 1], lo, hi, pid) + Fragment(q[|q| - 1], lo, hi, pid)
  }

  function Cleared(q: seq<Lock>, lo: int, hi: int, pid: nat): seq<Lock> {
    Kept(q, lo, hi, pid) + Fragments(q, lo, hi, pid)
  }

  lemma PiecesCover(l: Lock, lo: int, hi: int, pid: nat, p: nat, x: int, k: Kind)
    requires lo <= hi
    ensures Covering(InPlace(l, lo, hi, pid), p, x, k) + Covering(Fragment(l, lo, hi, pid), p, x, k) ==
            if p == pid && lo <= x <= hi then 0 else Covering([l], p, x, k)
  {
    CoveringOne(l, p, x, k);
    CoveringOne(l.(start := hi + 1), p, x, k);
    CoveringOne(l.(end := lo - 1), p, x, k);
  }

  lemma CoveringOne(l: Lock, p: nat, x: int, k: Kind)
    ensures Covering([l], p, x, k) == One(l.pid == p && l.kind == k && l.Covers(x))
  {
    assert [l][1..] == [];
  }

  // Exactly that process's bytes in the range are cleared.
  lemma {:induction false} ClearedCovers(q: seq<Lock>, lo: int, hi: int, pid: nat, p: nat, x: int, k: Kind)
    requires lo <= hi
    ensures Covering(Cleared(q, lo, hi, pid), p, x, k) ==
            if p == pid && lo <= x <= hi then 0 else Covering(q, p, x, k)
  {
    if q != [] {
      var n := |q| - 1;
      var l, init := q[n], q[..n];
      ClearedCovers(init, lo, hi, pid, p, x, k);
      PiecesCover(l, lo, hi, pid, p, x, k);
      assert q == init + [l];
      CoveringAppend(init, [l], p, x, k);
      CoveringAppend(Kept(init, lo, hi, pid), Fragments(init, lo, hi, pid), p, x, k);
      CoveringAppend(Kept(init, lo, hi, pid), InPlace(l, lo, hi, pid), p, x, k);
      CoveringAppend(Fragments(init, lo, hi, pid), Fragment(l, lo, hi, pid), p, x, k);
      CoveringAppend(Kept(q, lo, hi, pid), Fragments(q, lo, hi, pid), p, x, k);
    }
  }

  lemma {:induction false} ClearedWellFormed(q: seq<Lock>, lo: int, hi: int, pid: nat)
    requires 0 <= lo <= hi <= MAX_OFF && forall i | 0 <= i < |q| :: q[i].WellFormed()
    ensures forall i | 0 <= i < |Kept(q, lo, hi, pid)| :: Kept(q, lo, hi, pid)[i].WellFormed()
    ensures forall i | 0 <= i < |Fragments(q, lo, hi, pid)| :: Fragments(q, lo, hi, pid)[i].WellFormed()
  {
    if q != [] {
      ClearedWellFormed(q[..|q| - 1], lo, hi, pid);
    }
  }

  lemma ClearedOk(q: seq<Lock>, lo: int, hi: int, pid: nat)
    requires TableOk(q) && 0 <= lo <= hi <= MAX_OFF
    ensures TableOk(Cleared(q, lo, hi, pid))
  {
    hide Cleared, Covering;
    var r := Cleared(q, lo, hi, pid);
    assert forall i | 0 <= i < |r| :: r[i].WellFormed() by { ClearedAllWellFormed(q, lo, hi, pid); }
    forall p: nat, x: int, k: Kind
      ensures Covering(r, p, x, k) == if p == pid && lo <= x <= hi then 0 else Covering(q, p, x, k)
    {
      ClearedCovers(q, lo, hi, pid, p, x, k);
    }
    SmallerOk(q, r);
  }

  // Fewer locks on every byte keep the table in order.
  lemma SmallerOk(q: seq<Lock>, r: seq<Lock>)
    requires TableOk(q) && (forall i | 0 <= i < |r| :: r[i].WellFormed())
    requires forall p: nat, x: int, k: Kind :: Covering(r, p, x, k) <= Covering(q, p, x, k)
    ensures TableOk(r)
  {
    forall p: nat, x: int ensures Total(r, p, x) <= Total(q, p, x) {
    }
    forall p: nat, o: nat, x: int | p != o && Covering(r, p, x, WriteLock) > 0 ensures Total(r, o, x) == 0 {
      assert Covering(q, p, x, WriteLock) > 0;
      assert Total(q, o, x) == 0;
    }
  }

  lemma ClearedAllWellFormed(q: seq<Lock>, lo: int, hi: int, pid: nat)
    requires 0 <= lo <= hi <= MAX_OFF && forall i | 0 <= i < |q| :: q[i].WellFormed()
    ensures forall i | 0 <= i < |Cleared(q, lo, hi, pid)| :: Cleared(q, lo, hi, pid)[i].WellFormed()
  {
    ClearedWellFormed(q, lo, hi, pid);
  }

  // --- Setting a lock ---

  ghost predicate AnyConflict(q: seq<Lock>, al: Lock) {
    exists i :: 0 <= i < |q| && q[i].Conflicts(al)
  }

  // Without a conflict, others have at most read locks under a read lock.
  lemma {:induction false} NoConflict(q: seq<Lock>, al: Lock, o: nat, x: int, k: Kind)
    requires !AnyConflict(q, al) && o != al.pid && al.Covers(x) && (al.kind == WriteLock || k == WriteLock)
    ensures Covering(q, o, x, k) == 0
  {
    if q != [] {
      assert !q[0].Conflicts(al);
      forall i | 0 <= i < |q[1..]| ensures !q[1..][i].Conflicts(al) {
        assert q[1..][i] == q[i + 1];
      }
      NoConflict(q[1..], al, o, x, k);
    }
  }

  // The table after a process's bytes in a range get a new lock.
  lemma SetOk(q: seq<Lock>, al: Lock)
    requires TableOk(q) && al.WellFormed() && !AnyConflict(q, al)
    ensures TableOk(Cleared(q, al.start, al.end, al.pid) + [al])
    ensures forall p: nat, x: int, k: Kind :: Covering(Cleared(q, al.start, al.end, al.pid) + [al], p, x, k) ==
              if p == al.pid && al.Covers(x) then One(k == al.kind) else Covering(q, p, x, k)
  {
    hide Cleared, Covering;
    var c := Cleared(q, al.start, al.end, al.pid);
    var r := c + [al];
    ClearedOk(q, al.start, al.end, al.pid);
    forall p: nat, x: int, k: Kind
      ensures Covering(r, p, x, k) == if p == al.pid && al.Covers(x) then One(k == al.kind) else Covering(q, p, x, k)
    {
      ClearedCovers(q, al.start, al.end, al.pid, p, x, k);
      CoveringAppend(c, [al], p, x, k);
      CoveringOne(al, p, x, k);
    }
    AddedOk(q, r, al);
  }

  lemma AddedOk(q: seq<Lock>, r: seq<Lock>, al: Lock)
    requires TableOk(q) && !AnyConflict(q, al) && (forall i | 0 <= i < |r| :: r[i].WellFormed())
    requires forall p: nat, x: int, k: Kind :: Covering(r, p, x, k) ==
               if p == al.pid && al.Covers(x) then One(k == al.kind) else Covering(q, p, x, k)
    ensures TableOk(r)
  {
    hide Covering;
    forall p: nat, x: int ensures Total(r, p, x) <= 1 {
      assert Total(q, p, x) <= 1;
    }
    forall p: nat, o: nat, x: int | p != o && Covering(r, p, x, WriteLock) > 0 ensures Total(r, o, x) == 0 {
      if al.Covers(x) && p == al.pid {
        NoConflict(q, al, o, x, ReadLock);
        NoConflict(q, al, o, x, WriteLock);
      } else if al.Covers(x) && o == al.pid {
        NoConflict(q, al, p, x, WriteLock);
      } else {
        assert Total(q, o, x) == 0;
      }
    }
  }

  // Some byte of the range is locked by another process, for writing, or at
  // all if a write lock is wanted. Any number of processes may read.
  ghost predicate Barred(q: seq<Lock>, kind: Kind, lo: int, hi: int, pid: nat) {
    exists p: nat, x: int :: p != pid && lo <= x <= hi &&
      (Covering(q, p, x, WriteLock) > 0 || (kind == WriteLock && Covering(q, p, x, ReadLock) > 0))
  }

  lemma {:induction false} CoveringWitness(q: seq<Lock>, p: nat, x: int, k: Kind) returns (i: nat)
    requires Covering(q, p, x, k) > 0
    ensures i < |q| && q[i].pid == p && q[i].kind == k && q[i].Covers(x)
  {
    if q[0].pid == p && q[0].kind == k && q[0].Covers(x) {
      i := 0;
    } else {
      i := CoveringWitness(q[1..], p, x, k);
      i := i + 1;
    }
  }

  lemma ConflictMeans(q: seq<Lock>, al: Lock)
    requires TableOk(q) && al.WellFormed()
    ensures AnyConflict(q, al) <==> Barred(q, al.kind, al.start, al.end, al.pid)
  {
    if AnyConflict(q, al) {
      var i :| 0 <= i < |q| && q[i].Conflicts(al);
      var x := Max(q[i].start, al.start);
      assert q[i].WellFormed();
      CoveringAt(q, i, x);
      var p := q[i].pid;
      assert p != al.pid && al.start <= x <= al.end;
      assert Covering(q, p, x, WriteLock) > 0 || (al.kind == WriteLock && Covering(q, p, x, ReadLock) > 0) by {
        match q[i].kind
        case ReadLock =>
        case WriteLock =>
      }
    }
    if Barred(q, al.kind, al.start, al.end, al.pid) {
      var p: nat, x: int :| p != al.pid && al.start <= x <= al.end &&
        (Covering(q, p, x, WriteLock) > 0 || (al.kind == WriteLock && Covering(q, p, x, ReadLock) > 0));
      var k := if Covering(q, p, x, WriteLock) > 0 then WriteLock else ReadLock;
      var i := CoveringWitness(q, p, x, k);
      assert q[i].Conflicts(al);
    }
  }

  // --- struct flock ---

  // Signed 64-bit arithmetic.
  function Wrap(x: int): int {
    (x + 0x8000_0000_0000_0000) % 0x1_0000_0000_0000_0000 - 0x8000_0000_0000_0000
  }

  datatype FlockType = Get(kind: Kind) | Unlock

  // base is what l_whence names: zero, the file offset or the file size, or
  // None for an unknown whence.
  datatype Flock = Flock(typ: FlockType, base: Option<int>, start: int, len: int)

  function RangeOf(fl: Flock): (int, int) {
    var start := if fl.base.Some? then Wrap(fl.start + fl.base.value) else -1;
    (start, if fl.len != 0 then Wrap(Wrap(start + fl.len) - 1) else MAX_OFF)
  }

  predicate RangeValid(r: (int, int)) {
    r.0 >= 0 && r.1 >= r.0
  }

  lemma RangeBounded(fl: Flock)
    ensures RangeOf(fl).1 <= MAX_OFF
  {
  }

  // The range a flock names, for every whence: from base + start on, len bytes
  // or to the end of the file. It is refused unless it lies in [0, MAX_OFF];
  // so are an unknown whence and a negative length, except the one that wraps
  // to the whole file.
  lemma RangeMeans(fl: Flock)
    requires fl.base.Some? ==> 0 <= fl.base.value <= MAX_OFF
    requires -MAX_OFF - 1 <= fl.start <= MAX_OFF && -MAX_OFF - 1 <= fl.len <= MAX_OFF
    ensures fl.base.None? ==> !RangeValid(RangeOf(fl))
    ensures fl.base.Some? ==>
            var s := fl.base.value + fl.start;
            && (RangeValid(RangeOf(fl)) <==>
                  0 <= s <= MAX_OFF && (0 <= fl.len <= MAX_OFF + 1 - s || (s == 0 && fl.len == -MAX_OFF - 1)))
            && (RangeValid(RangeOf(fl)) ==>
                  RangeOf(fl) == (s, if fl.len > 0 then s + fl.len - 1 else MAX_OFF))
  {
  }

  // F_GETLK's answer names the conflicting range, in the arithmetic of the
  // reader above; its length is a positive number unless the range is the
  // whole file, whose length does not fit.
  lemma AnswerExact(l: Lock)
    requires l.WellFormed()
    ensures RangeOf(Flock(Get(l.kind), Some(0), l.start, Wrap(l.end - l.start + 1))) == (l.start, l.end)
    ensures Wrap(l.end - l.start + 1) > 0 <==> !(l.start == 0 && l.end == MAX_OFF)
  {
    WrapSum(l.start, l.end - l.start + 1);
  }

  // A lock on the whole file: the answer's length is the least integer.
  lemma WholeFileAnswer(l: Lock)
    requires l.start == 0 && l.end == MAX_OFF
    ensures l.WellFormed() && Wrap(l.end - l.start + 1) == -0x8000_0000_0000_0000
  {
  }

  lemma WrapSum(a: int, n: int)
    requires 0 <= a <= MAX_OFF && 0 < n && a + n - 1 <= MAX_OFF
    ensures Wrap(a) == a && Wrap(Wrap(a + Wrap(n)) - 1) == a + n - 1 && Wrap(n) != 0
    ensures Wrap(n) > 0 <==> n <= MAX_OFF
  {
  }

  // --- The locks of one inode ---

  class AdvisoryLockContext {
    var holders: seq<Lock>

    constructor ()
      ensures holders == [] && TableOk(holders)
    {
      holders := [];
    }

    method ClearRange(lo: int, hi: int, pid: nat) returns (done: bool)
      requires TableOk(holders) && 0 <= lo <= hi <= MAX_OFF
      modifies this
      ensures holders == Cleared(old(holders), lo, hi, pid) && TableOk(holders)
      ensures done <==> Touched(old(holders), lo, hi, pid)
    {
      hide TableOk, Kept, Fragments, Touched, InPlace, Fragment;
      ClearedOk(holders, lo, hi, pid);
      ghost var q, i := holders, 0;
      done := false;
      var it, newLocks := 0, [];
      NothingCleared(q, lo, hi, pid);
      while it < |holders|
        invariant 0 <= i <= |q| && it == |Kept(q[..i], lo, hi, pid)|
        invariant holders == Kept(q[..i], lo, hi, pid) + q[i..]
        invariant newLocks == Fragments(q[..i], lo, hi, pid)
        invariant done <==> Touched(q[..i], lo, hi, pid)
        decreases |q| - i
      {
        ghost var kept, cur := Kept(q[..i], lo, hi, pid), q[i];
        assert holders[it] == cur && holders[..it] == kept && holders[it + 1..] == q[i + 1..];
        OneMore(q, i, lo, hi, pid);
        var hit, fragment;
        it, hit, fragment := ClearOne(it, lo, hi, pid);
        done := done || hit;
        newLocks := newLocks + fragment;
        i := i + 1;
      }
      assert q[..i] == q;
      holders := holders + newLocks;
    }

    // One holder: break off its left fragment, then truncate or erase it.
    method ClearOne(it: nat, lo: int, hi: int, pid: nat) returns (next: nat, hit: bool, fragment: seq<Lock>)
      requires it < |holders|
      modifies this
      ensures var cur := old(holders)[it];
              && holders == old(holders)[..it] + InPlace(cur, lo, hi, pid) + old(holders)[it + 1..]
              && next == it + |InPlace(cur, lo, hi, pid)| && fragment == Fragment(cur, lo, hi, pid)
              && (hit <==> cur.pid == pid && cur.Overlaps(lo, hi))
    {
      var cur := holders[it];
      hit, fragment := false, [];
      if cur.pid != pid || !cur.Overlaps(lo, hi) {
        return it + 1, false, [];
      }
      hit := true;
      if lo > cur.start {
        fragment := [cur.(end := lo - 1)];
      }
      if hi < cur.end {
        holders := holders[it := cur.(start := hi + 1)];
        next := it + 1;
      } else {
        holders := holders[..it] + holders[it + 1..];
        next := it;
      }
    }

    method AnyConflicts(al: Lock) returns (r: bool)
      ensures r <==> AnyConflict(holders, al)
    {
      var i := 0;
      while i < |holders|
        invariant 0 <= i <= |holders| && forall j | 0 <= j < i :: !holders[j].Conflicts(al)
      {
        if holders[i].Conflicts(al) {
          return true;
        }
        i := i + 1;
      }
      return false;
    }

    // fcntl F_SETLK: afterwards the process's bytes in the range are locked as
    // asked, or unlocked, and nobody else's changed.
    method DoSet(fl: Flock, pid: nat) returns (r: Result<(), Errno>)
      requires TableOk(holders)
      modifies this
      ensures TableOk(holders)
      ensures r == Err(EINVAL) <==> !RangeValid(RangeOf(fl))
      ensures r == Err(EAGAIN) <==> (
                && RangeValid(RangeOf(fl)) && fl.typ.Get?
                && Barred(old(holders), fl.typ.kind, RangeOf(fl).0, RangeOf(fl).1, pid))
      ensures r.Err? ==> holders == old(holders) && (r.error == EINVAL || r.error == EAGAIN)
      ensures r.Ok? ==>
                forall p: nat, x: int, k: Kind ::
                  Covering(holders, p, x, k) ==
                  if p == pid && RangeOf(fl).0 <= x <= RangeOf(fl).1 then One(fl.typ == Get(k))
                  else Covering(old(holders), p, x, k)
    {
      hide Covering, Cleared;
      var range := RangeOf(fl);
      if !RangeValid(range) {
        return Err(EINVAL);
      }
      RangeBounded(fl);
      if fl.typ.Unlock? {
        forall p: nat, x: int, k: Kind
          ensures Covering(Cleared(holders, range.0, range.1, pid), p, x, k) ==
                  if p == pid && range.0 <= x <= range.1 then 0 else Covering(holders, p, x, k)
        {
          ClearedCovers(holders, range.0, range.1, pid, p, x, k);
        }
        var _ := ClearRange(range.0, range.1, pid);
        return Ok(());
      }
      var al := Lock(fl.typ.kind, range.0, range.1, pid);
      ConflictMeans(holders, al);
      var conflict := AnyConflicts(al);
      if conflict {
        return Err(EAGAIN);
      }
      SetOk(holders, al);
      var _ := ClearRange(al.start, al.end, al.pid);
      holders := holders + [al];
      return Ok(());
    }

    // fcntl F_GETLK: the first lock that would conflict, if any.
    method DoGet(fl: Flock, pid: nat) returns (r: Result<Option<Lock>, Errno>)
      requires fl.typ.Get? && TableOk(holders)
      ensures r.Ok? ==> (r.value.Some? <==> Barred(holders, fl.typ.kind, RangeOf(fl).0, RangeOf(fl).1, pid))
      ensures r.Err? <==> !RangeValid(RangeOf(fl))
      ensures r.Err? ==> r.error == EINVAL
      ensures r.Ok? ==>
                var al := Lock(fl.typ.kind, RangeOf(fl).0, RangeOf(fl).1, pid);
                && (r.value.None? <==> !AnyConflict(holders, al))
                && (r.value.Some? ==>
                      exists i ::
                        && 0 <= i < |holders| && holders[i] == r.value.value && holders[i].Conflicts(al)
                        && forall j | 0 <= j < i :: !holders[j].Conflicts(al))
    {
      var range := RangeOf(fl);
      if !RangeValid(range) {
        return Err(EINVAL);
      }
      var al := Lock(fl.typ.kind, range.0, range.1, pid);
      RangeBounded(fl);
      ConflictMeans(holders, al);
      var i := 0;
      while i < |holders|
        invariant 0 <= i <= |holders| && forall j | 0 <= j < i :: !holders[j].Conflicts(al)
      {
        if holders[i].Conflicts(al) {
          return Ok(Some(holders[i]));
        }
        i := i + 1;
      }
      return Ok(None);
    }

    method DropLocksForPid(pid: nat)
      requires TableOk(holders)
      modifies this
      ensures TableOk(holders)
      ensures forall p: nat, x: int, k: Kind ::
                Covering(holders, p, x, k) == if p == pid then 0 else Covering(old(holders), p, x, k)
    {
      ghost var q := holders;
      forall p: nat, x: int, k: Kind
        ensures Covering(Others(q, pid), p, x, k) == if p == pid then 0 else Covering(q, p, x, k)
      {
        OthersCover(q, pid, p, x, k);
      }
      OthersWellFormed(q, pid);
      SmallerOk(q, Others(q, pid));
      holders := Others(holders, pid);
    }
  }

  // Some lock of the process overlaps the range.
  ghost predicate Touched(q: seq<Lock>, lo: int, hi: int, pid: nat) {
    exists i :: 0 <= i < |q| && q[i].pid == pid && q[i].Overlaps(lo, hi)
  }

  lemma NothingCleared(q: seq<Lock>, lo: int, hi: int, pid: nat)
    ensures Kept(q[..0], lo, hi, pid) == [] && Fragments(q[..0], lo, hi, pid) == [] && q[0..] == q
    ensures !Touched(q[..0], lo, hi, pid)
  {
  }

  lemma OneMore(q: seq<Lock>, i: nat, lo: int, hi: int, pid: nat)
    requires i < |q|
    ensures Kept(q[..i + 1], lo, hi, pid) == Kept(q[..i], lo, hi, pid) + InPlace(q[i], lo, hi, pid)
    ensures Fragments(q[..i + 1], lo, hi, pid) == Fragments(q[..i], lo, hi, pid) + Fragment(q[i], lo, hi, pid)
    ensures Touched(q[..i + 1], lo, hi, pid) <==> Touched(q[..i], lo, hi, pid) || (q[i].pid == pid && q[i].Overlaps(lo, hi))
  {
    assert q[..i + 1][..i] == q[..i];
    assert q[..i + 1][i] == q[i];
    assert forall j | 0 <= j < i :: q[..i + 1][j] == q[..i][j];
  }

  // std::erase_if of one process's locks.
  function Others(q: seq<Lock>, pid: nat): seq<Lock> {
    if q == [] then [] else if q[0].pid == pid then Others(q[1..], pid) else [q[0]] + Others(q[1..], pid)
  }

  lemma {:induction false} OthersCover(q: seq<Lock>, pid: nat, p: nat, x: int, k: Kind)
    ensures Covering(Others(q, pid), p, x, k) == if p == pid then 0 else Covering(q, p, x, k)
  {
    if q != [] {
      OthersCover(q[1..], pid, p, x, k);
      var rest := Others(q[1..], pid);
      assert ([q[0]] + rest)[1..] == rest;
    }
  }

  lemma {:induction false} OthersWellFormed(q: seq<Lock>, pid: nat)
    requires forall i | 0 <= i < |q| :: q[i].WellFormed()
    ensures forall i | 0 <= i < |Others(q, pid)| :: Others(q, pid)[i].WellFormed()
  {
    if q != [] { OthersWellFormed(q[1..], pid); }
  }
}
