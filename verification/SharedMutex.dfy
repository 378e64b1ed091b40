// SharedMutex (junction/bindings/sync.cc) and its WaitQueues
// (junction/bindings/sync.h): a reader-writer lock kept as a counter and two
// queues of parked threads, which hands ownership to the threads it wakes. A
// method is the region under the spin lock; it returns whether the caller goes
// on or is parked, or the threads to be made ready once the lock is dropped.
module SharedMutexes {
  import opened Common

  type Tid = nat

  // --- Who owns the lock ---

  // The reference: sets of owners and queues in arrival order.
  datatype Owners = Owners(readers: set<Tid>, writer: Option<Tid>, exclusive: seq<Tid>, shared: seq<Tid>) {
    predicate Held() {
      readers != {} || writer.Some?
    }

    predicate Owns(t: Tid) {
      t in readers || writer == Some(t)
    }

    predicate Waits(t: Tid) {
      t in exclusive || t in shared
    }

    // A writer is alone, a thread is in one place only, nobody waits for a
    // free lock, and readers wait only for a writer.
    ghost predicate Ok() {
      && (writer.Some? ==> readers == {})
      && Distinct(exclusive) && Distinct(shared)
      && (forall t :: !(t in exclusive && t in shared))
      && (forall t | Owns(t) :: !Waits(t))
      && (exclusive != [] ==> Held()) && (shared != [] ==> writer.Some?)
    }

    function Lock(t: Tid): Owners {
      if Held() then this.(exclusive := exclusive + [t]) else this.(writer := Some(t))
    }

    function LockShared(t: Tid): Owners {
      if writer.Some? then this.(shared := shared + [t]) else this.(readers := readers + {t})
    }

    // All waiting readers, else the first waiting writer, else nobody.
    function Unlock(): Owners {
      if shared != [] then Owners(Elems(shared), None, exclusive, [])
      else if exclusive != [] then Owners({}, Some(exclusive[0]), exclusive[1..], [])
      else Owners({}, None, [], [])
    }

    function UnlockShared(t: Tid): Owners {
      var left := readers - {t};
      if left == {} && exclusive != [] then Owners({}, Some(exclusive[0]), exclusive[1..], shared)
      else this.(readers := left)
    }

    function Upgrade(t: Tid): Owners {
      var left := readers - {t};
      if left == {} then this.(readers := {}, writer := Some(t))
      else this.(readers := left, exclusive := exclusive + [t])
    }

    function Downgrade(t: Tid): Owners {
      Owners(Elems(shared) + {t}, None, exclusive, [])
    }
  }

  function Elems(q: seq<Tid>): set<Tid> {
    set t | t in q
  }

  lemma {:induction false} ElemsSize(q: seq<Tid>)
    requires Distinct(q)
    ensures |Elems(q)| == |q|
  {
    if q == [] {
      assert Elems(q) == {};
    } else {
      ElemsSize(q[1..]);
      assert Elems(q) == Elems(q[1..]) + {q[0]};
    }
  }

  lemma AppendFacts(q: seq<Tid>, t: Tid)
    ensures forall x :: x in q + [t] <==> x in q || x == t
    ensures Distinct(q) && t !in q ==> Distinct(q + [t])
  {
  }

  lemma PopFacts(q: seq<Tid>)
    requires q != [] && Distinct(q)
    ensures Distinct(q[1..]) && q[0] !in q[1..] && forall x :: x in q <==> x == q[0] || x in q[1..]
  {
    assert q == [q[0]] + q[1..];
  }

  lemma LockOk(o: Owners, t: Tid)
    requires o.Ok() && !o.Owns(t) && !o.Waits(t)
    ensures o.Lock(t).Ok() && o.LockShared(t).Ok()
  {
    AppendFacts(o.exclusive, t);
    AppendFacts(o.shared, t);
    forall x ensures !(o.Lock(t).Owns(x) && o.Lock(t).Waits(x)) && !(o.LockShared(t).Owns(x) && o.LockShared(t).Waits(x)) {
      assert !(o.Owns(x) && o.Waits(x));
    }
  }

  lemma UnlockOk(o: Owners, t: Tid)
    requires o.Ok() && o.writer == Some(t)
    ensures o.Unlock().Ok() && o.Downgrade(t).Ok()
    ensures t !in o.shared
  {
    assert o.Owns(t);
    if o.exclusive != [] { PopFacts(o.exclusive); }
    if o.shared != [] { assert o.shared[0] in Elems(o.shared); }
    forall x ensures !(o.Unlock().Owns(x) && o.Unlock().Waits(x)) && !(o.Downgrade(t).Owns(x) && o.Downgrade(t).Waits(x)) {
      assert !(o.Owns(x) && o.Waits(x));
    }
  }

  lemma UnlockSharedOk(o: Owners, t: Tid)
    requires o.Ok() && t in o.readers
    ensures o.UnlockShared(t).Ok() && o.Upgrade(t).Ok()
  {
    assert o.Owns(t);
    AppendFacts(o.exclusive, t);
    if o.exclusive != [] { PopFacts(o.exclusive); }
    forall x ensures !(o.UnlockShared(t).Owns(x) && o.UnlockShared(t).Waits(x)) && !(o.Upgrade(t).Owns(x) && o.Upgrade(t).Waits(x)) {
      assert !(o.Owns(x) && o.Waits(x));
    }
  }

  // --- The lock ---

  class SharedMutex {
    var cnt: int
    var sharedCnt: nat
    var exclusiveQueue: seq<Tid>
    var sharedQueue: seq<Tid>
    ghost var owners: Owners

    // The counter is -1 exactly for a writer and otherwise the number of
    // readers.
    ghost predicate Valid()
      reads this
    {
      && owners.Ok()
      && cnt == (if owners.writer.Some? then -1 else |owners.readers|)
      && sharedCnt == |sharedQueue|
      && exclusiveQueue == owners.exclusive && sharedQueue == owners.shared
    }

    constructor ()
      ensures Valid() && owners == Owners({}, None, [], [])
    {
      cnt, sharedCnt, exclusiveQueue, sharedQueue := 0, 0, [], [];
      owners := Owners({}, None, [], []);
    }

    method WakeAllShared() returns (wake: seq<Tid>)
      modifies `cnt, `sharedCnt, `sharedQueue
      ensures cnt == old(sharedCnt) && sharedCnt == 0 && wake == old(sharedQueue) && sharedQueue == []
    {
      cnt, sharedCnt := sharedCnt, 0;
      wake, sharedQueue := sharedQueue, [];
    }

    method WakeOneExclusive() returns (wake: seq<Tid>)
      modifies `cnt, `exclusiveQueue
      ensures cnt == -1 && wake + exclusiveQueue == old(exclusiveQueue)
      ensures |wake| == if old(exclusiveQueue) == [] then 0 else 1
    {
      cnt := -1;
      if exclusiveQueue != [] {
        wake, exclusiveQueue := [exclusiveQueue[0]], exclusiveQueue[1..];
      } else {
        wake := [];
      }
    }

    method Lock(me: Tid) returns (acquired: bool)
      requires Valid() && !owners.Owns(me) && !owners.Waits(me)
      modifies this
      ensures Valid() && owners == old(owners).Lock(me) && acquired == owners.Owns(me)
    {
      LockOk(owners, me);
      HeldCount(owners);
      ghost var next := owners.Lock(me);
      if cnt != 0 {
        exclusiveQueue := exclusiveQueue + [me];
        acquired := false;
      } else {
        cnt, acquired := -1, true;
      }
      owners := next;
    }

    method TryLock(me: Tid) returns (acquired: bool)
      requires Valid()
      modifies this
      ensures Valid() && acquired == !old(owners).Held()
      ensures owners == if acquired then old(owners).Lock(me) else old(owners)
    {
      HeldCount(owners);
      if cnt != 0 {
        return false;
      }
      LockOk(owners, me);
      cnt, owners := -1, owners.Lock(me);
      return true;
    }

    method Unlock(me: Tid) returns (wake: seq<Tid>)
      requires Valid() && owners.writer == Some(me)
      modifies this
      ensures Valid() && owners == old(owners).Unlock()
      ensures forall t :: t in wake <==> owners.Owns(t)
    {
      UnlockOk(owners, me);
      ElemsSize(owners.shared);
      if sharedQueue != [] {
        wake := WakeAllShared();
      } else if exclusiveQueue != [] {
        wake := WakeOneExclusive();
      } else {
        cnt, wake := 0, [];
      }
      owners := owners.Unlock();
    }

    method LockShared(me: Tid) returns (acquired: bool)
      requires Valid() && !owners.Owns(me) && !owners.Waits(me)
      modifies this
      ensures Valid() && owners == old(owners).LockShared(me) && acquired == owners.Owns(me)
    {
      LockOk(owners, me);
      if cnt < 0 {
        sharedCnt := sharedCnt + 1;
        sharedQueue := sharedQueue + [me];
        acquired := false;
      } else {
        cnt, acquired := cnt + 1, true;
      }
      owners := owners.LockShared(me);
    }

    method TryLockShared(me: Tid) returns (acquired: bool)
      requires Valid() && !owners.Owns(me) && !owners.Waits(me)
      modifies this
      ensures Valid() && acquired == old(owners).writer.None?
      ensures owners == if acquired then old(owners).LockShared(me) else old(owners)
    {
      LockOk(owners, me);
      if cnt < 0 {
        return false;
      }
      cnt, owners := cnt + 1, owners.LockShared(me);
      return true;
    }

    method UnlockShared(me: Tid) returns (wake: seq<Tid>)
      requires Valid() && me in owners.readers
      modifies this
      ensures Valid() && owners == old(owners).UnlockShared(me)
      ensures forall t :: t in wake <==> owners.Owns(t) && !old(owners).Owns(t)
    {
      UnlockSharedOk(owners, me);
      LastReader(owners, me);
      cnt := cnt - 1;
      wake := [];
      ghost var next := owners.UnlockShared(me);
      if cnt == 0 && exclusiveQueue != [] {
        wake := WakeOneExclusive();
      }
      owners := next;
    }

    method UpgradeLock(me: Tid) returns (acquired: bool)
      requires Valid() && me in owners.readers
      modifies this
      ensures Valid() && owners == old(owners).Upgrade(me) && acquired == owners.Owns(me)
    {
      UnlockSharedOk(owners, me);
      LastReader(owners, me);
      cnt := cnt - 1;
      ghost var next := owners.Upgrade(me);
      if cnt > 0 {
        exclusiveQueue := exclusiveQueue + [me];
        acquired := false;
      } else {
        cnt, acquired := -1, true;
      }
      owners := next;
    }

    method DowngradeLock(me: Tid) returns (wake: seq<Tid>)
      requires Valid() && owners.writer == Some(me)
      modifies this
      ensures Valid() && owners == old(owners).Downgrade(me)
      ensures forall t :: t in wake <==> owners.Owns(t) && t != me
    {
      UnlockOk(owners, me);
      ElemsSize(owners.shared);
      wake := WakeAllShared();
      cnt := cnt + 1;
      owners := owners.Downgrade(me);
    }
  }

  lemma HeldCount(o: Owners)
    ensures o.readers != {} <==> |o.readers| != 0
  {
  }

  lemma LastReader(o: Owners, t: Tid)
    requires t in o.readers
    ensures |o.readers - {t}| == |o.readers| - 1 && (o.readers - {t} == {} <==> |o.readers| == 1)
  {
    assert o.readers == (o.readers - {t}) + {t};
  }

  // --- All runs of a set of threads ---

  // A granted thread owns the lock already and has yet to be made ready.
  datatype Local = Out | Waiting(exclusive: bool) | Granted(exclusive: bool) | Inside(exclusive: bool)

  datatype System = System(o: Owners, threads: map<Tid, Local>)

  datatype Step =
    | DoLock(t: Tid)
    | DoTryLock(t: Tid)
    | DoLockShared(t: Tid)
    | DoTryLockShared(t: Tid)
    | DoUnlock(t: Tid)
    | DoUnlockShared(t: Tid)
    | DoUpgrade(t: Tid)
    | DoDowngrade(t: Tid)
    | MakeReady(t: Tid)

  predicate Enabled(s: System, a: Step) {
    && a.t in s.threads
    && var l := s.threads[a.t];
       if a.MakeReady? then l.Granted?
       else if a.DoUnlock? || a.DoDowngrade? then l == Inside(true)
       else if a.DoUnlockShared? || a.DoUpgrade? then l == Inside(false)
       else l.Out?
  }

  function NextOwners(o: Owners, a: Step): Owners {
    match a
    case DoLock(t) => o.Lock(t)
    case DoTryLock(t) => if o.Held() then o else o.Lock(t)
    case DoLockShared(t) => o.LockShared(t)
    case DoTryLockShared(t) => if o.writer.Some? then o else o.LockShared(t)
    case DoUnlock(_) => o.Unlock()
    case DoUnlockShared(t) => o.UnlockShared(t)
    case DoUpgrade(t) => o.Upgrade(t)
    case DoDowngrade(t) => o.Downgrade(t)
    case MakeReady(_) => o
  }

  // The caller knows whether it goes on; a waiter that now owns the lock is
  // granted it.
  function NextLocal(o: Owners, a: Step, t: Tid, l: Local): Local {
    if t == a.t then
      if a.MakeReady? then (if l.Granted? then Inside(l.exclusive) else l)
      else if o.writer == Some(t) then Inside(true)
      else if t in o.readers then Inside(false)
      else if o.Waits(t) then Waiting(t in o.exclusive)
      else Out
    else if l.Waiting? && o.Owns(t) then Granted(l.exclusive)
    else l
  }

  function Apply(s: System, a: Step): System {
    var o := NextOwners(s.o, a);
    System(o, map t | t in s.threads :: NextLocal(o, a, t, s.threads[t]))
  }

  ghost predicate LocalOk(o: Owners, t: Tid, l: Local) {
    match l
    case Out => !o.Owns(t) && !o.Waits(t)
    case Waiting(exclusive) => if exclusive then t in o.exclusive else t in o.shared
    case Granted(exclusive) => if exclusive then o.writer == Some(t) else t in o.readers
    case Inside(exclusive) => if exclusive then o.writer == Some(t) else t in o.readers
  }

  ghost predicate Inv(s: System) {
    && s.o.Ok() && (forall t | t in s.threads :: LocalOk(s.o, t, s.threads[t]))
    && (forall t | s.o.Owns(t) || s.o.Waits(t) :: t in s.threads)
  }

  lemma OwnersKeep(s: System, a: Step)
    requires Inv(s) && Enabled(s, a)
    ensures NextOwners(s.o, a).Ok()
  {
    assert LocalOk(s.o, a.t, s.threads[a.t]);
    match a
    case DoUnlock(t) => UnlockOk(s.o, t);
    case DoDowngrade(t) => UnlockOk(s.o, t);
    case DoUnlockShared(t) => UnlockSharedOk(s.o, t);
    case DoUpgrade(t) => UnlockSharedOk(s.o, t);
    case MakeReady(_) =>
    case _ => LockOk(s.o, a.t);
  }

  // Where a step can move a thread.
  lemma Moves(s: System, a: Step, t: Tid)
    requires Inv(s) && Enabled(s, a)
    ensures var o := NextOwners(s.o, a);
            && (o.Owns(t) || o.Waits(t) ==> s.o.Owns(t) || s.o.Waits(t) || t == a.t)
            && (t != a.t && s.o.Owns(t) ==> (t in s.o.readers ==> t in o.readers) && (s.o.writer == Some(t) ==> o.writer == Some(t)))
            && (t != a.t && t in s.o.exclusive ==> t in o.exclusive || o.writer == Some(t))
            && (t != a.t && t in s.o.shared ==> t in o.shared || t in o.readers)
  {
    assert LocalOk(s.o, a.t, s.threads[a.t]);
    if s.o.exclusive != [] { PopFacts(s.o.exclusive); }
  }

  lemma StepKeeps(s: System, a: Step)
    requires Inv(s) && Enabled(s, a)
    ensures Inv(Apply(s, a))
  {
    var q := Apply(s, a);
    OwnersKeep(s, a);
    forall t | t in q.threads ensures LocalOk(q.o, t, q.threads[t]) {
      LocalKeeps(s, a, t);
    }
    forall t | q.o.Owns(t) || q.o.Waits(t) ensures t in q.threads {
      Moves(s, a, t);
    }
  }

  lemma LocalKeeps(s: System, a: Step, t: Tid)
    requires Inv(s) && Enabled(s, a) && t in s.threads
    ensures LocalOk(NextOwners(s.o, a), t, NextLocal(NextOwners(s.o, a), a, t, s.threads[t]))
  {
    assert LocalOk(s.o, t, s.threads[t]);
    OwnersKeep(s, a);
    Moves(s, a, t);
    assert !(s.o.Owns(t) && s.o.Waits(t));
    assert !(NextOwners(s.o, a).Owns(t) && NextOwners(s.o, a).Waits(t));
  }

  ghost predicate Reaches(s: System, steps: seq<Step>, q: System)
    decreases |steps|
  {
    if steps == [] then s == q else Enabled(s, steps[0]) && Reaches(Apply(s, steps[0]), steps[1..], q)
  }

  lemma {:induction false} RunKeeps(s: System, steps: seq<Step>, q: System)
    requires Inv(s) && Reaches(s, steps, q)
    ensures Inv(q)
    decreases |steps|
  {
    hide Inv, Apply, Enabled;
    if steps != [] {
      StepKeeps(s, steps[0]);
      RunKeeps(Apply(s, steps[0]), steps[1..], q);
    }
  }

  ghost predicate Init(s: System) {
    s.o == Owners({}, None, [], []) && forall t | t in s.threads :: s.threads[t].Out?
  }

  // In every run a thread inside exclusively is alone, and a thread waits only
  // while another one is inside or about to be.
  lemma MutualExclusion(s: System, steps: seq<Step>, q: System, t: Tid, u: Tid)
    requires Init(s) && Reaches(s, steps, q) && t in q.threads && u in q.threads && t != u
    ensures q.threads[t] == Inside(true) ==> !q.threads[u].Inside? && !q.threads[u].Granted?
    ensures q.threads[t].Waiting? ==>
              exists v :: v in q.threads && v != t && (q.threads[v].Inside? || q.threads[v].Granted?)
  {
    RunKeeps(s, steps, q);
    assert LocalOk(q.o, t, q.threads[t]) && LocalOk(q.o, u, q.threads[u]);
    if q.threads[t].Waiting? {
      var v := if q.o.writer.Some? then q.o.writer.value else var r :| r in q.o.readers; r;
      assert q.o.Owns(v);
      assert LocalOk(q.o, v, q.threads[v]);
      assert !(q.o.Owns(t) && q.o.Waits(t)) && !(q.o.Owns(v) && q.o.Waits(v));
    }
  }

  // --- Who is served first ---

  // When a writer leaves, all waiting readers are let in and no waiting writer;
  // only without readers is the writer at the head of the queue. When the last
  // reader leaves, the head is let in. Everybody else goes on waiting.
  lemma ServedNext(s: System, a: Step, t: Tid)
    requires Inv(s) && Enabled(s, a) && t in s.threads && s.threads[t].Waiting?
    ensures var l := Apply(s, a).threads[t];
            var readersWait := exists u :: u in s.threads && s.threads[u] == Waiting(false);
            var first := s.o.exclusive != [] && s.o.exclusive[0] == t;
            match a
            case DoUnlock(_) =>
              if !s.threads[t].exclusive then l == Granted(false)
              else l == if !readersWait && first then Granted(true) else Waiting(true)
            case DoUnlockShared(u) => l == if s.o.readers == {u} && first then Granted(true) else s.threads[t]
            case DoDowngrade(_) => l == if s.threads[t].exclusive then Waiting(true) else Granted(false)
            case _ => l == s.threads[t]
  {
    assert LocalOk(s.o, t, s.threads[t]) && LocalOk(s.o, a.t, s.threads[a.t]);
    assert !(s.o.Owns(t) && s.o.Waits(t)) && !(s.o.Owns(a.t) && s.o.Waits(a.t));
    if s.o.exclusive != [] { PopFacts(s.o.exclusive); }
    if s.o.shared != [] {
      var u := s.o.shared[0];
      assert s.o.Waits(u);
      assert LocalOk(s.o, u, s.threads[u]);
      assert !(s.o.Owns(u) && s.o.Waits(u));
    }
    forall u | u in s.threads && s.threads[u] == Waiting(false) ensures s.o.shared != [] {
      assert LocalOk(s.o, u, s.threads[u]);
    }
  }

  // t waits to write, and u neither writes nor waits in front of it.
  ghost predicate Ahead(o: Owners, t: Tid, u: Tid) {
    && t in o.exclusive && o.writer != Some(u)
    && forall i, j | 0 <= i < |o.exclusive| && 0 <= j < |o.exclusive| && o.exclusive[i] == t && o.exclusive[j] == u :: i < j
  }

  lemma AheadKeeps(s: System, a: Step, t: Tid, u: Tid)
    requires Inv(s) && Enabled(s, a) && t != u && Ahead(s.o, t, u) && a != DoUpgrade(u)
    requires t in NextOwners(s.o, a).exclusive
    ensures Ahead(NextOwners(s.o, a), t, u)
  {
    assert LocalOk(s.o, a.t, s.threads[a.t]);
    assert !(s.o.Owns(t) && s.o.Waits(t));
    var e := s.o.exclusive;
    if NextOwners(s.o, a).exclusive == e[1..] {
      forall i, j | 0 <= i < |e[1..]| && 0 <= j < |e[1..]| && e[1..][i] == t && e[1..][j] == u ensures i < j {
        assert e[i + 1] == t && e[j + 1] == u;
      }
    }
  }

  ghost predicate WaitsThroughout(s: System, steps: seq<Step>, t: Tid)
    decreases |steps|
  {
    && t in s.o.exclusive
    && (steps != [] ==> WaitsThroughout(Apply(s, steps[0]), steps[1..], t))
  }

  // Writers are served in the order in which they came: as long as t waits,
  // nobody who did not wait before it gets to write, except a reader that
  // upgrades.
  lemma {:induction false} WritersInOrder(s: System, steps: seq<Step>, q: System, t: Tid, u: Tid)
    requires Inv(s) && Reaches(s, steps, q) && WaitsThroughout(s, steps, t)
    requires t != u && Ahead(s.o, t, u) && forall i | 0 <= i < |steps| :: steps[i] != DoUpgrade(u)
    ensures Ahead(q.o, t, u)
    decreases |steps|
  {
    if steps != [] {
      var next := Apply(s, steps[0]);
      StepKeeps(s, steps[0]);
      AheadKeeps(s, steps[0], t, u);
      WritersInOrder(next, steps[1..], q, t, u);
    }
  }

  // In particular a thread that comes later.
  lemma LaterWriterWaits(s: System, steps: seq<Step>, q: System, t: Tid, u: Tid)
    requires Inv(s) && Reaches(s, steps, q) && WaitsThroughout(s, steps, t)
    requires t != u && u in s.threads && u in q.threads && s.threads[u].Out?
    requires forall i | 0 <= i < |steps| :: steps[i] != DoUpgrade(u)
    ensures q.threads[u] != Inside(true) && q.threads[u] != Granted(true)
  {
    assert LocalOk(s.o, u, s.threads[u]);
    WritersInOrder(s, steps, q, t, u);
    RunKeeps(s, steps, q);
    assert LocalOk(q.o, u, q.threads[u]);
  }
}
