// PIDs (junction/kernel/proc.cc): one number space for processes, threads,
// process groups and sessions, reference counted. Every method is one region
// under process_lock, except FinishCreate: a new process reads its parent's
// group and session once for the counting and again, unlocked, for itself.
module Pids {
  import opened Common
  import opened Identifiers

  datatype Proc = Proc(pgid: nat, sid: nat)

  type Procs = map<nat, Proc>

  // --- What a number is used for ---

  function InGroup(procs: Procs, x: nat): set<nat> {
    set p | p in procs && procs[p].pgid == x
  }

  function InSession(procs: Procs, x: nat): set<nat> {
    set p | p in procs && procs[p].sid == x
  }

  // As a process, as a thread other than a main thread, and once for each
  // process in the group and in the session of that number.
  function Uses(procs: Procs, threads: set<nat>, x: nat): nat {
    One(x in procs) + One(x in threads) + |InGroup(procs, x)| + |InSession(procs, x)|
  }

  lemma AddProc(procs: Procs, p: nat, q: Proc, x: nat)
    requires p !in procs
    ensures var after := procs[p := q];
            && |InGroup(after, x)| == |InGroup(procs, x)| + One(q.pgid == x)
            && |InSession(after, x)| == |InSession(procs, x)| + One(q.sid == x)
  {
    AddGroup(procs, p, q, x);
    AddSession(procs, p, q, x);
  }

  lemma AddGroup(procs: Procs, p: nat, q: Proc, x: nat)
    requires p !in procs
    ensures |InGroup(procs[p := q], x)| == |InGroup(procs, x)| + One(q.pgid == x)
  {
    var was, now := InGroup(procs, x), InGroup(procs[p := q], x);
    assert p !in was;
    assert now == if q.pgid == x then was + {p} else was;
  }

  lemma AddSession(procs: Procs, p: nat, q: Proc, x: nat)
    requires p !in procs
    ensures |InSession(procs[p := q], x)| == |InSession(procs, x)| + One(q.sid == x)
  {
    var was, now := InSession(procs, x), InSession(procs[p := q], x);
    assert p !in was;
    assert now == if q.sid == x then was + {p} else was;
  }

  lemma RemoveProc(procs: Procs, p: nat, x: nat)
    requires p in procs
    ensures var after := procs - {p};
            && |InGroup(procs, x)| == |InGroup(after, x)| + One(procs[p].pgid == x)
            && |InSession(procs, x)| == |InSession(after, x)| + One(procs[p].sid == x)
  {
    var after := procs - {p};
    AddProc(after, p, procs[p], x);
    assert after[p := procs[p]] == procs;
  }

  lemma ChangeProc(procs: Procs, p: nat, q: Proc, x: nat)
    requires p in procs
    ensures var after := procs[p := q];
            && |InGroup(after, x)| + One(procs[p].pgid == x) == |InGroup(procs, x)| + One(q.pgid == x)
            && |InSession(after, x)| + One(procs[p].sid == x) == |InSession(procs, x)| + One(q.sid == x)
  {
    RemoveProc(procs, p, x);
    AddProc(procs - {p}, p, q, x);
    assert (procs - {p})[p := q] == procs[p := q];
  }

  lemma Unused(procs: Procs, threads: set<nat>, x: nat)
    requires Uses(procs, threads, x) == 0
    ensures x !in procs && x !in threads && forall p | p in procs :: procs[p].pgid != x && procs[p].sid != x
  {
    forall p | p in procs ensures procs[p].pgid != x && procs[p].sid != x {
      assert p !in InGroup(procs, x) && p !in InSession(procs, x);
    }
  }

  // --- The table ---

  class PidTable {
    const gen: UIDGenerator
    var refCount: map<nat, nat>
    var procs: Procs
    var threads: set<nat>
    // The processes being created, with the numbers they were counted under.
    ghost var pending: Procs

    ghost function All(): Procs
      reads `procs, `pending
    {
      procs + pending
    }

    ghost function Count(x: nat): nat
      reads `refCount
    {
      if x in refCount then refCount[x] else 0
    }

    // Counts are positive, and a number's bit is set exactly when it has one.
    ghost predicate CountsOk()
      reads `refCount, gen, gen.bits, gen.bits.words
    {
      && gen.Valid() && (forall x | x in refCount :: refCount[x] > 0)
      && forall x: nat :: gen.InUse(x) <==> Count(x) > 0
    }

    ghost predicate Valid()
      reads this, gen, gen.bits, gen.bits.words
    {
      && CountsOk() && procs.Keys !! pending.Keys && All().Keys !! threads
      && forall x: nat :: Count(x) == Uses(All(), threads, x)
    }

    constructor (n: nat)
      requires n > 0
      ensures Valid() && gen.bits.n == n && procs == map[] && threads == {} && pending == map[]
      ensures fresh(gen) && fresh(gen.bits) && fresh(gen.bits.words)
    {
      gen := new UIDGenerator(n);
      refCount, procs, threads, pending := map[], map[], {}, map[];
      new;
      assert All() == map[];
      forall x: nat ensures Uses(All(), threads, x) == 0 {
        assert InGroup(All(), x) == {} && InSession(All(), x) == {};
      }
    }

    method DecRefCount(pid: nat)
      requires CountsOk() && pid in refCount
      modifies `refCount, gen.bits.words
      ensures CountsOk() && forall x: nat :: Count(x) == old(Count(x)) - One(x == pid)
    {
      assert gen.InUse(pid);
      refCount := refCount[pid := refCount[pid] - 1];
      if refCount[pid] == 0 {
        gen.Release(pid);
        refCount := refCount - {pid};
      }
    }

    // The map creates a missing count at zero.
    method IncRefCount(pid: nat, incr: nat)
      requires incr > 0
      modifies `refCount
      ensures forall x: nat :: Count(x) == old(Count(x)) + if x == pid then incr else 0
      ensures forall x | x in refCount :: x == pid || x in old(refCount)
      ensures old(CountsOk()) && pid in old(refCount) ==> CountsOk()
    {
      var was := if pid in refCount then refCount[pid] else 0;
      refCount := refCount[pid := was + incr];
    }

    // A fresh number with the given count.
    method Alloc(count: nat) returns (r: Result<nat, Errno>)
      requires CountsOk() && count > 0
      modifies `refCount, gen, gen.bits.words
      ensures CountsOk()
      ensures r.Err? <==> forall x: nat | 0 < x <= gen.bits.n :: old(Count(x)) > 0
      ensures r.Err? ==> r.error == ENOSPC && forall x: nat :: Count(x) == old(Count(x))
      ensures r.Ok? ==> 0 < r.value <= gen.bits.n && old(Count(r.value)) == 0
      ensures r.Ok? ==> forall x: nat :: Count(x) == if x == r.value then count else old(Count(x))
    {
      var tmp := gen.Generate();
      if tmp.None? {
        return Err(ENOSPC);
      }
      refCount := refCount[tmp.value := count];
      return Ok(tmp.value);
    }

    // Nothing checks that the group and the session are alive. Counts and bits
    // stay consistent if and only if they are, or the number is reused at once.
    method AllocPid(pgid: nat, sid: nat) returns (r: Result<nat, Errno>)
      requires CountsOk()
      modifies `refCount, gen, gen.bits.words
      ensures r.Err? <==> forall x: nat | 0 < x <= gen.bits.n :: old(Count(x)) > 0
      ensures r.Err? ==> r.error == ENOSPC && CountsOk() && forall x: nat :: Count(x) == old(Count(x))
      ensures r.Ok? ==> old(Count(r.value)) == 0
      ensures r.Ok? ==> forall x: nat :: Count(x) == old(Count(x)) + One(x == r.value) + One(x == pgid) + One(x == sid)
      ensures r.Ok? ==>
                (CountsOk() <==> && (old(Count(pgid)) > 0 || pgid == r.value)
                                 && (old(Count(sid)) > 0 || sid == r.value))
    {
      hide UIDGenerator.InUse;
      r := Alloc(1);
      if r.Ok? {
        ghost var live, liveSid := Count(pgid) > 0, Count(sid) > 0;
        assert gen.InUse(pgid) == live && gen.InUse(sid) == liveSid;
        IncRefCount(pgid, 1);
        IncRefCount(sid, 1);
        assert gen.InUse(pgid) == live && gen.InUse(sid) == liveSid && Count(pgid) > 0 && Count(sid) > 0;
      }
    }

    method ReleasePid(pid: nat, pgid: nat, sid: nat)
      requires CountsOk()
      requires forall x: nat :: Count(x) >= One(x == pid) + One(x == pgid) + One(x == sid)
      modifies `refCount, gen.bits.words
      ensures CountsOk()
      ensures forall x: nat :: Count(x) == old(Count(x)) - One(x == pid) - One(x == pgid) - One(x == sid)
    {
      assert Count(pid) > 0;
      DecRefCount(pid);
      assert Count(pgid) > 0;
      DecRefCount(pgid);
      assert Count(sid) > 0;
      DecRefCount(sid);
    }

    // --- Processes and threads ---

    // The first process starts its own group and session.
    method CreateInit() returns (r: Result<nat, Errno>)
      requires Valid()
      modifies this, gen, gen.bits.words
      ensures Valid() && threads == old(threads) && pending == old(pending)
      ensures r.Err? <==> AllUsed(gen.bits.n, old(All()), old(threads))
      ensures r.Err? ==> r.error == ENOSPC && procs == old(procs)
      ensures r.Ok? ==> Uses(old(All()), old(threads), r.value) == 0
      ensures r.Ok? ==> procs == old(procs)[r.value := Proc(r.value, r.value)]
    {
      hide Uses, UIDGenerator.InUse;
      r := Alloc(3);
      if r.Ok? {
        var pid := r.value;
        var q := Proc(pid, pid);
        Unused(All(), threads, pid);
        ghost var all := All();
        AddUses(all, threads, pid, q);
        procs := procs[pid := q];
        assert All() == all[pid := q];
      }
    }

    // The first half of CreateProcessVfork, with the parent's group and session
    // as they were read before the lock was taken.
    method BeginCreate(counted: Proc) returns (r: Result<nat, Errno>)
      requires Valid()
      modifies this, gen, gen.bits.words
      ensures threads == old(threads) && procs == old(procs)
      ensures r.Err? <==> AllUsed(gen.bits.n, old(All()), old(threads))
      ensures r.Err? ==> r.error == ENOSPC && Valid() && pending == old(pending)
      ensures r.Ok? ==> Uses(old(All()), old(threads), r.value) == 0 && pending == old(pending)[r.value := counted]
      ensures r.Ok? ==>
                (Valid() <==> && (old(Count(counted.pgid)) > 0 || counted.pgid == r.value)
                              && (old(Count(counted.sid)) > 0 || counted.sid == r.value))
    {
      hide Uses, UIDGenerator.InUse;
      r := AllocPid(counted.pgid, counted.sid);
      if r.Ok? {
        var pid := r.value;
        Unused(All(), threads, pid);
        ghost var all := All();
        AddUses(all, threads, pid, counted);
        pending := pending[pid := counted];
        assert All() == all[pid := counted];
      }
    }

    // The second half: the parent's numbers as they are by now. What was
    // counted is what is used if and only if they are still the same.
    method FinishCreate(pid: nat, parent: nat)
      requires Valid() && pid in pending && parent in procs
      modifies `procs, `pending
      ensures procs == old(procs)[pid := old(procs)[parent]] && pending == old(pending) - {pid}
      ensures Valid() <==> SameNumbers(old(procs)[parent], old(pending)[pid])
      ensures old(procs)[parent].sid == old(pending)[pid].sid ==>
                (Valid() <==> old(procs)[parent] == old(pending)[pid])
    {
      hide Uses;
      ghost var all, was := All(), pending[pid];
      var q := procs[parent];
      procs := procs[pid := q];
      pending := pending - {pid};
      assert All() == all[pid := q] && All().Keys == all.Keys;
      forall x: nat ensures Uses(All(), threads, x) + Held(was, x) == Count(x) + Held(q, x) {
        ChangeUses(all, threads, pid, q, x);
      }
      SameNumbersCount(q, was);
    }

    // Undisturbed, the two halves count and use the same numbers.
    method CreateProcess(parent: nat) returns (r: Result<nat, Errno>)
      requires Valid() && parent in procs
      modifies this, gen, gen.bits.words
      ensures Valid() && threads == old(threads) && pending == old(pending)
      ensures r.Err? <==> AllUsed(gen.bits.n, old(All()), old(threads))
      ensures r.Err? ==> r.error == ENOSPC && procs == old(procs)
      ensures r.Ok? ==> Uses(old(All()), old(threads), r.value) == 0
      ensures r.Ok? ==> procs == old(procs)[r.value := old(procs)[parent]]
    {
      Member(All(), threads, parent);
      r := BeginCreate(procs[parent]);
      if r.Ok? {
        Unused(old(All()), threads, r.value);
        FinishCreate(r.value, parent);
      }
    }

    method CreateThread() returns (r: Result<nat, Errno>)
      requires Valid()
      modifies this, gen, gen.bits.words
      ensures Valid() && procs == old(procs) && pending == old(pending)
      ensures r.Err? <==> AllUsed(gen.bits.n, old(All()), old(threads))
      ensures r.Err? ==> r.error == ENOSPC && threads == old(threads)
      ensures r.Ok? ==> Uses(old(All()), old(threads), r.value) == 0 && threads == old(threads) + {r.value}
    {
      r := Alloc(1);
      if r.Ok? {
        Unused(All(), threads, r.value);
        threads := threads + {r.value};
      }
    }

    method ExitThread(tid: nat)
      requires Valid() && tid in threads
      modifies this, gen.bits.words
      ensures Valid() && procs == old(procs) && pending == old(pending) && threads == old(threads) - {tid}
    {
      assert Count(tid) > 0;
      DecRefCount(tid);
      threads := threads - {tid};
    }

    method ReapProcess(pid: nat)
      requires Valid() && pid in procs
      modifies this, gen.bits.words
      ensures Valid() && threads == old(threads) && pending == old(pending) && procs == old(procs) - {pid}
    {
      ghost var all := All();
      var q := procs[pid];
      forall x: nat ensures Uses(all, threads, x) ==
        Uses(all - {pid}, threads, x) + One(x == pid) + One(x == q.pgid) + One(x == q.sid)
      {
        RemoveProc(all, pid, x);
      }
      ReleasePid(pid, q.pgid, q.sid);
      procs := procs - {pid};
      assert All() == all - {pid};
    }

    method BecomeSessionLeader(pid: nat) returns (r: Result<nat, Errno>)
      requires Valid() && pid in procs
      modifies this, gen.bits.words
      ensures Valid() && threads == old(threads) && pending == old(pending)
      ensures r == if old(procs)[pid].pgid == pid then Err(EPERM) else Ok(pid)
      ensures procs == if r.Err? then old(procs) else old(procs)[pid := Proc(pid, pid)]
    {
      hide Uses, UIDGenerator.InUse;
      if procs[pid].pgid == pid {
        return Err(EPERM);
      }
      var was, q := procs[pid], Proc(pid, pid);
      ghost var all := All();
      forall x: nat
        ensures Uses(all[pid := q], threads, x) + One(x == was.pgid) + One(x == was.sid)
             == Uses(all, threads, x) + if x == pid then 2 else 0
      {
        ChangeUses(all, threads, pid, q, x);
      }
      Member(all, threads, pid);
      LeadSession(pid, was.pgid, was.sid);
      procs := procs[pid := q];
      assert All() == all[pid := q];
      forall x: nat ensures Count(x) == Uses(All(), threads, x) {
        assert old(Count(x)) == Uses(all, threads, x);
      }
      return Ok(pid);
    }

    // Two references to the new leader, then one less to each old number.
    method LeadSession(pid: nat, pgid: nat, sid: nat)
      requires CountsOk() && Count(pid) > 0
      requires forall x: nat :: Count(x) + (if x == pid then 2 else 0) >= One(x == pgid) + One(x == sid)
      modifies `refCount, gen.bits.words
      ensures CountsOk()
      ensures forall x: nat ::
                Count(x) + One(x == pgid) + One(x == sid) == old(Count(x)) + if x == pid then 2 else 0
    {
      IncRefCount(pid, 2);
      assert Count(sid) > 0;
      DecRefCount(sid);
      assert Count(pgid) > 0;
      DecRefCount(pgid);
    }

    // The old group is released before the new one is counted, and nothing
    // checks that the new one is alive. Counts and bits stay consistent if and
    // only if the group joined has a reference besides the one given up.
    method JoinProcessGroup(pid: nat, pgid: nat) returns (r: Result<(), Errno>)
      requires Valid() && pid in procs
      modifies this, gen.bits.words
      ensures r == if old(procs)[pid].pgid == pid then Err(EPERM) else Ok(())
      ensures r.Err? ==> Valid()
      ensures procs == if r.Err? then old(procs) else old(procs)[pid := old(procs)[pid].(pgid := pgid)]
      ensures threads == old(threads) && pending == old(pending)
      ensures forall x: nat :: Count(x) == Uses(All(), threads, x)
      ensures r.Ok? ==> (Valid() <==> old(Count(pgid)) > One(pgid == old(procs)[pid].pgid))
    {
      hide Uses, UIDGenerator.InUse;
      if procs[pid].pgid == pid {
        return Err(EPERM);
      }
      var was, q := procs[pid], procs[pid].(pgid := pgid);
      ghost var all := All();
      forall x: nat
        ensures Uses(all[pid := q], threads, x) + One(x == was.pgid) == Uses(all, threads, x) + One(x == pgid)
      {
        ChangeUses(all, threads, pid, q, x);
      }
      Member(all, threads, pid);
      MoveGroup(was.pgid, pgid);
      procs := procs[pid := q];
      assert All() == all[pid := q];
      forall x: nat ensures Count(x) == Uses(All(), threads, x) {
        assert old(Count(x)) == Uses(all, threads, x);
      }
      return Ok(());
    }

    method MoveGroup(from: nat, to: nat)
      requires CountsOk() && Count(from) > 0
      modifies `refCount, gen.bits.words
      ensures forall x: nat :: Count(x) + One(x == from) == old(Count(x)) + One(x == to)
      ensures CountsOk() <==> old(Count(to)) > One(to == from)
    {
      hide UIDGenerator.InUse;
      DecRefCount(from);
      ghost var live := Count(to) > 0;
      assert gen.InUse(to) == live;
      IncRefCount(to, 1);
      assert gen.InUse(to) == live && Count(to) > 0;
    }
  }

  // All numbers from 1 to n are in use.
  ghost predicate AllUsed(n: nat, procs: Procs, threads: set<nat>) {
    forall x: nat | 0 < x <= n :: Uses(procs, threads, x) > 0
  }

  lemma ChangeUses(procs: Procs, threads: set<nat>, p: nat, q: Proc, x: nat)
    requires p in procs
    ensures Uses(procs[p := q], threads, x) + One(x == procs[p].pgid) + One(x == procs[p].sid) ==
            Uses(procs, threads, x) + One(x == q.pgid) + One(x == q.sid)
  {
    ChangeProc(procs, p, q, x);
  }

  // A process more is one use more of each of its numbers.
  lemma AddUses(procs: Procs, threads: set<nat>, p: nat, q: Proc)
    requires p !in procs
    ensures forall x: nat :: Uses(procs[p := q], threads, x) ==
                             Uses(procs, threads, x) + One(x == p) + One(x == q.pgid) + One(x == q.sid)
  {
    forall x: nat ensures Uses(procs[p := q], threads, x) ==
                          Uses(procs, threads, x) + One(x == p) + One(x == q.pgid) + One(x == q.sid)
    {
      AddProc(procs, p, q, x);
    }
  }

  lemma Member(procs: Procs, threads: set<nat>, p: nat)
    requires p in procs
    ensures Uses(procs, threads, p) > 0
    ensures Uses(procs, threads, procs[p].pgid) > 0 && Uses(procs, threads, procs[p].sid) > 0
  {
    RemoveProc(procs, p, procs[p].pgid);
    RemoveProc(procs, p, procs[p].sid);
  }

  // The same two numbers, possibly exchanged.
  predicate SameNumbers(q: Proc, c: Proc) {
    q == c || (q.pgid == c.sid && q.sid == c.pgid)
  }

  function Held(q: Proc, x: nat): nat {
    One(x == q.pgid) + One(x == q.sid)
  }

  lemma SameNumbersCount(q: Proc, c: Proc)
    ensures SameNumbers(q, c) <==> forall x: nat :: Held(q, x) == Held(c, x)
  {
    if !SameNumbers(q, c) {
      var x := if q.pgid != c.pgid && q.pgid != c.sid then q.pgid
               else if q.sid != c.pgid && q.sid != c.sid then q.sid
               else if c.pgid != q.pgid && c.pgid != q.sid then c.pgid else c.sid;
      assert Held(q, x) != Held(c, x);
    }
  }

  // An init process and one child, which is in init's group.
  method TwoProcesses() returns (t: PidTable, init: nat, child: nat)
    ensures t.Valid() && t.gen.bits.n == 64 && t.pending == map[] && t.threads == {} && init != child
    ensures t.procs == map[init := Proc(init, init), child := Proc(init, init)]
    ensures fresh(t) && fresh(t.gen) && fresh(t.gen.bits) && fresh(t.gen.bits.words)
  {
    t := new PidTable(64);
    NotAllUsed(map[], {}, 1);
    var r := t.CreateInit();
    init := r.value;
    assert t.All() == t.procs == map[init := Proc(init, init)];
    NotAllUsed(t.procs, {}, if init == 1 then 2 else 1);
    r := t.CreateProcess(init);
    child := r.value;
  }

  lemma NotAllUsed(procs: Procs, threads: set<nat>, x: nat)
    requires 0 < x <= 64 && x !in procs && x !in threads
    requires forall p | p in procs :: procs[p].pgid != x && procs[p].sid != x
    ensures Uses(procs, threads, x) == 0 && !AllUsed(64, procs, threads)
  {
    assert InGroup(procs, x) == {} && InSession(procs, x) == {};
  }

  // setpgid to a number that is no group leaves a count without its bit.
  method JoinDeadGroup() returns (t: PidTable)
    ensures !t.Valid()
  {
    var init, child;
    t, init, child := TwoProcesses();
    assert !t.gen.InUse(65);
    var joined := t.JoinProcessGroup(child, 65);
  }

  // setpgid by the parent between the two halves of a creation.
  method JoinWhileCreating() returns (t: PidTable)
    ensures !t.Valid()
  {
    var init, child;
    t, init, child := TwoProcesses();
    assert t.All() == t.procs;
    var x := if init != 1 && child != 1 then 1 else if init != 2 && child != 2 then 2 else 3;
    NotAllUsed(t.procs, {}, x);
    Member(t.procs, {}, child);
    var r := t.BeginCreate(t.procs[child]);
    Member(t.All(), {}, child);
    var joined := t.JoinProcessGroup(child, child);
    t.FinishCreate(r.value, child);
  }
}
