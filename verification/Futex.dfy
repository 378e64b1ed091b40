// FutexTable (junction/kernel/futex.cc, junction/kernel/futex.h): sixteen hash
// buckets, each a list of waiters under its own lock. A 32-bit wait bitset is
// modelled as the set of its one bits.
module Futex {
  import opened Common

  const BUCKETS := 16

  datatype Waiter = Waiter(id: nat, key: nat, bitset: set<nat>)

  predicate Matches(w: Waiter, key: nat, bits: set<nat>) {
    w.key == key && w.bitset * bits != {}
  }

  // --- The reference: one list of all waiters in arrival order ---

  function Filter(q: seq<Waiter>, f: Waiter -> bool): (r: seq<Waiter>)
    ensures |r| <= |q|
  {
    if q == [] then [] else if f(q[0]) then [q[0]] + Filter(q[1..], f) else Filter(q[1..], f)
  }

  function Selects(key: nat, bits: set<nat>): Waiter -> bool {
    (w: Waiter) => Matches(w, key, bits)
  }

  function HashesTo(hash: nat -> nat, b: nat): Waiter -> bool {
    (w: Waiter) => hash(w.key) % BUCKETS == b
  }

  function Matching(q: seq<Waiter>, key: nat, bits: set<nat>): seq<Waiter> {
    Filter(q, Selects(key, bits))
  }

  // The list without the first n waiters that match.
  function Left(q: seq<Waiter>, key: nat, bits: set<nat>, n: nat): seq<Waiter>
    decreases |q|
  {
    if q == [] || n == 0 then q
    else if Matches(q[0], key, bits) then Left(q[1..], key, bits, n - 1)
    else [q[0]] + Left(q[1..], key, bits, n)
  }

  // Those n, oldest first.
  function Woken(q: seq<Waiter>, key: nat, bits: set<nat>, n: nat): seq<Waiter>
    decreases |q|
  {
    if q == [] || n == 0 then []
    else if Matches(q[0], key, bits) then [q[0]] + Woken(q[1..], key, bits, n - 1)
    else Woken(q[1..], key, bits, n)
  }

  // The first n of the matching ones, in order of arrival.
  lemma {:induction false} WokenIsPrefix(q: seq<Waiter>, key: nat, bits: set<nat>, n: nat)
    ensures Woken(q, key, bits, n) == Matching(q, key, bits)[..Min(n, |Matching(q, key, bits)|)]
    decreases |q|
  {
    if q != [] && n > 0 {
      if Matches(q[0], key, bits) {
        WokenIsPrefix(q[1..], key, bits, n - 1);
      } else {
        WokenIsPrefix(q[1..], key, bits, n);
      }
    }
  }

  // Nobody else moves: what is left keeps its order within any selection that
  // the wake did not touch.
  lemma {:induction false} LeftKeeps(q: seq<Waiter>, key: nat, bits: set<nat>, n: nat, f: Waiter -> bool)
    requires forall w | Matches(w, key, bits) :: !f(w)
    ensures Filter(Left(q, key, bits, n), f) == Filter(q, f)
    decreases |q|
  {
    if q != [] && n > 0 {
      if Matches(q[0], key, bits) {
        LeftKeeps(q[1..], key, bits, n - 1, f);
      } else {
        LeftKeeps(q[1..], key, bits, n, f);
        var rest := Left(q[1..], key, bits, n);
        assert ([q[0]] + rest)[1..] == rest;
      }
    }
  }

  // A waiter for the key that has a bit of the mask.
  ghost predicate Meets(w: Waiter, key: nat, bits: set<nat>) {
    w.key == key && exists b :: b in w.bitset && b in bits
  }

  lemma MatchesMeans(w: Waiter, key: nat, bits: set<nat>)
    ensures Matches(w, key, bits) <==> Meets(w, key, bits)
  {
    if b :| b in w.bitset && b in bits { assert b in w.bitset * bits; }
  }

  // Only such waiters are woken; nobody is lost; and unless the limit was
  // reached none is left.
  ghost predicate WakeRight(q: seq<Waiter>, key: nat, bits: set<nat>, n: nat, woken: seq<Waiter>, left: seq<Waiter>) {
    && multiset(woken) + multiset(left) == multiset(q) && |woken| <= n
    && (forall w | w in woken :: Meets(w, key, bits))
    && (|woken| < n ==> forall w | w in left :: !Meets(w, key, bits))
  }

  lemma {:induction false} WakeMeans(q: seq<Waiter>, key: nat, bits: set<nat>, n: nat)
    ensures WakeRight(q, key, bits, n, Woken(q, key, bits, n), Left(q, key, bits, n))
    decreases |q|
  {
    hide Meets, Matches;
    if q != [] && n > 0 {
      MatchesMeans(q[0], key, bits);
      assert q == [q[0]] + q[1..];
      WakeMeans(q[1..], key, bits, if Matches(q[0], key, bits) then n - 1 else n);
    }
  }

  // A waiter for another key, or whose bitset misses the mask, is still listed
  // after any wake.
  lemma OthersStay(q: seq<Waiter>, key: nat, bits: set<nat>, n: nat, w: Waiter)
    requires w in q && (w.key != key || w.bitset !! bits)
    ensures w in Left(q, key, bits, n)
  {
    WakeMeans(q, key, bits, n);
    assert w in multiset(q);
    assert w !in Woken(q, key, bits, n);
  }

  // Waking in the key's bucket is waking in the whole list.
  lemma {:induction false} LeftInBucket(q: seq<Waiter>, key: nat, bits: set<nat>, n: nat, f: Waiter -> bool)
    requires forall w | Matches(w, key, bits) :: f(w)
    ensures Filter(Left(q, key, bits, n), f) == Left(Filter(q, f), key, bits, n)
    ensures Woken(Filter(q, f), key, bits, n) == Woken(q, key, bits, n)
    decreases |q|
  {
    if q != [] && n > 0 {
      var rest := Filter(q[1..], f);
      assert f(q[0]) ==> ([q[0]] + rest)[1..] == rest;
      if Matches(q[0], key, bits) {
        LeftInBucket(q[1..], key, bits, n - 1, f);
      } else {
        LeftInBucket(q[1..], key, bits, n, f);
        var left := Left(q[1..], key, bits, n);
        assert ([q[0]] + left)[1..] == left;
      }
    }
  }

  lemma {:induction false} FilterAppend(q: seq<Waiter>, r: seq<Waiter>, f: Waiter -> bool)
    ensures Filter(q + r, f) == Filter(q, f) + Filter(r, f)
  {
    if q == [] {
      assert q + r == r;
    } else {
      FilterAppend(q[1..], r, f);
      assert (q + r)[0] == q[0] && (q + r)[1..] == q[1..] + r;
      Associate([q[0]], Filter(q[1..], f), Filter(r, f));
    }
  }

  // --- The table ---

  class FutexTable {
    const hash: nat -> nat
    const buckets: array<seq<Waiter>>
    ghost var all: seq<Waiter>

    ghost predicate Valid()
      reads this, buckets
    {
      buckets.Length == BUCKETS && forall b | 0 <= b < BUCKETS :: buckets[b] == Filter(all, HashesTo(hash, b))
    }

    constructor (hash: nat -> nat)
      ensures Valid() && all == [] && fresh(buckets)
    {
      this.hash, all := hash, [];
      buckets := new seq<Waiter>[BUCKETS](i => []);
    }

    // The locked part of Wait that queues the caller.
    method PushBack(w: Waiter)
      requires Valid()
      modifies this, buckets
      ensures Valid() && all == old(all) + [w]
    {
      var b := hash(w.key) % BUCKETS;
      buckets[b] := buckets[b] + [w];
      forall i | 0 <= i < BUCKETS ensures buckets[i] == Filter(all + [w], HashesTo(hash, i)) {
        FilterAppend(all, [w], HashesTo(hash, i));
        FilterOne(w, HashesTo(hash, i));
      }
      all := all + [w];
    }

    // Wake. A negative n wakes at most one waiter, because the count is
    // compared after it is raised.
    method Wake(key: nat, n: int, bits: set<nat>) returns (i: nat, ghost woken: seq<Waiter>)
      requires Valid()
      modifies this, buckets
      ensures Valid()
      ensures woken == Woken(old(all), key, bits, Limit(n)) && all == Left(old(all), key, bits, Limit(n))
      ensures i == |woken| == Min(Limit(n), |Matching(old(all), key, bits)|)
      ensures WakeRight(old(all), key, bits, Limit(n), woken, all)
    {
      hide Filter, Left, Woken, WakeRight;
      WokenIsPrefix(all, key, bits, Limit(n));
      WakeMeans(all, key, bits, Limit(n));
      if n == 0 {
        NoneWoken(all, key, bits);
        return 0, [];
      }
      var b := hash(key) % BUCKETS;
      var rest;
      i, rest := TakeOut(buckets[b], key, n, bits);
      woken := Woken(all, key, bits, Limit(n));
      ghost var left := Left(all, key, bits, Limit(n));
      buckets[b] := rest;
      forall c | 0 <= c < BUCKETS ensures buckets[c] == Filter(left, HashesTo(hash, c)) {
        if c == b {
          LeftInBucket(all, key, bits, Limit(n), HashesTo(hash, c));
        } else {
          LeftKeeps(all, key, bits, Limit(n), HashesTo(hash, c));
        }
      }
      LeftInBucket(all, key, bits, Limit(n), HashesTo(hash, b));
      all := left;
    }

    // The locked part of Wait that takes an unwoken caller off its list again.
    method Erase(w: Waiter)
      requires Valid() && w in all && forall i, j | 0 <= i < j < |all| :: all[i].id != all[j].id
      modifies this, buckets
      ensures Valid() && all == Filter(old(all), NotId(w.id))
      ensures forall v :: v in all <==> v in old(all) && v.id != w.id
    {
      FilterMembers(all, NotId(w.id));
      var b := hash(w.key) % BUCKETS;
      forall c | 0 <= c < BUCKETS
        ensures Filter(Filter(all, NotId(w.id)), HashesTo(hash, c)) == Filter(Filter(all, HashesTo(hash, c)), NotId(w.id))
      {
        FiltersSwap(all, NotId(w.id), HashesTo(hash, c));
      }
      forall c | 0 <= c < BUCKETS && c != b
        ensures Filter(Filter(all, HashesTo(hash, c)), NotId(w.id)) == Filter(all, HashesTo(hash, c))
      {
        NotThere(all, HashesTo(hash, c), w);
      }
      buckets[b] := Filter(buckets[b], NotId(w.id));
      all := Filter(all, NotId(w.id));
    }
  }

  function NotId(id: nat): Waiter -> bool {
    (w: Waiter) => w.id != id
  }

  function Limit(n: int): nat {
    if n == 0 then 0 else if n > 0 then n else 1
  }

  // The scan of one bucket: erase and count matching waiters until the count
  // reaches n.
  method TakeOut(q: seq<Waiter>, key: nat, n: int, bits: set<nat>) returns (i: nat, rest: seq<Waiter>)
    requires n != 0
    ensures rest == Left(q, key, bits, Limit(n)) && i == |Woken(q, key, bits, Limit(n))|
  {
    i, rest := 0, q;
    var it := 0;
    assert rest[..0] + Left(rest[0..], key, bits, Limit(n)) == Left(q, key, bits, Limit(n)) by { assert rest[0..] == q; }
    assert rest[0..] == q;
    while it < |rest|
      invariant 0 <= it <= |rest| && i < Limit(n)
      invariant rest[..it] + Left(rest[it..], key, bits, Limit(n) - i) == Left(q, key, bits, Limit(n))
      invariant i + |Woken(rest[it..], key, bits, Limit(n) - i)| == |Woken(q, key, bits, Limit(n))|
      decreases |rest| - it
    {
      var w := rest[it];
      assert rest[it..][1..] == rest[it + 1..];
      if !Matches(w, key, bits) {
        assert rest[..it] + ([w] + Left(rest[it + 1..], key, bits, Limit(n) - i))
            == rest[..it + 1] + Left(rest[it + 1..], key, bits, Limit(n) - i);
        it := it + 1;
      } else {
        var erased := rest[..it] + rest[it + 1..];
        assert erased[..it] == rest[..it] && erased[it..] == rest[it + 1..];
        rest := erased;
        i := i + 1;
        if i >= n {
          assert rest[..it] + rest[it..] == rest;
          return;
        }
      }
    }
    assert rest[it..] == [] && rest[..it] == rest;
  }

  lemma NoneWoken(q: seq<Waiter>, key: nat, bits: set<nat>)
    ensures Left(q, key, bits, 0) == q && Woken(q, key, bits, 0) == []
  {
  }

  lemma {:induction false} FiltersSwap(q: seq<Waiter>, f: Waiter -> bool, g: Waiter -> bool)
    ensures Filter(Filter(q, f), g) == Filter(Filter(q, g), f)
  {
    if q != [] {
      FiltersSwap(q[1..], f, g);
      var a, b := Filter(q[1..], f), Filter(q[1..], g);
      assert ([q[0]] + a)[1..] == a && ([q[0]] + b)[1..] == b;
    }
  }

  lemma {:induction false} NotThere(q: seq<Waiter>, f: Waiter -> bool, w: Waiter)
    requires w in q && !f(w) && forall i, j | 0 <= i < j < |q| :: q[i].id != q[j].id
    ensures Filter(Filter(q, f), NotId(w.id)) == Filter(q, f)
  {
    forall i | 0 <= i < |Filter(q, f)| ensures Filter(q, f)[i].id != w.id {
      var j := FilterFrom(q, f, i);
      var k :| 0 <= k < |q| && q[k] == w;
    }
    FilterSame(Filter(q, f), w.id);
  }

  lemma {:induction false} FilterFrom(q: seq<Waiter>, f: Waiter -> bool, i: nat) returns (j: nat)
    requires i < |Filter(q, f)|
    ensures j < |q| && q[j] == Filter(q, f)[i] && f(q[j])
  {
    if !f(q[0]) {
      j := FilterFrom(q[1..], f, i);
      j := j + 1;
    } else if i == 0 {
      j := 0;
    } else {
      j := FilterFrom(q[1..], f, i - 1);
      j := j + 1;
    }
  }

  lemma {:induction false} FilterMembers(q: seq<Waiter>, f: Waiter -> bool)
    ensures forall v :: v in Filter(q, f) <==> v in q && f(v)
  {
    if q != [] {
      FilterMembers(q[1..], f);
      assert q == [q[0]] + q[1..];
    }
  }

  lemma {:induction false} FilterSame(q: seq<Waiter>, id: nat)
    requires forall i | 0 <= i < |q| :: q[i].id != id
    ensures Filter(q, NotId(id)) == q
  {
    if q != [] { FilterSame(q[1..], id); }
  }

  lemma FilterOne(w: Waiter, f: Waiter -> bool)
    ensures Filter([w], f) == if f(w) then [w] else []
  {
    assert [w][1..] == [];
  }

  // --- All runs of waiting and waking threads ---

  // Blocked(Some(e)): a timeout or a signal has hit and the thread has yet to
  // take the lock again. Granted: a wake took it off its list.
  datatype Local = Idle | Blocked(reason: Option<Errno>) | Granted

  // wakes: the sum of Wake's results. successes: the waits that returned ok.
  datatype System = System(all: seq<Waiter>, threads: map<nat, Local>, wakes: nat, successes: nat)

  datatype Step =
    | Enter(t: nat, key: nat, bitset: set<nat>)
    | Interrupt(t: nat, reason: Errno)
    | DoWake(key: nat, n: int, bits: set<nat>)
    | Return(t: nat)

  predicate Enabled(s: System, a: Step) {
    match a
    case Enter(t, _, _) => t in s.threads && s.threads[t].Idle?
    case Interrupt(t, _) => t in s.threads && s.threads[t].Blocked?
    case DoWake(_, _, _) => true
    case Return(t) => t in s.threads && (s.threads[t].Granted? || (s.threads[t].Blocked? && s.threads[t].reason.Some?))
  }

  function Ids(q: seq<Waiter>): set<nat> {
    if q == [] then {} else {q[0].id} + Ids(q[1..])
  }

  function Grant(threads: map<nat, Local>, ids: set<nat>): map<nat, Local> {
    map t | t in threads :: if t in ids then Granted else threads[t]
  }

  function Apply(s: System, a: Step): System
    requires Enabled(s, a)
  {
    match a
    case Enter(t, key, bitset) =>
      s.(all := s.all + [Waiter(t, key, bitset)], threads := s.threads[t := Blocked(None)])
    case Interrupt(t, reason) => s.(threads := s.threads[t := Blocked(Some(reason))])
    case DoWake(key, n, bits) =>
      var woken := Woken(s.all, key, bits, Limit(n));
      s.(all := Left(s.all, key, bits, Limit(n)), threads := Grant(s.threads, Ids(woken)), wakes := s.wakes + |woken|)
    case Return(t) =>
      if s.threads[t].Granted? then s.(threads := s.threads[t := Idle], successes := s.successes + 1)
      else s.(all := Filter(s.all, NotId(t)), threads := s.threads[t := Idle])
  }

  ghost predicate DistinctIds(q: seq<Waiter>) {
    q == [] || (q[0].id !in Ids(q[1..]) && DistinctIds(q[1..]))
  }

  function GrantedSet(threads: map<nat, Local>): set<nat> {
    set t | t in threads && threads[t].Granted?
  }

  // The list holds exactly the blocked threads, and every wake counted is a
  // success returned or still to be returned.
  ghost predicate Inv(s: System) {
    && DistinctIds(s.all)
    && (forall t: nat :: t in Ids(s.all) <==> t in s.threads && s.threads[t].Blocked?)
    && s.wakes == s.successes + |GrantedSet(s.threads)|
  }

  lemma {:induction false} WakePartitions(q: seq<Waiter>, key: nat, bits: set<nat>, n: nat)
    requires DistinctIds(q)
    ensures var l, w := Left(q, key, bits, n), Woken(q, key, bits, n);
            DistinctIds(l) && Ids(q) == Ids(l) + Ids(w) && Ids(l) !! Ids(w) && |Ids(w)| == |w|
    decreases |q|
  {
    hide Ids, DistinctIds;
    if q == [] || n == 0 {
      IdsNone();
    } else {
      var x, rest := q[0], q[1..];
      assert q == [x] + rest;
      IdsCons(x, rest);
      if Matches(x, key, bits) {
        WakePartitions(rest, key, bits, n - 1);
        IdsCons(x, Woken(rest, key, bits, n - 1));
      } else {
        WakePartitions(rest, key, bits, n);
        IdsCons(x, Left(rest, key, bits, n));
      }
    }
  }

  lemma IdsNone()
    ensures Ids([]) == {} && DistinctIds([])
  {
  }

  lemma IdsCons(w: Waiter, q: seq<Waiter>)
    ensures Ids([w] + q) == {w.id} + Ids(q)
    ensures DistinctIds([w] + q) <==> w.id !in Ids(q) && DistinctIds(q)
  {
    assert ([w] + q)[1..] == q;
  }

  lemma {:induction false} IdsAppend(q: seq<Waiter>, w: Waiter)
    requires DistinctIds(q) && w.id !in Ids(q)
    ensures DistinctIds(q + [w]) && Ids(q + [w]) == Ids(q) + {w.id}
  {
    if q == [] {
      assert (q + [w])[1..] == [];
    } else {
      assert (q + [w])[1..] == q[1..] + [w];
      IdsAppend(q[1..], w);
    }
  }

  lemma {:induction false} IdsErase(q: seq<Waiter>, id: nat)
    requires DistinctIds(q)
    ensures DistinctIds(Filter(q, NotId(id))) && Ids(Filter(q, NotId(id))) == Ids(q) - {id}
  {
    if q != [] {
      IdsErase(q[1..], id);
      var rest := Filter(q[1..], NotId(id));
      assert ([q[0]] + rest)[1..] == rest;
    }
  }

  lemma WakeKeeps(s: System, a: Step)
    requires Inv(s) && a.DoWake?
    ensures Inv(Apply(s, a))
  {
    hide Left, Woken, DistinctIds, Ids;
    var woken := Woken(s.all, a.key, a.bits, Limit(a.n));
    WakePartitions(s.all, a.key, a.bits, Limit(a.n));
    var threads := Grant(s.threads, Ids(woken));
    assert GrantedSet(threads) == GrantedSet(s.threads) + Ids(woken);
    assert GrantedSet(s.threads) !! Ids(woken);
  }

  lemma ThreadKeeps(s: System, a: Step)
    requires Inv(s) && Enabled(s, a) && !a.DoWake?
    ensures Inv(Apply(s, a))
  {
    hide Filter, DistinctIds, Ids, GrantedSet;
    match a
    case Enter(t, key, bitset) =>
      IdsAppend(s.all, Waiter(t, key, bitset));
      GrantedUpdate(s.threads, t, Blocked(None));
    case Interrupt(t, reason) =>
      GrantedUpdate(s.threads, t, Blocked(Some(reason)));
    case Return(t) =>
      GrantedUpdate(s.threads, t, Idle);
      if s.threads[t].Blocked? { IdsErase(s.all, t); }
  }

  lemma GrantedUpdate(threads: map<nat, Local>, t: nat, l: Local)
    requires t in threads && !l.Granted?
    ensures |GrantedSet(threads[t := l])| == |GrantedSet(threads)| - if threads[t].Granted? then 1 else 0
  {
    assert GrantedSet(threads[t := l]) == GrantedSet(threads) - {t};
  }

  ghost predicate Reaches(s: System, steps: seq<Step>, q: System)
    decreases |steps|
  {
    if steps == [] then s == q else Enabled(s, steps[0]) && Reaches(Apply(s, steps[0]), steps[1..], q)
  }

  ghost predicate Init(s: System) {
    s.all == [] && s.wakes == 0 && s.successes == 0 && forall t | t in s.threads :: s.threads[t].Idle?
  }

  lemma {:induction false} RunKeeps(s: System, steps: seq<Step>, q: System)
    requires Inv(s) && Reaches(s, steps, q)
    ensures Inv(q)
    decreases |steps|
  {
    hide Inv, Apply, Enabled;
    if steps != [] {
      if steps[0].DoWake? { WakeKeeps(s, steps[0]); } else { ThreadKeeps(s, steps[0]); }
      RunKeeps(Apply(s, steps[0]), steps[1..], q);
    }
  }

  // Over any interleaving, the wakes counted equal the waits that returned
  // success plus those that are about to, whatever timeouts and signals did.
  lemma Conservation(s: System, steps: seq<Step>, q: System)
    requires Init(s) && Reaches(s, steps, q)
    ensures q.wakes == q.successes + |GrantedSet(q.threads)|
    ensures forall t: nat :: t in Ids(q.all) <==> t in q.threads && q.threads[t].Blocked?
  {
    assert GrantedSet(s.threads) == {};
    assert Inv(s);
    RunKeeps(s, steps, q);
  }

  // futex(2) gives Wake an unsigned count, which the int parameter reads as
  // negative from 2^31 on. The right number is woken exactly when the count is
  // below that or at most one waiter matches.
  function AsInt(val: nat): int
    requires val < 0x1_0000_0000
  {
    if val < 0x8000_0000 then val else val - 0x1_0000_0000
  }

  lemma WakesAskedFor(q: seq<Waiter>, key: nat, bits: set<nat>, val: nat)
    requires val < 0x1_0000_0000
    ensures |Woken(q, key, bits, Limit(AsInt(val)))| == Min(val, |Matching(q, key, bits)|)
       <==> val < 0x8000_0000 || |Matching(q, key, bits)| <= 1
  {
    WokenIsPrefix(q, key, bits, Limit(AsInt(val)));
  }

  // The largest count wakes one of two waiters.
  lemma WakesTooFew(q: seq<Waiter>)
    requires q == [Waiter(0, 4096, {0}), Waiter(1, 4096, {0})]
    ensures |Matching(q, 4096, {0})| == 2 && |Woken(q, 4096, {0}, Limit(AsInt(0xFFFF_FFFF)))| == 1
  {
    assert q[1..] == [q[1]] && q[1..][1..] == [];
    assert 0 in q[0].bitset * {0} && 0 in q[1].bitset * {0};
    var f := Selects(4096, {0});
    assert Filter(q, f) == [q[0]] + Filter(q[1..], f) && Filter(q[1..], f) == [q[1]] + Filter([], f);
    WokenIsPrefix(q, 4096, {0}, 1);
  }
}
