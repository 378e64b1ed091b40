// SignalQueue (junction/kernel/signal.h, junction/kernel/signal.cc): pending
// signals in arrival order beside a mask of the numbers present. A 64-bit
// signal mask is modelled as the set of the numbers whose bits are set.
module SignalQueues {
  import opened Common

  const NUM_SIGNALS := 64
  const NUM_STANDARD := 32
  const MAX_QUEUED_RT := 1024

  type Mask = set<nat>

  datatype SigInfo = SigInfo(signo: nat, data: nat)

  ghost predicate SignalValid(n: nat) {
    0 < n <= NUM_SIGNALS
  }

  // --- The queue as one FIFO per number ---

  function OfNumber(q: seq<SigInfo>, n: nat): seq<SigInfo> {
    if q == [] then [] else (if q[0].signo == n then [q[0]] else []) + OfNumber(q[1..], n)
  }

  lemma {:induction false} OfNumberAppend(q: seq<SigInfo>, r: seq<SigInfo>, n: nat)
    ensures OfNumber(q + r, n) == OfNumber(q, n) + OfNumber(r, n)
  {
    if q == [] {
      assert q + r == r;
    } else {
      OfNumberAppend(q[1..], r, n);
      assert (q + r)[0] == q[0] && (q + r)[1..] == q[1..] + r;
      Associate(if q[0].signo == n then [q[0]] else [], OfNumber(q[1..], n), OfNumber(r, n));
    }
  }

  lemma {:induction false} OfNumberNone(q: seq<SigInfo>, n: nat)
    requires forall i | 0 <= i < |q| :: q[i].signo != n
    ensures OfNumber(q, n) == []
  {
    if q != [] { OfNumberNone(q[1..], n); }
  }

  lemma OfNumberOne(e: SigInfo, n: nat)
    ensures OfNumber([e], n) == if n == e.signo then [e] else []
  {
    assert [e][1..] == [];
  }

  function Without(q: seq<SigInfo>, k: nat): seq<SigInfo>
    requires k < |q|
  {
    q[..k] + q[k + 1..]
  }

  lemma WithoutOne(q: seq<SigInfo>, k: nat)
    requires k < |q|
    ensures multiset(Without(q, k)) + multiset{q[k]} == multiset(q)
  {
    assert q == q[..k] + ([q[k]] + q[k + 1..]);
  }

  // Taking out the first entry of its number takes the head of that FIFO and
  // leaves the others alone.
  lemma OfNumberWithout(q: seq<SigInfo>, k: nat, n: nat)
    requires k < |q| && forall j | 0 <= j < k :: q[j].signo != q[k].signo
    ensures OfNumber(q, n) == (if n == q[k].signo then [q[k]] else []) + OfNumber(Without(q, k), n)
  {
    assert q == q[..k] + ([q[k]] + q[k + 1..]);
    OfNumberAppend(q[..k], [q[k]] + q[k + 1..], n);
    OfNumberAppend([q[k]], q[k + 1..], n);
    OfNumberAppend(q[..k], q[k + 1..], n);
    OfNumberOne(q[k], n);
    if n == q[k].signo { OfNumberNone(q[..k], n); }
  }

  // --- How long it can get ---

  function RealTime(q: seq<SigInfo>): nat {
    if q == [] then 0 else (if q[0].signo >= NUM_STANDARD then 1 else 0) + RealTime(q[1..])
  }

  lemma {:induction false} RealTimeAppend(q: seq<SigInfo>, r: seq<SigInfo>)
    ensures RealTime(q + r) == RealTime(q) + RealTime(r)
  {
    if q == [] {
      assert q + r == r;
    } else {
      RealTimeAppend(q[1..], r);
      assert (q + r)[0] == q[0] && (q + r)[1..] == q[1..] + r;
    }
  }

  lemma RealTimeWithout(q: seq<SigInfo>, k: nat)
    requires k < |q|
    ensures RealTime(Without(q, k)) <= RealTime(q)
  {
    hide RealTime;
    assert q == q[..k] + ([q[k]] + q[k + 1..]);
    RealTimeAppend(q[..k], [q[k]] + q[k + 1..]);
    RealTimeAppend([q[k]], q[k + 1..]);
    RealTimeAppend(q[..k], q[k + 1..]);
  }

  lemma {:induction false} RealTimeBound(q: seq<SigInfo>)
    ensures RealTime(q) <= |q|
  {
    if q != [] { RealTimeBound(q[1..]); }
  }

  // Signals below 32 are queued at most once.
  ghost predicate StandardOnce(q: seq<SigInfo>) {
    forall i, j | 0 <= i < j < |q| && q[i].signo < NUM_STANDARD :: q[i].signo != q[j].signo
  }

  ghost predicate AllValid(q: seq<SigInfo>) {
    forall i | 0 <= i < |q| :: SignalValid(q[i].signo)
  }

  // The numbers below 32 that occur.
  ghost function Standards(q: seq<SigInfo>): set<nat> {
    if q == [] then {} else (if q[0].signo < NUM_STANDARD then {q[0].signo} else {}) + Standards(q[1..])
  }

  lemma {:induction false} StandardOccurs(q: seq<SigInfo>, n: nat) returns (i: nat)
    requires n in Standards(q)
    ensures i < |q| && q[i].signo == n && n < NUM_STANDARD
  {
    if q[0].signo == n && n < NUM_STANDARD {
      i := 0;
    } else {
      i := StandardOccurs(q[1..], n);
      i := i + 1;
    }
  }

  lemma {:induction false} NotStandard(q: seq<SigInfo>, n: nat)
    requires forall i | 0 <= i < |q| :: q[i].signo != n
    ensures n !in Standards(q)
  {
    if q != [] { NotStandard(q[1..], n); }
  }

  lemma {:induction false} LengthSplits(q: seq<SigInfo>)
    requires StandardOnce(q)
    ensures |q| == RealTime(q) + |Standards(q)|
  {
    if q != [] {
      LengthSplits(q[1..]);
      if q[0].signo < NUM_STANDARD {
        assert forall i | 0 <= i < |q[1..]| :: q[1..][i] == q[i + 1];
        NotStandard(q[1..], q[0].signo);
        assert Standards(q) == Standards(q[1..]) + {q[0].signo};
      } else {
        assert Standards(q) == Standards(q[1..]);
      }
    }
  }

  lemma StandardsFew(q: seq<SigInfo>)
    requires AllValid(q)
    ensures |Standards(q)| <= NUM_STANDARD - 1
  {
    forall n | n in Standards(q) ensures n in Between(NUM_STANDARD) {
      var i := StandardOccurs(q, n);
    }
    SubsetSize(Standards(q), Between(NUM_STANDARD));
  }

  // The numbers from 1 up to n - 1.
  ghost function Between(n: nat): (r: set<nat>)
    requires n > 0
    ensures |r| == n - 1 && forall x: nat :: x in r <==> 0 < x < n
  {
    if n == 1 then {} else Between(n - 1) + {n - 1}
  }

  lemma {:induction false} SubsetSize(a: set<nat>, b: set<nat>)
    requires a <= b
    ensures |a| <= |b|
  {
    if a != {} {
      var x :| x in a;
      SubsetSize(a - {x}, b - {x});
    }
  }

  ghost predicate QueueOk(q: seq<SigInfo>, pending: Mask) {
    && AllValid(q) && StandardOnce(q) && RealTime(q) <= MAX_QUEUED_RT
    && forall n: nat :: n in pending <==> Present(q, n)
  }

  lemma QueueBound(q: seq<SigInfo>, pending: Mask)
    requires QueueOk(q, pending)
    ensures |q| <= MAX_QUEUED_RT + NUM_STANDARD - 1
  {
    LengthSplits(q);
    StandardsFew(q);
  }

  // The entry Pop takes: of the lowest unblocked number, the oldest.
  ghost predicate IsNext(q: seq<SigInfo>, blocked: Mask, k: nat) {
    && k < |q| && q[k].signo !in blocked
    && (forall i | 0 <= i < |q| && q[i].signo !in blocked :: q[k].signo <= q[i].signo)
    && (forall j | 0 <= j < k :: q[j].signo != q[k].signo)
  }

  lemma AppendOk(q: seq<SigInfo>, pending: Mask, e: SigInfo)
    requires QueueOk(q, pending) && SignalValid(e.signo)
    requires if e.signo < NUM_STANDARD then e.signo !in pending else |q| < MAX_QUEUED_RT
    ensures QueueOk(q + [e], pending + {e.signo})
  {
    RealTimeAppend(q, [e]);
    RealTimeBound(q);
    assert RealTime([e]) <= 1 by { RealTimeBound([e]); }
    forall n: nat ensures n in pending + {e.signo} <==> Present(q + [e], n) {
      if n in pending {
        var i :| 0 <= i < |q| && q[i].signo == n;
        assert (q + [e])[i].signo == n;
      } else if n == e.signo {
        assert (q + [e])[|q|].signo == n;
      }
    }
    if e.signo < NUM_STANDARD {
      assert [e][1..] == [];
      assert RealTime([e]) == 0;
    }
  }

  // `more` says whether another entry of that number remains.
  lemma WithoutOk(q: seq<SigInfo>, pending: Mask, k: nat, more: bool)
    requires QueueOk(q, pending) && k < |q|
    requires forall j | 0 <= j < k :: q[j].signo != q[k].signo
    requires more <==> exists i :: k < i < |q| && q[i].signo == q[k].signo
    ensures QueueOk(Without(q, k), if more then pending else pending - {q[k].signo})
  {
    var r := Without(q, k);
    RealTimeWithout(q, k);
    assert forall i | 0 <= i < |r| :: r[i] == q[if i < k then i else i + 1];
    forall n: nat ensures Present(r, n) <==> n in pending && (more || n != q[k].signo) {
      assert n in pending <==> Present(q, n);
      PresentWithout(q, k, n);
    }
  }

  ghost predicate Present(q: seq<SigInfo>, n: nat) {
    exists i :: 0 <= i < |q| && q[i].signo == n
  }

  lemma PresentWithout(q: seq<SigInfo>, k: nat, n: nat)
    requires k < |q| && forall j | 0 <= j < k :: q[j].signo != q[k].signo
    ensures Present(Without(q, k), n) <==>
            if n == q[k].signo then exists i :: k < i < |q| && q[i].signo == n else Present(q, n)
  {
    var r := Without(q, k);
    assert forall i | 0 <= i < |r| :: r[i] == q[if i < k then i else i + 1];
    if i :| 0 <= i < |q| && i != k && q[i].signo == n {
      assert r[if i < k then i else i - 1].signo == n;
    }
  }

  lemma AcceptKeepsOrder(acc: seq<SigInfo>, del: seq<SigInfo>, q: seq<SigInfo>, e: SigInfo, n: nat)
    requires OfNumber(acc, n) == OfNumber(del, n) + OfNumber(q, n)
    ensures OfNumber(acc + [e], n) == OfNumber(del, n) + OfNumber(q + [e], n)
  {
    hide OfNumber;
    OfNumberAppend(acc, [e], n);
    OfNumberAppend(q, [e], n);
  }

  lemma DeliverKeepsOrder(acc: seq<SigInfo>, del: seq<SigInfo>, q: seq<SigInfo>, k: nat, n: nat)
    requires OfNumber(acc, n) == OfNumber(del, n) + OfNumber(q, n)
    requires k < |q| && forall j | 0 <= j < k :: q[j].signo != q[k].signo
    ensures OfNumber(acc, n) == OfNumber(del + [q[k]], n) + OfNumber(Without(q, k), n)
  {
    hide OfNumber, Without;
    var d, h, rest := OfNumber(del, n), OfNumber([q[k]], n), OfNumber(Without(q, k), n);
    assert OfNumber(q, n) == h + rest by { OfNumberWithout(q, k, n); OfNumberOne(q[k], n); }
    assert OfNumber(del + [q[k]], n) == d + h by { OfNumberAppend(del, [q[k]], n); }
    Associate(d, h, rest);
  }

  lemma PendingEmpty(q: seq<SigInfo>, pending: Mask, blocked: Mask)
    requires QueueOk(q, pending)
    ensures pending - blocked == {} <==> forall i | 0 <= i < |q| :: q[i].signo in blocked
  {
    if pending - blocked == {} {
      forall i | 0 <= i < |q| ensures q[i].signo in blocked {
        assert q[i].signo in pending;
        assert q[i].signo !in pending - blocked;
      }
    } else {
      var n :| n in pending - blocked;
      var i :| 0 <= i < |q| && q[i].signo == n;
    }
  }

  lemma Occurs(q: seq<SigInfo>, pending: Mask, n: nat)
    requires QueueOk(q, pending) && n in pending
    ensures exists i :: 0 <= i < |q| && q[i].signo == n
  {
  }

  lemma StandardAlone(q: seq<SigInfo>, pending: Mask, k: nat)
    requires QueueOk(q, pending) && k < |q| && q[k].signo < NUM_STANDARD
    ensures !exists i :: k < i < |q| && q[i].signo == q[k].signo
  {
  }

  lemma NextIs(q: seq<SigInfo>, pending: Mask, blocked: Mask, k: nat)
    requires QueueOk(q, pending) && k < |q| && pending - blocked != {}
    requires q[k].signo == Least(pending - blocked)
    requires forall j | 0 <= j < k :: q[j].signo != q[k].signo
    ensures IsNext(q, blocked, k)
  {
    forall i | 0 <= i < |q| && q[i].signo !in blocked ensures q[k].signo <= q[i].signo {
      assert q[i].signo in pending - blocked;
    }
  }

  // accepted and delivered record what Enqueue took and Pop removed.
  class SignalQueue {
    var queue: seq<SigInfo>
    var pending: Mask
    ghost var accepted: seq<SigInfo>
    ghost var delivered: seq<SigInfo>

    // Per number, the accepted signals are the delivered ones followed by the
    // queued ones.
    ghost predicate Valid()
      reads this
    {
      && QueueOk(queue, pending)
      && forall n: nat :: OfNumber(accepted, n) == OfNumber(delivered, n) + OfNumber(queue, n)
    }

    constructor ()
      ensures Valid() && queue == []
    {
      queue, pending, accepted, delivered := [], {}, [], [];
    }

    method Enqueue(info: SigInfo) returns (ok: bool)
      requires Valid() && SignalValid(info.signo)
      modifies this
      ensures Valid()
      ensures ok <==> if info.signo < NUM_STANDARD then OfNumber(old(queue), info.signo) == []
                      else |old(queue)| < MAX_QUEUED_RT
      ensures queue == if ok then old(queue) + [info] else old(queue)
      ensures delivered == old(delivered) && accepted == if ok then old(accepted) + [info] else old(accepted)
    {
      hide OfNumber, QueueOk;
      PendingMeans(queue, pending, info.signo);
      if info.signo < NUM_STANDARD {
        if info.signo in pending {
          return false;
        }
      } else if |queue| >= MAX_QUEUED_RT {
        return false;
      }
      AppendOk(queue, pending, info);
      forall n: nat ensures OfNumber(accepted + [info], n) == OfNumber(delivered, n) + OfNumber(queue + [info], n) {
        AcceptKeepsOrder(accepted, delivered, queue, info, n);
      }
      queue, pending, accepted := queue + [info], pending + {info.signo}, accepted + [info];
      return true;
    }

    method Pop(blocked: Mask, remove: bool) returns (r: Option<SigInfo>)
      requires Valid()
      modifies this
      ensures Valid() && accepted == old(accepted)
      ensures r == None <==> forall i | 0 <= i < |old(queue)| :: old(queue)[i].signo in blocked
      ensures r == None || !remove ==> queue == old(queue) && pending == old(pending) && delivered == old(delivered)
      ensures r.Some? ==> exists k: nat ::
                && IsNext(old(queue), blocked, k) && r.value == old(queue)[k]
                && (remove ==> queue == Without(old(queue), k) && delivered == old(delivered) + [r.value])
      // Of the unblocked signals, one of the lowest number.
      ensures r.Some? ==>
                && r.value in old(queue) && r.value.signo !in blocked
                && forall i | 0 <= i < |old(queue)| && old(queue)[i].signo !in blocked ::
                     r.value.signo <= old(queue)[i].signo
      ensures r.Some? && remove ==> multiset(queue) + multiset{r.value} == multiset(old(queue))
    {
      hide OfNumber, QueueOk, Without;
      PendingEmpty(queue, pending, blocked);
      if pending - blocked == {} {
        return None;
      }
      var signo := Least(pending - blocked);
      Occurs(queue, pending, signo);
      var p := 0;
      while queue[p].signo != signo
        invariant 0 <= p < |queue|
        invariant forall j | 0 <= j < p :: queue[j].signo != signo
        decreases |queue| - p
      {
        p := p + 1;
      }
      NextIs(queue, pending, blocked, p);
      r := Some(queue[p]);
      if remove {
        Remove(p);
      }
    }

    // Erase the entry at p; the bit goes with the last entry of its number. A
    // standard signal is never queued twice, so the scan stops at once.
    method Remove(p: nat)
      requires Valid() && p < |queue|
      requires forall j | 0 <= j < p :: queue[j].signo != queue[p].signo
      modifies this
      ensures Valid() && accepted == old(accepted)
      ensures queue == Without(old(queue), p) && delivered == old(delivered) + [old(queue)[p]]
      ensures multiset(queue) + multiset{old(queue)[p]} == multiset(old(queue))
    {
      WithoutOne(queue, p);
      hide OfNumber, QueueOk, Without;
      var signo, more := queue[p].signo, false;
      if signo >= NUM_STANDARD {
        more := FindMore(p);
      } else {
        StandardAlone(queue, pending, p);
      }
      WithoutOk(queue, pending, p, more);
      forall n: nat ensures OfNumber(accepted, n) == OfNumber(delivered + [queue[p]], n) + OfNumber(Without(queue, p), n) {
        DeliverKeepsOrder(accepted, delivered, queue, p, n);
      }
      delivered := delivered + [queue[p]];
      queue := Without(queue, p);
      if !more {
        pending := pending - {signo};
      }
    }

    // The rest of the scan: is there another entry of the number at p?
    method FindMore(p: nat) returns (more: bool)
      requires p < |queue|
      ensures more <==> exists i :: p < i < |queue| && queue[i].signo == queue[p].signo
    {
      var i := p + 1;
      while i < |queue| && queue[i].signo != queue[p].signo
        invariant p < i <= |queue|
        invariant forall j | p < j < i :: queue[j].signo != queue[p].signo
      {
        i := i + 1;
      }
      return i < |queue|;
    }
  }

  lemma {:induction false} PendingMeans(q: seq<SigInfo>, pending: Mask, n: nat)
    requires QueueOk(q, pending)
    ensures n in pending <==> OfNumber(q, n) != []
  {
    if n in pending {
      var i :| 0 <= i < |q| && q[i].signo == n;
      assert q == q[..i] + q[i..];
      OfNumberAppend(q[..i], q[i..], n);
    } else {
      OfNumberNone(q, n);
    }
  }
}
