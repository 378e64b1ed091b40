// The notification protocol between signal senders and the threads of one
// process (junction/kernel/proc.h, junction/kernel/signal.h,
// junction/kernel/signal.cc). A step is a region under one queue's lock. A
// thread that found no signal keeps its own lock until it has cleared
// notified_, while process-wide senders may already be queueing. A sender
// visits the threads one by one, in any order.
module Notify {
  import opened Common
  import opened SignalQueues

  const SIGKILL := 9
  const SIGSTOP := 19

  type Tid = nat

  datatype Phase = Running | Resetting

  datatype Thread = Thread(
    own: seq<SigInfo>, blocked: Mask, saved: Option<Mask>, notified: bool, phase: Phase)

  // toVisit: the threads whose SharedSignalNotifyCheck is still to come.
  datatype Sender = Sender(signo: nat, toVisit: set<Tid>)

  datatype Proc = Proc(threads: map<Tid, Thread>, shared: seq<SigInfo>, stopped: bool, senders: seq<Sender>)

  ghost predicate Ready(p: Proc, t: Thread, n: nat) {
    (Present(t.own, n) || Present(p.shared, n)) && n !in t.blocked
  }

  ghost predicate AnyReady(p: Proc, t: Thread) {
    exists n: nat :: Ready(p, t, n)
  }

  // SetInterruptFlagIfNeeded.
  ghost function Flagged(p: Proc, t: Thread): Thread {
    if AnyReady(p, t) then t.(notified := true) else t
  }

  function Strip(m: Mask): Mask {
    m - {SIGKILL, SIGSTOP}
  }

  // SignalQueue::Enqueue accepts.
  ghost predicate Accepts(q: seq<SigInfo>, e: SigInfo) {
    if e.signo < NUM_STANDARD then !Present(q, e.signo) else |q| < MAX_QUEUED_RT
  }

  datatype Step =
    | SendProcess(info: SigInfo)
    | Stop
    | Continue
    | Visit(sender: nat, t: Tid)
    | SendThread(t: Tid, info: SigInfo)
    | ReplaceMask(t: Tid, mask: Mask)
    | ReplaceAndSave(t: Tid, mask: Mask)
    | RestoreBlocked(t: Tid, interrupted: bool)
    | DeliverMask(t: Tid, mask: Mask)
    | PopOwn(t: Tid, k: nat)
    | PopShared(t: Tid, k: nat)
    | FindNone(t: Tid)
    | Reset(t: Tid)

  ghost predicate NothingNext(q: seq<SigInfo>, blocked: Mask) {
    forall i | 0 <= i < |q| :: q[i].signo in blocked
  }

  ghost predicate Enabled(p: Proc, a: Step) {
    match a
    case SendProcess(_) => true
    case Stop => true
    case Continue => true
    case Visit(i, t) =>
      i < |p.senders| && t in p.senders[i].toVisit && t in p.threads && p.threads[t].phase.Running?
    case PopOwn(t, k) => t in p.threads && p.threads[t].phase.Running? && IsNext(p.threads[t].own, p.threads[t].blocked, k)
    case PopShared(t, k) =>
      && t in p.threads && p.threads[t].phase.Running? && !p.stopped
      && NothingNext(p.threads[t].own, p.threads[t].blocked) && IsNext(p.shared, p.threads[t].blocked, k)
    case FindNone(t) =>
      && t in p.threads && p.threads[t].phase.Running? && !p.stopped
      && NothingNext(p.threads[t].own, p.threads[t].blocked) && NothingNext(p.shared, p.threads[t].blocked)
    case Reset(t) => t in p.threads && p.threads[t].phase.Resetting?
    case RestoreBlocked(t, _) => t in p.threads && p.threads[t].phase.Running? && p.threads[t].saved.Some?
    case ReplaceAndSave(t, _) => t in p.threads && p.threads[t].phase.Running? && p.threads[t].saved.None?
    case ReplaceMask(t, _) => t in p.threads && p.threads[t].phase.Running?
    case DeliverMask(t, _) => t in p.threads && p.threads[t].phase.Running?
    case SendThread(t, _) => t in p.threads && p.threads[t].phase.Running?
  }

  ghost function MaskReplaced(p: Proc, t: Thread, mask: Mask): Thread {
    if Strip(mask) == t.blocked then t else Flagged(p, t.(blocked := Strip(mask)))
  }

  ghost function Apply(p: Proc, a: Step): Proc
    requires Enabled(p, a)
  {
    match a
    case SendProcess(info) =>
      var q := if Accepts(p.shared, info) then p.shared + [info] else p.shared;
      var visit := if info.signo == SIGKILL || Accepts(p.shared, info) then p.threads.Keys else {};
      p.(shared := q, senders := p.senders + [Sender(info.signo, visit)],
         stopped := p.stopped && info.signo != SIGKILL)
    case Stop => p.(stopped := true, senders := p.senders + [Sender(SIGSTOP, p.threads.Keys)])
    case Continue => p.(stopped := false)
    case Visit(i, t) =>
      var s, th := p.senders[i], p.threads[t];
      p.(senders := p.senders[i := s.(toVisit := s.toVisit - {t})],
         threads := p.threads[t := if s.signo in th.blocked then th else th.(notified := true)])
    case SendThread(t, info) =>
      var th := p.threads[t];
      if !Accepts(th.own, info) then p
      else p.(threads := p.threads[t := th.(own := th.own + [info], notified := th.notified || info.signo !in th.blocked)])
    case ReplaceMask(t, mask) => p.(threads := p.threads[t := MaskReplaced(p, p.threads[t], mask)])
    case ReplaceAndSave(t, mask) =>
      var th := p.threads[t];
      if th.blocked == mask then p
      else p.(threads := p.threads[t := MaskReplaced(p, th.(saved := Some(th.blocked)), mask)])
    case RestoreBlocked(t, interrupted) =>
      var th := p.threads[t];
      if interrupted then p
      else if th.saved.value == th.blocked then p.(threads := p.threads[t := th.(saved := None)])
      else p.(threads := p.threads[t := Flagged(p, th.(blocked := th.saved.value, saved := None))])
    // The saved mask, if any, moves to the signal frame before the handler's
    // mask is installed.
    case DeliverMask(t, mask) =>
      p.(threads := p.threads[t := MaskReplaced(p, p.threads[t].(saved := None), mask)])
    case PopOwn(t, k) =>
      p.(threads := p.threads[t := p.threads[t].(own := Without(p.threads[t].own, k))])
    case PopShared(t, k) => p.(shared := Without(p.shared, k))
    case FindNone(t) => p.(threads := p.threads[t := p.threads[t].(phase := Resetting)])
    case Reset(t) =>
      var th := p.threads[t].(notified := false, phase := Running);
      p.(threads := p.threads[t :=
        if th.saved.Some? then Flagged(p, th.(blocked := th.saved.value, saved := None)) else th])
  }

  // --- The invariant ---

  // Some sender of n has yet to visit the thread.
  ghost predicate Coming(p: Proc, t: Tid, n: nat) {
    exists i :: 0 <= i < |p.senders| && p.senders[i].signo == n && t in p.senders[i].toVisit
  }

  // A thread about to clear its flag has nothing in its own queue, and what
  // arrived in the shared one since it looked still has its visit to come.
  ghost predicate ThreadOk(p: Proc, t: Tid)
    requires t in p.threads
  {
    var th := p.threads[t];
    && SIGKILL !in th.blocked && SIGSTOP !in th.blocked
    && (th.saved.Some? ==> SIGKILL !in th.saved.value && SIGSTOP !in th.saved.value)
    && forall n: nat | Ready(p, th, n) :: (th.phase.Running? && th.notified) || Coming(p, t, n)
  }

  ghost predicate Inv(p: Proc) {
    forall t | t in p.threads :: ThreadOk(p, t)
  }

  // No signal has been sent yet.
  ghost predicate Init(p: Proc) {
    && p.shared == [] && p.senders == []
    && forall t | t in p.threads ::
         && p.threads[t].own == [] && p.threads[t].saved == None && p.threads[t].phase.Running?
         && SIGKILL !in p.threads[t].blocked && SIGSTOP !in p.threads[t].blocked
  }

  lemma ComingKept(p: Proc, q: Proc, t: Tid, n: nat)
    requires Coming(p, t, n) && |p.senders| <= |q.senders|
    requires forall i | 0 <= i < |p.senders| && p.senders[i].signo == n && t in p.senders[i].toVisit ::
               q.senders[i].signo == n && t in q.senders[i].toVisit
    ensures Coming(q, t, n)
  {
    var i :| 0 <= i < |p.senders| && p.senders[i].signo == n && t in p.senders[i].toVisit;
    assert q.senders[i].signo == n;
  }

  lemma PresentAppend(q: seq<SigInfo>, e: SigInfo, n: nat)
    ensures Present(q + [e], n) <==> Present(q, n) || n == e.signo
  {
    if Present(q, n) {
      var i :| 0 <= i < |q| && q[i].signo == n;
      assert (q + [e])[i].signo == n;
    }
    if n == e.signo { assert (q + [e])[|q|].signo == n; }
  }

  lemma PresentWithoutAny(q: seq<SigInfo>, k: nat, n: nat)
    requires k < |q| && Present(Without(q, k), n)
    ensures Present(q, n)
  {
    var r := Without(q, k);
    var i :| 0 <= i < |r| && r[i].signo == n;
    assert q[if i < k then i else i + 1].signo == n;
  }

  lemma SendProcessKeeps(p: Proc, a: Step, t: Tid)
    requires Inv(p) && a.SendProcess? && t in p.threads
    ensures ThreadOk(Apply(p, a), t)
  {
    var q := Apply(p, a);
    var th := p.threads[t];
    forall n: nat | Ready(q, th, n) ensures (th.phase.Running? && th.notified) || Coming(q, t, n) {
      PresentAppend(p.shared, a.info, n);
      if Ready(p, th, n) {
        if Coming(p, t, n) { ComingKept(p, q, t, n); }
      } else {
        assert q.senders[|p.senders|] == Sender(n, p.threads.Keys);
      }
    }
  }

  // A step that changes no queue and no sender keeps the other threads' state.
  lemma OthersKept(p: Proc, q: Proc, t: Tid)
    requires Inv(p) && t in p.threads && t in q.threads && q.threads[t] == p.threads[t]
    requires q.shared == p.shared && q.senders == p.senders
    ensures ThreadOk(q, t)
  {
    forall n: nat | Ready(q, q.threads[t], n)
      ensures (q.threads[t].phase.Running? && q.threads[t].notified) || Coming(q, t, n)
    {
      assert Ready(p, p.threads[t], n);
      if Coming(p, t, n) { ComingKept(p, q, t, n); }
    }
  }

  lemma VisitKeeps(p: Proc, a: Step, t: Tid)
    requires Inv(p) && Enabled(p, a) && a.Visit? && t in p.threads
    ensures ThreadOk(Apply(p, a), t)
  {
    var q := Apply(p, a);
    var th := q.threads[t];
    forall n: nat | Ready(q, th, n) ensures (th.phase.Running? && th.notified) || Coming(q, t, n) {
      assert Ready(p, p.threads[t], n);
      if Coming(p, t, n) && !(t == a.t && n == p.senders[a.sender].signo) { ComingKept(p, q, t, n); }
    }
  }

  lemma SendThreadKeeps(p: Proc, a: Step, t: Tid)
    requires Inv(p) && Enabled(p, a) && a.SendThread? && t in p.threads
    ensures ThreadOk(Apply(p, a), t)
  {
    var q := Apply(p, a);
    var th := q.threads[t];
    forall n: nat | Ready(q, th, n) ensures (th.phase.Running? && th.notified) || Coming(q, t, n) {
      if t == a.t { PresentAppend(p.threads[t].own, a.info, n); }
      if Ready(p, p.threads[t], n) && Coming(p, t, n) { ComingKept(p, q, t, n); }
    }
  }

  // After SetInterruptFlagIfNeeded nothing ready goes unnoticed.
  lemma FlaggedOk(p: Proc, q: Proc, t: Tid, th: Thread)
    requires t in q.threads && q.threads[t] == Flagged(p, th) && th.phase.Running?
    requires q.shared == p.shared
    requires SIGKILL !in th.blocked && SIGSTOP !in th.blocked
    requires th.saved.Some? ==> SIGKILL !in th.saved.value && SIGSTOP !in th.saved.value
    ensures ThreadOk(q, t)
  {
    forall n: nat | Ready(q, q.threads[t], n) ensures q.threads[t].notified {
      assert Ready(p, th, n);
    }
  }

  lemma MaskKeeps(p: Proc, a: Step, t: Tid)
    requires Inv(p) && Enabled(p, a) && t in p.threads
    requires a.ReplaceMask? || a.ReplaceAndSave? || a.RestoreBlocked? || a.DeliverMask?
    ensures ThreadOk(Apply(p, a), t)
  {
    var q := Apply(p, a);
    var th := p.threads[t];
    if t != a.t || q.threads[t] == th {
      OthersKept(p, q, t);
    } else if q.threads[t].blocked == th.blocked {
      SavedOnly(p, q, t);
    } else {
      match a
      case ReplaceMask(_, mask) => FlaggedOk(p, q, t, th.(blocked := Strip(mask)));
      case ReplaceAndSave(_, mask) => FlaggedOk(p, q, t, th.(saved := Some(th.blocked), blocked := Strip(mask)));
      case DeliverMask(_, mask) => FlaggedOk(p, q, t, th.(saved := None, blocked := Strip(mask)));
      case RestoreBlocked(_, _) => FlaggedOk(p, q, t, th.(blocked := th.saved.value, saved := None));
    }
  }

  // Only the saved mask changes, to the current one or to none.
  lemma SavedOnly(p: Proc, q: Proc, t: Tid)
    requires Inv(p) && t in p.threads && t in q.threads && q.shared == p.shared && q.senders == p.senders
    requires q.threads[t] == p.threads[t].(saved := q.threads[t].saved)
    requires q.threads[t].saved.Some? ==> q.threads[t].saved.value == p.threads[t].blocked
    ensures ThreadOk(q, t)
  {
    forall n: nat | Ready(q, q.threads[t], n)
      ensures (q.threads[t].phase.Running? && q.threads[t].notified) || Coming(q, t, n)
    {
      assert Ready(p, p.threads[t], n);
      if Coming(p, t, n) { ComingKept(p, q, t, n); }
    }
  }

  lemma PopKeeps(p: Proc, a: Step, t: Tid)
    requires Inv(p) && Enabled(p, a) && (a.PopOwn? || a.PopShared?) && t in p.threads
    ensures ThreadOk(Apply(p, a), t)
  {
    var q := Apply(p, a);
    var th := q.threads[t];
    forall n: nat | Ready(q, th, n) ensures (th.phase.Running? && th.notified) || Coming(q, t, n) {
      if a.PopOwn? && a.t == t {
        if Present(th.own, n) { PresentWithoutAny(p.threads[t].own, a.k, n); }
      } else if a.PopShared? {
        if Present(q.shared, n) { PresentWithoutAny(p.shared, a.k, n); }
      }
      assert Ready(p, p.threads[t], n);
      if Coming(p, t, n) { ComingKept(p, q, t, n); }
    }
  }

  lemma FindNoneKeeps(p: Proc, a: Step, t: Tid)
    requires Inv(p) && Enabled(p, a) && a.FindNone? && t in p.threads
    ensures ThreadOk(Apply(p, a), t)
  {
    if t != a.t { OthersKept(p, Apply(p, a), t); }
  }

  lemma ResetKeeps(p: Proc, a: Step, t: Tid)
    requires Inv(p) && Enabled(p, a) && a.Reset? && t in p.threads
    ensures ThreadOk(Apply(p, a), t)
  {
    var q := Apply(p, a);
    var th := p.threads[t];
    if t != a.t {
      OthersKept(p, q, t);
    } else if th.saved.Some? {
      FlaggedOk(p, q, t, th.(notified := false, phase := Running, blocked := th.saved.value, saved := None));
    } else {
      forall n: nat | Ready(q, q.threads[t], n) ensures Coming(q, t, n) {
        assert Ready(p, th, n);
        ComingKept(p, q, t, n);
      }
    }
  }

  lemma JobControlKeeps(p: Proc, a: Step, t: Tid)
    requires Inv(p) && (a.Stop? || a.Continue?) && t in p.threads
    ensures ThreadOk(Apply(p, a), t)
  {
    var q := Apply(p, a);
    forall n: nat | Ready(q, q.threads[t], n)
      ensures (q.threads[t].phase.Running? && q.threads[t].notified) || Coming(q, t, n)
    {
      assert Ready(p, p.threads[t], n);
      if Coming(p, t, n) { ComingKept(p, q, t, n); }
    }
  }

  lemma StepKeeps(p: Proc, a: Step)
    requires Inv(p) && Enabled(p, a)
    ensures Inv(Apply(p, a)) && Apply(p, a).threads.Keys == p.threads.Keys
  {
    forall t | t in p.threads ensures ThreadOk(Apply(p, a), t) {
      ThreadKeeps(p, a, t);
    }
  }

  lemma ThreadKeeps(p: Proc, a: Step, t: Tid)
    requires Inv(p) && Enabled(p, a) && t in p.threads
    ensures ThreadOk(Apply(p, a), t)
  {
    hide ThreadOk, Inv;
    match a
    case SendProcess(_) => SendProcessKeeps(p, a, t);
    case Stop => JobControlKeeps(p, a, t);
    case Continue => JobControlKeeps(p, a, t);
    case Visit(_, _) => VisitKeeps(p, a, t);
    case SendThread(_, _) => SendThreadKeeps(p, a, t);
    case PopOwn(_, _) => PopKeeps(p, a, t);
    case PopShared(_, _) => PopKeeps(p, a, t);
    case FindNone(_) => FindNoneKeeps(p, a, t);
    case Reset(_) => ResetKeeps(p, a, t);
    case _ => MaskKeeps(p, a, t);
  }

  // --- What a step is for ---

  // A mask change blocks exactly what was asked for, and a restored mask is the
  // one that was saved.
  lemma MaskChanges(p: Proc, a: Step, n: nat)
    requires Inv(p) && Enabled(p, a)
    requires a.ReplaceMask? || a.ReplaceAndSave? || a.RestoreBlocked? || a.DeliverMask? || a.Reset?
    ensures var th, u := p.threads[a.t], Apply(p, a).threads[a.t];
            match a
            case Reset(_) =>
              && u.saved == None && u.phase.Running?
              && (n in u.blocked <==> n in if th.saved.Some? then th.saved.value else th.blocked)
              && (u.notified ==> th.saved.Some? && AnyReady(Apply(p, a), u))
            case RestoreBlocked(_, interrupted) =>
              if interrupted then u == th
              else u.saved == None && (n in u.blocked <==> n in th.saved.value)
            case ReplaceAndSave(_, mask) =>
              && (n in u.blocked <==> n in mask && n != SIGKILL && n != SIGSTOP)
              && u.saved == if mask == th.blocked then None else Some(th.blocked)
            case _ =>
              && (n in u.blocked <==> n in a.mask && n != SIGKILL && n != SIGSTOP)
              && u.saved == if a.DeliverMask? then None else th.saved
  {
    assert ThreadOk(p, a.t);
    if a.Reset? && Apply(p, a).threads[a.t].notified { ResetReason(p, a); }
  }

  lemma ResetReason(p: Proc, a: Step)
    requires Enabled(p, a) && a.Reset? && Apply(p, a).threads[a.t].notified
    ensures AnyReady(Apply(p, a), Apply(p, a).threads[a.t])
  {
    var u := Apply(p, a).threads[a.t];
    assert AnyReady(p, u.(notified := false));
    var n: nat :| Ready(p, u.(notified := false), n);
    assert Ready(Apply(p, a), u, n);
  }

  // Only SIGSTOP's sender stops the process; SIGCONT's and SIGKILL let it run.
  lemma JobControl(p: Proc, a: Step)
    requires Enabled(p, a)
    ensures Apply(p, a).stopped <==>
            a.Stop? || (p.stopped && !a.Continue? && !(a.SendProcess? && a.info.signo == SIGKILL))
    ensures p.stopped ==> !Enabled(p, FindNone(0)) && forall t: Tid, k: nat :: !Enabled(p, PopShared(t, k))
    // Their senders visit every thread, also when SIGKILL is queued already,
    // and a visit is made once.
    ensures a.Stop? ==> forall t | t in p.threads :: Coming(Apply(p, a), t, SIGSTOP)
    ensures a.SendProcess? && a.info.signo == SIGKILL ==> forall t | t in p.threads :: Coming(Apply(p, a), t, SIGKILL)
    ensures a.Visit? ==> Apply(p, a).senders[a.sender].toVisit == p.senders[a.sender].toVisit - {a.t}
  {
    var q := Apply(p, a);
    if a.Stop? || a.SendProcess? {
      assert q.senders[|p.senders|].toVisit <= p.threads.Keys;
    }
  }

  // A thread is newly notified only for a signal that it does not block and
  // that is queued, or was when its sender set out.
  lemma NoSpuriousNotification(p: Proc, a: Step, t: Tid)
    requires Enabled(p, a) && t in p.threads && !p.threads[t].notified && Apply(p, a).threads[t].notified
    ensures var q := Apply(p, a);
            exists n: nat :: n !in q.threads[t].blocked &&
              (Ready(q, q.threads[t], n) || (a.Visit? && a.t == t && n == p.senders[a.sender].signo))
  {
    var q := Apply(p, a);
    var u := q.threads[t];
    if a.SendThread? {
      PresentAppend(p.threads[t].own, a.info, a.info.signo);
      assert Ready(q, u, a.info.signo);
    } else if !a.Visit? {
      assert AnyReady(p, u.(notified := false));
      var n: nat :| Ready(p, u.(notified := false), n);
      assert Ready(q, u, n);
    }
  }

  // --- Whole runs ---

  ghost predicate Reaches(p: Proc, steps: seq<Step>, q: Proc)
    decreases |steps|
  {
    if steps == [] then p == q
    else Enabled(p, steps[0]) && Reaches(Apply(p, steps[0]), steps[1..], q)
  }

  lemma {:induction false} RunKeeps(p: Proc, steps: seq<Step>, q: Proc)
    requires Inv(p) && Reaches(p, steps, q)
    ensures Inv(q)
    decreases |steps|
  {
    hide Inv, Apply, Enabled;
    if steps != [] {
      StepKeeps(p, steps[0]);
      RunKeeps(Apply(p, steps[0]), steps[1..], q);
    }
  }

  // In every run, a thread with a signal it could take is notified, or a
  // sender of that signal is still on its way to it; SIGKILL and SIGSTOP are
  // never blocked.
  lemma NoLostNotification(p: Proc, steps: seq<Step>, q: Proc, t: Tid, n: nat)
    requires Init(p) && Reaches(p, steps, q) && t in q.threads
    ensures Ready(q, q.threads[t], n) ==> q.threads[t].notified || Coming(q, t, n)
    ensures SIGKILL !in q.threads[t].blocked && SIGSTOP !in q.threads[t].blocked
    ensures (forall i | 0 <= i < |q.senders| :: q.senders[i].toVisit == {}) && AnyReady(q, q.threads[t]) ==>
              q.threads[t].notified
  {
    assert Inv(p);
    RunKeeps(p, steps, q);
    assert ThreadOk(q, t);
  }

  // --- No signal is lost, doubled or overtaken ---

  // The queue of the process, or of one thread.
  datatype Place = Shared | Own(t: Tid)

  ghost predicate Exists(p: Proc, w: Place) {
    w.Own? ==> w.t in p.threads
  }

  ghost function Queue(p: Proc, w: Place): seq<SigInfo>
    requires Exists(p, w)
  {
    if w.Shared? then p.shared else p.threads[w.t].own
  }

  // What a step adds: a standard signal unless one is queued, a real-time one
  // while fewer than 1024 entries are.
  ghost function SentBy(p: Proc, a: Step, w: Place): seq<SigInfo>
    requires Exists(p, w)
  {
    var q := Queue(p, w);
    if (w.Shared? && a.SendProcess?) || (w.Own? && a.SendThread? && a.t == w.t) then
      if (if a.info.signo < 32 then forall i | 0 <= i < |q| :: q[i].signo != a.info.signo else |q| < 1024) then [a.info]
      else []
    else []
  }

  // What a step hands to a thread.
  ghost function TakenBy(p: Proc, a: Step, w: Place): seq<SigInfo>
    requires Exists(p, w) && Enabled(p, a)
  {
    if (w.Shared? && a.PopShared?) || (w.Own? && a.PopOwn? && a.t == w.t) then [Queue(p, w)[a.k]] else []
  }

  lemma StepMovesSignals(p: Proc, a: Step, w: Place, n: nat)
    requires Exists(p, w) && Enabled(p, a)
    ensures Exists(Apply(p, a), w)
    ensures OfNumber(Queue(p, w), n) + OfNumber(SentBy(p, a, w), n) ==
            OfNumber(TakenBy(p, a, w), n) + OfNumber(Queue(Apply(p, a), w), n)
  {
    hide OfNumber, Without;
    OfNumberNone([], n);
    var q, r := Queue(p, w), Queue(Apply(p, a), w);
    if SentBy(p, a, w) != [] {
      assert r == q + [a.info];
      OfNumberAppend(q, [a.info], n);
    } else if TakenBy(p, a, w) != [] {
      assert r == Without(q, a.k);
      OfNumberWithout(q, a.k, n);
      OfNumberOne(q[a.k], n);
    } else {
      assert r == q;
    }
  }

  // A thread takes an unblocked signal of the lowest number there, and from the
  // process only when its own queue has none for it and the process runs.
  lemma TakesLowest(p: Proc, a: Step, w: Place, e: SigInfo)
    requires Exists(p, w) && Enabled(p, a) && (a.PopOwn? || a.PopShared?) && TakenBy(p, a, w) == [e]
    ensures var th, q := p.threads[a.t], Queue(p, w);
            && e in q && e.signo !in th.blocked
            && (forall i | 0 <= i < |q| && q[i].signo !in th.blocked :: e.signo <= q[i].signo)
            && (w.Shared? ==> !p.stopped && forall i | 0 <= i < |th.own| :: th.own[i].signo in th.blocked)
  {
  }

  ghost function Sent(p: Proc, steps: seq<Step>, w: Place): seq<SigInfo>
    requires Exists(p, w)
    decreases |steps|
  {
    if steps == [] || !Enabled(p, steps[0]) then []
    else
      StepMovesSignals(p, steps[0], w, 0);
      SentBy(p, steps[0], w) + Sent(Apply(p, steps[0]), steps[1..], w)
  }

  ghost function Taken(p: Proc, steps: seq<Step>, w: Place): seq<SigInfo>
    requires Exists(p, w)
    decreases |steps|
  {
    if steps == [] || !Enabled(p, steps[0]) then []
    else
      StepMovesSignals(p, steps[0], w, 0);
      TakenBy(p, steps[0], w) + Taken(Apply(p, steps[0]), steps[1..], w)
  }

  // In every run and for every queue, the signals of one number that were
  // accepted are, in order, those handed to threads followed by those that
  // still wait.
  lemma {:induction false} NoSignalLost(p: Proc, steps: seq<Step>, q: Proc, w: Place, n: nat)
    requires Exists(p, w) && Reaches(p, steps, q)
    ensures Exists(q, w)
    ensures OfNumber(Queue(p, w), n) + OfNumber(Sent(p, steps, w), n) ==
            OfNumber(Taken(p, steps, w), n) + OfNumber(Queue(q, w), n)
    decreases |steps|
  {
    hide OfNumber, Apply, Enabled, SentBy, TakenBy;
    if steps == [] {
      OfNumberNone([], n);
    } else {
      var r := Apply(p, steps[0]);
      StepMovesSignals(p, steps[0], w, n);
      NoSignalLost(r, steps[1..], q, w, n);
      var s1, s2 := SentBy(p, steps[0], w), Sent(r, steps[1..], w);
      var t1, t2 := TakenBy(p, steps[0], w), Taken(r, steps[1..], w);
      OfNumberAppend(s1, s2, n);
      OfNumberAppend(t1, t2, n);
      Associate(OfNumber(Queue(p, w), n), OfNumber(s1, n), OfNumber(s2, n));
      Associate(OfNumber(t1, n), OfNumber(Queue(r, w), n), OfNumber(s2, n));
      Associate(OfNumber(t1, n), OfNumber(t2, n), OfNumber(Queue(q, w), n));
    }
  }
}
