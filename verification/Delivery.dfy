// Delivering signals to handlers and returning from them
// (junction/kernel/signal.cc): GetNextSignal, PushUserSigFrame,
// ApplyAllSignals and the mask and altstack part of rt_sigreturn. A trap frame
// is an abstract context: which signal frame its stack pointer belongs to, and
// where the code in it stands.
module Delivery {
  import opened Common
  import opened SignalQueues
  import opened Notify

  datatype AltStack = AltStack(sp: nat, size: nat, disabled: bool, autoDisarm: bool)

  // fp: the index of the signal frame this code will hand to rt_sigreturn.
  datatype Context = Context(fp: Option<nat>, at: nat)

  datatype Frame = Frame(prev: Context, mask: Mask, ss: AltStack)

  datatype Action = Action(handler: nat, mask: Mask, nodefer: bool)

  // frames: the signal frames on the user stacks, oldest first.
  datatype State = State(
    ctx: Context, blocked: Mask, saved: Option<Mask>, ss: AltStack, frames: seq<Frame>)

  datatype Event =
    | Progress(at: nat)
    | SetMask(mask: Mask)
    | SetAltStack(ss: AltStack)
    | SaveMask(mask: Mask)
    | RestoreMask
    | Deliver(signo: nat, act: Action)
    | Sigreturn

  predicate Enabled(s: State, e: Event) {
    match e
    case SaveMask(_) => s.saved.None?
    case RestoreMask => s.saved.Some?
    case Deliver(signo, _) => signo !in s.blocked
    case Sigreturn => s.ctx.fp.Some? && s.ctx.fp.value < |s.frames|
    case _ => true
  }

  // GetSigframeRestoreMask: the mask the handler's return will restore.
  function RestoreMaskOf(s: State): Mask {
    if s.saved.Some? then s.saved.value else s.blocked
  }

  function HandlerMask(signo: nat, act: Action): Mask {
    Strip(act.mask + if act.nodefer then {} else {signo})
  }

  function Disarmed(ss: AltStack): AltStack {
    if ss.autoDisarm then ss.(disabled := true, autoDisarm := false) else ss
  }

  function Apply(s: State, e: Event): State
    requires Enabled(s, e)
  {
    match e
    case Progress(at) => s.(ctx := s.ctx.(at := at))
    case SetMask(mask) => s.(blocked := Strip(mask))
    case SetAltStack(ss) => s.(ss := ss)
    case SaveMask(mask) => if s.blocked == mask then s else s.(saved := Some(s.blocked), blocked := Strip(mask))
    case RestoreMask => s.(blocked := s.saved.value, saved := None)
    case Deliver(signo, act) =>
      State(Context(Some(|s.frames|), act.handler), HandlerMask(signo, act), None, Disarmed(s.ss),
            s.frames + [Frame(s.ctx, RestoreMaskOf(s), s.ss)])
    case Sigreturn =>
      var f := s.frames[s.ctx.fp.value];
      s.(ctx := f.prev, blocked := Strip(f.mask), ss := f.ss, frames := s.frames[..s.ctx.fp.value])
  }

  // --- The chain of frames ---

  function Top(n: nat): Option<nat> {
    if n == 0 then None else Some(n - 1)
  }

  ghost predicate Unkillable(m: Mask) {
    SIGKILL !in m && SIGSTOP !in m
  }

  // The running code owns the newest frame, and the code a frame interrupted
  // owns the frame before it.
  ghost predicate Inv(s: State) {
    && s.ctx.fp == Top(|s.frames|) && Unkillable(s.blocked)
    && (s.saved.Some? ==> Unkillable(s.saved.value))
    && forall i | 0 <= i < |s.frames| :: s.frames[i].prev.fp == Top(i) && Unkillable(s.frames[i].mask)
  }

  lemma StepKeeps(s: State, e: Event)
    requires Inv(s) && Enabled(s, e)
    ensures Inv(Apply(s, e))
  {
  }

  ghost predicate Reaches(s: State, es: seq<Event>, t: State)
    decreases |es|
  {
    if es == [] then s == t else Enabled(s, es[0]) && Reaches(Apply(s, es[0]), es[1..], t)
  }

  lemma {:induction false} RunKeeps(s: State, es: seq<Event>, t: State)
    requires Inv(s) && Reaches(s, es, t)
    ensures Inv(t)
    decreases |es|
  {
    if es != [] {
      StepKeeps(s, es[0]);
      RunKeeps(Apply(s, es[0]), es[1..], t);
    }
  }

  // The run never goes below n frames.
  ghost predicate StaysAbove(s: State, es: seq<Event>, n: nat)
    decreases |es|
  {
    && |s.frames| >= n
    && (es != [] ==> Enabled(s, es[0]) && StaysAbove(Apply(s, es[0]), es[1..], n))
  }

  // While it does not, the n oldest frames are untouched.
  lemma {:induction false} OldFramesKept(s: State, es: seq<Event>, t: State, n: nat)
    requires Inv(s) && Reaches(s, es, t) && StaysAbove(s, es, n)
    ensures |t.frames| >= n && t.frames[..n] == s.frames[..n]
    decreases |es|
  {
    if es != [] {
      var u := Apply(s, es[0]);
      StepKeeps(s, es[0]);
      OldFramesKept(u, es[1..], t, n);
      assert u.frames[..n] == s.frames[..n];
    }
  }

  // A delivery, any run on top of it, and the return that ends it: the
  // interrupted context, its frames and its altstack are back, and the mask is
  // the one at delivery or the one a system call had saved.
  lemma Unwinds(s: State, signo: nat, act: Action, es: seq<Event>, t: State)
    requires Inv(s) && Enabled(s, Deliver(signo, act))
    requires Reaches(Apply(s, Deliver(signo, act)), es, t)
    requires StaysAbove(Apply(s, Deliver(signo, act)), es, |s.frames| + 1)
    requires |t.frames| == |s.frames| + 1
    ensures Enabled(t, Sigreturn)
    ensures Apply(t, Sigreturn) ==
            State(s.ctx, if s.saved.Some? then s.saved.value else s.blocked, t.saved, s.ss, s.frames)
  {
    var n := |s.frames| + 1;
    var u := Apply(s, Deliver(signo, act));
    StepKeeps(s, Deliver(signo, act));
    RunKeeps(u, es, t);
    OldFramesKept(u, es, t, n);
    assert t.frames == t.frames[..n] == u.frames[..n] == u.frames;
    assert u.frames[..n - 1] == s.frames;
    assert Strip(RestoreMaskOf(s)) == RestoreMaskOf(s);
  }

  // k returns in a row resume the interrupted contexts newest first.
  ghost function Returns(k: nat): seq<Event> {
    seq(k, i => Sigreturn)
  }

  lemma {:induction false} LastInFirstOut(s: State, k: nat) returns (t: State)
    requires Inv(s) && 0 < k <= |s.frames|
    ensures Reaches(s, Returns(k), t) && t.frames == s.frames[..|s.frames| - k]
    ensures t.ctx == s.frames[|s.frames| - k].prev && t.ss == s.frames[|s.frames| - k].ss
    ensures t.blocked == s.frames[|s.frames| - k].mask
    decreases k
  {
    var u := Apply(s, Sigreturn);
    StepKeeps(s, Sigreturn);
    assert Returns(k)[1..] == Returns(k - 1);
    var f := s.frames[|s.frames| - 1];
    assert Strip(f.mask) == f.mask;
    if k == 1 {
      t := u;
    } else {
      t := LastInFirstOut(u, k - 1);
    }
  }

  // --- ApplyAllSignals ---

  datatype Delivered = Delivered(signo: nat, act: Action)

  // What GetNextSignal yields until it finds nothing: each signal is unblocked
  // under the mask its predecessor's handler will run with.
  ghost predicate CanDeliver(s: State, sigs: seq<Delivered>)
    decreases |sigs|
  {
    sigs == [] ||
    (sigs[0].signo !in s.blocked && CanDeliver(Apply(s, Deliver(sigs[0].signo, sigs[0].act)), sigs[1..]))
  }

  ghost function Events(sigs: seq<Delivered>): seq<Event> {
    seq(|sigs|, i requires 0 <= i < |sigs| => Deliver(sigs[i].signo, sigs[i].act))
  }

  // The mask the handler of d must run with: what sigaction named, and the
  // signal itself unless it may nest; never SIGKILL or SIGSTOP.
  ghost predicate Masks(mask: Mask, d: Delivered) {
    forall n: nat :: n in mask <==>
      n != SIGKILL && n != SIGSTOP && (n in d.act.mask || (n == d.signo && !d.act.nodefer))
  }

  // The first frame interrupts the thread, every later one the entry of the
  // handler delivered before it; so the last one delivered runs first.
  ghost predicate Pushed(s: State, sigs: seq<Delivered>, t: State) {
    var n, k := |s.frames|, |sigs|;
    && |t.frames| == n + k && t.frames[..n] == s.frames
    && (if k == 0 then t == s else
          && t.ctx.at == sigs[k - 1].act.handler && t.saved == None
          && Masks(t.blocked, sigs[k - 1])
          && t.frames[n].prev == s.ctx && t.frames[n].ss == s.ss
          && t.frames[n].mask == if s.saved.Some? then s.saved.value else s.blocked)
    && forall i | 0 <= i < k - 1 ::
         t.frames[n + i + 1].prev.at == sigs[i].act.handler
         && Masks(t.frames[n + i + 1].mask, sigs[i])
  }

  lemma PushedNone(s: State)
    ensures Pushed(s, [], s)
  {
  }

  lemma PushedOne(s: State, sigs: seq<Delivered>, t: State, d: Delivered)
    requires Pushed(s, sigs, t) && d.signo !in t.blocked
    ensures Pushed(s, sigs + [d], Apply(t, Deliver(d.signo, d.act)))
  {
    assert Masks(Apply(t, Deliver(d.signo, d.act)).blocked, d);
  }

  method ApplyAllSignals(s: State, sigs: seq<Delivered>) returns (t: State)
    requires Inv(s) && CanDeliver(s, sigs)
    ensures Inv(t) && Reaches(s, Events(sigs), t)
    ensures Pushed(s, sigs, t)
  {
    hide Pushed, Inv, Apply;
    t := s;
    var k := 0;
    PushedNone(s);
    while k < |sigs|
      invariant 0 <= k <= |sigs| && Inv(t) && CanDeliver(t, sigs[k..])
      invariant Reaches(s, Events(sigs[..k]), t) && Pushed(s, sigs[..k], t)
    {
      var e := Deliver(sigs[k].signo, sigs[k].act);
      StepKeeps(t, e);
      Snoc(s, Events(sigs[..k]), t, e);
      PushedOne(s, sigs[..k], t, sigs[k]);
      assert sigs[..k + 1] == sigs[..k] + [sigs[k]];
      assert Events(sigs[..k + 1]) == Events(sigs[..k]) + [e];
      assert sigs[k..][1..] == sigs[k + 1..];
      t := Apply(t, e);
      k := k + 1;
    }
    assert sigs[..k] == sigs;
  }

  lemma {:induction false} Snoc(s: State, es: seq<Event>, t: State, e: Event)
    requires Reaches(s, es, t) && Enabled(t, e)
    ensures Reaches(s, es + [e], Apply(t, e))
    decreases |es|
  {
    if es == [] {
      assert ([] + [e])[1..] == [];
    } else {
      Snoc(Apply(s, es[0]), es[1..], t, e);
      assert (es + [e])[0] == es[0] && (es + [e])[1..] == es[1..] + [e];
    }
  }

  // --- The mask a handler runs with ---

  lemma DeliverBlocks(s: State, signo: nat, act: Action, n: nat)
    requires Enabled(s, Deliver(signo, act))
    ensures n in Apply(s, Deliver(signo, act)).blocked <==>
            n != SIGKILL && n != SIGSTOP && (n in act.mask || (n == signo && !act.nodefer))
    // An altstack that disarms itself is disabled while the handler runs.
    ensures Apply(s, Deliver(signo, act)).ss ==
            if s.ss.autoDisarm then s.ss.(disabled := true, autoDisarm := false) else s.ss
  {
  }

  // The other events: a mask is set as asked, saved and restored whole.
  lemma EventsMean(s: State, e: Event, n: nat)
    requires Inv(s) && Enabled(s, e)
    ensures var t := Apply(s, e);
            match e
            case SetMask(mask) => t.saved == s.saved && (n in t.blocked <==> n in mask && n != SIGKILL && n != SIGSTOP)
            case SaveMask(mask) =>
              && (n in t.blocked <==> n in mask && n != SIGKILL && n != SIGSTOP)
              && (t.saved.Some? ==> t.saved.value == s.blocked) && (t.saved.None? <==> mask == s.blocked)
            case RestoreMask => t.saved == None && (n in t.blocked <==> n in s.saved.value)
            case Progress(_) => t == s.(ctx := t.ctx) && t.ctx.fp == s.ctx.fp
            case SetAltStack(ss) => t == s.(ss := ss)
            case _ => true
  {
  }

  predicate KeepsMask(e: Event) {
    !e.SetMask? && !e.SaveMask? && !e.RestoreMask?
  }

  // The mask of the code that runs with n frames below it, whether it is
  // running or was interrupted.
  function MaskAt(s: State, n: nat): Mask
    requires n <= |s.frames|
  {
    if n == |s.frames| then s.blocked else s.frames[n].mask
  }

  lemma StepKeepsMaskAt(s: State, e: Event, n: nat)
    requires Inv(s) && Enabled(s, e) && KeepsMask(e) && s.saved == None
    requires n <= |s.frames| && n <= |Apply(s, e).frames|
    ensures Apply(s, e).saved == None && MaskAt(Apply(s, e), n) == MaskAt(s, n)
  {
    if e.Sigreturn? {
      var f := s.frames[|s.frames| - 1];
      assert Strip(f.mask) == f.mask;
    }
  }

  lemma {:induction false} RunKeepsMaskAt(s: State, es: seq<Event>, t: State, n: nat)
    requires Inv(s) && s.saved == None && Reaches(s, es, t) && StaysAbove(s, es, n)
    requires forall i | 0 <= i < |es| :: KeepsMask(es[i])
    ensures |t.frames| >= n && MaskAt(t, n) == MaskAt(s, n)
    decreases |es|
  {
    if es != [] {
      StepKeeps(s, es[0]);
      StepKeepsMaskAt(s, es[0], n);
      RunKeepsMaskAt(Apply(s, es[0]), es[1..], t, n);
    }
  }

  // Whatever handlers nest on top of it, a handler that does not change the
  // mask itself is never re-entered by its own signal while it is the one
  // running, if its action has no SA_NODEFER; with SA_NODEFER it can be,
  // exactly if its own mask does not name the signal.
  lemma NotReentered(s: State, signo: nat, act: Action, es: seq<Event>, t: State, again: Action)
    requires Inv(s) && Enabled(s, Deliver(signo, act)) && signo != SIGKILL && signo != SIGSTOP
    requires Reaches(Apply(s, Deliver(signo, act)), es, t)
    requires StaysAbove(Apply(s, Deliver(signo, act)), es, |s.frames| + 1) && |t.frames| == |s.frames| + 1
    requires forall i | 0 <= i < |es| :: KeepsMask(es[i])
    ensures Enabled(t, Deliver(signo, again)) <==> act.nodefer && signo !in act.mask
  {
    var u := Apply(s, Deliver(signo, act));
    StepKeeps(s, Deliver(signo, act));
    DeliverBlocks(s, signo, act, signo);
    RunKeepsMaskAt(u, es, t, |s.frames| + 1);
  }

  // sigaction (IEEE Std 1003.1) adds sa_mask to the current mask; the code
  // replaces the mask. The two agree exactly when nothing is blocked that
  // sa_mask leaves out.
  lemma HandlerMaskIsUnion(s: State, signo: nat, act: Action)
    requires Inv(s) && signo !in s.blocked
    ensures Apply(s, Deliver(signo, act)).blocked == s.blocked + HandlerMask(signo, act)
       <==> s.blocked <= HandlerMask(signo, act)
  {
  }

  lemma HandlerUnblocks()
    ensures var s := State(Context(None, 0), {10}, None, AltStack(0, 0, true, false), []);
            && Inv(s) && Enabled(s, Deliver(2, Action(1, {}, false)))
            && 10 !in Apply(s, Deliver(2, Action(1, {}, false))).blocked
  {
  }
}
