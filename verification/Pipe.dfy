// WaitableChannel (junction/fs/pipe.h), single-writer instance: one reader and
// one writer thread around a ByteChannel. The channel calls run without the
// lock, step by step as in RingProtocol. A region under lock_ is split at each
// look at the channel, because the channel can change inside it. The two ends
// run the same code with the roles of "empty" and "full" exchanged, so a step
// names the end that takes it.
module Pipe {
  import opened Common
  import opened Modular
  import Ring = RingProtocol

  datatype Side = Reader | Writer {
    function Other(): Side {
      if Reader? then Writer else Reader
    }
  }

  // Where an end is in DoRead or DoWrite. Checked, Clearing and Waking hold
  // the lock and carry what the end saw of the channel.
  datatype Pc =
    | Idle
    | Trying(nonblocking: bool)
    | Failed(nonblocking: bool)
    | Checked(stop: bool)
    | Parked(awake: bool)
    | Notifying
    | Clearing(blocked: bool)
    | Waking(otherBlocked: bool)

  // What a call returns: a number of bytes, zero at the end of the file, EPIPE,
  // EAGAIN or EINTR.
  datatype Outcome = Pending | Bytes | EndOfFile | BrokenPipe | WouldBlock | Interrupted

  // armed: the waker holds the thread. ready: kPollIn or kPollOut.
  // hup: kPollHUp or kPollErr. res: what the last call returned.
  datatype End = End(pc: Pc, armed: bool, closed: bool, attached: bool, ready: bool, hup: bool, res: Outcome) {
    predicate Holds() {
      pc.Checked? || pc.Clearing? || pc.Waking?
    }

    predicate Asleep() {
      pc == Parked(false)
    }

    function Woken(): End {
      if armed then this.(armed := false, pc := if pc.Parked? then Parked(true) else pc) else this
    }
  }

  datatype Pipe = Pipe(ring: Ring.Ring, r: End, w: End) {
    function Get(d: Side): End {
      if d.Reader? then r else w
    }

    function Put(d: Side, e: End): Pipe {
      if d.Reader? then this.(r := e) else this.(w := e)
    }

    function Goto(d: Side, pc: Pc): Pipe {
      Put(d, Get(d).(pc := pc))
    }

    function Return(d: Side, res: Outcome): Pipe {
      Put(d, Get(d).(pc := Idle, armed := false, res := res))
    }

    predicate LockFree() {
      !r.Holds() && !w.Holds()
    }

    predicate AnyClosed() {
      r.closed || w.closed
    }

    // is_empty for the reader, is_full for the writer.
    predicate Blocked(d: Side)
      requires ring.inn < WORD && ring.out < WORD
    {
      if d.Reader? then ring.inn == ring.out else Sub64(ring.inn, ring.out) >= |ring.buf|
    }
  }

  datatype Step =
    | Call(d: Side, nonblocking: bool)
    | Data(d: Side, a: Ring.Step)
    | GiveUp(d: Side)
    | Check(d: Side)
    | Decide(d: Side, signalled: bool)
    | Signal(d: Side)
    | Resume(d: Side)
    | LookMine(d: Side)
    | ClearMine(d: Side)
    | WakeOther(d: Side)
    | Close(d: Side, detach: bool)

  predicate IsDataOf(d: Side, a: Ring.Step) {
    if d.Reader? then a.RLoadIn? || a.RLoadOut? || a.RCopyByte? || a.RStoreOut?
    else a.WLoadIn? || a.WLoadOut? || a.WCopyByte? || a.WStoreIn?
  }

  predicate Enabled(p: Pipe, s: Step) {
    var e := p.Get(s.d);
    match s
    case Call(_, _) => e.pc.Idle?
    case Data(d, a) => e.pc.Trying? && IsDataOf(d, a) && Ring.Enabled(p.ring, a)
    case GiveUp(_) => e.pc == Failed(true)
    case Check(_) => e.pc == Failed(false) && p.LockFree()
    case Decide(_, signalled) => e.pc.Checked? && (signalled ==> !e.pc.stop)
    case Signal(_) => e.pc.Parked?
    case Resume(_) => e.pc == Parked(true) && p.LockFree()
    case LookMine(_) => e.pc.Notifying? && p.LockFree()
    case ClearMine(_) => e.pc.Clearing?
    case WakeOther(_) => e.pc.Waking?
    case Close(_, _) => p.LockFree()
  }

  ghost predicate Shape(p: Pipe) {
    Ring.Shape(p.ring)
  }

  // A channel call that failed has gone back to idle without a store.
  function AfterData(nonblocking: bool, a: Ring.Step, ring: Ring.Ring): Pc {
    if a.RStoreOut? || a.WStoreIn? then Notifying
    else if (a.RLoadOut? && ring.r.RIdle?) || (a.WLoadOut? && ring.w.WIdle?) then Failed(nonblocking)
    else Trying(nonblocking)
  }

  // The loop after the wait: a closed end returns (the reader only once the
  // channel is drained), so does a signal, otherwise the call is tried again.
  function AfterWait(p: Pipe, d: Side, signalled: bool): Pipe
    requires p.ring.inn < WORD && p.ring.out < WORD
  {
    if p.AnyClosed() && (d.Writer? || p.Blocked(Reader)) then
      p.Return(d, if d.Reader? then EndOfFile else BrokenPipe)
    else if signalled then p.Return(d, Interrupted)
    else p.Goto(d, Trying(false))
  }

  // A call that may not block.
  function NotBlocking(p: Pipe, d: Side): Outcome
    requires p.ring.inn < WORD && p.ring.out < WORD
  {
    match d
    case Reader => if p.w.closed && p.Blocked(Reader) then EndOfFile else WouldBlock
    case Writer => if p.r.closed then BrokenPipe else WouldBlock
  }

  ghost function Apply(p: Pipe, s: Step): (q: Pipe)
    requires Shape(p) && Enabled(p, s)
    ensures Shape(q)
  {
    var d, o := s.d, s.d.Other();
    var e, f := p.Get(d), p.Get(o);
    match s
    case Call(_, nonblocking) => p.Put(d, e.(pc := Trying(nonblocking), res := Pending))
    case Data(_, a) =>
      var ring := Ring.Apply(p.ring, a);
      p.(ring := ring).Goto(d, AfterData(e.pc.nonblocking, a, ring))
    case GiveUp(_) => p.Return(d, NotBlocking(p, d))
    case Check(_) => p.Goto(d, Checked(!p.Blocked(d) || p.AnyClosed()))
    case Decide(_, signalled) =>
      if e.pc.stop || signalled then AfterWait(p, d, signalled)
      else p.Put(d, e.(pc := Parked(false), armed := true))
    case Signal(_) => p.Goto(d, Parked(true))
    case Resume(_) =>
      if e.armed then AfterWait(p.Put(d, e.(armed := false)), d, true)
      else p.Goto(d, Checked(!p.Blocked(d) || p.AnyClosed()))
    case LookMine(_) => p.Goto(d, Clearing(p.Blocked(d)))
    case ClearMine(_) =>
      p.Put(d, e.(ready := e.ready && !(e.pc.blocked && e.attached),
                  pc := if f.closed then Idle else Waking(p.Blocked(o)),
                  res := if !f.closed then e.res else if d.Reader? then Bytes else BrokenPipe))
    case WakeOther(_) =>
      var q := if !e.pc.otherBlocked && f.attached then p.Put(o, f.(ready := true).Woken()) else p;
      q.Return(d, Bytes)
    case Close(_, detach) =>
      var q := if !f.closed && f.attached then p.Put(o, f.(hup := true).Woken()) else p;
      q.Put(d, e.(closed := true, attached := e.attached && !detach).Woken())
  }

  // --- The invariant ---

  // The other end published or consumed and has yet to set this end's poll
  // flag and wake it.
  ghost predicate PendingWake(p: Pipe, d: Side) {
    var pc := p.Get(d.Other()).pc;
    pc.Notifying? || pc.Clearing? || pc == Waking(false)
  }

  // This end has yet to clear its poll flag.
  ghost predicate PendingClear(p: Pipe, d: Side) {
    p.Get(d).pc.Notifying? || p.Get(d).pc == Clearing(true)
  }

  ghost predicate NoLostWake(p: Pipe, d: Side)
    requires Shape(p)
  {
    p.Get(d).Asleep() ==>
      p.Get(d).armed && !p.AnyClosed() && (p.Blocked(d) || PendingWake(p, d))
  }

  ghost predicate FlagsOk(p: Pipe, d: Side)
    requires Shape(p)
  {
    !p.AnyClosed() ==>
      && (p.Get(d).ready && p.Blocked(d) ==> PendingClear(p, d))
      && (!p.Get(d).ready && !p.Blocked(d) ==> PendingWake(p, d))
  }

  // What an end saw under the lock is still true, or the other end has since
  // stored and is waiting for the lock.
  ghost predicate SeenOk(p: Pipe, d: Side)
    requires Shape(p)
  {
    match p.Get(d).pc
    case Checked(stop) => stop || (!p.AnyClosed() && (p.Blocked(d) || PendingWake(p, d)))
    case Clearing(blocked) => if blocked then p.Blocked(d) || PendingWake(p, d) else !p.Blocked(d)
    case Waking(blocked) =>
      if blocked then p.Blocked(d.Other()) else !p.Blocked(d.Other()) || p.Get(d.Other()).pc.Notifying?
    case _ => true
  }

  ghost predicate EndOk(p: Pipe, d: Side)
    requires Shape(p)
  {
    var e := p.Get(d);
    && (e.attached || e.closed) && (e.armed ==> e.pc.Parked?)
    && (!e.closed ==> (e.hup <==> p.Get(d.Other()).closed))
    && NoLostWake(p, d) && FlagsOk(p, d) && SeenOk(p, d)
  }

  ghost predicate Inv(p: Pipe) {
    && Shape(p) && Ring.Inv(p.ring) && !(p.r.Holds() && p.w.Holds())
    && (p.r.pc.Trying? || p.ring.r.RIdle?) && (p.w.pc.Trying? || p.ring.w.WIdle?)
    && EndOk(p, Reader) && EndOk(p, Writer)
  }

  // A new pipe; ra and wa say whether the poll sources were attached.
  ghost predicate Init(p: Pipe, ra: bool, wa: bool) {
    && Ring.Init(p.ring) && p.ring.published == []
    && p.r == End(Idle, false, false, ra, false, false, Pending)
    && p.w == End(Idle, false, false, wa, wa, false, Pending)
  }

  lemma InitOk(p: Pipe)
    requires Init(p, true, true)
    ensures Inv(p)
  {
    Ring.InitOk(p.ring);
    Ring.EmptyAndFull(p.ring);
  }

  // A channel step of one end never unblocks that end or blocks the other one,
  // and nothing changes before the store.
  lemma DataOccupancy(p: Pipe, d: Side, a: Ring.Step)
    requires Ring.Inv(p.ring) && IsDataOf(d, a) && Ring.Enabled(p.ring, a)
    ensures var q := p.(ring := Ring.Apply(p.ring, a));
            && Ring.Inv(q.ring)
            && (p.Blocked(d) ==> q.Blocked(d)) && (q.Blocked(d.Other()) ==> p.Blocked(d.Other()))
            && (!a.RStoreOut? && !a.WStoreIn? ==>
                  forall x: Side :: q.Blocked(x) == p.Blocked(x))
  {
    Ring.StepKeeps(p.ring, a);
    Ring.EmptyAndFull(p.ring);
    Ring.EmptyAndFull(Ring.Apply(p.ring, a));
  }

  lemma DataPhases(r: Ring.Ring, a: Ring.Step)
    requires Ring.Inv(r) && Ring.Enabled(r, a)
    ensures var q := Ring.Apply(r, a);
            && (IsDataOf(Reader, a) ==> q.w == r.w) && (IsDataOf(Writer, a) ==> q.r == r.r)
            && (a.RStoreOut? ==> q.r.RIdle?) && (a.WStoreIn? ==> q.w.WIdle?)
  {
  }

  lemma EnterKeepsOwn(p: Pipe, s: Step)
    requires Inv(p) && Enabled(p, s) && (s.Call? || s.GiveUp? || s.Signal?)
    ensures EndOk(Apply(p, s), s.d)
  {
    hide Ring.Inv, Ring.Apply, Ring.Enabled;
  }

  lemma EnterKeepsOther(p: Pipe, s: Step)
    requires Inv(p) && Enabled(p, s) && (s.Call? || s.GiveUp? || s.Signal?)
    ensures EndOk(Apply(p, s), s.d.Other())
  {
    hide Ring.Inv, Ring.Apply, Ring.Enabled;
  }

  lemma CheckKeeps(p: Pipe, s: Step, x: Side)
    requires Inv(p) && Enabled(p, s) && s.Check?
    ensures EndOk(Apply(p, s), x)
  {
    hide Ring.Inv, Ring.Apply, Ring.Enabled;
  }

  lemma ResumeKeepsOwn(p: Pipe, s: Step)
    requires Inv(p) && Enabled(p, s) && s.Resume?
    ensures EndOk(Apply(p, s), s.d)
  {
    hide Ring.Inv, Ring.Apply, Ring.Enabled;
  }

  lemma ResumeKeepsOther(p: Pipe, s: Step)
    requires Inv(p) && Enabled(p, s) && s.Resume?
    ensures EndOk(Apply(p, s), s.d.Other())
  {
    hide Ring.Inv, Ring.Apply, Ring.Enabled;
  }

  lemma DecideKeepsOwn(p: Pipe, s: Step)
    requires Inv(p) && Enabled(p, s) && s.Decide?
    ensures EndOk(Apply(p, s), s.d)
  {
    hide Ring.Inv, Ring.Apply, Ring.Enabled;
  }

  lemma DecideKeepsOther(p: Pipe, s: Step)
    requires Inv(p) && Enabled(p, s) && s.Decide?
    ensures EndOk(Apply(p, s), s.d.Other())
  {
    hide Ring.Inv, Ring.Apply, Ring.Enabled;
  }

  lemma LookKeeps(p: Pipe, s: Step, x: Side)
    requires Inv(p) && Enabled(p, s) && s.LookMine?
    ensures EndOk(Apply(p, s), x)
  {
    hide Ring.Inv, Ring.Apply, Ring.Enabled;
  }

  lemma ClearKeeps(p: Pipe, s: Step, x: Side)
    requires Inv(p) && Enabled(p, s) && s.ClearMine?
    ensures EndOk(Apply(p, s), x)
  {
    hide Ring.Inv, Ring.Apply, Ring.Enabled;
  }

  lemma WakeKeepsOwn(p: Pipe, s: Step)
    requires Inv(p) && Enabled(p, s) && s.WakeOther?
    ensures EndOk(Apply(p, s), s.d)
  {
    hide Ring.Inv, Ring.Apply, Ring.Enabled;
  }

  lemma WakeKeepsOther(p: Pipe, s: Step)
    requires Inv(p) && Enabled(p, s) && s.WakeOther?
    ensures EndOk(Apply(p, s), s.d.Other())
  {
    hide Ring.Inv, Ring.Apply, Ring.Enabled;
  }

  lemma CloseKeeps(p: Pipe, s: Step, x: Side)
    requires Inv(p) && Enabled(p, s) && s.Close?
    ensures EndOk(Apply(p, s), x)
  {
    hide Ring.Inv, Ring.Apply, Ring.Enabled;
  }

  lemma DataKeeps(p: Pipe, s: Step, x: Side)
    requires Inv(p) && Enabled(p, s) && s.Data?
    ensures EndOk(Apply(p, s), x)
  {
    hide Ring.Inv, Ring.Apply, Ring.Enabled;
    DataOccupancy(p, s.d, s.a);
  }

  // The lock has one holder and a call in progress is the only one to use the
  // channel.
  lemma SkeletonKeeps(p: Pipe, s: Step)
    requires Inv(p) && Enabled(p, s)
    ensures var q := Apply(p, s);
            && Ring.Inv(q.ring) && !(q.r.Holds() && q.w.Holds())
            && (q.r.pc.Trying? || q.ring.r.RIdle?) && (q.w.pc.Trying? || q.ring.w.WIdle?)
  {
    hide Ring.Inv, Ring.Apply, Ring.Enabled, EndOk;
    if s.Data? {
      DataOccupancy(p, s.d, s.a);
      DataPhases(p.ring, s.a);
    }
  }

  lemma EndKeeps(p: Pipe, s: Step, x: Side)
    requires Inv(p) && Enabled(p, s)
    ensures EndOk(Apply(p, s), x)
  {
    hide Inv, EndOk, Apply, Enabled;
    match s
    case Data(_, _) => DataKeeps(p, s, x);
    case Check(_) => CheckKeeps(p, s, x);
    case Resume(_) => if x == s.d { ResumeKeepsOwn(p, s); } else { ResumeKeepsOther(p, s); }
    case Decide(_, _) => if x == s.d { DecideKeepsOwn(p, s); } else { DecideKeepsOther(p, s); }
    case LookMine(_) => LookKeeps(p, s, x);
    case ClearMine(_) => ClearKeeps(p, s, x);
    case WakeOther(_) => if x == s.d { WakeKeepsOwn(p, s); } else { WakeKeepsOther(p, s); }
    case Close(_, _) => CloseKeeps(p, s, x);
    case _ => if x == s.d { EnterKeepsOwn(p, s); } else { EnterKeepsOther(p, s); }
  }

  lemma StepKeeps(p: Pipe, s: Step)
    requires Inv(p) && Enabled(p, s)
    ensures Inv(Apply(p, s))
  {
    hide EndOk, Apply, Enabled;
    SkeletonKeeps(p, s);
    EndKeeps(p, s, Reader);
    EndKeeps(p, s, Writer);
  }

  // --- Whole runs ---

  ghost predicate Reaches(p: Pipe, steps: seq<Step>, q: Pipe)
    decreases |steps|
  {
    if steps == [] then p == q
    else Shape(p) && Enabled(p, steps[0]) && Reaches(Apply(p, steps[0]), steps[1..], q)
  }

  lemma {:induction false} RunKeeps(p: Pipe, steps: seq<Step>, q: Pipe)
    requires Inv(p) && Reaches(p, steps, q)
    ensures Inv(q)
    decreases |steps|
  {
    hide Inv, Apply, Enabled;
    if steps != [] {
      StepKeeps(p, steps[0]);
      RunKeeps(Apply(p, steps[0]), steps[1..], q);
    }
  }

  // No end is about to store, clear or set a flag.
  ghost predicate Quiet(p: Pipe) {
    forall d: Side :: var pc := p.Get(d).pc; !pc.Notifying? && !pc.Clearing? && !pc.Waking?
  }

  // In every reachable state a sleeping end has nothing to do or is about to
  // be woken, the two are never both asleep, and once the ends are quiet the
  // poll flags say exactly "not empty" and "not full".
  lemma PipeSafe(p: Pipe, steps: seq<Step>, q: Pipe)
    requires Init(p, true, true) && Reaches(p, steps, q)
    ensures Shape(q) && NoLostWake(q, Reader) && NoLostWake(q, Writer)
    ensures !(q.r.Asleep() && q.w.Asleep())
    ensures Quiet(q) && !q.AnyClosed() ==>
              q.r.ready == !q.Blocked(Reader) && q.w.ready == !q.Blocked(Writer)
    ensures Quiet(q) && q.r.Asleep() ==> q.ring.published == q.ring.consumed
    ensures Quiet(q) && q.w.Asleep() ==> |q.ring.published| == |q.ring.consumed| + |q.ring.buf|
    ensures forall d: Side | q.Get(d).Asleep() && q.Get(d.Other()).pc == Waking(false) ::
              !Apply(q, WakeOther(d.Other())).Get(d).Asleep()
    ensures forall d: Side | !q.Get(d).closed :: q.Get(d).hup <==> q.Get(d.Other()).closed
    ensures forall s: Step | Enabled(q, s) :: OutcomeRight(q, s)
  {
    InitOk(p);
    RunKeeps(p, steps, q);
    Ring.EmptyAndFull(q.ring);
    var rpc, wpc := q.Get(Reader).pc, q.Get(Writer).pc;
    forall d: Side | q.Get(d).Asleep() && q.Get(d.Other()).pc == Waking(false)
      ensures !Apply(q, WakeOther(d.Other())).Get(d).Asleep()
    {
      WakeArrives(q, d);
    }
    forall s: Step | Enabled(q, s) ensures OutcomeRight(q, s) { Outcomes(q, s); }
  }

  // The pending step does wake the other end, if its poll source is attached.
  lemma WakeArrives(p: Pipe, d: Side)
    requires Inv(p) && p.Get(d).Asleep() && p.Get(d.Other()).pc == Waking(false)
    ensures !Apply(p, WakeOther(d.Other())).Get(d).Asleep()
  {
  }

  // What a step returns to the caller, in terms of the bytes published and
  // consumed. A read returns zero only when an end is closed and every
  // published byte is consumed; a write fails only when an end is closed; a
  // call sleeps only when it may block, no signal is pending and both ends are
  // open; and a write whose reader has closed fails although its bytes are in
  // the channel.
  ghost predicate OutcomeRight(p: Pipe, s: Step)
    requires Shape(p) && Enabled(p, s)
  {
    var e, f := p.Get(s.d), Apply(p, s).Get(s.d);
    var drained := p.ring.published == p.ring.consumed;
    var over := p.AnyClosed() && (s.d.Writer? || drained);
    // There is something to do: bytes to read, or room to write.
    var due := if s.d.Reader? then !drained else |p.ring.published| < |p.ring.consumed| + |p.ring.buf|;
    match s
    case Call(_, nonblocking) => f.pc == Trying(nonblocking)
    // A channel call that ends without a store has failed.
    case Data(_, a) =>
      var ring := Apply(p, s).ring;
      var ended := if s.d.Reader? then ring.r.RIdle? else ring.w.WIdle?;
      f.pc == if a.RStoreOut? || a.WStoreIn? then Notifying
              else if ended then Failed(e.pc.nonblocking) else Trying(e.pc.nonblocking)
    case GiveUp(_) =>
      && f.pc == Idle
      && f.res == (if s.d.Reader? then (if p.w.closed && drained then EndOfFile else WouldBlock)
                   else (if p.r.closed then BrokenPipe else WouldBlock))
    case Decide(_, signalled) =>
      && (f.Asleep() <==> !signalled && !e.pc.stop) && (f.Asleep() ==> !p.AnyClosed())
      && (f.pc == Idle <==> signalled || (e.pc.stop && over))
      && (f.pc == Idle ==> f.res == if over then (if s.d.Reader? then EndOfFile else BrokenPipe) else Interrupted)
      && (f.pc == Idle || f.Asleep() || f.pc == Trying(false))
    case Resume(_) =>
      && (e.armed <==> f.pc == Idle) && !f.Asleep()
      && (f.pc == Idle ==> f.res == if over then (if s.d.Reader? then EndOfFile else BrokenPipe) else Interrupted)
      && (f.pc != Idle ==> f.pc == Checked(due || p.AnyClosed()))
    case Check(_) => f.pc == Checked(due || p.AnyClosed())
    case ClearMine(_) =>
      p.Get(s.d.Other()).closed ==> f.pc == Idle && f.res == if s.d.Reader? then Bytes else BrokenPipe
    case WakeOther(_) => f.pc == Idle && f.res == Bytes
    case _ => f.pc != Idle || e.pc == Idle
  }

  lemma Outcomes(p: Pipe, s: Step)
    requires Inv(p) && Enabled(p, s)
    ensures OutcomeRight(p, s)
  {
    hide Ring.Inv, Ring.Apply, Ring.Enabled;
    Ring.EmptyAndFull(p.ring);
    if s.Data? { DataOutcome(p, s); }
  }

  lemma DataOutcome(p: Pipe, s: Step)
    requires Shape(p) && s.Data? && Enabled(p, s)
    ensures OutcomeRight(p, s)
  {
  }

  // --- Without the poll sources a wakeup is lost ---

  lemma {:induction false} Snoc(p: Pipe, a: seq<Step>, q: Pipe, s: Step)
    requires Reaches(p, a, q) && Shape(q) && Enabled(q, s)
    ensures Reaches(p, a + [s], Apply(q, s))
    decreases |a|
  {
    hide Apply, Enabled;
    if a == [] {
      assert ([] + [s])[1..] == [];
    } else {
      Snoc(Apply(p, a[0]), a[1..], q, s);
      assert (a + [s])[0] == a[0] && (a + [s])[1..] == a[1..] + [s];
    }
  }

  lemma Then(p: Pipe, a: seq<Step>, q: Pipe, s: Step) returns (b: seq<Step>, r: Pipe)
    requires Reaches(p, a, q) && Shape(q) && Enabled(q, s)
    ensures Reaches(p, b, r) && r == Apply(q, s)
  {
    hide Apply, Enabled;
    Snoc(p, a, q, s);
    b, r := a + [s], Apply(q, s);
  }

  // Both ends open, none holding the lock, end d between calls.
  ghost predicate Resting(p: Pipe, d: Side) {
    && Shape(p) && p.ring.r.RIdle? && p.ring.w.WIdle? && p.LockFree() && !p.AnyClosed()
    && p.Get(d).pc.Idle? && !p.Get(d).armed
  }

  // An end that finds the channel blocked fails, and then parks.
  lemma EndFails(p: Pipe, a: seq<Step>, q: Pipe, d: Side) returns (b: seq<Step>, r: Pipe)
    requires Reaches(p, a, q) && Resting(q, d) && q.Blocked(d)
    requires Sub64(q.ring.inn, q.ring.out) <= |q.ring.buf|
    ensures Reaches(p, b, r) && r == q.Put(d, q.Get(d).(pc := Failed(false), res := Pending))
  {
    hide Reaches;
    b, r := Then(p, a, q, Call(d, false));
    b, r := Then(p, b, r, Data(d, if d.Reader? then Ring.RLoadIn else Ring.WLoadIn));
    b, r := Then(p, b, r, Data(d, if d.Reader? then Ring.RLoadOut(1, false, false) else Ring.WLoadOut([0], false)));
  }

  lemma EndParks(p: Pipe, a: seq<Step>, q: Pipe, d: Side) returns (b: seq<Step>, r: Pipe)
    requires Reaches(p, a, q) && Resting(q, d) && q.Blocked(d)
    requires Sub64(q.ring.inn, q.ring.out) <= |q.ring.buf|
    ensures Reaches(p, b, r) && r == q.Put(d, q.Get(d).(pc := Parked(false), armed := true, res := Pending))
  {
    hide Reaches;
    b, r := EndFails(p, a, q, d);
    b, r := Then(p, b, r, Check(d));
    b, r := Then(p, b, r, Decide(d, false));
  }

  // The locked part after a store, when it cannot wake the other end.
  lemma EndNotifies(p: Pipe, a: seq<Step>, q: Pipe, d: Side) returns (b: seq<Step>, r: Pipe)
    requires Reaches(p, a, q) && Shape(q) && q.LockFree() && !q.AnyClosed() && q.Get(d).pc.Notifying?
    requires !q.Get(d.Other()).armed || !q.Get(d.Other()).attached
    ensures Reaches(p, b, r) && r.ring == q.ring
    ensures r.Get(d) == q.Get(d).(pc := Idle, armed := false, ready := r.Get(d).ready, res := Bytes)
    ensures r.Get(d.Other()) == q.Get(d.Other()).(ready := r.Get(d.Other()).ready)
  {
    hide Reaches;
    b, r := Then(p, a, q, LookMine(d));
    b, r := Then(p, b, r, ClearMine(d));
    b, r := Then(p, b, r, WakeOther(d));
  }

  lemma WriterStores(p: Pipe, a: seq<Step>, q: Pipe, data: seq<bv8>) returns (b: seq<Step>, r: Pipe)
    requires Reaches(p, a, q) && Resting(q, Writer) && Sub64(q.ring.inn, q.ring.out) <= |q.ring.buf|
    requires 0 < |data| <= |q.ring.buf| - Sub64(q.ring.inn, q.ring.out)
    ensures Reaches(p, b, r) && Shape(r) && r.r == q.r && r.w == q.w.(pc := Notifying, res := Pending)
    ensures r.ring == q.ring.(buf := r.ring.buf, inn := (q.ring.inn + |data|) % WORD,
                              published := q.ring.published + data)
    ensures |r.ring.buf| == |q.ring.buf|
  {
    hide Reaches;
    b, r := Then(p, a, q, Call(Writer, false));
    b, r := Then(p, b, r, Data(Writer, Ring.WLoadIn));
    b, r := Then(p, b, r, Data(Writer, Ring.WLoadOut(data, false)));
    var k := 0;
    assert data[..|data|] == data;
    while k < |data|
      invariant 0 <= k <= |data| && Reaches(p, b, r) && |r.ring.buf| == |q.ring.buf|
      invariant r == q.(ring := q.ring.(buf := r.ring.buf, w := Ring.WCopying(q.ring.inn, data, k)))
                      .Put(Writer, q.w.(pc := Trying(false), res := Pending))
    {
      b, r := Then(p, b, r, Data(Writer, Ring.WCopyByte));
      k := k + 1;
    }
    b, r := Then(p, b, r, Data(Writer, Ring.WStoreIn));
  }

  lemma ReaderStores(p: Pipe, a: seq<Step>, q: Pipe) returns (b: seq<Step>, r: Pipe)
    requires Reaches(p, a, q) && Resting(q, Reader) && Sub64(q.ring.inn, q.ring.out) > 0
    ensures Reaches(p, b, r) && Shape(r) && r.w == q.w && r.r == q.r.(pc := Notifying, res := Pending)
    ensures r.ring == q.ring.(out := (q.ring.out + 1) % WORD, consumed := r.ring.consumed)
  {
    hide Reaches;
    b, r := Then(p, a, q, Call(Reader, false));
    b, r := Then(p, b, r, Data(Reader, Ring.RLoadIn));
    b, r := Then(p, b, r, Data(Reader, Ring.RLoadOut(1, false, false)));
    b, r := Then(p, b, r, Data(Reader, Ring.RCopyByte));
    b, r := Then(p, b, r, Data(Reader, Ring.RStoreOut));
  }

  lemma NoSteps(p: Pipe)
    ensures Reaches(p, [], p)
  {
  }

  lemma UnattachedReader(p: Pipe, wa: bool) returns (steps: seq<Step>, q: Pipe)
    requires Init(p, false, wa)
    ensures Reaches(p, steps, q) && Shape(q) && !NoLostWake(q, Reader)
  {
    hide Reaches, Apply, Enabled, Ring.Apply, Ring.Enabled;
    NoSteps(p);
    steps, q := EndParks(p, [], p, Reader);
    steps, q := WriterStores(p, steps, q, [0]);
    steps, q := EndNotifies(p, steps, q, Writer);
  }

  lemma UnattachedWriter(p: Pipe) returns (steps: seq<Step>, q: Pipe)
    requires Init(p, true, false)
    ensures Reaches(p, steps, q) && Shape(q) && !NoLostWake(q, Writer)
  {
    hide Reaches, Apply, Enabled, Ring.Apply, Ring.Enabled;
    NoSteps(p);
    var size := |p.ring.buf|;
    ModUnique(size, WORD, 0, size);
    steps, q := WriterStores(p, [], p, seq(size, i => 0));
    steps, q := EndNotifies(p, steps, q, Writer);
    steps, q := EndParks(p, steps, q, Writer);
    steps, q := ReaderStores(p, steps, q);
    steps, q := EndNotifies(p, steps, q, Reader);
  }

  // A new pipe never loses a wakeup if and only if both poll sources are
  // attached, as the pipe files' constructors do.
  lemma SafeIffAttached(p: Pipe, ra: bool, wa: bool)
    requires Init(p, ra, wa)
    ensures (forall steps, q | Reaches(p, steps, q) :: Shape(q) && NoLostWake(q, Reader) && NoLostWake(q, Writer))
       <==> ra && wa
  {
    if ra && wa {
      forall steps, q | Reaches(p, steps, q)
        ensures Shape(q) && NoLostWake(q, Reader) && NoLostWake(q, Writer)
      {
        PipeSafe(p, steps, q);
      }
    } else if !ra {
      var steps, q := UnattachedReader(p, wa);
    } else {
      var steps, q := UnattachedWriter(p);
    }
  }
}
