/**
 Nobody stays stuck at the send gate, except where the I/O thread waits for itself.

 A call of `sendData` that is made on the I/O thread keeps the write handler from running.
 If it meets the flag, or the gate, in the wrong state, it waits for a handler that only
 its own thread could run.  `IoStuck` says exactly when; from every other state that a calm
 run reaches, all calls can be brought to their end.
 */
module SendProgress {
  import opened Crc32
  import opened Options
  import opened BufferProcessors
  import opened SendGate

  // ----- a lost notification -----

  /** The step a call takes next, when nothing stops it; in the wait it is the time-out. */
  function NextStep(pc: Pc, t: nat): Step
    requires pc != Done
  {
    match pc
    case Away => Call(t)
    case Ready => TakeGate(t)
    case Checking => CheckFlag(t)
    case Locking => BeginWait(t)
    case Waiting => TimeOut(t)
    case Woken => LeaveWait(t)
    case TimedOut => Recheck(t)
    case Raising => RaiseFlag(t)
    case Writing => WriteFrame(t)
    case Starting => StartWrite(t)
  }

  /** How far a call is from its end; for the gate, `Ready` stands for nobody. */
  function HolderRank(pc: Pc): nat {
    match pc
    case Away => 10
    case Ready => 9
    case Locking => 8
    case Waiting => 7
    case TimedOut => 6
    case Checking => 5
    case Woken => 5
    case Raising => 4
    case Writing => 3
    case Starting => 2
    case Done => 0
  }

  /** Thread `t` holds the gate, the flag is down, and `t` has not raised it yet. */
  predicate Recovering(s: State, t: nat) {
    && s.gate == Some(t) && !s.inSendMode
    && t < |s.senders| && BeforeWrite(s.senders[t].pc) && s.senders[t].pc != Writing
  }

  /** A step that thread `t` takes itself. */
  predicate OwnStep(step: Step, t: nat) {
    Mover(step) == Some(t) && !step.HandlerNotify?
  }

  function OwnSteps(steps: seq<Step>, t: nat): nat {
    if steps == [] then 0 else (if OwnStep(steps[0], t) then 1 else 0) + OwnSteps(steps[1..], t)
  }

  lemma FlagAfter(s: State, step: Step)
    requires Enabled(s, step)
    ensures Apply(s, step).inSendMode ==
              if step.RaiseFlag? then true else if step.HandlerClear? then false else s.inSendMode
    ensures step.RaiseFlag? ==> At(s, step.t, Raising)
    ensures step.HandlerClear? ==> s.handler == Consumed
  {
    hide IoBusy, HandlerOwnsMutex, Slice, Consume;
  }

  /** With the flag down, each step of the holder's own brings it closer to raising it. */
  lemma OwnRecoveryStep(s: State, step: Step, t: nat)
    requires Enabled(s, step) && Mover(step) == Some(t) && Recovering(s, t) && step != RaiseFlag(t)
    ensures var u := Apply(s, step);
            && Recovering(u, t)
            && HolderRank(u.senders[t].pc) + (if OwnStep(step, t) then 1 else 0) <= HolderRank(s.senders[t].pc)
  {
    hide IoBusy, HandlerOwnsMutex, Slice, Consume;
  }

  lemma RecoveryStep(s: State, step: Step, t: nat)
    requires Enabled(s, step) && GateHeld(s) && Recovering(s, t) && step != RaiseFlag(t)
    ensures var u := Apply(s, step);
            && Recovering(u, t)
            && HolderRank(u.senders[t].pc) + (if OwnStep(step, t) then 1 else 0) <= HolderRank(s.senders[t].pc)
  {
    hide Enabled, Apply, HolderRank;
    if Mover(step) == Some(t) {
      OwnRecoveryStep(s, step, t);
    } else {
      StepMoves(s, step);
      FlagAfter(s, step);
    }
  }

  /** A thread that recovers can go on, unless the handler is in its critical section. */
  lemma RecoveryIsEnabled(s: State, t: nat)
    requires Recovering(s, t)
    ensures HandlerOwnsMutex(s) || Enabled(s, NextStep(s.senders[t].pc, t))
  {
    hide IoBusy;
  }

  lemma {:induction false} RecoveryRun(s: State, t: nat, more: seq<Step>)
    requires Invariant(s) && Recovering(s, t) && CanRun(s, more) && Calm(s, more) && RaiseFlag(t) !in more
    ensures var u := After(s, more);
            Recovering(u, t) && OwnSteps(more, t) + HolderRank(u.senders[t].pc) <= HolderRank(s.senders[t].pc)
    decreases |more|
  {
    hide Invariant, Enabled, Apply, Harmless, Recovering, HolderRank, OwnStep;
    if more != [] {
      HolderIsKnown(s, t);
      ApplyKeepsInvariant(s, more[0]);
      RecoveryStep(s, more[0], t);
      RecoveryRun(Apply(s, more[0]), t, more[1..]);
    } else {
      HolderIsKnown(s, t);
    }
  }

  lemma HolderIsKnown(s: State, t: nat)
    requires Invariant(s) && Recovering(s, t)
    ensures t < |s.senders| && GateHeld(s)
  {
  }

  /**
   The notification fired between a thread's look at the flag and its wait.  In every calm
   interleaving from there, either the thread raises the flag and enters the write step, or
   it still holds the gate with the flag down, has used up no more than four steps of its
   own, and can take the next one as soon as the handler is out of its critical section.
   */
  lemma LostWakeupRecovers(frames: seq<Bytes>, io: set<nat>, steps: seq<Step>, t: nat, more: seq<Step>)
    requires NonEmpty(frames) && CanRun(Start(frames, io), steps) && Calm(Start(frames, io), steps)
    requires At(After(Start(frames, io), steps), t, Locking) && !After(Start(frames, io), steps).inSendMode
    requires CanRun(After(Start(frames, io), steps), more) && Calm(After(Start(frames, io), steps), more)
    ensures var u := After(After(Start(frames, io), steps), more);
            || RaiseFlag(t) in more
            || (&& Recovering(u, t)
                && OwnSteps(more, t) + HolderRank(u.senders[t].pc) <= HolderRank(Locking)
                && (HandlerOwnsMutex(u) || Enabled(u, NextStep(u.senders[t].pc, t))))
  {
    hide CanRun, Calm, After, Enabled, Apply, HandlerOwnsMutex, HolderRank, Phase, Ordered, IoOnce, FramesInOrder,
      Unsent;
    StartIsInvariant(frames, io);
    RunKeepsInvariant(Start(frames, io), steps);
    var s := After(Start(frames, io), steps);
    if RaiseFlag(t) !in more {
      RecoveryRun(s, t, more);
      RecoveryIsEnabled(After(s, more), t);
    }
  }

  lemma ThreeSteps(s: State, first: Step, second: Step, third: Step)
    requires Enabled(s, first) && Enabled(Apply(s, first), second)
    requires Enabled(Apply(Apply(s, first), second), third)
    requires !first.SpuriousWake? && !second.SpuriousWake? && !third.SpuriousWake?
    ensures var steps := [first, second, third];
            && CanRun(s, steps) && Calm(s, steps)
            && After(s, steps) == Apply(Apply(Apply(s, first), second), third)
  {
    hide Enabled, Apply;
    EmptyRun(s);
    RunAppend(s, [], first);
    assert [] + [first] == [first];
    RunAppend(s, [first], second);
    assert [first] + [second] == [first, second];
    RunAppend(s, [first, second], third);
    assert [first, second] + [third] == [first, second, third];
  }

  lemma NotifyIs(s: State, t: nat)
    requires At(s, t, Waiting) && s.handler == Cleared
    ensures Enabled(s, HandlerNotify(Some(t)))
    ensures Apply(s, HandlerNotify(Some(t))) == Move(s, t, Woken).(handler := Notified)
  {
  }

  /** While a thread waits, the notification wakes one that does. */
  lemma NotificationWakesAWaiter(s: State, t: nat, waiter: Option<nat>)
    requires At(s, t, Waiting) && Enabled(s, HandlerNotify(waiter))
    ensures waiter.Some? && At(s, waiter.value, Waiting) && At(Apply(s, HandlerNotify(waiter)), waiter.value, Woken)
  {
    hide IoBusy, Slice, Consume;
  }

  lemma UnlockIs(s: State)
    requires s.handler == Notified
    ensures Enabled(s, HandlerUnlock) && Apply(s, HandlerUnlock) == s.(handler := Idle)
  {
  }

  /**
   A notified thread goes on to raise the flag as soon as the handler has released its lock,
   without looking at the flag again.
   */
  lemma NotifiedThreadRaises(s: State, t: nat)
    requires At(s, t, Waiting) && s.handler == Cleared
    ensures var steps := [HandlerNotify(Some(t)), HandlerUnlock, LeaveWait(t)];
            CanRun(s, steps) && Calm(s, steps) && At(After(s, steps), t, Raising)
  {
    hide CanRun, Calm, After, Enabled, Apply;
    NotifyIs(s, t);
    var s1 := Apply(s, HandlerNotify(Some(t)));
    UnlockIs(s1);
    var s2 := Apply(s1, HandlerUnlock);
    IdleOwnsNothing(s2);
    LeaveWaitIs(s2, t);
    ThreeSteps(s, HandlerNotify(Some(t)), HandlerUnlock, LeaveWait(t));
  }

  /** A thread whose wait timed out looks at the flag again, and waits again while it is up. */
  lemma TimedOutThreadLooksAgain(s: State, t: nat)
    requires At(s, t, Waiting) && !HandlerOwnsMutex(s)
    ensures var steps := [TimeOut(t), Recheck(t), CheckFlag(t)];
            && CanRun(s, steps) && Calm(s, steps)
            && At(After(s, steps), t, if s.inSendMode then Locking else Raising)
  {
    hide CanRun, Calm, After, IoBusy, Slice, Consume;
    ThreeSteps(s, TimeOut(t), Recheck(t), CheckFlag(t));
  }

  // ----- the I/O thread inside `sendData` -----

  /** Here a call waits for the write handler, or for a call that will. */
  predicate StuckAt(s: State, t: nat)
    requires t < |s.senders|
  {
    match s.senders[t].pc
    case Ready => s.gate.Some? || s.inSendMode
    case Checking => s.inSendMode
    case Locking => s.inSendMode
    case Waiting => s.inSendMode
    case TimedOut => s.inSendMode
    case _ => false
  }

  /** The I/O thread waits for something that only it could do. */
  predicate IoStuck(s: State) {
    exists t :: 0 <= t < |s.senders| && s.senders[t].onIo && StuckAt(s, t)
  }

  lemma StuckHoldsIo(s: State, t: nat)
    requires t < |s.senders| && s.senders[t].onIo && StuckAt(s, t)
    ensures HoldsIo(s.senders[t]) && IoBusy(s)
  {
  }

  lemma StuckOwnStep(s: State, step: Step, t: nat)
    requires Enabled(s, step) && Harmless(s, step) && Mover(step) == Some(t)
    requires t < |s.senders| && StuckAt(s, t) && s.handler == Idle
    ensures t < |Apply(s, step).senders| && StuckAt(Apply(s, step), t)
  {
    hide IoBusy, HandlerOwnsMutex, Slice, Consume;
  }

  /** While the I/O thread waits in `t`, the other steps keep the gate taken or the flag up. */
  lemma StuckOtherStep(s: State, step: Step, t: nat)
    requires Enabled(s, step) && GateHeld(s) && Phase(s) && Mover(step) != Some(t)
    requires t < |s.senders| && StuckAt(s, t) && s.handler == Idle
    ensures t < |Apply(s, step).senders| && StuckAt(Apply(s, step), t)
  {
    hide Enabled, Apply;
    StepMoves(s, step);
    FlagAfter(s, step);
    if Mover(step).Some? {
      HolderMoves(s, step, Apply(s, step));
    }
  }

  lemma StuckStaysStuck(s: State, step: Step)
    requires Enabled(s, step) && Harmless(s, step) && Invariant(s) && IoStuck(s)
    ensures IoStuck(Apply(s, step))
  {
    hide Enabled, Apply, Harmless, StuckAt, GateHeld, Phase, Ordered, FramesInOrder, Unsent;
    var t :| 0 <= t < |s.senders| && s.senders[t].onIo && StuckAt(s, t);
    StuckHoldsIo(s, t);
    SameSenders(s, step);
    if Mover(step) == Some(t) {
      StuckOwnStep(s, step, t);
    } else {
      StuckOtherStep(s, step, t);
    }
  }

  lemma {:induction false} StuckForever(s: State, more: seq<Step>)
    requires Invariant(s) && IoStuck(s) && CanRun(s, more) && Calm(s, more)
    ensures IoStuck(After(s, more)) && !AllDone(After(s, more))
    decreases |more|
  {
    hide Invariant, Enabled, Apply, Harmless, IoStuck, AllDone;
    if more == [] {
      StuckIsNotDone(s);
    } else {
      ApplyKeepsInvariant(s, more[0]);
      StuckStaysStuck(s, more[0]);
      StuckForever(Apply(s, more[0]), more[1..]);
    }
  }

  lemma StuckIsNotDone(s: State)
    requires IoStuck(s)
    ensures !AllDone(s)
  {
  }

  // ----- everything else comes to its end -----

  ghost predicate AllDone(s: State) {
    forall t :: 0 <= t < |s.senders| ==> s.senders[t].pc == Done
  }

  function Weight(pc: Pc): nat {
    if pc == Away then 2 else if pc == Done then 0 else 1
  }

  function Unfinished(senders: seq<Sender>): nat {
    if senders == [] then 0 else Unfinished(senders[..|senders| - 1]) + Weight(senders[|senders| - 1].pc)
  }

  lemma {:induction false} UnfinishedAfterMove(senders: seq<Sender>, t: nat, pc: Pc)
    requires t < |senders|
    ensures Unfinished(senders[t := senders[t].(pc := pc)]) + Weight(senders[t].pc) == Unfinished(senders) + Weight(pc)
  {
    hide Weight;
    var after := senders[t := senders[t].(pc := pc)];
    var n := |senders| - 1;
    if t < n {
      assert after[..n] == senders[..n][t := senders[t].(pc := pc)];
      UnfinishedAfterMove(senders[..n], t, pc);
    } else {
      assert after[..n] == senders[..n];
    }
  }

  /** How far the outstanding write and the handler are from rest. */
  function IoRank(s: State): nat {
    var write := if s.writes == [] then 0 else if s.writes[0].sent < s.writes[0].size then 20 else 10;
    write + HandlerRank(s.handler)
  }

  function HandlerRank(handler: Handler): nat {
    match handler
    case Idle => 0
    case Notified => 1
    case Cleared => 2
    case Consumed => 3
    case HasLock(_) => 4
    case Entered(_) => 5
  }

  /** `u` is closer to rest than `s`: the calls first, then the I/O side, then the gate's holder. */
  predicate Closer(s: State, u: State) {
    || Unfinished(u.senders) < Unfinished(s.senders)
    || (Unfinished(u.senders) == Unfinished(s.senders) &&
        (IoRank(u) < IoRank(s) || (IoRank(u) == IoRank(s) && HolderRank(HolderPc(u)) < HolderRank(HolderPc(s)))))
  }

  /** Where the I/O thread is inside `sendData` and not stuck, there is nothing for it to do outside. */
  lemma BusyIsAtRest(s: State)
    requires Invariant(s) && !IoStuck(s) && IoBusy(s)
    ensures IoRank(s) == 0
  {
    hide Ordered, FramesInOrder, Unsent;
    var t :| 0 <= t < |s.senders| && HoldsIo(s.senders[t]);
    assert !StuckAt(s, t);
    if s.senders[t].pc != Ready {
      assert s.gate == Some(t) && HolderPc(s) == s.senders[t].pc;
    }
  }

  lemma HandlerHelps(s: State) returns (step: Step)
    requires s.handler != Idle && s.handler != Cleared
    ensures Enabled(s, step) && Mover(step) == None
    ensures var u := Apply(s, step);
            u.senders == s.senders && u.writes == s.writes && HandlerRank(u.handler) < HandlerRank(s.handler)
  {
    hide IoBusy, Slice, Consume;
    match s.handler {
      case Entered(_) => step := HandlerLock;
      case HasLock(_) => step := HandlerConsume;
      case Consumed => step := HandlerClear;
      case Notified => step := HandlerUnlock;
    }
  }

  lemma NotifyHelps(s: State) returns (step: Step)
    requires s.handler == Cleared
    ensures Enabled(s, step) && step.HandlerNotify?
    ensures var u := Apply(s, step);
            && u.writes == s.writes && HandlerRank(u.handler) < HandlerRank(s.handler)
            && Unfinished(u.senders) == Unfinished(s.senders)
  {
    hide IoBusy, Slice, Consume, Unfinished;
    if t: nat :| At(s, t, Waiting) {
      step := HandlerNotify(Some(t));
      UnfinishedAfterMove(s.senders, t, Woken);
    } else {
      forall t | 0 <= t < |s.senders|
        ensures s.senders[t].pc != Waiting
      {
        assert !At(s, t, Waiting);
      }
      step := HandlerNotify(None);
    }
  }

  lemma WriteHelps(s: State) returns (step: Step)
    requires s.handler == Idle && WriteOutstanding(s) && !IoBusy(s)
    ensures Enabled(s, step) && Mover(step) == None
    ensures Apply(s, step).senders == s.senders && IoRank(Apply(s, step)) < IoRank(s)
  {
    hide IoBusy, Slice, Consume;
    var op := s.writes[0];
    if op.sent < op.size {
      step := Transfer(0, op.size - op.sent);
    } else {
      step := Complete(0);
      CompleteIs(s, 0);
    }
  }

  lemma HelpfulIoStep(s: State) returns (step: Step)
    requires Invariant(s) && IoRank(s) > 0 && !IoBusy(s)
    ensures Enabled(s, step) && !step.SpuriousWake? && !IoStuck(Apply(s, step)) && Closer(s, Apply(s, step))
  {
    hide Enabled, Apply, IoBusy, IoStuck, Unfinished, Ordered, FramesInOrder, Unsent, IoOnce, GateHeld,
      WriteOutstanding;
    if s.handler == Cleared {
      step := NotifyHelps(s);
    } else if s.handler != Idle {
      step := HandlerHelps(s);
    } else {
      PhaseFacts(s);
      step := WriteHelps(s);
    }
    StaysFree(s, step);
  }

  /** Without a call, the I/O thread stays free and so cannot get stuck. */
  lemma StaysFree(s: State, step: Step)
    requires Enabled(s, step) && !IoBusy(s) && !(step.Call? && s.senders[step.t].onIo)
    ensures !IoBusy(Apply(s, step)) && !IoStuck(Apply(s, step))
  {
    hide Enabled, Apply, IsMove, HoldsIo, StuckAt;
    var u := Apply(s, step);
    StepMoves(s, step);
    NewPc(s, step);
    forall t | 0 <= t < |u.senders|
      ensures !HoldsIo(u.senders[t])
    {
      if HoldsIo(u.senders[t]) {
        MoveHoldsIo(s, step, u, t);
        CallFromAway(s, step);
        assert false;
      }
    }
    forall t | 0 <= t < |u.senders| && u.senders[t].onIo
      ensures !StuckAt(u, t)
    {
      if StuckAt(u, t) {
        StuckHoldsIo(u, t);
        assert false;
      }
    }
  }

  lemma CallFromAway(s: State, step: Step)
    requires Enabled(s, step)
    ensures Mover(step).Some? && s.senders[Mover(step).value].pc == Away ==> step == Call(Mover(step).value)
  {
    hide IoBusy, HandlerOwnsMutex;
  }

  /** With the I/O side at rest the flag is down, unless the holder has raised it. */
  lemma FlagIsDown(s: State)
    requires Invariant(s) && IoRank(s) == 0
    ensures !HandlerOwnsMutex(s) && s.handler == Idle
    ensures HolderPc(s) != Writing && HolderPc(s) != Starting ==> !s.inSendMode
  {
    hide Ordered, FramesInOrder, Unsent, GateHeld;
  }

  function NextPc(pc: Pc): Pc
    requires pc != Done
  {
    match pc
    case Away => Ready
    case Ready => Checking
    case Checking => Raising
    case Locking => Waiting
    case Waiting => TimedOut
    case Woken => Raising
    case TimedOut => Checking
    case Raising => Writing
    case Writing => Starting
    case Starting => Done
  }

  /** What the next step of the gate's holder does when nothing stops it. */
  lemma HolderStepIs(s: State, t: nat)
    requires s.gate == Some(t) && t < |s.senders| && !Outside(s.senders[t].pc)
    requires !HandlerOwnsMutex(s) && (s.senders[t].pc == Checking ==> !s.inSendMode)
    ensures var pc := s.senders[t].pc;
            && Enabled(s, NextStep(pc, t))
            && var u := Apply(s, NextStep(pc, t));
               && u.senders == s.senders[t := s.senders[t].(pc := NextPc(pc))]
               && u.gate == (if pc == Starting then None else Some(t))
               && (pc != Starting ==> u.writes == s.writes) && u.handler == s.handler
               && u.inSendMode == (s.inSendMode || pc == Raising)
  {
    hide IoBusy, HandlerOwnsMutex, Slice, Consume;
  }

  lemma HolderStep(s: State, t: nat) returns (step: Step)
    requires Invariant(s) && IoRank(s) == 0 && s.gate == Some(t) && !IoStuck(s)
    ensures Enabled(s, step) && !step.SpuriousWake? && !IoStuck(Apply(s, step)) && Closer(s, Apply(s, step))
  {
    hide Enabled, Apply, Unfinished, Ordered, FramesInOrder, Unsent, IoOnce, Phase, HandlerOwnsMutex;
    FlagIsDown(s);
    var pc := s.senders[t].pc;
    step := NextStep(pc, t);
    HolderStepIs(s, t);
    UnfinishedAfterMove(s.senders, t, NextPc(pc));
    var u := Apply(s, step);
    forall i | 0 <= i < |u.senders| && u.senders[i].onIo
      ensures !StuckAt(u, i)
    {
      assert !StuckAt(s, i);
    }
  }

  lemma TakeFreeGate(s: State, t: nat)
    requires Invariant(s) && IoRank(s) == 0 && s.gate == None && At(s, t, Ready)
    requires IoBusy(s) ==> s.senders[t].onIo
    ensures Enabled(s, TakeGate(t)) && !IoStuck(Apply(s, TakeGate(t))) && Closer(s, Apply(s, TakeGate(t)))
  {
    hide Enabled, Apply, Unfinished, Ordered, FramesInOrder, Unsent, Phase, HandlerOwnsMutex;
    FlagIsDown(s);
    TakeGateIs(s, t);
    UnfinishedAfterMove(s.senders, t, Checking);
    var u := Apply(s, TakeGate(t));
    forall i | 0 <= i < |u.senders| && u.senders[i].onIo
      ensures !StuckAt(u, i)
    {
      if i != t {
        assert HoldsIo(s.senders[i]) ==> IoBusy(s);
      }
    }
  }

  lemma CallWhenFree(s: State, t: nat)
    requires Invariant(s) && IoRank(s) == 0 && s.gate == None && At(s, t, Away) && !IoBusy(s)
    ensures Enabled(s, Call(t)) && !IoStuck(Apply(s, Call(t))) && Closer(s, Apply(s, Call(t)))
  {
    hide Enabled, Apply, Unfinished, Ordered, FramesInOrder, Unsent, Phase, HandlerOwnsMutex;
    FlagIsDown(s);
    CallIs(s, t);
    UnfinishedAfterMove(s.senders, t, Ready);
    var u := Apply(s, Call(t));
    forall i | 0 <= i < |u.senders| && u.senders[i].onIo
      ensures !StuckAt(u, i)
    {
      if i != t {
        assert !HoldsIo(s.senders[i]);
      }
    }
  }

  lemma HelpfulSenderStep(s: State) returns (step: Step)
    requires Invariant(s) && IoRank(s) == 0 && !AllDone(s) && !IoStuck(s)
    ensures Enabled(s, step) && !step.SpuriousWake? && !IoStuck(Apply(s, step)) && Closer(s, Apply(s, step))
  {
    hide Enabled, Apply, Closer, IoStuck, Ordered, FramesInOrder, Unsent, Phase, IoOnce;
    if s.gate.Some? {
      step := HolderStep(s, s.gate.value);
    } else if t: nat :| t < |s.senders| && HoldsIo(s.senders[t]) {
      step := TakeGate(t);
      TakeFreeGate(s, t);
    } else {
      var t: nat :| t < |s.senders| && s.senders[t].pc != Done;
      if s.senders[t].pc == Away {
        step := Call(t);
        CallWhenFree(s, t);
      } else {
        step := TakeGate(t);
        TakeFreeGate(s, t);
      }
    }
  }

  /** The step that brings the system closer to rest: the I/O side first, then the calls. */
  lemma HelpfulStep(s: State) returns (step: Step)
    requires Invariant(s) && !(AllDone(s) && IoRank(s) == 0) && !IoStuck(s)
    ensures Enabled(s, step) && !step.SpuriousWake? && !IoStuck(Apply(s, step)) && Closer(s, Apply(s, step))
  {
    hide Enabled, Apply, Closer, IoStuck, IoBusy, Invariant, IoRank, AllDone;
    if IoRank(s) > 0 {
      if IoBusy(s) {
        BusyIsAtRest(s);
        assert false;
      }
      step := HelpfulIoStep(s);
    } else {
      step := HelpfulSenderStep(s);
    }
  }

  lemma {:induction false} CanFinish(s: State) returns (steps: seq<Step>)
    requires Invariant(s) && !IoStuck(s)
    ensures CanRun(s, steps) && Calm(s, steps) && AllDone(After(s, steps)) && BufferEmpty(After(s, steps))
    decreases Unfinished(s.senders), IoRank(s), HolderRank(HolderPc(s))
  {
    hide Unfinished, Enabled, Apply, IoRank, HolderRank, HolderPc, Invariant, IoStuck, AllDone, BufferEmpty;
    if AllDone(s) && IoRank(s) == 0 {
      RestIsEmpty(s);
      return [];
    }
    var step := HelpfulStep(s);
    ApplyKeepsInvariant(s, step);
    var rest := CanFinish(Apply(s, step));
    steps := [step] + rest;
    assert steps[1..] == rest;
  }

  lemma RestIsEmpty(s: State)
    requires Invariant(s) && AllDone(s) && IoRank(s) == 0
    ensures BufferEmpty(s)
  {
    hide FramesInOrder, Ordered, Unsent, IoOnce;
    assert s.gate == None;
  }

  /**
   Progress of the send gate: from every state that a calm run reaches, however the wake-ups
   and time-outs fell so far, unless the I/O thread is stuck in a call of its own, the run
   can be continued until every call has ended and every frame is on the wire, whole, once,
   in gate order.
   */
  lemma EveryRunCanFinish(frames: seq<Bytes>, io: set<nat>, steps: seq<Step>) returns (more: seq<Step>)
    requires NonEmpty(frames) && CanRun(Start(frames, io), steps) && Calm(Start(frames, io), steps)
    requires !IoStuck(After(Start(frames, io), steps))
    ensures CanRun(After(Start(frames, io), steps), more) && Calm(After(Start(frames, io), steps), more)
    ensures var s := After(After(Start(frames, io), steps), more);
            && AllDone(s)
            && (forall i :: 0 <= i < |s.order| ==> s.order[i] < |frames|)
            && (forall i, j :: 0 <= i < j < |s.order| ==> s.order[i] != s.order[j])
            && (forall t :: 0 <= t < |frames| ==> t in s.order)
            && s.wire == Concat(GateOrder(frames, s.order))
  {
    hide Concat, Enabled, Apply, After, CanRun, Calm, Phase, GateHeld, IoOnce, IoStuck;
    StartIsInvariant(frames, io);
    RunKeepsInvariant(Start(frames, io), steps);
    var s := After(Start(frames, io), steps);
    more := CanFinish(s);
    RunKeepsInvariant(s, more);
    var t := After(s, more);
    assert OrderedFrames(t.senders, t.order) == GateOrder(frames, t.order);
    assert t.wire + [] == t.wire;
  }

  /**
   The condition is exact: from a state that a calm run reaches all calls can be brought to
   their end if and only if the I/O thread is not stuck.
   */
  lemma CanFinishIffNotStuck(frames: seq<Bytes>, io: set<nat>, steps: seq<Step>)
    requires NonEmpty(frames) && CanRun(Start(frames, io), steps) && Calm(Start(frames, io), steps)
    ensures var s := After(Start(frames, io), steps);
            (exists more: seq<Step> :: CanRun(s, more) && Calm(s, more) && AllDone(After(s, more))) <==> !IoStuck(s)
  {
    hide Enabled, Apply, After, CanRun, Calm, Invariant, IoStuck, AllDone;
    StartIsInvariant(frames, io);
    RunKeepsInvariant(Start(frames, io), steps);
    var s := After(Start(frames, io), steps);
    if IoStuck(s) {
      forall more: seq<Step> | CanRun(s, more) && Calm(s, more)
        ensures !AllDone(After(s, more))
      {
        StuckForever(s, more);
      }
    } else {
      var more := CanFinish(s);
    }
  }

  /** One callback on the I/O thread that sends twice in a row gets stuck in its second call. */
  lemma SecondSendOnIoIsStuck(frames: seq<Bytes>, io: set<nat>)
    requires NonEmpty(frames) && |frames| >= 2 && 0 in io && 1 in io
    ensures var steps := FIRST_WRITE + [Call(1)];
            && CanRun(Start(frames, io), steps) && Calm(Start(frames, io), steps)
            && IoStuck(After(Start(frames, io), steps))
  {
    hide CanRun, Calm, After, Enabled, Apply, Start, IoBusy, Written, FIRST_WRITE;
    FirstWrite(frames, io);
    AfterFirstWrite(frames, io);
    var s := After(Start(frames, io), FIRST_WRITE);
    NobodyHoldsIo(s);
    CallIs(s, 1);
    RunAppend(Start(frames, io), FIRST_WRITE, Call(1));
    var u := After(Start(frames, io), FIRST_WRITE + [Call(1)]);
    assert u.senders[1].onIo && StuckAt(u, 1);
  }
}
