/**
 The sending side (common/src/tcpsession.cpp): any number of threads in `sendData` share
 one stream buffer, and the completion handler `handlerWrite` runs on the thread that runs
 the I/O service.  Two mutexes, a flag and a timed wait keep them apart.

 `boost::asio::async_write` on a stream buffer consumes what it has written before it
 calls the handler, and the handler consumes the same number of bytes again.

 A condition wait may also end spuriously.  The loop leaves on any wake-up without looking
 at the flag again.  That does no harm while the flag is down, nor while the handler holds
 the availability mutex and is about to lower it, since the woken thread needs that mutex
 to go on; at any other moment it lets a frame be lost or a second write start.  A run is
 `Calm` when no wait ends at such a moment.  Writes do not fail.

 Some calls of `sendData` may be made on the thread that runs the I/O service itself, by a
 callback that runs there.  While such a call lasts, no write completes.
 */
module SendGate {
  import opened Crc32
  import opened Options
  import opened BufferProcessors

  datatype Pc =
    /** Has not called `sendData` yet. */
    | Away
    /** `prepareData` is done; the gate mutex is not yet taken. */
    | Ready
    /** Holds the gate, about to read `m_inSendMode`. */
    | Checking
    /** Read true, about to lock the availability mutex and wait. */
    | Locking
    /** In the timed wait, availability mutex released. */
    | Waiting
    /** The wait was notified. */
    | Woken
    /** The wait timed out. */
    | TimedOut
    /** About to set the flag. */
    | Raising
    /** About to write the frame into the stream buffer. */
    | Writing
    /** About to start the asynchronous write. */
    | Starting
    | Done

  /** One call of `sendData`; `onIo` says that it is made on the I/O thread. */
  datatype Sender = Sender(pc: Pc, frame: Bytes, onIo: bool)

  /** An outstanding asynchronous write of the first `size` bytes of the stream buffer. */
  datatype Write = Write(size: nat, sent: nat)

  datatype Handler =
    | Idle
    /** The write has completed; the handler is about to lock the availability mutex. */
    | Entered(bytes: nat)
    | HasLock(bytes: nat)
    | Consumed
    | Cleared
    | Notified

  datatype State = State(
    senders: seq<Sender>,
    gate: Option<nat>,
    inSendMode: bool,
    stream: Bytes,
    writes: seq<Write>,
    handler: Handler,
    // history
    wire: Bytes,
    order: seq<nat>,
    discarded: Bytes)

  /** `io` are the calls made on the I/O thread. */
  function Start(frames: seq<Bytes>, io: set<nat>): State {
    var senders := seq(|frames|, i requires 0 <= i < |frames| => Sender(Away, frames[i], i in io));
    State(senders, None, false, [], [], Idle, [], [], [])
  }

  datatype Step =
    | Call(t: nat)
    | TakeGate(t: nat)
    | CheckFlag(t: nat)
    | BeginWait(t: nat)
    | TimeOut(t: nat)
    /** The wait returns `no_timeout` although nobody notified it. */
    | SpuriousWake(t: nat)
    | Recheck(t: nat)
    | LeaveWait(t: nat)
    | RaiseFlag(t: nat)
    | WriteFrame(t: nat)
    | StartWrite(t: nat)
    | Transfer(w: nat, bytes: nat)
    | Complete(w: nat)
    | HandlerLock
    | HandlerConsume
    | HandlerClear
    | HandlerNotify(waiter: Option<nat>)
    | HandlerUnlock

  predicate At(s: State, t: nat, pc: Pc) {
    t < |s.senders| && s.senders[t].pc == pc
  }

  /** The handler holds the availability mutex; a sender holds it only within one of its steps. */
  predicate HandlerOwnsMutex(s: State) {
    s.handler.HasLock? || s.handler == Consumed || s.handler == Cleared || s.handler == Notified
  }

  /** The I/O thread is inside this call of `sendData`. */
  predicate HoldsIo(sender: Sender) {
    sender.onIo && sender.pc != Away && sender.pc != Done
  }

  predicate IoBusy(s: State) {
    exists t :: 0 <= t < |s.senders| && HoldsIo(s.senders[t])
  }

  predicate Enabled(s: State, step: Step) {
    match step
    case Call(t) => At(s, t, Away) && (s.senders[t].onIo ==> s.handler == Idle && !IoBusy(s))
    case TakeGate(t) => At(s, t, Ready) && s.gate == None
    case CheckFlag(t) => At(s, t, Checking)
    case BeginWait(t) => At(s, t, Locking) && !HandlerOwnsMutex(s)
    case TimeOut(t) => At(s, t, Waiting)
    case SpuriousWake(t) => At(s, t, Waiting)
    case Recheck(t) => At(s, t, TimedOut) && !HandlerOwnsMutex(s)
    case LeaveWait(t) => At(s, t, Woken) && !HandlerOwnsMutex(s)
    case RaiseFlag(t) => At(s, t, Raising)
    case WriteFrame(t) => At(s, t, Writing)
    case StartWrite(t) => At(s, t, Starting)
    case Transfer(w, bytes) => w < |s.writes| && 0 < bytes && s.writes[w].sent + bytes <= s.writes[w].size
    case Complete(w) => w < |s.writes| && s.writes[w].sent == s.writes[w].size && s.handler == Idle && !IoBusy(s)
    case HandlerLock => s.handler.Entered?
    case HandlerConsume => s.handler.HasLock?
    case HandlerClear => s.handler == Consumed
    case HandlerNotify(waiter) =>
      && s.handler == Cleared
      && (if waiter.Some? then At(s, waiter.value, Waiting)
          else forall t :: 0 <= t < |s.senders| ==> s.senders[t].pc != Waiting)
    case HandlerUnlock => s.handler == Notified
  }

  function Move(s: State, t: nat, pc: Pc): State
    requires t < |s.senders|
  {
    s.(senders := s.senders[t := s.senders[t].(pc := pc)])
  }

  /** The part of `s` from `from` to `to` that exists. */
  function Slice(s: Bytes, from: nat, to: nat): Bytes {
    if to <= from || |s| <= from then [] else if to <= |s| then s[from..to] else s[from..]
  }

  /** `streambuf::consume`: drops `n` bytes, or all there are. */
  function Consume(stream: Bytes, n: nat): Bytes {
    if n <= |stream| then stream[n..] else []
  }

  function Apply(s: State, step: Step): State
    requires Enabled(s, step)
  {
    match step
    case Call(t) => Move(s, t, Ready)
    case TakeGate(t) => Move(s, t, Checking).(gate := Some(t))
    case CheckFlag(t) => Move(s, t, if s.inSendMode then Locking else Raising)
    case BeginWait(t) => Move(s, t, Waiting)
    case TimeOut(t) => Move(s, t, TimedOut)
    case SpuriousWake(t) => Move(s, t, Woken)
    case Recheck(t) => Move(s, t, Checking)
    case LeaveWait(t) => Move(s, t, Raising)
    case RaiseFlag(t) => Move(s, t, Writing).(inSendMode := true)
    case WriteFrame(t) => Move(s, t, Starting).(stream := s.stream + s.senders[t].frame, order := s.order + [t])
    case StartWrite(t) => Move(s, t, Done).(writes := s.writes + [Write(|s.stream|, 0)], gate := None)
    case Transfer(w, bytes) =>
      var op := s.writes[w];
      s.(writes := s.writes[w := op.(sent := op.sent + bytes)],
         wire := s.wire + Slice(s.stream, op.sent, op.sent + bytes))
    case Complete(w) =>
      var size := s.writes[w].size;
      s.(writes := s.writes[..w] + s.writes[w + 1..], stream := Consume(s.stream, size), handler := Entered(size))
    case HandlerLock => s.(handler := HasLock(s.handler.bytes))
    case HandlerConsume =>
      s.(handler := Consumed,
         stream := Consume(s.stream, s.handler.bytes),
         discarded := s.discarded + Slice(s.stream, 0, s.handler.bytes))
    case HandlerClear => s.(handler := Cleared, inSendMode := false)
    case HandlerNotify(waiter) =>
      if waiter.Some? then Move(s, waiter.value, Woken).(handler := Notified) else s.(handler := Notified)
    case HandlerUnlock => s.(handler := Idle)
  }

  /**
   In any state, broken ones included: the completion of a write takes its bytes from the
   front of the stream buffer, and the handler takes as many again, as far as there are any;
   what it takes is lost.
   */
  lemma ConsumedTwice(s: State, w: nat)
    ensures Enabled(s, Complete(w)) ==>
              var size, u := s.writes[w].size, Apply(s, Complete(w));
              && |u.writes| == |s.writes| - 1 && u.handler == Entered(size)
              && u.stream == (if size <= |s.stream| then s.stream[size..] else [])
    ensures s.handler.HasLock? ==>
              var size, u := s.handler.bytes, Apply(s, HandlerConsume);
              && u.discarded + u.stream == s.discarded + s.stream
              && |u.discarded| == |s.discarded| + (if size <= |s.stream| then size else |s.stream|)
  {
    hide IoBusy;
  }

  // ----- single steps of a thread -----

  lemma CallIs(s: State, t: nat)
    requires At(s, t, Away) && (s.senders[t].onIo ==> s.handler == Idle && !IoBusy(s))
    ensures Enabled(s, Call(t)) && Apply(s, Call(t)) == Move(s, t, Ready)
  {
    hide IoBusy;
  }

  lemma TakeGateIs(s: State, t: nat)
    requires At(s, t, Ready) && s.gate == None
    ensures Enabled(s, TakeGate(t)) && Apply(s, TakeGate(t)) == Move(s, t, Checking).(gate := Some(t))
  {
  }

  lemma CheckFlagIs(s: State, t: nat)
    requires At(s, t, Checking)
    ensures Enabled(s, CheckFlag(t)) && Apply(s, CheckFlag(t)) == Move(s, t, if s.inSendMode then Locking else Raising)
  {
  }

  lemma BeginWaitIs(s: State, t: nat)
    requires At(s, t, Locking) && !HandlerOwnsMutex(s)
    ensures Enabled(s, BeginWait(t)) && Apply(s, BeginWait(t)) == Move(s, t, Waiting)
  {
  }

  lemma LeaveWaitIs(s: State, t: nat)
    requires At(s, t, Woken) && !HandlerOwnsMutex(s)
    ensures Enabled(s, LeaveWait(t)) && Apply(s, LeaveWait(t)) == Move(s, t, Raising)
  {
  }

  lemma RaiseFlagIs(s: State, t: nat)
    requires At(s, t, Raising)
    ensures Enabled(s, RaiseFlag(t)) && Apply(s, RaiseFlag(t)) == Move(s, t, Writing).(inSendMode := true)
  {
  }

  lemma WriteFrameIs(s: State, t: nat)
    requires At(s, t, Writing)
    ensures Enabled(s, WriteFrame(t))
    ensures Apply(s, WriteFrame(t)) ==
              Move(s, t, Starting).(stream := s.stream + s.senders[t].frame, order := s.order + [t])
  {
  }

  lemma StartWriteIs(s: State, t: nat)
    requires At(s, t, Starting)
    ensures Enabled(s, StartWrite(t))
    ensures Apply(s, StartWrite(t)) == Move(s, t, Done).(writes := s.writes + [Write(|s.stream|, 0)], gate := None)
  {
  }

  /** The gate's holder sets the flag and writes its frame. */
  function ThroughGate(s: State, t: nat): State
    requires At(s, t, Raising)
  {
    Apply(Apply(s, RaiseFlag(t)), WriteFrame(t))
  }

  /** The handler, under its lock, consumes and clears the flag. */
  function Released(s: State): State
    requires s.handler.HasLock?
  {
    Apply(Apply(s, HandlerConsume), HandlerClear)
  }

  ghost predicate CanRun(s: State, steps: seq<Step>)
    decreases |steps|
  {
    steps == [] || (Enabled(s, steps[0]) && CanRun(Apply(s, steps[0]), steps[1..]))
  }

  ghost function After(s: State, steps: seq<Step>): State
    requires CanRun(s, steps)
    decreases |steps|
  {
    if steps == [] then s else After(Apply(s, steps[0]), steps[1..])
  }

  /** The handler holds the availability mutex and will lower the flag before it gives it up. */
  predicate FlagIsFalling(s: State) {
    s.handler.HasLock? || s.handler == Consumed
  }

  /** No wait ends spuriously while the flag is up and not about to fall. */
  predicate Harmless(s: State, step: Step) {
    step.SpuriousWake? ==> !s.inSendMode || FlagIsFalling(s)
  }

  ghost predicate Calm(s: State, steps: seq<Step>)
    requires CanRun(s, steps)
    decreases |steps|
  {
    steps == [] || (Harmless(s, steps[0]) && Calm(Apply(s, steps[0]), steps[1..]))
  }

  // ----- the invariant -----

  predicate Outside(pc: Pc) {
    pc == Away || pc == Ready || pc == Done
  }

  /** One thread at most is past the gate: the one that holds it. */
  ghost predicate GateHeld(s: State) {
    && (s.gate.Some? ==> s.gate.value < |s.senders| && !Outside(s.senders[s.gate.value].pc))
    && forall t :: 0 <= t < |s.senders| && s.gate != Some(t) ==> Outside(s.senders[t].pc)
  }

  /** Where the gate's holder is; `Ready` stands for nobody. */
  function HolderPc(s: State): Pc {
    if s.gate.Some? && s.gate.value < |s.senders| then s.senders[s.gate.value].pc else Ready
  }

  /** The handler has cleared the flag, or there is nothing for it to do. */
  predicate HandlerPastClear(s: State) {
    s.handler == Idle || s.handler == Cleared || s.handler == Notified
  }

  ghost predicate BufferEmpty(s: State) {
    s.writes == [] && s.stream == []
  }

  ghost predicate WriteOutstanding(s: State) {
    |s.writes| == 1 && s.writes[0].size == |s.stream| > 0 && s.writes[0].sent <= s.writes[0].size
  }

  /** How the flag, the buffer, the write and the handler fit together, by where the gate's holder is. */
  ghost predicate Phase(s: State) {
    PhaseAt(s, HolderPc(s))
  }

  ghost predicate PhaseAt(s: State, pc: Pc) {
    (s.handler.Entered? ==> s.handler.bytes > 0) &&
    match pc
    case Raising => !s.inSendMode && BufferEmpty(s) && HandlerPastClear(s)
    case Woken => BufferEmpty(s) && (if s.inSendMode then FlagIsFalling(s) else HandlerPastClear(s))
    case Writing => s.inSendMode && BufferEmpty(s) && HandlerPastClear(s)
    case Starting => s.inSendMode && s.writes == [] && s.stream != [] && HandlerPastClear(s)
    case _ =>
      if s.inSendMode then
        && (if HandlerPastClear(s) then WriteOutstanding(s) else BufferEmpty(s))
        && (pc == Waiting ==> s.handler != Cleared && s.handler != Notified)
      else BufferEmpty(s) && HandlerPastClear(s)
  }

  /** The I/O thread is inside one call at a time, and then its handler does not run. */
  ghost predicate IoOnce(s: State) {
    && (forall t, u :: 0 <= t < |s.senders| && 0 <= u < |s.senders| ==>
          HoldsIo(s.senders[t]) && HoldsIo(s.senders[u]) ==> t == u)
    && (IoBusy(s) ==> s.handler == Idle)
  }

  function FramesInOrder(s: State): Bytes
    requires forall i :: 0 <= i < |s.order| ==> s.order[i] < |s.senders|
  {
    Concat(OrderedFrames(s.senders, s.order))
  }

  function OrderedFrames(senders: seq<Sender>, order: seq<nat>): seq<Bytes>
    requires forall i :: 0 <= i < |order| ==> order[i] < |senders|
  {
    seq(|order|, i requires 0 <= i < |order| => senders[order[i]].frame)
  }

  /** The buffered bytes that are not on the wire yet. */
  function Unsent(s: State): Bytes {
    if |s.writes| == 1 && s.writes[0].sent <= |s.stream| then s.stream[s.writes[0].sent..] else s.stream
  }

  ghost predicate Ordered(s: State) {
    && (forall i :: 0 <= i < |s.order| ==> s.order[i] < |s.senders|)
    && (forall i, j :: 0 <= i < j < |s.order| ==> s.order[i] != s.order[j])
    && (forall t :: 0 <= t < |s.senders| ==> (t in s.order <==> s.senders[t].pc == Starting || s.senders[t].pc == Done))
  }

  ghost predicate Invariant(s: State) {
    && GateHeld(s)
    && Phase(s)
    && Ordered(s)
    && IoOnce(s)
    && (forall t :: 0 <= t < |s.senders| ==> s.senders[t].frame != [])
    && s.discarded == []
    && s.wire + Unsent(s) == FramesInOrder(s)
  }

  // ----- what a step does to the threads -----

  /** The thread whose place a step changes. */
  function Mover(step: Step): Option<nat> {
    match step
    case Call(t) => Some(t)
    case TakeGate(t) => Some(t)
    case CheckFlag(t) => Some(t)
    case BeginWait(t) => Some(t)
    case TimeOut(t) => Some(t)
    case SpuriousWake(t) => Some(t)
    case Recheck(t) => Some(t)
    case LeaveWait(t) => Some(t)
    case RaiseFlag(t) => Some(t)
    case WriteFrame(t) => Some(t)
    case StartWrite(t) => Some(t)
    case HandlerNotify(waiter) => waiter
    case _ => None
  }

  /** Past the gate and not yet in the gate order. */
  predicate BeforeWrite(pc: Pc) {
    !Outside(pc) && pc != Starting
  }

  /** The moves of a thread `t`, with what they do to the gate and to its order. */
  predicate IsMove(s: State, t: nat, u: State)
    requires t < |s.senders| == |u.senders|
  {
    var before, after := s.senders[t].pc, u.senders[t].pc;
    || (before == Away && after == Ready && u.gate == s.gate && u.order == s.order)
    || (before == Ready && after == Checking && s.gate == None && u.gate == Some(t) && u.order == s.order)
    || (BeforeWrite(before) && BeforeWrite(after) && u.gate == s.gate && u.order == s.order)
    || (before == Writing && after == Starting && u.gate == s.gate && u.order == s.order + [t])
    || (before == Starting && after == Done && u.gate == None && u.order == s.order)
  }

  ghost predicate Moved(s: State, step: Step, u: State) {
    match Mover(step)
    case None => u.senders == s.senders && u.gate == s.gate && u.order == s.order
    case Some(t) =>
      && t < |s.senders| == |u.senders|
      && u.senders == s.senders[t := s.senders[t].(pc := u.senders[t].pc)]
      && IsMove(s, t, u)
  }

  predicate IsWaitStep(step: Step) {
    step.Call? || step.TakeGate? || step.CheckFlag? || step.BeginWait? || step.TimeOut? || step.Recheck?
    || step.SpuriousWake?
  }

  predicate IsWriteStep(step: Step) {
    step.LeaveWait? || step.RaiseFlag? || step.WriteFrame? || step.StartWrite?
  }

  lemma WaitStepMoves(s: State, step: Step)
    requires Enabled(s, step) && IsWaitStep(step)
    ensures Moved(s, step, Apply(s, step))
  {
    hide IoBusy, HandlerOwnsMutex, Slice, Consume;
  }

  lemma WriteStepMoves(s: State, step: Step)
    requires Enabled(s, step) && IsWriteStep(step)
    ensures Moved(s, step, Apply(s, step))
  {
    hide IoBusy, HandlerOwnsMutex, Slice, Consume;
  }

  lemma IoStepMoves(s: State, step: Step)
    requires Enabled(s, step) && !IsWaitStep(step) && !IsWriteStep(step)
    ensures Moved(s, step, Apply(s, step))
  {
    hide IoBusy, HandlerOwnsMutex, Slice, Consume;
  }

  lemma StepMoves(s: State, step: Step)
    requires Enabled(s, step)
    ensures Moved(s, step, Apply(s, step))
  {
    hide Enabled, Apply, Moved;
    if IsWaitStep(step) {
      WaitStepMoves(s, step);
    } else if IsWriteStep(step) {
      WriteStepMoves(s, step);
    } else {
      IoStepMoves(s, step);
    }
  }

  // ----- every step keeps the invariant -----

  lemma MoveKeepsGate(s: State, step: Step, u: State)
    requires Moved(s, step, u) && GateHeld(s)
    ensures GateHeld(u)
  {
  }

  lemma MoveKeepsOrder(s: State, step: Step, u: State)
    requires Moved(s, step, u) && Ordered(s)
    ensures Ordered(u)
  {
    if Mover(step).Some? && s.senders[Mover(step).value].pc == Writing {
      var t := Mover(step).value;
      assert t !in s.order;
      if u.order == s.order + [t] {
        assert forall i :: 0 <= i < |s.order| ==> u.order[i] == s.order[i];
      }
    }
  }

  lemma SameSenders(s: State, step: Step)
    requires Enabled(s, step)
    ensures |Apply(s, step).senders| == |s.senders|
    ensures forall t :: 0 <= t < |s.senders| ==>
              && Apply(s, step).senders[t].frame == s.senders[t].frame
              && Apply(s, step).senders[t].onIo == s.senders[t].onIo
  {
    hide Enabled, Apply, IsMove;
    StepMoves(s, step);
  }

  /** A thread that moves is the gate's holder, unless it is only calling. */
  lemma HolderMoves(s: State, step: Step, u: State)
    requires Moved(s, step, u) && GateHeld(s)
    ensures Mover(step).None? ==> HolderPc(u) == HolderPc(s)
    ensures Mover(step).Some? ==>
              var before, after := s.senders[Mover(step).value].pc, u.senders[Mover(step).value].pc;
              if before == Away then HolderPc(u) == HolderPc(s)
              else HolderPc(s) == before && HolderPc(u) == if after == Done then Ready else after
  {
  }

  lemma WaitStepKeepsPhase(s: State, step: Step, before: Pc, after: Pc)
    requires Enabled(s, step) && IsWaitStep(step) && Harmless(s, step) && PhaseAt(s, before)
    requires step.Call? ==> after == before
    requires !step.Call? ==> before == s.senders[step.t].pc && after == Apply(s, step).senders[step.t].pc
    ensures PhaseAt(Apply(s, step), after)
  {
    hide IoBusy, Slice, Consume;
  }

  lemma WriteStepKeepsPhase(s: State, step: Step, before: Pc, after: Pc)
    requires Enabled(s, step) && IsWriteStep(step) && PhaseAt(s, before) && s.senders[step.t].frame != []
    requires before == s.senders[step.t].pc
    requires after == if step.StartWrite? then Ready else Apply(s, step).senders[step.t].pc
    ensures PhaseAt(Apply(s, step), after)
  {
    hide IoBusy, Slice, Consume;
  }

  lemma TransferKeepsPhase(s: State, w: nat, bytes: nat, pc: Pc)
    requires Enabled(s, Transfer(w, bytes)) && PhaseAt(s, pc)
    ensures PhaseAt(Apply(s, Transfer(w, bytes)), pc)
  {
    hide IoBusy, Slice, Consume, HandlerOwnsMutex;
  }

  lemma CompleteKeepsPhase(s: State, w: nat, pc: Pc)
    requires Enabled(s, Complete(w)) && PhaseAt(s, pc)
    ensures PhaseAt(Apply(s, Complete(w)), pc)
  {
    hide IoBusy, Slice, HandlerOwnsMutex, Apply;
    CompleteIs(s, w);
  }

  lemma CompleteIs(s: State, w: nat)
    requires Enabled(s, Complete(w)) && WriteOutstanding(s)
    ensures Apply(s, Complete(w)) == s.(writes := [], stream := [], handler := Entered(|s.stream|))
    ensures s.handler == Idle && |s.stream| > 0
  {
    hide IoBusy, Slice, HandlerOwnsMutex;
    assert s.writes[..w] + s.writes[w + 1..] == [];
  }

  lemma HandlerStepKeepsPhase(s: State, step: Step, before: Pc, after: Pc)
    requires Enabled(s, step) && !IsWaitStep(step) && !IsWriteStep(step) && PhaseAt(s, before)
    requires !step.Transfer? && !step.Complete?
    requires if step.HandlerNotify? && step.waiter.Some? then before == Waiting && after == Woken else after == before
    ensures PhaseAt(Apply(s, step), after)
  {
    hide IoBusy, Slice, HandlerOwnsMutex;
  }

  lemma IoStepKeepsPhase(s: State, step: Step, before: Pc, after: Pc)
    requires Enabled(s, step) && !IsWaitStep(step) && !IsWriteStep(step) && PhaseAt(s, before)
    requires if step.HandlerNotify? && step.waiter.Some? then before == Waiting && after == Woken else after == before
    ensures PhaseAt(Apply(s, step), after)
  {
    hide Enabled, Apply, PhaseAt;
    if step.Transfer? {
      TransferKeepsPhase(s, step.w, step.bytes, before);
    } else if step.Complete? {
      CompleteKeepsPhase(s, step.w, before);
    } else {
      HandlerStepKeepsPhase(s, step, before, after);
    }
  }

  lemma NewPc(s: State, step: Step)
    requires Enabled(s, step)
    ensures step.Call? ==> s.senders[step.t].pc == Away
    ensures (IsWaitStep(step) || IsWriteStep(step)) && !step.Call? ==> s.senders[step.t].pc != Away
    ensures IsWaitStep(step) ==> Apply(s, step).senders[step.t].pc != Done
    ensures step.StartWrite? <==> IsWriteStep(step) && Apply(s, step).senders[step.t].pc == Done
    ensures step.HandlerNotify? && step.waiter.Some? ==>
              s.senders[step.waiter.value].pc == Waiting && Apply(s, step).senders[step.waiter.value].pc == Woken
  {
    hide IoBusy, HandlerOwnsMutex, Slice, Consume;
  }

  lemma ApplyKeepsPhase(s: State, step: Step)
    requires Enabled(s, step) && Harmless(s, step) && GateHeld(s) && Phase(s)
    requires forall t :: 0 <= t < |s.senders| ==> s.senders[t].frame != []
    ensures Phase(Apply(s, step))
  {
    hide Enabled, Apply, GateHeld, PhaseAt, HolderPc, Harmless, IsMove;
    var u := Apply(s, step);
    StepMoves(s, step);
    HolderMoves(s, step, u);
    NewPc(s, step);
    if IsWaitStep(step) {
      WaitStepKeepsPhase(s, step, HolderPc(s), HolderPc(u));
    } else if IsWriteStep(step) {
      WriteStepKeepsPhase(s, step, HolderPc(s), HolderPc(u));
    } else {
      IoStepKeepsPhase(s, step, HolderPc(s), HolderPc(u));
    }
  }

  /** Only `WriteFrame` changes what the gate order spells. */
  lemma FramesAfter(s: State, step: Step)
    requires Enabled(s, step) && Ordered(s)
    ensures var t := Apply(s, step);
            && (forall i :: 0 <= i < |t.order| ==> t.order[i] < |t.senders|)
            && FramesInOrder(t) == FramesInOrder(s) + (if step.WriteFrame? then s.senders[step.t].frame else [])
  {
    hide FramesInOrder, Apply, Enabled;
    var t := Apply(s, step);
    SameSenders(s, step);
    OrderAfter(s, step);
    SameFrames(s.senders, t.senders, s.order);
    if step.WriteFrame? {
      FrameAppended(t, s, step.t);
    } else {
      FramesSpelled(s, t);
      assert FramesInOrder(s) + [] == FramesInOrder(s);
    }
  }

  lemma SameFrames(senders: seq<Sender>, moved: seq<Sender>, order: seq<nat>)
    requires forall i :: 0 <= i < |order| ==> order[i] < |senders|
    requires |moved| == |senders| && forall t :: 0 <= t < |senders| ==> moved[t].frame == senders[t].frame
    ensures OrderedFrames(moved, order) == OrderedFrames(senders, order)
  {
  }

  lemma FramesSpelled(s: State, t: State)
    requires forall i :: 0 <= i < |s.order| ==> s.order[i] < |s.senders| == |t.senders|
    requires t.order == s.order && OrderedFrames(t.senders, s.order) == OrderedFrames(s.senders, s.order)
    ensures FramesInOrder(t) == FramesInOrder(s)
  {
    hide OrderedFrames, Concat;
  }

  lemma FrameAppended(t: State, s: State, last: nat)
    requires forall i :: 0 <= i < |s.order| ==> s.order[i] < |s.senders| == |t.senders|
    requires OrderedFrames(t.senders, s.order) == OrderedFrames(s.senders, s.order)
    requires t.order == s.order + [last] && last < |s.senders| == |t.senders|
    requires t.senders[last].frame == s.senders[last].frame
    ensures FramesInOrder(t) == FramesInOrder(s) + s.senders[last].frame
  {
    hide Concat;
    var frame := s.senders[last].frame;
    assert OrderedFrames(t.senders, t.order) == OrderedFrames(t.senders, s.order) + [frame];
    ConcatAppend(OrderedFrames(s.senders, s.order), [frame]);
    ConcatSingle(frame);
  }

  lemma OrderAfter(s: State, step: Step)
    requires Enabled(s, step)
    ensures Apply(s, step).order == if step.WriteFrame? then s.order + [step.t] else s.order
    ensures step.WriteFrame? ==> step.t < |s.senders|
  {
    hide IoBusy, HandlerOwnsMutex, Slice, Consume;
  }

  lemma ConcatSingle(chunk: Bytes)
    ensures Concat([chunk]) == chunk
  {
  }

  lemma PhaseFacts(s: State)
    requires Phase(s) && GateHeld(s)
    ensures forall t: nat :: At(s, t, Writing) ==> BufferEmpty(s)
    ensures forall t: nat :: At(s, t, Starting) ==> s.writes == []
    ensures s.writes != [] ==> WriteOutstanding(s)
    ensures s.handler.HasLock? ==> BufferEmpty(s)
  {
    forall t: nat | At(s, t, Writing) || At(s, t, Starting)
      ensures HolderPc(s) == s.senders[t].pc
    {
    }
  }

  lemma WriteFrameKeepsBytes(s: State, t: nat)
    requires At(s, t, Writing) && BufferEmpty(s)
    ensures var u := Apply(s, WriteFrame(t));
            u.discarded == s.discarded && u.wire + Unsent(u) == s.wire + Unsent(s) + s.senders[t].frame
  {
    hide IoBusy, Slice, Consume;
  }

  lemma StartWriteKeepsBytes(s: State, t: nat)
    requires At(s, t, Starting) && s.writes == []
    ensures var u := Apply(s, StartWrite(t)); u.discarded == s.discarded && u.wire + Unsent(u) == s.wire + Unsent(s)
  {
    hide IoBusy, Slice, Consume;
  }

  lemma TransferKeepsBytes(s: State, w: nat, bytes: nat)
    requires Enabled(s, Transfer(w, bytes)) && WriteOutstanding(s)
    ensures var u := Apply(s, Transfer(w, bytes));
            u.discarded == s.discarded && u.wire + Unsent(u) == s.wire + Unsent(s)
  {
    hide IoBusy, Consume;
    var from := s.writes[0].sent;
    assert s.stream[from..] == s.stream[from..from + bytes] + s.stream[from + bytes..];
  }

  lemma CompleteKeepsBytes(s: State, w: nat)
    requires Enabled(s, Complete(w)) && WriteOutstanding(s)
    ensures var u := Apply(s, Complete(w)); u.discarded == s.discarded && u.wire + Unsent(u) == s.wire + Unsent(s)
  {
    hide Apply;
    CompleteIs(s, w);
  }

  lemma ConsumeKeepsBytes(s: State)
    requires Enabled(s, HandlerConsume) && BufferEmpty(s)
    ensures var u := Apply(s, HandlerConsume); u.discarded == s.discarded && u.wire + Unsent(u) == s.wire + Unsent(s)
  {
    hide IoBusy;
  }

  lemma OtherStepKeepsBytes(s: State, step: Step)
    requires Enabled(s, step) && !step.WriteFrame? && !step.StartWrite?
    requires !step.Transfer? && !step.Complete? && !step.HandlerConsume?
    ensures var u := Apply(s, step); u.discarded == s.discarded && u.wire + Unsent(u) == s.wire + Unsent(s)
  {
    hide IoBusy, HandlerOwnsMutex, Slice, Consume;
  }

  lemma StepIsEnabledAt(s: State, step: Step)
    requires Enabled(s, step)
    ensures step.WriteFrame? ==> At(s, step.t, Writing)
    ensures step.StartWrite? ==> At(s, step.t, Starting)
    ensures step.Transfer? || step.Complete? ==> s.writes != []
    ensures step.HandlerConsume? ==> s.handler.HasLock?
  {
    hide IoBusy, HandlerOwnsMutex;
  }

  /** Only `WriteFrame` adds to the bytes on the wire or in the buffer, and no step loses any. */
  lemma ApplyKeepsBytes(s: State, step: Step)
    requires Enabled(s, step) && GateHeld(s) && Phase(s)
    ensures var t := Apply(s, step);
            && t.discarded == s.discarded
            && t.wire + Unsent(t) == s.wire + Unsent(s) + (if step.WriteFrame? then s.senders[step.t].frame else [])
  {
    hide Enabled, Apply, GateHeld, Phase, Unsent, BufferEmpty, WriteOutstanding;
    PhaseFacts(s);
    StepIsEnabledAt(s, step);
    match step {
      case WriteFrame(t) => WriteFrameKeepsBytes(s, t);
      case StartWrite(t) => StartWriteKeepsBytes(s, t);
      case Transfer(w, bytes) => TransferKeepsBytes(s, w, bytes);
      case Complete(w) => CompleteKeepsBytes(s, w);
      case HandlerConsume => ConsumeKeepsBytes(s);
      case _ => OtherStepKeepsBytes(s, step);
    }
  }

  lemma HandlerAfter(s: State, step: Step)
    requires Enabled(s, step)
    ensures s.handler == Idle ==> Apply(s, step).handler == Idle || step.Complete?
    ensures step.Complete? ==> !IoBusy(s)
    ensures step.Call? ==> step.t < |s.senders| && Apply(s, step).handler == s.handler
    ensures step.Call? && s.senders[step.t].onIo ==> s.handler == Idle && !IoBusy(s)
  {
    hide IoBusy, HandlerOwnsMutex, Slice, Consume;
  }

  /** Only a call on the I/O thread makes that thread busy. */
  lemma MoveHoldsIo(s: State, step: Step, u: State, t: nat)
    requires Moved(s, step, u) && t < |s.senders| && HoldsIo(u.senders[t])
    ensures HoldsIo(s.senders[t]) || (Mover(step) == Some(t) && s.senders[t].pc == Away && s.senders[t].onIo)
  {
  }

  lemma ApplyKeepsIoOnce(s: State, step: Step)
    requires Enabled(s, step) && IoOnce(s)
    ensures IoOnce(Apply(s, step))
  {
    hide Enabled, Apply, HoldsIo, IsMove;
    var u := Apply(s, step);
    StepMoves(s, step);
    HandlerAfter(s, step);
    NewPc(s, step);
    forall t | 0 <= t < |u.senders| && HoldsIo(u.senders[t])
      ensures HoldsIo(s.senders[t]) || (step == Call(t) && s.senders[t].onIo)
    {
      MoveHoldsIo(s, step, u, t);
    }
  }

  lemma ApplyKeepsInvariant(s: State, step: Step)
    requires Enabled(s, step) && Invariant(s) && Harmless(s, step)
    ensures Invariant(Apply(s, step))
  {
    hide Concat, Phase, Ordered, GateHeld, IoOnce, FramesInOrder, Unsent, Apply, Enabled, Harmless, Moved;
    StepMoves(s, step);
    MoveKeepsGate(s, step, Apply(s, step));
    MoveKeepsOrder(s, step, Apply(s, step));
    ApplyKeepsIoOnce(s, step);
    ApplyKeepsPhase(s, step);
    ApplyKeepsBytes(s, step);
    FramesAfter(s, step);
    SameSenders(s, step);
  }

  lemma {:induction false} RunKeepsInvariant(s: State, steps: seq<Step>)
    requires CanRun(s, steps) && Calm(s, steps) && Invariant(s)
    ensures Invariant(After(s, steps))
    ensures |After(s, steps).senders| == |s.senders|
    ensures forall t :: 0 <= t < |s.senders| ==> After(s, steps).senders[t].frame == s.senders[t].frame
    decreases |steps|
  {
    hide Invariant, Enabled, Apply, Harmless;
    if steps != [] {
      ApplyKeepsInvariant(s, steps[0]);
      SameSenders(s, steps[0]);
      RunKeepsInvariant(Apply(s, steps[0]), steps[1..]);
    }
  }

  ghost predicate NonEmpty(frames: seq<Bytes>) {
    forall i :: 0 <= i < |frames| ==> frames[i] != []
  }

  lemma StartIsInvariant(frames: seq<Bytes>, io: set<nat>)
    requires NonEmpty(frames)
    ensures Invariant(Start(frames, io))
  {
    hide Concat;
    NothingInOrder(Start(frames, io));
  }

  lemma NothingInOrder(s: State)
    requires s.order == []
    ensures FramesInOrder(s) == []
  {
  }

  // ----- what every run guarantees -----

  /** What the threads hand to `sendData`, in the order in which they write. */
  function GateOrder<T>(items: seq<T>, order: seq<nat>): seq<T>
    requires forall i :: 0 <= i < |order| ==> order[i] < |items|
  {
    seq(|order|, i requires 0 <= i < |order| => items[order[i]])
  }

  /**
   Safety of the send gate, over every calm run with any number of threads: at most one write is
   outstanding, the handler's second `consume` has dropped nothing, and what is on the wire
   with what is still buffered is the concatenation of whole frames, each at most once, in
   the order of the gate.
   */
  lemma SendGateIsSafe(frames: seq<Bytes>, io: set<nat>, steps: seq<Step>)
    requires NonEmpty(frames) && CanRun(Start(frames, io), steps) && Calm(Start(frames, io), steps)
    ensures var s := After(Start(frames, io), steps);
            && |s.writes| <= 1
            && s.discarded == []
            && (forall i :: 0 <= i < |s.order| ==> s.order[i] < |frames|)
            && (forall i, j :: 0 <= i < j < |s.order| ==> s.order[i] != s.order[j])
            && s.wire + Unsent(s) == Concat(GateOrder(frames, s.order))
  {
    hide Concat, Enabled, Apply, After, CanRun, Calm, Unsent;
    StartIsInvariant(frames, io);
    RunKeepsInvariant(Start(frames, io), steps);
    var s := After(Start(frames, io), steps);
    assert OrderedFrames(s.senders, s.order) == GateOrder(frames, s.order);
  }

  /** The second `consume` finds the stream buffer empty whenever the handler reaches it. */
  lemma SecondConsumeFindsNothing(frames: seq<Bytes>, io: set<nat>, steps: seq<Step>)
    requires NonEmpty(frames) && CanRun(Start(frames, io), steps) && Calm(Start(frames, io), steps)
    requires Enabled(After(Start(frames, io), steps), HandlerConsume)
    ensures var s := After(Start(frames, io), steps);
            s.stream == [] == Apply(s, HandlerConsume).discarded
  {
    hide Concat, After, CanRun, Calm, FramesInOrder, GateHeld, Ordered, Unsent;
    StartIsInvariant(frames, io);
    RunKeepsInvariant(Start(frames, io), steps);
  }

  // ----- which spurious wake-ups do harm -----

  /** What the gate is there to prevent: two writes over one buffer, or buffered bytes thrown away. */
  predicate Broken(s: State) {
    |s.writes| > 1 || s.discarded != []
  }

  /** An otherwise calm run leads from `s` to a broken state. */
  ghost predicate CanBreak(s: State) {
    exists more: seq<Step> :: CanRun(s, more) && Calm(s, more) && Broken(After(s, more))
  }

  lemma BrokenCanBreak(s: State)
    requires Broken(s)
    ensures CanBreak(s)
  {
    assert CanRun(s, []) && Calm(s, []) && After(s, []) == s;
  }

  lemma BreakStep(s: State, step: Step)
    requires Enabled(s, step) && Harmless(s, step) && CanBreak(Apply(s, step))
    ensures CanBreak(s)
  {
    hide Enabled, Apply, Harmless, Broken;
    var u := Apply(s, step);
    var more :| CanRun(u, more) && Calm(u, more) && Broken(After(u, more));
    var steps := [step] + more;
    assert steps[1..] == more;
    assert CanRun(s, steps) && Calm(s, steps) && After(s, steps) == After(u, more);
  }

  lemma InvariantCannotBreak(s: State)
    requires Invariant(s)
    ensures !CanBreak(s)
  {
    hide Enabled, Apply, Invariant, CanRun, Calm, After;
    forall more: seq<Step> | CanRun(s, more) && Calm(s, more)
      ensures !Broken(After(s, more))
    {
      RunKeepsInvariant(s, more);
      InvariantIsNotBroken(After(s, more));
    }
  }

  lemma InvariantIsNotBroken(s: State)
    requires Invariant(s)
    ensures !Broken(s)
  {
    hide FramesInOrder, Unsent, Ordered, GateHeld;
  }

  /** A woken thread goes on to put its frame into the stream buffer, whatever is there. */
  lemma WokenWrites(s: State, t: nat) returns (u: State)
    requires At(s, t, Woken) && !HandlerOwnsMutex(s)
    ensures At(u, t, Starting) && u.handler == s.handler && u.writes == s.writes
    ensures u.stream == s.stream + s.senders[t].frame
    ensures CanBreak(u) ==> CanBreak(s)
  {
    hide CanBreak, Enabled, Apply, HandlerOwnsMutex;
    LeaveWaitIs(s, t);
    var s1 := Apply(s, LeaveWait(t));
    RaiseFlagIs(s1, t);
    var s2 := Apply(s1, RaiseFlag(t));
    WriteFrameIs(s2, t);
    u := Apply(s2, WriteFrame(t));
    if CanBreak(u) {
      BreakStep(s2, WriteFrame(t));
      BreakStep(s1, RaiseFlag(t));
      BreakStep(s, LeaveWait(t));
    }
  }

  /** Woken beside an outstanding write, a thread starts a second one over the same buffer. */
  lemma SecondWriteBreaks(s: State, t: nat)
    requires At(s, t, Woken) && |s.writes| == 1 && !HandlerOwnsMutex(s)
    ensures CanBreak(s)
  {
    hide CanBreak, Enabled, Apply, HandlerOwnsMutex;
    var u := WokenWrites(s, t);
    StartWriteIs(u, t);
    BrokenCanBreak(Apply(u, StartWrite(t)));
    BreakStep(u, StartWrite(t));
  }

  /** Woken between the completion of the write and its handler's lock, a thread loses its frame to the handler. */
  lemma LateConsumeBreaks(s: State, t: nat)
    requires At(s, t, Woken) && s.senders[t].frame != [] && s.stream == []
    requires s.handler.Entered? && s.handler.bytes > 0
    ensures CanBreak(s)
  {
    hide CanBreak, Broken, IoBusy;
    var u := WokenWrites(s, t);
    var v := Apply(u, HandlerLock);
    LossIsBroken(v, Apply(v, HandlerConsume));
    BrokenCanBreak(Apply(v, HandlerConsume));
    BreakStep(v, HandlerConsume);
    BreakStep(u, HandlerLock);
  }

  lemma LossIsBroken(s: State, u: State)
    requires s.handler.HasLock? && s.handler.bytes > 0 && s.stream != [] && u == Apply(s, HandlerConsume)
    ensures Broken(u)
  {
    assert |Slice(s.stream, 0, s.handler.bytes)| > 0;
  }

  /**
   `Calm` is exact: in a state that a calm run reaches, with thread `t` in its wait, ending
   that wait spuriously lets an otherwise calm run break the gate if and only if the flag is
   up and the handler is not about to lower it.
   */
  lemma SpuriousWakeBreaksIff(frames: seq<Bytes>, io: set<nat>, steps: seq<Step>, t: nat)
    requires NonEmpty(frames) && CanRun(Start(frames, io), steps) && Calm(Start(frames, io), steps)
    requires At(After(Start(frames, io), steps), t, Waiting)
    ensures var s := After(Start(frames, io), steps);
            CanBreak(Apply(s, SpuriousWake(t))) <==> s.inSendMode && !s.handler.HasLock? && s.handler != Consumed
  {
    hide CanRun, Calm, After, Invariant, CanBreak, Apply;
    StartIsInvariant(frames, io);
    RunKeepsInvariant(Start(frames, io), steps);
    var s := After(Start(frames, io), steps);
    if s.inSendMode && !FlagIsFalling(s) {
      HarmfulWakeBreaks(s, t);
    } else {
      ApplyKeepsInvariant(s, SpuriousWake(t));
      InvariantCannotBreak(Apply(s, SpuriousWake(t)));
    }
  }

  lemma HarmfulWakeBreaks(s: State, t: nat)
    requires Invariant(s) && At(s, t, Waiting) && s.inSendMode && !FlagIsFalling(s)
    ensures CanBreak(Apply(s, SpuriousWake(t)))
  {
    hide CanBreak, Ordered, Unsent, FramesInOrder;
    assert HolderPc(s) == Waiting;
    var u := Apply(s, SpuriousWake(t));
    if s.handler.Entered? {
      LateConsumeBreaks(u, t);
    } else {
      SecondWriteBreaks(u, t);
    }
  }

  lemma {:induction false} RunAppend(s: State, steps: seq<Step>, step: Step)
    requires CanRun(s, steps) && Calm(s, steps)
    requires Enabled(After(s, steps), step) && Harmless(After(s, steps), step)
    ensures CanRun(s, steps + [step]) && Calm(s, steps + [step])
    ensures After(s, steps + [step]) == Apply(After(s, steps), step)
    decreases |steps|
  {
    hide Enabled, Apply, Harmless;
    if steps == [] {
      assert [step][1..] == [];
    } else {
      assert (steps + [step])[1..] == steps[1..] + [step];
      RunAppend(Apply(s, steps[0]), steps[1..], step);
    }
  }

  lemma EmptyRun(s: State)
    ensures CanRun(s, []) && Calm(s, []) && After(s, []) == s
  {
  }

  lemma IdleOwnsNothing(s: State)
    requires s.handler == Idle
    ensures !HandlerOwnsMutex(s)
  {
  }

  /** Thread 0 calls, finds the gate free and the flag down, and starts its write. */
  const FIRST_WRITE: seq<Step> := [Call(0), TakeGate(0), CheckFlag(0), RaiseFlag(0), WriteFrame(0), StartWrite(0)]

  /** While that write is outstanding, thread 1 calls and enters its wait. */
  const WAIT_BESIDE_WRITE: seq<Step> := FIRST_WRITE + [Call(1), TakeGate(1), CheckFlag(1), BeginWait(1)]

  /** Then thread 0's write completes, and its handler has not locked yet. */
  function WaitBesideHandler(frames: seq<Bytes>): seq<Step>
    requires frames != []
  {
    WAIT_BESIDE_WRITE + [Transfer(0, |frames[0]|), Complete(0)]
  }

  lemma AtStart(frames: seq<Bytes>, io: set<nat>)
    requires |frames| >= 2
    ensures var s := Start(frames, io);
            && |s.senders| == |frames| && !IoBusy(s)
            && s.senders[0] == Sender(Away, frames[0], 0 in io) && s.senders[1] == Sender(Away, frames[1], 1 in io)
            && (forall t :: 0 <= t < |frames| ==> s.senders[t].pc == Away)
            && s.gate == None && !s.inSendMode && s.handler == Idle && s.stream == [] && s.writes == []
  {
  }

  /** Thread `t`, with the flag down, is about to raise it. */
  function AtRaising(s: State, t: nat): State
    requires t < |s.senders|
  {
    Move(s, t, Raising).(gate := Some(t))
  }

  /** Thread `t` has raised the flag, written its frame and started its write. */
  function Written(s: State, t: nat): State
    requires t < |s.senders|
  {
    var stream := s.stream + s.senders[t].frame;
    Move(s, t, Done).(inSendMode := true, stream := stream, order := s.order + [t],
                      writes := s.writes + [Write(|stream|, 0)], gate := None)
  }

  lemma FirstWrite(frames: seq<Bytes>, io: set<nat>)
    requires NonEmpty(frames) && |frames| >= 2
    ensures CanRun(Start(frames, io), FIRST_WRITE) && Calm(Start(frames, io), FIRST_WRITE)
    ensures After(Start(frames, io), FIRST_WRITE) == Written(AtRaising(Start(frames, io), 0), 0)
  {
    hide CanRun, Calm, After, Enabled, Apply, Start, IoBusy;
    var s0 := Start(frames, io);
    var steps: seq<Step> := [];
    EmptyRun(s0);
    AtStart(frames, io);
    CallIs(s0, 0);
    RunAppend(s0, steps, Call(0)); steps := steps + [Call(0)];
    TakeGateIs(After(s0, steps), 0);
    RunAppend(s0, steps, TakeGate(0)); steps := steps + [TakeGate(0)];
    CheckFlagIs(After(s0, steps), 0);
    RunAppend(s0, steps, CheckFlag(0)); steps := steps + [CheckFlag(0)];
    RaiseFlagIs(After(s0, steps), 0);
    RunAppend(s0, steps, RaiseFlag(0)); steps := steps + [RaiseFlag(0)];
    WriteFrameIs(After(s0, steps), 0);
    RunAppend(s0, steps, WriteFrame(0)); steps := steps + [WriteFrame(0)];
    StartWriteIs(After(s0, steps), 0);
    RunAppend(s0, steps, StartWrite(0)); steps := steps + [StartWrite(0)];
    FirstWriteSteps();
  }

  lemma FirstWriteSteps()
    ensures FIRST_WRITE ==
              [] + [Call(0)] + [TakeGate(0)] + [CheckFlag(0)] + [RaiseFlag(0)] + [WriteFrame(0)] + [StartWrite(0)]
  {
  }

  lemma AfterFirstWrite(frames: seq<Bytes>, io: set<nat>)
    requires |frames| >= 2
    ensures var s := Written(AtRaising(Start(frames, io), 0), 0);
            && |s.senders| == |frames| && s.senders[0].pc == Done
            && (forall t :: 0 < t < |frames| ==> s.senders[t].pc == Away)
            && s.senders[1].onIo == (1 in io)
            && s.gate == None && s.inSendMode && s.handler == Idle
            && s.stream == frames[0] && s.writes == [Write(|frames[0]|, 0)]
  {
  }

  lemma WaitBesideWrite(frames: seq<Bytes>, io: set<nat>)
    requires NonEmpty(frames) && |frames| >= 2
    ensures CanRun(Start(frames, io), WAIT_BESIDE_WRITE) && Calm(Start(frames, io), WAIT_BESIDE_WRITE)
    ensures var s := After(Start(frames, io), WAIT_BESIDE_WRITE);
            && |s.senders| == |frames| && At(s, 1, Waiting) && s.senders[1].onIo == (1 in io)
            && (forall t :: 0 <= t < |frames| && t != 1 ==> s.senders[t].pc == Away || s.senders[t].pc == Done)
            && s.inSendMode && s.handler == Idle
            && s.stream == frames[0] && s.writes == [Write(|frames[0]|, 0)]
  {
    hide CanRun, Calm, After, Enabled, Apply, HandlerOwnsMutex, Start, IoBusy, Written, FIRST_WRITE;
    FirstWrite(frames, io);
    AfterFirstWrite(frames, io);
    var s0, steps := Start(frames, io), FIRST_WRITE;
    NobodyHoldsIo(After(s0, steps));
    CallIs(After(s0, steps), 1);
    RunAppend(s0, steps, Call(1)); steps := steps + [Call(1)];
    TakeGateIs(After(s0, steps), 1);
    RunAppend(s0, steps, TakeGate(1)); steps := steps + [TakeGate(1)];
    CheckFlagIs(After(s0, steps), 1);
    RunAppend(s0, steps, CheckFlag(1)); steps := steps + [CheckFlag(1)];
    IdleOwnsNothing(After(s0, steps));
    BeginWaitIs(After(s0, steps), 1);
    RunAppend(s0, steps, BeginWait(1)); steps := steps + [BeginWait(1)];
    assert steps == WAIT_BESIDE_WRITE;
  }

  lemma NobodyHoldsIo(s: State)
    requires forall t :: 0 <= t < |s.senders| && s.senders[t].onIo ==>
               s.senders[t].pc == Away || s.senders[t].pc == Done
    ensures !IoBusy(s)
  {
  }

  lemma WaitBesideCompletion(frames: seq<Bytes>, io: set<nat>)
    requires NonEmpty(frames) && |frames| >= 2 && 1 !in io
    ensures CanRun(Start(frames, io), WaitBesideHandler(frames)) && Calm(Start(frames, io), WaitBesideHandler(frames))
    ensures var s := After(Start(frames, io), WaitBesideHandler(frames));
            At(s, 1, Waiting) && s.inSendMode && s.writes == [] && s.handler == Entered(|frames[0]|)
  {
    hide CanRun, Calm, After, HandlerOwnsMutex, Slice, Start, IoBusy, WAIT_BESIDE_WRITE;
    WaitBesideWrite(frames, io);
    var s0, steps := Start(frames, io), WAIT_BESIDE_WRITE;
    RunAppend(s0, steps, Transfer(0, |frames[0]|)); steps := steps + [Transfer(0, |frames[0]|)];
    NobodyHoldsIo(After(s0, steps));
    RunAppend(s0, steps, Complete(0)); steps := steps + [Complete(0)];
    assert steps == WaitBesideHandler(frames);
  }

  /**
   Both harmful moments are reached, whatever two threads send: the wake-up beside an
   outstanding write, and, when the waiting call is not made on the I/O thread, the wake-up
   between the completion of the write and its handler.
   */
  lemma HarmfulWakesAreReachable(frames: seq<Bytes>, io: set<nat>)
    requires NonEmpty(frames) && |frames| >= 2
    ensures CanRun(Start(frames, io), WAIT_BESIDE_WRITE) && Calm(Start(frames, io), WAIT_BESIDE_WRITE)
    ensures At(After(Start(frames, io), WAIT_BESIDE_WRITE), 1, Waiting)
    ensures CanBreak(Apply(After(Start(frames, io), WAIT_BESIDE_WRITE), SpuriousWake(1)))
    ensures 1 !in io ==>
              && CanRun(Start(frames, io), WaitBesideHandler(frames))
              && Calm(Start(frames, io), WaitBesideHandler(frames))
              && At(After(Start(frames, io), WaitBesideHandler(frames)), 1, Waiting)
              && CanBreak(Apply(After(Start(frames, io), WaitBesideHandler(frames)), SpuriousWake(1)))
  {
    hide CanRun, Calm, After, CanBreak, Apply, WaitBesideHandler, WAIT_BESIDE_WRITE;
    WaitBesideWrite(frames, io);
    SpuriousWakeBreaksIff(frames, io, WAIT_BESIDE_WRITE, 1);
    if 1 !in io {
      WaitBesideCompletion(frames, io);
      SpuriousWakeBreaksIff(frames, io, WaitBesideHandler(frames), 1);
    }
  }
}
