/**
 The receiving side: the socket reader gathers bytes into chunks and pushes them on a
 shared queue (common/src/tcpsession.cpp, `handlerRead`); a worker thread swaps the queue
 out, appends, extracts and delivers (common/src/commonprocessor.cpp).

 Both threads are one state machine.  A run is any sequence of enabled steps, so a
 statement about all runs is a statement about all interleavings, all splittings of the
 byte stream and all answers of `available()`.

 The extraction returns the parse wherever the extractor's 32-bit arithmetic is exact
 (`Supported`).  Elsewhere the machine lets it return anything, so what is proved about its
 runs does not rest on those cases.
 */
module ReceivePipeline {
  import opened Crc32
  import opened BufferProcessors
  import opened Chunking
  import opened Envelopes

  datatype Reader =
    /** `async_read` is outstanding and still lacks `need` bytes. */
    | Reading(need: nat)
    /** The handler runs and is about to ask for the bytes available. */
    | Handling
    /** The handler is about to push its buffer on the queue. */
    | Pushing

  datatype Worker =
    /** At the loop head. */
    | AtLoop
    /** Holds the mutex and is about to look at the queue. */
    | Locked
    /** In the timed wait, mutex released. */
    | Waiting
    /** Has swapped the queue out and released the mutex. */
    | Holding(taken: seq<Bytes>)
    /** In the delivery loop, with these payloads still to visit. */
    | Delivering(pending: seq<Bytes>)
    | Exited

  datatype State = State(
    reader: Reader,
    buffer: Bytes,
    queue: seq<Bytes>,
    worker: Worker,
    registered: bool,
    needExit: bool,
    processing: Bytes,
    delivered: seq<CommonMessage>,
    // history, which no step reads
    received: Bytes,
    pushed: seq<Bytes>,
    dropped: Bytes,
    appended: Bytes,
    handled: seq<Bytes>)

  /** `waitReading` has asked for one byte; the worker thread has started. */
  function Start(registered: bool): State {
    State(Reading(1), [], [], AtLoop, registered, false, [], [], [], [], [], [], [])
  }

  datatype Step =
    | Arrive(data: Bytes)
    | CompleteRead
    | Available(bytes: nat)
    | PushChunk
    | Register
    | RequestExit
    | CheckExit
    | LookAtQueue
    | Wake
    | TimeOut
    | AppendAndExtract(found: Extraction)
    | Visit
    | EndDelivery

  /** The buffer from which the worker is about to extract. */
  function Extracted(s: State): Bytes
    requires s.worker.Holding?
  {
    s.processing + Concat(s.worker.taken)
  }

  ghost predicate Enabled(s: State, step: Step) {
    match step
    case Arrive(data) => s.reader.Reading? && 0 < |data| <= s.reader.need
    case CompleteRead => s.reader == Reading(0)
    case Available(_) => s.reader == Handling
    case PushChunk => s.reader == Pushing && s.worker != Locked
    case Register => true
    case RequestExit => true
    case CheckExit => s.worker == AtLoop
    case LookAtQueue => s.worker == Locked
    case Wake => s.worker == Waiting
    case TimeOut => s.worker == Waiting
    case AppendAndExtract(found) =>
      s.worker.Holding? && (s.registered && Supported(Extracted(s)) ==> found == Parse(Extracted(s)))
    case Visit => s.worker.Delivering? && s.worker.pending != []
    case EndDelivery => s.worker == Delivering([])
  }

  function Apply(s: State, step: Step): State
    requires Enabled(s, step)
  {
    match step
    case Arrive(data) =>
      s.(reader := Reading(s.reader.need - |data|), buffer := s.buffer + data, received := s.received + data)
    case CompleteRead => s.(reader := Handling)
    case Available(bytes) => if bytes == 0 then s.(reader := Pushing) else s.(reader := Reading(bytes))
    case PushChunk =>
      s.(reader := Reading(1), buffer := [], queue := s.queue + [s.buffer], pushed := s.pushed + [s.buffer])
    case Register => s.(registered := true)
    case RequestExit => s.(needExit := true)
    case CheckExit => s.(worker := if s.needExit then Exited else Locked)
    case LookAtQueue => if s.queue == [] then s.(worker := Waiting) else s.(worker := Holding(s.queue), queue := [])
    case Wake => s.(worker := Holding(s.queue), queue := [])
    case TimeOut => s.(worker := AtLoop)
    case AppendAndExtract(found) =>
      var chunk := Concat(s.worker.taken);
      if !s.registered then s.(worker := AtLoop, dropped := s.dropped + chunk)
      else
        s.(worker := if found.messages == [] then AtLoop else Delivering(found.messages),
           processing := found.rest, appended := s.appended + chunk)
    case Visit =>
      var payload, rest := s.worker.pending[0], s.worker.pending[1..];
      (match Unwrap(payload)
       case None => s.(worker := Delivering(rest), handled := s.handled + [payload])
       case Some(message) =>
         if s.needExit then s.(worker := AtLoop)
         else s.(worker := Delivering(rest), handled := s.handled + [payload], delivered := s.delivered + [message]))
    case EndDelivery => s.(worker := AtLoop)
  }

  ghost predicate CanRun(s: State, steps: seq<Step>)
    decreases |steps|
  {
    steps == [] || (Enabled(s, steps[0]) && CanRun(Apply(s, steps[0]), steps[1..]))
  }

  ghost function After(s: State, steps: seq<Step>): State
    requires CanRun(s, steps)
    decreases |steps|
  {
    if steps == [] then s else After(Apply(s, steps[0]), steps[1..])
  }

  lemma {:induction false} RunAppend(s: State, steps: seq<Step>, step: Step)
    requires CanRun(s, steps) && Enabled(After(s, steps), step)
    ensures CanRun(s, steps + [step]) && After(s, steps + [step]) == Apply(After(s, steps), step)
    decreases |steps|
  {
    hide Enabled, Apply;
    if steps == [] {
      assert [step][1..] == [];
    } else {
      assert (steps + [step])[1..] == steps[1..] + [step];
      RunAppend(Apply(s, steps[0]), steps[1..], step);
    }
  }

  lemma {:induction false} RunConcat(s: State, steps: seq<Step>, more: seq<Step>)
    requires CanRun(s, steps) && CanRun(After(s, steps), more)
    ensures CanRun(s, steps + more) && After(s, steps + more) == After(After(s, steps), more)
    decreases |steps|
  {
    hide Enabled, Apply;
    if steps == [] {
      assert [] + more == more;
    } else {
      assert (steps + more)[1..] == steps[1..] + more;
      RunConcat(Apply(s, steps[0]), steps[1..], more);
    }
  }

  // ----- the invariant -----

  /** The chunks the worker has swapped out and not yet appended. */
  function Taken(s: State): seq<Bytes> {
    if s.worker.Holding? then s.worker.taken else []
  }

  /** The payloads extracted and not yet visited. */
  function Pending(s: State): seq<Bytes> {
    if s.worker.Delivering? then s.worker.pending else []
  }

  /** The bytes of the chunks pushed since the callback was registered, as far as the worker can tell. */
  function HandedOn(s: State): Bytes {
    s.appended + Concat(Taken(s)) + Concat(s.queue)
  }

  /** The bytes read since then. */
  function Stream(s: State): Bytes {
    HandedOn(s) + s.buffer
  }

  /** The messages the callback gets for these frames. */
  function Calls(payloads: seq<Bytes>): seq<CommonMessage> {
    if payloads == [] then []
    else
      var before, last := Calls(payloads[..|payloads| - 1]), Unwrap(payloads[|payloads| - 1]);
      if last.Some? then before + [last.value] else before
  }

  ghost predicate BytesConserved(s: State) {
    && s.received == s.dropped + Stream(s)
    && s.received == Concat(s.pushed) + s.buffer
    && (forall i :: 0 <= i < |s.pushed| ==> s.pushed[i] != [])
    && (s.buffer == [] ==> s.reader.Reading? && s.reader.need > 0)
    && (!s.registered ==> s.appended == [])
  }

  /** The delivery loop was left early because an exit was requested; the worker can only end. */
  predicate Abandoned(s: State) {
    s.needExit && (s.worker == AtLoop || s.worker == Exited)
  }

  ghost predicate DeliveryInOrder(s: State) {
    && (s.worker == Exited ==> s.needExit)
    && s.delivered == Calls(s.handled)
    && (Settled(s.appended) && Legible(s.appended) ==>
          var whole := Parse(s.appended);
          && s.processing == whole.rest
          && s.handled + Pending(s) <= whole.messages
          && (!Abandoned(s) ==> s.handled + Pending(s) == whole.messages))
  }

  lemma PushConservesBytes(s: State)
    requires s.reader == Pushing && s.worker != Locked && BytesConserved(s)
    ensures BytesConserved(Apply(s, PushChunk))
  {
    hide Concat;
    var base := s.appended + Concat(Taken(s));
    assert (base + Concat(s.queue)) + s.buffer == (base + (Concat(s.queue) + s.buffer)) + [];
    ConcatAppend(s.pushed, [s.buffer]);
    ConcatAppend(s.queue, [s.buffer]);
    ConcatOne(s.buffer);
  }

  lemma ConcatOne(chunk: Bytes)
    ensures Concat([chunk]) == chunk && Concat([]) == []
  {
  }

  lemma SwapConservesBytes(s: State, step: Step)
    requires Enabled(s, step) && (step.LookAtQueue? || step.Wake?) && BytesConserved(s)
    ensures BytesConserved(Apply(s, step))
  {
    hide Concat;
    ConcatOne([]);
    assert s.appended + [] + Concat(s.queue) == s.appended + Concat(s.queue) + [];
  }

  lemma AppendConservesBytes(s: State, found: Extraction)
    requires Enabled(s, AppendAndExtract(found)) && BytesConserved(s)
    ensures BytesConserved(Apply(s, AppendAndExtract(found)))
  {
    hide Concat, Parse, Supported;
    ConcatOne([]);
    var chunk := Concat(s.worker.taken);
    assert s.appended + chunk + [] == s.appended + chunk;
    if !s.registered {
      assert s.dropped + ([] + chunk + Concat(s.queue) + s.buffer)
          == s.dropped + chunk + ([] + [] + Concat(s.queue) + s.buffer);
    }
  }

  lemma ReaderConservesBytes(s: State, step: Step)
    requires Enabled(s, step) && BytesConserved(s)
    requires step.Arrive? || step.CompleteRead? || step.Available?
    ensures BytesConserved(Apply(s, step))
  {
    hide Concat, Parse, Unwrap, Supported, Extracted;
  }

  /** Every step keeps every byte in exactly one place, in order. */
  lemma ApplyConservesBytes(s: State, step: Step)
    requires Enabled(s, step) && BytesConserved(s)
    ensures BytesConserved(Apply(s, step))
  {
    hide Concat, Parse, Unwrap, Supported, Extracted;
    match step {
      case Arrive(_) => ReaderConservesBytes(s, step);
      case CompleteRead => ReaderConservesBytes(s, step);
      case Available(_) => ReaderConservesBytes(s, step);
      case PushChunk => PushConservesBytes(s);
      case LookAtQueue => SwapConservesBytes(s, step);
      case Wake => SwapConservesBytes(s, step);
      case AppendAndExtract(found) => AppendConservesBytes(s, found);
      case _ =>
    }
  }

  lemma NoCalls()
    ensures Calls([]) == []
  {
  }

  lemma CallsOfOneMore(payloads: seq<Bytes>, payload: Bytes)
    ensures Calls(payloads + [payload]) ==
              Calls(payloads) + (if Unwrap(payload).Some? then [Unwrap(payload).value] else [])
  {
    hide Unwrap;
    assert (payloads + [payload])[..|payloads|] == payloads;
  }

  lemma PendingMovesToHandled(handled: seq<Bytes>, pending: seq<Bytes>)
    requires pending != []
    ensures (handled + [pending[0]]) + pending[1..] == handled + pending && handled + [] <= handled + pending
  {
    assert handled <= handled + pending;
  }

  lemma DeliveryStepInOrder(s: State, step: Step)
    requires Enabled(s, step) && DeliveryInOrder(s) && (step.Visit? || step.EndDelivery?)
    ensures DeliveryInOrder(Apply(s, step))
  {
    hide Parse, Unwrap, Settled, Legible, Calls, Supported, Extracted;
    if step.Visit? {
      CallsOfOneMore(s.handled, s.worker.pending[0]);
      PendingMovesToHandled(s.handled, s.worker.pending);
    }
  }

  /** Appending the chunks to a stream that stays settled and legible keeps the extractor within its arithmetic. */
  lemma ExtractionIsSupported(s: State, later: Bytes)
    requires s.worker.Holding? && DeliveryInOrder(s)
    requires Settled(s.appended + Concat(s.worker.taken) + later)
    requires Legible(s.appended + Concat(s.worker.taken) + later)
    ensures Supported(Extracted(s)) && Settled(s.appended) && Legible(s.appended)
  {
    hide Parse, Unwrap, Settled, Legible, Supported, Calls, Concat;
    var chunk := Concat(s.worker.taken);
    ParseSplits(s.appended + chunk, later);
    LegibleSplits(s.appended + chunk, later);
    ParseSplits(s.appended, chunk);
    LegibleSplits(s.appended, chunk);
    LegibleIsSupported(Parse(s.appended).rest + chunk);
  }

  lemma ExtractStepInOrder(s: State, found: Extraction)
    requires Enabled(s, AppendAndExtract(found)) && DeliveryInOrder(s)
    ensures DeliveryInOrder(Apply(s, AppendAndExtract(found)))
  {
    hide Parse, Unwrap, Settled, Legible, Supported, Calls, Concat;
    var chunk := Concat(s.worker.taken);
    if Settled(s.appended + chunk) && Legible(s.appended + chunk) {
      assert s.appended + chunk + [] == s.appended + chunk;
      ExtractionIsSupported(s, []);
      ParseSplits(s.appended, chunk);
      assert s.handled + [] == s.handled;
    }
  }

  lemma ApplyDeliversInOrder(s: State, step: Step)
    requires Enabled(s, step) && DeliveryInOrder(s)
    ensures DeliveryInOrder(Apply(s, step))
  {
    hide Parse, Unwrap, Settled, Legible, Supported, Extracted, Calls;
    match step {
      case Visit => DeliveryStepInOrder(s, step);
      case EndDelivery => DeliveryStepInOrder(s, step);
      case AppendAndExtract(found) => ExtractStepInOrder(s, found);
      case _ =>
    }
  }

  lemma {:induction false} RunKeepsInvariants(s: State, steps: seq<Step>)
    requires CanRun(s, steps) && BytesConserved(s) && DeliveryInOrder(s)
    ensures BytesConserved(After(s, steps)) && DeliveryInOrder(After(s, steps))
    decreases |steps|
  {
    hide BytesConserved, DeliveryInOrder, Enabled, Apply;
    if steps != [] {
      ApplyConservesBytes(s, steps[0]);
      ApplyDeliversInOrder(s, steps[0]);
      RunKeepsInvariants(Apply(s, steps[0]), steps[1..]);
    }
  }

  lemma StartIsInvariant(registered: bool)
    ensures BytesConserved(Start(registered)) && DeliveryInOrder(Start(registered))
  {
    hide Parse, Settled, Legible;
    QuietHere([]);
  }

  lemma {:induction false} RegisteredRunDropsNothing(s: State, steps: seq<Step>)
    requires CanRun(s, steps) && s.registered
    ensures After(s, steps).registered && After(s, steps).dropped == s.dropped
    decreases |steps|
  {
    hide Parse, Unwrap, Supported, Extracted;
    if steps != [] {
      RegisteredRunDropsNothing(Apply(s, steps[0]), steps[1..]);
    }
  }

  // ----- within the extractor's arithmetic -----

  /** Every extraction of the run is from a buffer on which the 32-bit arithmetic is exact. */
  ghost predicate StaysSupported(s: State, steps: seq<Step>)
    requires CanRun(s, steps)
    decreases |steps|
  {
    steps == [] ||
    ((steps[0].AppendAndExtract? && s.registered ==> Supported(Extracted(s))) &&
     StaysSupported(Apply(s, steps[0]), steps[1..]))
  }

  lemma {:induction false} ReceivedGrows(s: State, steps: seq<Step>)
    requires CanRun(s, steps)
    ensures s.received <= After(s, steps).received
    decreases |steps|
  {
    hide Parse, Unwrap, Supported, Extracted;
    if steps != [] {
      ReceivedGrows(Apply(s, steps[0]), steps[1..]);
      PrefixOfPrefix(s.received, Apply(s, steps[0]).received[|s.received|..], After(s, steps).received);
    }
  }

  lemma PrefixOfPrefix<T>(a: seq<T>, b: seq<T>, c: seq<T>)
    requires a + b <= c
    ensures a <= c
  {
    assert a == (a + b)[..|a|] == c[..|a|];
  }

  /** With the callback registered the stream only grows. */
  lemma StreamGrows(s: State, steps: seq<Step>)
    requires CanRun(s, steps) && s.registered && BytesConserved(s) && DeliveryInOrder(s)
    ensures Stream(s) <= Stream(After(s, steps))
  {
    hide CanRun, After, Enabled, Apply, Stream, DeliveryInOrder, Concat;
    var t := After(s, steps);
    RunKeepsInvariants(s, steps);
    RegisteredRunDropsNothing(s, steps);
    ReceivedGrows(s, steps);
    SameFrontSameEnd(s.dropped, Stream(s), Stream(t));
  }

  lemma SameFrontSameEnd(front: Bytes, a: Bytes, b: Bytes)
    requires front + a <= front + b
    ensures a <= b
  {
    assert a == (front + a)[|front|..] && b == (front + b)[|front|..];
  }

  /** In a run over a settled and legible stream the extractor stays within its arithmetic. */
  lemma {:induction false} RunStaysSupported(s: State, steps: seq<Step>)
    requires CanRun(s, steps) && BytesConserved(s) && DeliveryInOrder(s)
    requires Settled(Stream(After(s, steps))) && Legible(Stream(After(s, steps)))
    ensures StaysSupported(s, steps)
    decreases |steps|
  {
    hide Settled, Legible, Supported, Parse, Unwrap, Concat, BytesConserved, DeliveryInOrder, Apply, Stream, Extracted;
    if steps != [] {
      ApplyConservesBytes(s, steps[0]);
      ApplyDeliversInOrder(s, steps[0]);
      RunStaysSupported(Apply(s, steps[0]), steps[1..]);
      if steps[0].AppendAndExtract? && s.registered {
        StreamGrows(s, steps);
        StreamSupportsExtraction(s, Stream(After(s, steps)));
      }
    }
  }

  lemma StreamSupportsExtraction(s: State, whole: Bytes)
    requires s.worker.Holding? && DeliveryInOrder(s)
    requires Stream(s) <= whole && Settled(whole) && Legible(whole)
    ensures Supported(Extracted(s))
  {
    hide Settled, Legible, Supported, Concat, DeliveryInOrder, Extracted;
    var front := s.appended + Concat(s.worker.taken);
    var later := Concat(s.queue) + s.buffer;
    assert Stream(s) == front + later;
    PrefixOfPrefix(front, later, whole);
    assert whole == front + whole[|front|..];
    ExtractionIsSupported(s, whole[|front|..]);
  }

  lemma {:induction false} SupportedParts(s: State, steps: seq<Step>, more: seq<Step>)
    requires CanRun(s, steps) && CanRun(After(s, steps), more)
    requires CanRun(s, steps + more) && StaysSupported(s, steps + more)
    ensures StaysSupported(s, steps) && StaysSupported(After(s, steps), more)
    decreases |steps|
  {
    hide Enabled, Apply, Supported, Extracted;
    if steps == [] {
      assert [] + more == more;
    } else {
      assert (steps + more)[1..] == steps[1..] + more;
      SupportedParts(Apply(s, steps[0]), steps[1..], more);
    }
  }

  // ----- what every run guarantees -----

  /** Nothing waits between the reader's buffer and the delivery loop, and no exit was requested. */
  predicate QueueDrained(s: State) {
    s.queue == [] && !s.needExit && (s.worker == AtLoop || s.worker == Locked || s.worker == Waiting)
  }

  /**
   The pipeline refines the parse of the whole stream.  In every interleaving, provided the
   bytes read since registration are settled and legible, the extractor stays within its
   32-bit arithmetic, and what was handed to the callback comes from the first messages of
   the parse of those bytes, in order; it is all of them once the queue is drained.  With
   the callback registered beforehand no byte is lost.
   */
  lemma PipelineRefinesParse(registered: bool, steps: seq<Step>)
    requires CanRun(Start(registered), steps)
    ensures var s := After(Start(registered), steps);
            && s.received == s.dropped + Stream(s)
            && (registered ==> s.dropped == [])
            && s.delivered == Calls(s.handled)
            && (Settled(Stream(s)) && Legible(Stream(s)) ==>
                  && StaysSupported(Start(registered), steps)
                  && s.handled <= Parse(Stream(s)).messages
                  && (QueueDrained(s) && s.buffer == [] ==> s.handled == Parse(Stream(s)).messages))
  {
    hide Parse, Settled, Legible, Unwrap, Enabled, Apply, Calls, Concat, After, CanRun, QueueDrained, StaysSupported;
    var s := After(Start(registered), steps);
    StartIsInvariant(registered);
    RunKeepsInvariants(Start(registered), steps);
    if registered {
      RegisteredRunDropsNothing(Start(registered), steps);
    }
    if Settled(Stream(s)) && Legible(Stream(s)) {
      RunStaysSupported(Start(registered), steps);
      HandledIsPrefix(s);
    }
  }

  lemma HandledIsPrefix(s: State)
    requires DeliveryInOrder(s) && Settled(Stream(s)) && Legible(Stream(s))
    ensures s.handled <= Parse(Stream(s)).messages
    ensures QueueDrained(s) && s.buffer == [] ==> s.handled == Parse(Stream(s)).messages
  {
    hide Parse, Settled, Legible, Calls, Concat;
    var later := Concat(Taken(s)) + Concat(s.queue) + s.buffer;
    assert Stream(s) == s.appended + later;
    ParseSplits(s.appended, later);
    LegibleSplits(s.appended, later);
    PrefixOfPrefix(s.handled, Pending(s), Parse(s.appended).messages);
    if QueueDrained(s) && s.buffer == [] {
      ConcatOne([]);
      assert later == [] && s.appended + [] == s.appended;
      assert s.handled + [] == s.handled;
    }
  }

  /** Every byte read is in exactly one chunk handed on, in order, or still in the buffer; no chunk is empty. */
  lemma ReadSideConserves(registered: bool, steps: seq<Step>)
    requires CanRun(Start(registered), steps)
    ensures var s := After(Start(registered), steps);
            && s.received == Concat(s.pushed) + s.buffer
            && forall i :: 0 <= i < |s.pushed| ==> s.pushed[i] != []
  {
    hide Parse, Settled, Legible, Unwrap, Enabled, Apply, Concat;
    StartIsInvariant(registered);
    RunKeepsInvariants(Start(registered), steps);
  }

  // ----- the worker always gets through its queue -----

  function Rank(worker: Worker): nat {
    match worker
    case Holding(_) => 5
    case Delivering(_) => 4
    case AtLoop => 3
    case Locked => 2
    case Waiting => 1
    case Exited => 0
  }

  /** The step the worker takes next; in the wait it is the notification. */
  function WorkerStep(s: State): Step
    requires s.worker != Exited
  {
    match s.worker
    case AtLoop => CheckExit
    case Locked => LookAtQueue
    case Waiting => Wake
    case Holding(_) => AppendAndExtract(Parse(Extracted(s)))
    case Delivering(pending) => if pending == [] then EndDelivery else Visit
  }

  /** The bytes the worker still has to get through, with what it could not extract so far. */
  function Backlog(s: State): Bytes {
    s.processing + Concat(Taken(s)) + Concat(s.queue)
  }

  /** The extractor can get through the backlog, however it is cut. */
  ghost predicate Workable(s: State) {
    s.registered ==> Settled(Backlog(s)) && Legible(Backlog(s))
  }

  lemma WorkerStepIsSupported(s: State)
    requires s.worker != Exited && Workable(s)
    ensures Enabled(s, WorkerStep(s))
    ensures s.worker.Holding? && s.registered ==> Supported(Extracted(s))
    ensures Workable(Apply(s, WorkerStep(s)))
  {
    hide Parse, Unwrap, Concat, Settled, Legible, Supported;
    ConcatOne([]);
    if s.worker.Holding? {
      if s.registered {
        ParseSplits(Extracted(s), Concat(s.queue));
        LegibleSplits(Extracted(s), Concat(s.queue));
        assert Parse(Extracted(s)).rest + [] + Concat(s.queue) == Parse(Extracted(s)).rest + Concat(s.queue);
      }
    } else {
      assert Backlog(Apply(s, WorkerStep(s))) == Backlog(s);
    }
  }

  /**
   Without an exit request the worker alone can always bring any state to one where it
   waits on an empty queue: nothing it has taken over is ever stuck.
   */
  lemma {:induction false} WorkerDrains(s: State) returns (steps: seq<Step>)
    requires !s.needExit && s.worker != Exited && Workable(s)
    ensures CanRun(s, steps) && StaysSupported(s, steps)
    ensures var t := After(s, steps);
            && t.worker == Waiting && t.queue == [] && !t.needExit
            && t.received == s.received && t.buffer == s.buffer && t.pushed == s.pushed
    decreases |s.queue|, Rank(s.worker), |Pending(s)|
  {
    hide Parse, Unwrap, Concat, Supported, Workable, Extracted;
    if s.worker == Waiting && s.queue == [] {
      return [];
    }
    var step := WorkerStep(s);
    WorkerStepIsSupported(s);
    var rest := WorkerDrains(Apply(s, step));
    steps := [step] + rest;
    assert steps[1..] == rest;
  }

  /**
   Progress of the pipeline: from every state in which the callback is registered and no
   exit was requested, whenever the registration came, the worker alone can bring every
   frame of the chunks handed on since then to the callback, if those are settled and
   legible; with the callback registered at the start these are all chunks.
   */
  lemma EveryRunCanDrain(registered: bool, steps: seq<Step>) returns (more: seq<Step>)
    requires CanRun(Start(registered), steps)
    requires var s := After(Start(registered), steps);
             s.registered && !s.needExit && Settled(HandedOn(s)) && Legible(HandedOn(s))
    ensures var s := After(Start(registered), steps);
            && (registered ==> HandedOn(s) == Concat(s.pushed))
            && CanRun(s, more) && StaysSupported(s, more)
            && var t := After(s, more);
               && t.pushed == s.pushed && t.delivered == Calls(t.handled)
               && t.handled == Parse(HandedOn(s)).messages
  {
    hide Parse, Settled, Legible, Unwrap, Enabled, Apply, Calls, Concat, After, CanRun, StaysSupported, HandedOn;
    var s := After(Start(registered), steps);
    StartIsInvariant(registered);
    RunKeepsInvariants(Start(registered), steps);
    if registered {
      RegisteredRunDropsNothing(Start(registered), steps);
      NothingDroppedHandsOnAll(s);
    }
    HandedOnIsWorkable(s);
    more := WorkerDrains(s);
    RegisteredRunDropsNothing(s, more);
    RunKeepsInvariants(s, more);
    DrainedAppendedAll(s, After(s, more));
    DrainedHandledAll(After(s, more));
  }

  lemma NothingDroppedHandsOnAll(s: State)
    requires BytesConserved(s) && s.dropped == []
    ensures HandedOn(s) == Concat(s.pushed)
  {
    hide Concat, HandedOn;
    assert [] + Stream(s) == HandedOn(s) + s.buffer;
    SameEndSameFront(HandedOn(s), Concat(s.pushed), s.buffer);
  }

  lemma HandedOnIsWorkable(s: State)
    requires BytesConserved(s) && DeliveryInOrder(s)
    requires Settled(HandedOn(s)) && Legible(HandedOn(s))
    ensures Workable(s)
  {
    hide Parse, Settled, Legible, Calls, Concat;
    var later := Concat(Taken(s)) + Concat(s.queue);
    assert HandedOn(s) == s.appended + later;
    ParseSplits(s.appended, later);
    LegibleSplits(s.appended, later);
    assert Backlog(s) == s.processing + later;
  }

  lemma DrainedHandledAll(t: State)
    requires DeliveryInOrder(t) && t.worker == Waiting
    requires Settled(t.appended) && Legible(t.appended)
    ensures t.handled == Parse(t.appended).messages
  {
    hide Parse, Settled, Legible, Calls;
    assert t.handled + [] == t.handled;
  }

  /** Once the worker waits on an empty queue, it has appended all that was handed on. */
  lemma DrainedAppendedAll(s: State, t: State)
    requires BytesConserved(s) && BytesConserved(t)
    requires t.worker == Waiting && t.queue == []
    requires t.received == s.received && t.dropped == s.dropped && t.buffer == s.buffer
    ensures t.appended == HandedOn(s)
  {
    hide Concat;
    ConcatOne([]);
    assert t.appended + [] + [] == t.appended;
    SameFrontEnd(s.dropped, Stream(s), Stream(t));
    SameEndSameFront(t.appended, HandedOn(s), s.buffer);
  }

  lemma SameFrontEnd(front: Bytes, a: Bytes, b: Bytes)
    requires front + a == front + b
    ensures a == b
  {
    assert a == (front + a)[|front|..] && b == (front + b)[|front|..];
  }

  lemma SameEndSameFront(a: Bytes, b: Bytes, end: Bytes)
    requires a + end == b + end
    ensures a == b
  {
    assert a == (a + end)[..|a|];
    assert b == (b + end)[..|b|];
  }

  // ----- one chunk at a time -----

  /** Between two chunks: nothing is on its way and the worker is at its loop head. */
  predicate AtRest(s: State) {
    s.reader == Reading(1) && s.buffer == [] && s.queue == [] && s.worker == AtLoop && s.registered && !s.needExit
  }

  lemma TwoSteps(s: State, first: Step, second: Step)
    requires Enabled(s, first) && Enabled(Apply(s, first), second)
    ensures CanRun(s, [first, second]) && After(s, [first, second]) == Apply(Apply(s, first), second)
  {
    hide Enabled, Apply;
    assert CanRun(s, []) && After(s, []) == s;
    RunAppend(s, [], first);
    assert [] + [first] == [first];
    RunAppend(s, [first], second);
    assert [first] + [second] == [first, second];
  }

  /** The reader gets the first byte of a chunk, then the others, and pushes it. */
  lemma ReadChunk(s: State, chunk: Bytes) returns (steps: seq<Step>)
    requires AtRest(s) && chunk != []
    ensures CanRun(s, steps)
    ensures After(s, steps) == s.(queue := [chunk], received := s.received + chunk, pushed := s.pushed + [chunk])
  {
    hide CanRun, After, Enabled, Apply;
    var first, others := chunk[..1], chunk[1..];
    assert first + others == chunk && [] + first == first;
    steps := ReadOnce(s, first);
    var t := After(s, steps);
    if others != [] {
      AvailableIs(t, |others|);
      RunAppend(s, steps, Available(|others|));
      steps := steps + [Available(|others|)];
      var u := After(s, steps);
      var more := ReadOnce(u, others);
      RunConcat(s, steps, more);
      steps := steps + more;
      assert s.received + first + others == s.received + chunk;
    } else {
      assert chunk == first;
    }
    t := After(s, steps);
    assert t == s.(reader := Handling, buffer := chunk, received := s.received + chunk);
    AvailableIs(t, 0);
    RunAppend(s, steps, Available(0));
    steps := steps + [Available(0)];
    PushIs(After(s, steps));
    RunAppend(s, steps, PushChunk);
    steps := steps + [PushChunk];
    assert [] + [chunk] == [chunk];
  }

  lemma ReadOnce(s: State, data: Bytes) returns (steps: seq<Step>)
    requires s.reader == Reading(|data|) && data != []
    ensures CanRun(s, steps)
    ensures After(s, steps) == s.(reader := Handling, buffer := s.buffer + data, received := s.received + data)
  {
    TwoSteps(s, Arrive(data), CompleteRead);
    steps := [Arrive(data), CompleteRead];
  }

  lemma AvailableIs(s: State, bytes: nat)
    requires s.reader == Handling
    ensures Enabled(s, Available(bytes))
    ensures Apply(s, Available(bytes)) == s.(reader := if bytes == 0 then Pushing else Reading(bytes))
  {
  }

  lemma PushIs(s: State)
    requires s.reader == Pushing && s.worker != Locked
    ensures Enabled(s, PushChunk)
    ensures Apply(s, PushChunk) ==
              s.(reader := Reading(1), buffer := [], queue := s.queue + [s.buffer], pushed := s.pushed + [s.buffer])
  {
  }

  /** The worker finds the chunk and takes it. */
  lemma TakeChunk(s: State, chunk: Bytes) returns (steps: seq<Step>)
    requires s.worker == AtLoop && !s.needExit && s.queue == [chunk]
    ensures CanRun(s, steps) && After(s, steps) == s.(worker := Holding([chunk]), queue := [])
  {
    TwoSteps(s, CheckExit, LookAtQueue);
    steps := [CheckExit, LookAtQueue];
  }

  lemma ExtractIs(s: State, chunk: Bytes)
    requires s.worker == Holding([chunk]) && s.registered
    ensures Extracted(s) == s.processing + chunk
    ensures var found := Parse(s.processing + chunk);
            && Enabled(s, AppendAndExtract(found))
            && Apply(s, AppendAndExtract(found)) ==
                 s.(worker := if found.messages == [] then AtLoop else Delivering(found.messages),
                    processing := found.rest, appended := s.appended + chunk)
  {
    hide Parse, Supported, Concat;
    ConcatOne(chunk);
  }

  lemma VisitIs(s: State)
    requires s.worker.Delivering? && !s.needExit
    ensures Enabled(s, WorkerStep(s))
    ensures s.worker.pending == [] ==> Apply(s, WorkerStep(s)) == s.(worker := AtLoop)
    ensures s.worker.pending != [] ==>
              var t := Apply(s, WorkerStep(s));
              t == s.(worker := Delivering(s.worker.pending[1..]), handled := s.handled + [s.worker.pending[0]],
                      delivered := t.delivered)
  {
    hide Parse, Unwrap, Supported, Extracted;
  }

  /** Without an exit request the worker visits every message. */
  lemma {:induction false} VisitAll(s: State) returns (steps: seq<Step>)
    requires s.worker.Delivering? && !s.needExit
    ensures CanRun(s, steps)
    ensures var t := After(s, steps);
            t == s.(worker := AtLoop, handled := s.handled + s.worker.pending, delivered := t.delivered)
    decreases |s.worker.pending|
  {
    hide Enabled, Apply, WorkerStep;
    VisitIs(s);
    var step, pending := WorkerStep(s), s.worker.pending;
    var t := Apply(s, step);
    if pending == [] {
      steps := [step];
      assert steps[1..] == [] && s.handled + [] == s.handled;
    } else {
      var rest := VisitAll(t);
      steps := [step] + rest;
      assert steps[1..] == rest;
      PendingMovesToHandled(s.handled, pending);
    }
  }

  /** One chunk goes all the way from the socket to the callback. */
  lemma FeedChunk(s: State, chunk: Bytes) returns (steps: seq<Step>)
    requires AtRest(s) && chunk != []
    ensures CanRun(s, steps)
    ensures var t, found := After(s, steps), Parse(s.processing + chunk);
            && AtRest(t) && t.received == s.received + chunk
            && t.processing == found.rest && t.handled == s.handled + found.messages
    ensures StaysSupported(s, steps) ==> Supported(s.processing + chunk)
  {
    hide CanRun, After, Enabled, Apply, Parse, StaysSupported, Supported, Extracted;
    var arrival := ReadChunk(s, chunk);
    var takes := TakeChunk(After(s, arrival), chunk);
    RunConcat(s, arrival, takes);
    var before := arrival + takes;
    var u := After(s, before);
    var works := ExtractAndVisit(u, chunk);
    RunConcat(s, before, works);
    steps := before + works;
    if StaysSupported(s, steps) {
      SupportedParts(s, before, works);
    }
  }

  lemma ExtractAndVisit(s: State, chunk: Bytes) returns (steps: seq<Step>)
    requires s.worker == Holding([chunk]) && s.registered && !s.needExit
    ensures CanRun(s, steps)
    ensures var t, found := After(s, steps), Parse(s.processing + chunk);
            t == s.(worker := AtLoop, processing := found.rest, appended := s.appended + chunk,
                    handled := s.handled + found.messages, delivered := t.delivered)
    ensures StaysSupported(s, steps) ==> Supported(s.processing + chunk)
  {
    hide Enabled, Apply, Parse, Supported, Extracted;
    ExtractIs(s, chunk);
    var found := Parse(s.processing + chunk);
    var step := AppendAndExtract(found);
    var t := Apply(s, step);
    var visits := [];
    if found.messages != [] {
      visits := VisitAll(t);
    } else {
      assert s.handled + [] == s.handled;
    }
    steps := [step] + visits;
    assert steps[1..] == visits;
  }
}
