/**
 The objects at the two ends, one thread at a time: `CommonProcessor` with its chunk queue
 and delivery loop (common/src/commonprocessor.cpp), and the buffers and completion
 handlers of `TcpSession` (common/src/tcpsession.cpp).  How their calls interleave is the
 subject of `ReceivePipeline` and `SendGate`, whose steps these methods carry out.
 */
module Sessions {
  import opened Crc32
  import opened Options
  import opened BaseProtocols
  import opened BufferProcessors
  import opened Envelopes
  import Receiving = ReceivePipeline
  import Sending = SendGate

  // ----- one pass of the worker as a run of the receiving side -----

  predicate IsPassStep(step: Receiving.Step) {
    step.AppendAndExtract? || step.Visit? || step.EndDelivery? || step.RequestExit?
  }

  predicate OnlyPassSteps(steps: seq<Receiving.Step>) {
    forall i :: 0 <= i < |steps| ==> IsPassStep(steps[i])
  }

  /** What the worker's pass does not touch. */
  predicate OutsideUnchanged(s: Receiving.State, t: Receiving.State) {
    t.reader == s.reader && t.buffer == s.buffer && t.queue == s.queue && t.registered == s.registered
  }

  ghost predicate InPass(s: Receiving.State, steps: seq<Receiving.Step>, t: Receiving.State) {
    Receiving.CanRun(s, steps) && t == Receiving.After(s, steps) && OnlyPassSteps(steps) && OutsideUnchanged(s, t)
  }

  /** The worker is about to visit the first of `pending`; with nothing found it never starts to. */
  predicate AtMessage(t: Receiving.State, pending: seq<Bytes>) {
    t.worker == Receiving.Delivering(pending) || (pending == [] && t.worker == Receiving.AtLoop)
  }

  lemma TakePassStep(s: Receiving.State, steps: seq<Receiving.Step>, t: Receiving.State, step: Receiving.Step)
    returns (longer: seq<Receiving.Step>, u: Receiving.State)
    requires InPass(s, steps, t) && IsPassStep(step) && Receiving.Enabled(t, step)
    ensures InPass(s, longer, u) && u == Receiving.Apply(t, step)
  {
    hide Receiving.CanRun, Receiving.After, Receiving.Enabled, Unwrap, Parse, Supported;
    Receiving.RunAppend(s, steps, step);
    longer := steps + [step];
    u := Receiving.Apply(t, step);
  }

  lemma BeginPass(s: Receiving.State, found: Extraction)
    returns (steps: seq<Receiving.Step>, t: Receiving.State)
    requires s.worker.Holding?
    requires s.registered ==> found == Parse(Receiving.Extracted(s))
    ensures InPass(s, steps, t) && t.delivered == s.delivered && t.needExit == s.needExit
    ensures s.registered ==> AtMessage(t, found.messages) && t.processing == found.rest
    ensures !s.registered ==> t.worker == Receiving.AtLoop && t.processing == s.processing
  {
    hide Unwrap, Parse, Supported, Concat;
    steps, t := TakePassStep(s, [], s, Receiving.AppendAndExtract(found));
  }

  lemma VisitInPass(s: Receiving.State, steps: seq<Receiving.Step>, t: Receiving.State, pending: seq<Bytes>)
    returns (longer: seq<Receiving.Step>, u: Receiving.State)
    requires InPass(s, steps, t) && pending != [] && AtMessage(t, pending)
    requires Unwrap(pending[0]).Some? ==> !t.needExit
    ensures InPass(s, longer, u) && AtMessage(u, pending[1..])
    ensures u.needExit == t.needExit && u.processing == t.processing
    ensures u.delivered == t.delivered + (if Unwrap(pending[0]).Some? then [Unwrap(pending[0]).value] else [])
  {
    hide Receiving.CanRun, Receiving.After, Unwrap, Parse, Supported;
    longer, u := TakePassStep(s, steps, t, Receiving.Visit);
  }

  /** The pass ends behind the last message, or at a message for which the worker sees an exit request. */
  lemma EndPass(s: Receiving.State, steps: seq<Receiving.Step>, t: Receiving.State, pending: seq<Bytes>)
    returns (longer: seq<Receiving.Step>)
    requires InPass(s, steps, t) && AtMessage(t, pending) && (pending != [] ==> Unwrap(pending[0]).Some?)
    ensures Receiving.CanRun(s, longer) && OnlyPassSteps(longer)
    ensures var u := Receiving.After(s, longer);
            && u.worker == Receiving.AtLoop && OutsideUnchanged(s, u)
            && u.processing == t.processing && u.delivered == t.delivered
  {
    hide Receiving.CanRun, Receiving.After, Unwrap, Parse, Supported;
    var u;
    if pending != [] {
      longer, u := TakePassStep(s, steps, t, Receiving.RequestExit);
      longer, u := TakePassStep(s, longer, u, Receiving.Visit);
    } else if t.worker == Receiving.AtLoop {
      longer := steps;
    } else {
      longer, u := TakePassStep(s, steps, t, Receiving.EndDelivery);
    }
  }

  // ----- the objects -----

  class CommonProcessor {
    var acceptorBuffer: seq<Bytes>
    var hasReadCallback: bool
    /** The messages handed to the read callback so far. */
    var calls: seq<CommonMessage>

    constructor ()
      ensures acceptorBuffer == [] && !hasReadCallback && calls == []
    {
      acceptorBuffer := [];
      hasReadCallback := false;
      calls := [];
    }

    /** The processor's share of a state of the receiving side. */
    ghost predicate Holds(s: Receiving.State)
      reads this
    {
      s.queue == acceptorBuffer && s.registered == hasReadCallback && s.delivered == calls
    }

    method RegisterCommonMessageIncomingCallback(ghost s: Receiving.State)
      requires Holds(s)
      modifies this`hasReadCallback
      ensures Holds(Receiving.Apply(s, Receiving.Register))
    {
      hasReadCallback := true;
    }

    method OnReadedChunk(data: Bytes)
      modifies this`acceptorBuffer
      ensures acceptorBuffer == old(acceptorBuffer) + [data]
    {
      var dataChunk := data;
      acceptorBuffer := acceptorBuffer + [dataChunk];
    }

    method PrepareData(s: Bytes) returns (chunk: Bytes)
      requires |s| <= MAX_PAYLOAD
      ensures |EnvelopeOf(s)| <= MAX_DECLARED && chunk == Print(EnvelopeOf(s))
    {
      hide CommonMessage.Serialize, TransportContainer.Serialize, Print;
      UnwrapEnvelope(s);
      var msg := CommonMessage(Some(EMSERVER_MODE), Some(s));
      CommonRoundTrip(msg);
      var trMsg := TransportContainer(Some(1), Some(msg.Serialize()));
      var p := BaseProtocol(trMsg.Serialize());
      chunk := p.MakeProtocolMessage();
    }

    /**
     The worker takes the whole queue, with the mutex in its hands: at once when it finds
     chunks there, or when it is notified in its wait.
     */
    method SwapOut(ghost s: Receiving.State) returns (accepted: seq<Bytes>)
      requires Holds(s)
      requires s.worker == Receiving.Waiting || (s.worker == Receiving.Locked && acceptorBuffer != [])
      modifies this`acceptorBuffer
      ensures var step := if s.worker == Receiving.Waiting then Receiving.Wake else Receiving.LookAtQueue;
              && Receiving.Enabled(s, step)
              && var t := Receiving.Apply(s, step);
                 Holds(t) && t.worker == Receiving.Holding(accepted)
      ensures accepted == old(acceptorBuffer) && acceptorBuffer == []
    {
      accepted := acceptorBuffer;
      acceptorBuffer := [];
    }

    /** The same with the extractor of the worker. */
    ghost predicate Works(processor: BufferProcessor, s: Receiving.State)
      reads this, processor
    {
      Holds(s) && s.processing == processor.processingBuffer
    }

    /**
     One pass of the worker over the chunks it has taken.  `exitSeen(i)` is what the worker
     reads in `m_needExit` when it is about to hand over message `i`; `visited` counts the
     messages it got past.  It carries out the worker's steps of the receiving side, with an
     exit request among them when the worker sees one.
     */
    method ProcessAccepted(processor: BufferProcessor, accepted: seq<Bytes>, exitSeen: nat -> bool,
                           ghost s: Receiving.State)
      returns (visited: nat, ghost steps: seq<Receiving.Step>)
      requires s.worker == Receiving.Holding(accepted) && Works(processor, s)
      requires hasReadCallback ==> Supported(processor.processingBuffer + Concat(accepted))
      requires s.needExit ==> forall i: nat :: exitSeen(i)
      modifies this`calls, processor
      ensures !hasReadCallback ==>
                calls == old(calls) && processor.processingBuffer == old(processor.processingBuffer) && visited == 0
      ensures hasReadCallback ==>
                var found := Parse(old(processor.processingBuffer) + Concat(accepted));
                && processor.processingBuffer == found.rest
                && visited <= |found.messages|
                && calls == old(calls) + Receiving.Calls(found.messages[..visited])
                && (visited < |found.messages| ==> Unwrap(found.messages[visited]).Some? && exitSeen(visited))
                && (forall i :: 0 <= i < visited && Unwrap(found.messages[i]).Some? ==> !exitSeen(i))
      ensures Receiving.CanRun(s, steps) && OnlyPassSteps(steps)
      ensures var t := Receiving.After(s, steps);
              Works(processor, t) && t.worker == Receiving.AtLoop && OutsideUnchanged(s, t)
    {
      hide Parse, Unwrap, Concat, Supported, Receiving.CanRun, Receiving.After, Receiving.Enabled, Receiving.Apply,
        Receiving.Calls, OnlyPassSteps;
      visited := 0;
      ghost var t;
      if !hasReadCallback {
        steps, t := BeginPass(s, Extraction([], []));
        return;
      }
      processor.AppendBuffers(accepted);
      var messages := processor.Messages();
      ghost var payloads := MessagePayloads(messages);
      steps, t := BeginPass(s, Extraction(payloads, processor.processingBuffer));
      assert payloads[..0] == [] && payloads[0..] == payloads;
      Receiving.NoCalls();
      while visited < |messages|
        invariant visited <= |messages|
        invariant processor.processingBuffer == Parse(old(processor.processingBuffer) + Concat(accepted)).rest
        invariant calls == old(calls) + Receiving.Calls(payloads[..visited])
        invariant forall i :: 0 <= i < visited && Unwrap(payloads[i]).Some? ==> !exitSeen(i)
        invariant InPass(s, steps, t) && Works(processor, t) && t.needExit == s.needExit
        invariant AtMessage(t, payloads[visited..])
        decreases |messages| - visited
      {
        var message := Unwrap(messages[visited].payload);
        assert payloads[..visited + 1] == payloads[..visited] + [payloads[visited]];
        Receiving.CallsOfOneMore(payloads[..visited], payloads[visited]);
        assert payloads[visited..][1..] == payloads[visited + 1..];
        if message.Some? {
          if !exitSeen(visited) {
            calls := calls + [message.value];
          } else {
            break;
          }
        }
        steps, t := VisitInPass(s, steps, t, payloads[visited..]);
        visited := visited + 1;
      }
      steps := EndPass(s, steps, t, payloads[visited..]);
    }
  }

  class TcpSession {
    var buffer: Bytes
    var streamSend: Bytes
    var inSendMode: bool
    const protocol: CommonProcessor

    constructor ()
      ensures buffer == [] && streamSend == [] && !inSendMode
      ensures fresh(protocol) && protocol.acceptorBuffer == [] && !protocol.hasReadCallback && protocol.calls == []
    {
      buffer := [];
      streamSend := [];
      inSendMode := false;
      protocol := new CommonProcessor();
    }

    /** The session's share of a state of the receiving side. */
    ghost predicate Receives(s: Receiving.State)
      reads this, protocol
    {
      s.buffer == buffer && protocol.Holds(s)
    }

    /** The session's share of a state of the sending side. */
    ghost predicate Sends(s: Sending.State)
      reads this
    {
      s.stream == streamSend && s.inSendMode == inSendMode
    }

    /**
     The error-free read handler; the result is how many bytes the next read asks for.
     It carries out the handler's steps of the receiving side.
     */
    method HandlerRead(available: nat, ghost s: Receiving.State) returns (request: nat)
      requires s.reader == Receiving.Handling && s.worker != Receiving.Locked && Receives(s)
      modifies this`buffer, protocol`acceptorBuffer
      ensures var asked := Receiving.Apply(s, Receiving.Available(available));
              var t := if available == 0 then Receiving.Apply(asked, Receiving.PushChunk) else asked;
              Receives(t) && t.reader == Receiving.Reading(request)
    {
      request := available;
      if available == 0 {
        request := 1;
        protocol.OnReadedChunk(buffer);
        buffer := [];
      }
    }

    /**
     What `sendData` does once it is through the gate, with the chunk it prepared before it
     took the gate: the steps of thread `t` up to the asynchronous write.
     */
    method WriteThroughGate(chunk: Bytes, ghost s: Sending.State, ghost t: nat)
      requires Sending.At(s, t, Sending.Raising) && s.senders[t].frame == chunk && Sends(s)
      modifies this`inSendMode, this`streamSend
      ensures Sends(Sending.ThroughGate(s, t))
    {
      inSendMode := true;
      streamSend := streamSend + chunk;
    }

    /** The error-free write handler, under its lock: consumes the bytes a second time and lowers the flag. */
    method HandlerWrite(bytesTransmitted: nat, ghost s: Sending.State)
      requires s.handler == Sending.HasLock(bytesTransmitted) && Sends(s)
      modifies this`streamSend, this`inSendMode
      ensures Sends(Sending.Released(s))
    {
      streamSend := if bytesTransmitted <= |streamSend| then streamSend[bytesTransmitted..] else [];
      inSendMode := false;
    }
  }
}
