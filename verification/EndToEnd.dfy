/**
 Both ends together.  The sending threads, the receiving pipeline and the network between
 them, which delivers bytes in order, are related only by "what has been received is a
 prefix of what is on the wire"; everything else may happen in any order.
 */
module EndToEnd {
  import opened Crc32
  import opened Options
  import opened Words
  import opened BaseProtocols
  import opened BufferProcessors
  import opened Chunking
  import opened Delivery
  import opened Envelopes
  import Receiving = ReceivePipeline
  import Sending = SendGate
  import Progress = SendProgress

  ghost predicate Accepted(payloads: seq<Bytes>) {
    forall i :: 0 <= i < |payloads| ==> |payloads[i]| <= MAX_PAYLOAD
  }

  lemma EnvelopesFit(payloads: seq<Bytes>)
    requires Accepted(payloads)
    ensures forall i :: 0 <= i < |payloads| ==> |EnvelopeOf(payloads[i])| < UINT32_RANGE
  {
    hide EnvelopeOf;
    forall i | 0 <= i < |payloads|
      ensures |EnvelopeOf(payloads[i])| < UINT32_RANGE
    {
      UnwrapEnvelope(payloads[i]);
    }
  }

  /** The frame payloads that `prepareData` builds. */
  ghost function EnvelopesOf(payloads: seq<Bytes>): (ps: seq<Bytes>)
    requires Accepted(payloads)
    ensures Sendable(ps) && |ps| == |payloads|
  {
    EnvelopesFit(payloads);
    seq(|payloads|, i requires 0 <= i < |payloads| => EnvelopeOf(payloads[i]))
  }

  ghost function PrintAll(ps: seq<Bytes>): seq<Bytes>
    requires Sendable(ps)
  {
    seq(|ps|, i requires 0 <= i < |ps| => Print(ps[i]))
  }

  lemma {:induction false} ConcatOfPrinted(ps: seq<Bytes>)
    requires Sendable(ps)
    ensures Concat(PrintAll(ps)) == FramesOf(ps)
  {
    hide Print;
    if ps != [] {
      assert PrintAll(ps)[1..] == PrintAll(ps[1..]);
      ConcatOfPrinted(ps[1..]);
    }
  }

  /** What is on the wire is a prefix of the frames of the envelopes, in gate order. */
  lemma WireIsPrefixOfFrames(ps: seq<Bytes>, io: set<nat>, steps: seq<Sending.Step>)
    requires Sendable(ps)
    requires Sending.CanRun(Sending.Start(PrintAll(ps), io), steps)
    requires Sending.Calm(Sending.Start(PrintAll(ps), io), steps)
    ensures var s := Sending.After(Sending.Start(PrintAll(ps), io), steps);
            && (forall i :: 0 <= i < |s.order| ==> s.order[i] < |ps|)
            && Sendable(Sending.GateOrder(ps, s.order))
            && s.wire + Sending.Unsent(s) == FramesOf(Sending.GateOrder(ps, s.order))
  {
    hide Print, FramesOf, Sending.Calm, Sending.CanRun, Sending.After, Sending.Unsent, Concat;
    assert Sending.NonEmpty(PrintAll(ps));
    Sending.SendGateIsSafe(PrintAll(ps), io, steps);
    var s := Sending.After(Sending.Start(PrintAll(ps), io), steps);
    var qs := Sending.GateOrder(ps, s.order);
    assert Sending.GateOrder(PrintAll(ps), s.order) == PrintAll(qs);
    ConcatOfPrinted(qs);
  }

  /** The messages that go to the callback for the first payloads in gate order. */
  function Messages(payloads: seq<Bytes>): seq<CommonMessage> {
    seq(|payloads|, i requires 0 <= i < |payloads| => CommonMessage(Some(EMSERVER_MODE), Some(payloads[i])))
  }

  lemma {:induction false} CallsOfEnvelopes(payloads: seq<Bytes>)
    requires Accepted(payloads)
    ensures Receiving.Calls(EnvelopesOf(payloads)) == Messages(payloads)
  {
    hide EnvelopeOf, Unwrap;
    if payloads != [] {
      var n := |payloads| - 1;
      assert EnvelopesOf(payloads)[..n] == EnvelopesOf(payloads[..n]);
      CallsOfEnvelopes(payloads[..n]);
      UnwrapEnvelope(payloads[n]);
      assert Messages(payloads) == Messages(payloads[..n]) + Messages(payloads)[n..];
    }
  }

  /** After a prefix of the frames of solid, readable payloads, what a pipeline has handled is a prefix of them. */
  lemma HandledFromPrefix(qs: seq<Bytes>, stream: Bytes, steps: seq<Receiving.Step>)
    requires Sendable(qs) && AllSolid(qs) && AllReadable(qs) && stream <= FramesOf(qs)
    requires Receiving.CanRun(Receiving.Start(true), steps)
    requires Receiving.After(Receiving.Start(true), steps).received == stream
    ensures Receiving.StaysSupported(Receiving.Start(true), steps)
    ensures var r := Receiving.After(Receiving.Start(true), steps);
            && r.handled <= qs && r.delivered == Receiving.Calls(r.handled)
            && (Receiving.QueueDrained(r) && r.buffer == [] && stream == FramesOf(qs) ==> r.handled == qs)
  {
    hide Print, FramesOf, Parse, Settled, Legible, AllSolid, AllReadable, Due, Receiving.CanRun, Receiving.After,
      Receiving.Calls, Receiving.QueueDrained, Receiving.Stream, Receiving.StaysSupported;
    var r := Receiving.After(Receiving.Start(true), steps);
    Receiving.PipelineRefinesParse(true, steps);
    assert [] + Receiving.Stream(r) == Receiving.Stream(r);
    var t := |stream|;
    assert FramesOf(qs)[..t] == stream && stream + FramesOf(qs)[t..] == FramesOf(qs);
    FramesSettledIffSolid(qs);
    FramesLegibleIffReadable(qs);
    ParseSplits(stream, FramesOf(qs)[t..]);
    LegibleSplits(stream, FramesOf(qs)[t..]);
    PrefixGivesDue(qs, t);
    DueParts(qs, t);
    AllDueAtEnd(qs);
  }

  /** The calls of `sendData` with these payloads before any is made; those in `io` are made on the I/O thread. */
  ghost function Senders(payloads: seq<Bytes>, io: set<nat>): Sending.State
    requires Accepted(payloads)
  {
    Sending.Start(PrintAll(EnvelopesOf(payloads)), io)
  }

  /** A calm run of the senders, and a run of the peer's pipeline over bytes that are on the wire. */
  ghost predicate Exchange(payloads: seq<Bytes>, io: set<nat>, sends: seq<Sending.Step>, receives: seq<Receiving.Step>)
    requires Accepted(payloads)
  {
    && Sending.CanRun(Senders(payloads, io), sends) && Sending.Calm(Senders(payloads, io), sends)
    && Receiving.CanRun(Receiving.Start(true), receives)
    && Receiving.After(Receiving.Start(true), receives).received <= Sending.After(Senders(payloads, io), sends).wire
  }

  /** Everything written has crossed, and the pipeline has got through it. */
  predicate Quiescent(s: Sending.State, r: Receiving.State) {
    r.received == s.wire && Sending.Unsent(s) == [] && Receiving.QueueDrained(r) && r.buffer == []
  }

  /**
   End to end: whatever the sending threads, the network, the reader and the worker do, in
   whatever order and with whatever chunks, the peer's callback receives a prefix of the
   payloads handed to `sendData`, in gate order and unchanged; and all that were written,
   once everything written has crossed and the queue is drained.  The peer's extractor
   stays within its 32-bit arithmetic all along.  The envelopes must be solid and readable,
   which is a property of each payload alone.
   */
  lemma SentIsDelivered(payloads: seq<Bytes>, io: set<nat>, sends: seq<Sending.Step>, receives: seq<Receiving.Step>)
    requires Accepted(payloads) && AllSolid(EnvelopesOf(payloads)) && AllReadable(EnvelopesOf(payloads))
    requires Exchange(payloads, io, sends, receives)
    ensures Receiving.StaysSupported(Receiving.Start(true), receives)
    ensures var s := Sending.After(Senders(payloads, io), sends);
            var r := Receiving.After(Receiving.Start(true), receives);
            && (forall i :: 0 <= i < |s.order| ==> s.order[i] < |payloads|)
            && r.delivered <= Messages(Sending.GateOrder(payloads, s.order))
            && (Quiescent(s, r) ==> r.delivered == Messages(Sending.GateOrder(payloads, s.order)))
  {
    hide Print, FramesOf, EnvelopeOf, AllSolid, AllReadable, Sending.CanRun, Sending.After, Sending.Calm,
      Sending.Unsent, Receiving.CanRun, Receiving.After, Receiving.Calls, Receiving.QueueDrained,
      Receiving.StaysSupported, Messages;
    var ps := EnvelopesOf(payloads);
    var s := Sending.After(Senders(payloads, io), sends);
    var r := Receiving.After(Receiving.Start(true), receives);
    WireIsPrefixOfFrames(ps, io, sends);
    var qs := Sending.GateOrder(ps, s.order);
    var ordered := Sending.GateOrder(payloads, s.order);
    assert qs == EnvelopesOf(ordered);
    GoodInAnyOrder(ps, s.order);
    PrefixTransitive(r.received, s.wire, Sending.Unsent(s));
    HandledFromPrefix(qs, r.received, receives);
    var n := |r.handled|;
    assert r.handled == qs[..n] == EnvelopesOf(ordered[..n]);
    CallsOfEnvelopes(ordered[..n]);
    MessagesOfPrefix(ordered, n);
    if Quiescent(s, r) {
      assert s.wire + [] == s.wire;
    }
  }

  lemma GoodInAnyOrder(ps: seq<Bytes>, order: seq<nat>)
    requires Sendable(ps) && AllSolid(ps) && AllReadable(ps) && forall i :: 0 <= i < |order| ==> order[i] < |ps|
    ensures Sendable(Sending.GateOrder(ps, order))
    ensures AllSolid(Sending.GateOrder(ps, order)) && AllReadable(Sending.GateOrder(ps, order))
  {
    hide Solid, Readable;
  }

  lemma PrefixTransitive(a: Bytes, b: Bytes, c: Bytes)
    requires a <= b
    ensures a <= b + c
  {
    assert (b + c)[..|a|] == b[..|a|] == a;
  }

  lemma MessagesOfPrefix(payloads: seq<Bytes>, n: nat)
    requires n <= |payloads|
    ensures Messages(payloads[..n]) <= Messages(payloads)
    ensures n == |payloads| ==> Messages(payloads[..n]) == Messages(payloads)
  {
    assert Messages(payloads)[..n] == Messages(payloads[..n]);
  }

  // ----- the condition is needed -----

  /** What an exchange ought to achieve. */
  ghost predicate Delivers(payloads: seq<Bytes>, io: set<nat>, sends: seq<Sending.Step>, receives: seq<Receiving.Step>)
    requires Accepted(payloads) && Exchange(payloads, io, sends, receives)
  {
    var s := Sending.After(Senders(payloads, io), sends);
    var r := Receiving.After(Receiving.Start(true), receives);
    && Receiving.StaysSupported(Receiving.Start(true), receives)
    && (forall i :: 0 <= i < |s.order| ==> s.order[i] < |payloads|)
    && r.delivered <= Messages(Sending.GateOrder(payloads, s.order))
    && (Quiescent(s, r) ==> r.delivered == Messages(Sending.GateOrder(payloads, s.order)))
  }

  lemma SameButLast<T>(a: seq<T>, x: T, b: seq<T>, y: T)
    requires a + [x] == b + [y]
    ensures a == b && x == y
  {
    assert a == (a + [x])[..|a|] && b == (b + [y])[..|b|];
    assert x == (a + [x])[|a|] && y == (b + [y])[|b|];
  }

  /** No payloads that bring these messages to the callback take fewer bytes than the envelopes. */
  lemma {:induction false} MessagesNeedBytes(handled: seq<Bytes>, payloads: seq<Bytes>)
    requires Sendable(handled) && Accepted(payloads) && Receiving.Calls(handled) == Messages(payloads)
    ensures |FramesOf(EnvelopesOf(payloads))| <= |FramesOf(handled)|
    decreases |handled|
  {
    hide Print, FramesOf, EnvelopeOf, Unwrap;
    if handled == [] {
      assert EnvelopesOf(payloads) == [];
      NoFrames();
    } else {
      var n, m := |handled| - 1, |payloads| - 1;
      LastFrame(handled);
      if Unwrap(handled[n]).None? {
        MessagesNeedBytes(handled[..n], payloads);
      } else {
        assert Receiving.Calls(handled) == Receiving.Calls(handled[..n]) + [Unwrap(handled[n]).value];
        assert Messages(payloads) == Messages(payloads[..m]) + [Messages(payloads)[m]];
        SameButLast(Receiving.Calls(handled[..n]), Unwrap(handled[n]).value,
                    Messages(payloads[..m]), Messages(payloads)[m]);
        MessagesNeedBytes(handled[..n], payloads[..m]);
        EnvelopeIsShortest(handled[n], payloads[m]);
        LastFrame(EnvelopesOf(payloads));
        assert EnvelopesOf(payloads)[..m] == EnvelopesOf(payloads[..m]);
      }
    }
  }

  /** Extracting other payloads from a stream of envelopes brings other messages to the callback. */
  lemma OtherPayloadsOtherMessages(payloads: seq<Bytes>, a: Bytes, b: Bytes)
    requires Accepted(payloads) && a + b == FramesOf(EnvelopesOf(payloads))
    requires Parse(a + b).messages != Parse(a).messages + Parse(Parse(a).rest + b).messages
    ensures Receiving.Calls(Parse(a).messages + Parse(Parse(a).rest + b).messages) != Messages(payloads)
  {
    hide Print, FramesOf, EnvelopesOf, Parse, Messages, Receiving.Calls, Sendable;
    var rest := Parse(a).rest;
    var first, second := Parse(a).messages, Parse(rest + b).messages;
    MessagesFit(a);
    MessagesFit(rest + b);
    FramesOfAppend(first, second);
    if Receiving.Calls(first + second) == Messages(payloads) {
      MessagesNeedBytes(first + second, payloads);
      assert Parse(rest + b).rest == [];
      assert a + b == FramesOf(first) + (rest + b);
      assert FramesOf(second) + [] == FramesOf(second);
      FillingMessagesAreAll(first + second);
      assert false;
    }
  }

  /** All threads send what they have, in some order. */
  lemma AllIsSent(payloads: seq<Bytes>, io: set<nat>) returns (sends: seq<Sending.Step>)
    requires Accepted(payloads)
    ensures Sending.CanRun(Senders(payloads, io), sends) && Sending.Calm(Senders(payloads, io), sends)
    ensures var s := Sending.After(Senders(payloads, io), sends);
            && (forall i :: 0 <= i < |s.order| ==> s.order[i] < |payloads|)
            && (forall t :: 0 <= t < |payloads| ==> t in s.order)
            && Sending.Unsent(s) == []
            && s.wire == FramesOf(EnvelopesOf(Sending.GateOrder(payloads, s.order)))
  {
    hide Print, FramesOf, EnvelopeOf, Sending.CanRun, Sending.Calm, Sending.After, Sending.Unsent, Concat,
      Sending.Start, Progress.IoStuck, Progress.AllDone;
    var ps := EnvelopesOf(payloads);
    var frames := PrintAll(ps);
    var s0 := Sending.Start(frames, io);
    Sending.EmptyRun(s0);
    NobodyIsStuck(frames, io);
    sends := Progress.EveryRunCanFinish(frames, io, []);
    WireIsPrefixOfFrames(ps, io, sends);
    var s := Sending.After(s0, sends);
    var qs := Sending.GateOrder(ps, s.order);
    assert Sending.GateOrder(frames, s.order) == PrintAll(qs);
    ConcatOfPrinted(qs);
    assert qs == EnvelopesOf(Sending.GateOrder(payloads, s.order));
    assert |s.wire + Sending.Unsent(s)| == |s.wire|;
  }

  lemma NobodyIsStuck(frames: seq<Bytes>, io: set<nat>)
    ensures !Progress.IoStuck(Sending.Start(frames, io))
  {
  }

  lemma BadInAnyOrder(ps: seq<Bytes>, order: seq<nat>)
    requires Sendable(ps) && (!AllSolid(ps) || !AllReadable(ps))
    requires (forall i :: 0 <= i < |order| ==> order[i] < |ps|) && forall t :: 0 <= t < |ps| ==> t in order
    ensures var qs := Sending.GateOrder(ps, order); Sendable(qs) && (!AllSolid(qs) || !AllReadable(qs))
  {
    hide Solid, Readable;
    var qs := Sending.GateOrder(ps, order);
    var t: nat :| t < |ps| && (!Solid(ps[t]) || !Readable(ps[t]));
    assert t in order;
    var i :| 0 <= i < |order| && order[i] == t;
    assert qs[i] == ps[t];
  }

  /** The peer gets a stream in two chunks, with an extraction after each. */
  lemma TwoChunks(a: Bytes, b: Bytes) returns (receives: seq<Receiving.Step>)
    requires a != []
    ensures Receiving.CanRun(Receiving.Start(true), receives)
    ensures var r := Receiving.After(Receiving.Start(true), receives);
            && r.received == a + b && Receiving.QueueDrained(r) && r.buffer == []
            && r.delivered == Receiving.Calls(r.handled)
            && (b != [] ==> r.handled == Parse(a).messages + Parse(Parse(a).rest + b).messages)
    ensures Receiving.StaysSupported(Receiving.Start(true), receives) ==> Supported(a)
  {
    hide Parse, Supported, Receiving.CanRun, Receiving.After, Receiving.StaysSupported, Receiving.Calls,
      Receiving.Stream, Settled, Legible;
    var s := Receiving.Start(true);
    assert [] + a == a && [] + Parse(a).messages == Parse(a).messages;
    receives := Receiving.FeedChunk(s, a);
    if b != [] {
      var first := receives;
      var second := Receiving.FeedChunk(Receiving.After(s, first), b);
      Receiving.RunConcat(s, first, second);
      receives := first + second;
      if Receiving.StaysSupported(s, receives) {
        Receiving.SupportedParts(s, first, second);
      }
    } else {
      assert a + b == a;
    }
    Receiving.PipelineRefinesParse(true, receives);
  }

  /** With an envelope that is not solid or not readable, some exchange of these payloads goes wrong. */
  lemma SomeExchangeFails(payloads: seq<Bytes>, io: set<nat>)
    returns (sends: seq<Sending.Step>, receives: seq<Receiving.Step>)
    requires Accepted(payloads) && (!AllSolid(EnvelopesOf(payloads)) || !AllReadable(EnvelopesOf(payloads)))
    ensures Exchange(payloads, io, sends, receives) && !Delivers(payloads, io, sends, receives)
  {
    hide Print, FramesOf, EnvelopeOf, AllSolid, AllReadable, Sending.CanRun, Sending.After, Sending.Calm,
      Sending.Unsent, Receiving.CanRun, Receiving.After, Receiving.Calls, Receiving.QueueDrained,
      Receiving.StaysSupported, Messages, Parse, Settled, Legible, Supported, Senders;
    sends := AllIsSent(payloads, io);
    var s := Sending.After(Senders(payloads, io), sends);
    var ordered := Sending.GateOrder(payloads, s.order);
    var qs := EnvelopesOf(ordered);
    assert qs == Sending.GateOrder(EnvelopesOf(payloads), s.order);
    BadInAnyOrder(EnvelopesOf(payloads), s.order);
    FramesSettledIffSolid(qs);
    FramesLegibleIffReadable(qs);
    var cut := BadCut(s.wire);
    var a, b := s.wire[..cut], s.wire[cut..];
    assert a + b == s.wire;
    receives := TwoChunks(a, b);
    if Supported(a) {
      OtherPayloadsOtherMessages(ordered, a, b);
    }
  }

  /**
   Delivery end to end, exactly: every exchange of these payloads stays within the 32-bit
   arithmetic and brings them to the callback, in gate order and unchanged, if and only if
   all their envelopes are solid and readable.
   */
  lemma DeliveredAlwaysIffSolidAndReadable(payloads: seq<Bytes>, io: set<nat>)
    requires Accepted(payloads)
    ensures (forall sends, receives ::
               Exchange(payloads, io, sends, receives) ==> Delivers(payloads, io, sends, receives))
       <==> AllSolid(EnvelopesOf(payloads)) && AllReadable(EnvelopesOf(payloads))
  {
    hide Exchange, AllSolid, AllReadable, EnvelopesOf;
    if AllSolid(EnvelopesOf(payloads)) && AllReadable(EnvelopesOf(payloads)) {
      forall sends, receives | Exchange(payloads, io, sends, receives)
        ensures Delivers(payloads, io, sends, receives)
      {
        ExchangeDelivers(payloads, io, sends, receives);
      }
    } else {
      var sends, receives := SomeExchangeFails(payloads, io);
    }
  }

  lemma ExchangeDelivers(payloads: seq<Bytes>, io: set<nat>, sends: seq<Sending.Step>, receives: seq<Receiving.Step>)
    requires Accepted(payloads) && AllSolid(EnvelopesOf(payloads)) && AllReadable(EnvelopesOf(payloads))
    requires Exchange(payloads, io, sends, receives)
    ensures Delivers(payloads, io, sends, receives)
  {
    hide AllSolid, AllReadable, EnvelopesOf, Sending.CanRun, Sending.After, Sending.Calm, Sending.Unsent,
      Receiving.CanRun, Receiving.After, Receiving.QueueDrained, Receiving.StaysSupported, Messages, Senders;
    SentIsDelivered(payloads, io, sends, receives);
  }

  // ----- method calls -----

  datatype MethodCall = MethodCall(code: MethodCode, message: Bytes, id: bv64)

  ghost predicate CallsFit(calls: seq<MethodCall>) {
    forall i :: 0 <= i < |calls| ==> |calls[i].message| <= MAX_MESSAGE
  }

  lemma MarshalledFit(calls: seq<MethodCall>)
    requires CallsFit(calls)
    ensures forall i :: 0 <= i < |calls| ==>
              |MakeMessage(calls[i].code, Some(calls[i].message), calls[i].id)| <= MAX_PAYLOAD
  {
    hide MakeMessage, EnvelopeOf, Unwrap, Dispatch, OutcomeOf;
    forall i | 0 <= i < |calls|
      ensures |MakeMessage(calls[i].code, Some(calls[i].message), calls[i].id)| <= MAX_PAYLOAD
    {
      MethodCallRoundTrip(map[], (code, message) => false, calls[i].code, calls[i].message, calls[i].id);
    }
  }

  /** The payloads that `makeMessage` builds for the calls. */
  ghost function Marshalled(calls: seq<MethodCall>): (payloads: seq<Bytes>)
    requires CallsFit(calls)
    ensures Accepted(payloads) && |payloads| == |calls|
  {
    MarshalledFit(calls);
    seq(|calls|, i requires 0 <= i < |calls| => MakeMessage(calls[i].code, Some(calls[i].message), calls[i].id))
  }

  /** The callbacks that these method calls ask for, in order. */
  ghost function Requested(callbacks: map<MethodCode, Any>, parses: InnerParser, calls: seq<MethodCall>): seq<Call> {
    if calls == [] then []
    else
      var n := |calls| - 1;
      Requested(callbacks, parses, calls[..n]) +
      Called(OutcomeOf(callbacks, parses, calls[n].code, calls[n].message, calls[n].id))
  }

  lemma {:induction false} EffectsAreRequested(callbacks: map<MethodCode, Any>, parses: InnerParser,
                                               calls: seq<MethodCall>)
    requires CallsFit(calls)
    ensures Effects(callbacks, parses, EMSERVER_MODE, Messages(Marshalled(calls))) ==
              Requested(callbacks, parses, calls)
  {
    hide MakeMessage, Dispatch, OutcomeOf, EnvelopeOf, Unwrap, Called;
    if calls != [] {
      var n, call := |calls| - 1, calls[|calls| - 1];
      EffectsAreRequested(callbacks, parses, calls[..n]);
      MethodCallRoundTrip(callbacks, parses, call.code, call.message, call.id);
      UnwrapEnvelope(MakeMessage(call.code, Some(call.message), call.id));
      assert Messages(Marshalled(calls))[..n] == Messages(Marshalled(calls[..n]));
      assert Messages(Marshalled(calls))[n] ==
             CommonMessage(Some(EMSERVER_MODE), Some(MakeMessage(call.code, Some(call.message), call.id)));
    }
  }

  /**
   Method calls end to end: in every exchange, the callbacks that the delivered messages
   fire at the peer are those that the first calls in gate order ask for, each once, with
   the same bytes and the same id; and those of all calls written, once that has crossed.
   */
  lemma DeliveredCallsTakeEffect(callbacks: map<MethodCode, Any>, parses: InnerParser, calls: seq<MethodCall>,
                                 io: set<nat>, sends: seq<Sending.Step>, receives: seq<Receiving.Step>)
    requires CallsFit(calls)
    requires AllSolid(EnvelopesOf(Marshalled(calls))) && AllReadable(EnvelopesOf(Marshalled(calls)))
    requires Exchange(Marshalled(calls), io, sends, receives)
    ensures var s := Sending.After(Senders(Marshalled(calls), io), sends);
            var r := Receiving.After(Receiving.Start(true), receives);
            && (forall i :: 0 <= i < |s.order| ==> s.order[i] < |calls|)
            && |r.delivered| <= |s.order|
            && Effects(callbacks, parses, EMSERVER_MODE, r.delivered) ==
                 Requested(callbacks, parses, Sending.GateOrder(calls, s.order[..|r.delivered|]))
            && (Quiescent(s, r) ==> |r.delivered| == |s.order|)
  {
    hide MakeMessage, Dispatch, OutcomeOf, EnvelopeOf, AllSolid, AllReadable, Quiescent, Effects, Requested,
      Sending.After, Receiving.After, Senders;
    SentIsDelivered(Marshalled(calls), io, sends, receives);
    var s := Sending.After(Senders(Marshalled(calls), io), sends);
    var r := Receiving.After(Receiving.Start(true), receives);
    var n := |r.delivered|;
    var done := Sending.GateOrder(calls, s.order[..n]);
    var all := Sending.GateOrder(Marshalled(calls), s.order);
    assert CallsFit(done);
    assert r.delivered == Messages(all)[..n] == Messages(Marshalled(done));
    EffectsAreRequested(callbacks, parses, done);
  }

  /** The worker's calls of the read callback, as `registerReadCallback` binds it to the processor. */
  method CallBack(processor: EmserverProcessor, delivered: seq<CommonMessage>)
    requires WellTyped(processor.callbacks)
    modifies processor`calls
    ensures processor.calls ==
              old(processor.calls) + Effects(processor.callbacks, processor.parses, processor.workModeCode, delivered)
  {
    hide Dispatch, WellTyped;
    for i := 0 to |delivered|
      invariant processor.calls ==
                  old(processor.calls) +
                  Effects(processor.callbacks, processor.parses, processor.workModeCode, delivered[..i])
    {
      WellTypedNeverThrows(processor.callbacks, processor.parses, processor.workModeCode, delivered[i]);
      var ret, thrown := processor.CallbackRecievedCommonMessage(delivered[i]);
      assert delivered[..i + 1][..i] == delivered[..i];
    }
    assert delivered[..|delivered|] == delivered;
  }
}
