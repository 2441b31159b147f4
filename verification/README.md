# The byte-stream message layer of emserver

This project models the message layer under `common/` of emserver and proves what it
guarantees: the frame codec with its CRC-32, the extractor that finds frames in a byte
stream and resynchronises after garbage, the reader and worker threads that feed it, the
gate through which sending threads share one stream buffer, and the protobuf envelopes
with the dispatch by method code.

A frame is `'$'`, a little-endian 32-bit payload length, the payload, and a little-endian
CRC-32 of everything before it. Bytes are `bv8`, the checksum register is a `bv32`, and an
`int64` id is the `bv64` of its two's complement.

`dafny verify dfyconfig.toml` checks everything.

## The files

| file | contents |
|---|---|
| Crc32.dfy | the checksum, bit by bit; linearity, bijection, residue, burst detection, agreement with polynomial division |
| Words.dfy, Options.dfy | the numbers that machine words denote; the option type |
| BaseProtocol.dfy | what a frame is, the verdict on a byte string, and the codec in the source's fixed-width arithmetic |
| BufferProcessor.dfy | the leftmost parse as the specification, and the extractor class that computes it in place |
| Chunking.dfy | the extractor fed in pieces: exactly when that changes nothing |
| Delivery.dfy | streams of printed frames, delivery of every prefix, damage on the way |
| ProtoWire.dfy, Envelope.dfy | the proto2 wire format of the three envelope messages, method calls and their dispatch |
| ReceivePipeline.dfy | reader and worker thread as one state machine |
| PipelineExit.dfy | the end of the worker thread after an exit request |
| SendGate.dfy | sending threads, asynchronous write and write handler as one state machine; its safety, and which spurious wake-ups break it |
| SendProgress.dfy | lost notifications, sending from the I/O thread, and when all calls can come to their end |
| Sessions.dfy | the classes `CommonProcessor` and `TcpSession`, whose methods carry out steps of those machines |
| EndToEnd.dfy | both ends together |

## Five findings

**Chunking** (common/src/bufferprocessor.cpp:34-56). The extractor never waits for an
incomplete frame, so feeding a stream in pieces can return other messages than feeding it
whole: a frame whose payload is itself a frame, cut one byte short, yields the inner
message and loses the outer one (`Chunking.NestedFrameIsNotSettled`). The exact condition
is `Settled`: no frame that the parse of the whole stream returns encloses another valid
frame that ends earlier. Frames that merely overlap do no harm. For streams of printed
frames the condition falls apart into one condition per payload, `Solid`, which a sender
can check before sending; a payload is solid, for example, when no marker byte stands where
an inner frame could start (`Delivery.MarkerFreeIsSolid`).

**Lengths** (common/src/baseprotocol.cpp:33-50). For the same reason the extractor also
takes bytes inside an incomplete frame for a header, and a length above 2^32-10 found there
wraps its 32-bit total. So a solid payload need not be safe: ten bytes that begin with
`24 F7 FF FF FF` are enough (`Delivery.SolidIsNotEnough`). The exact condition under which
every schedule stays within the arithmetic is `Legible`, for a stream, and `Readable`, for
a payload: while the last byte of its frame is missing, no marker in the frame announces
such a length, and the payload is shorter than 2^31 bytes, since a valid frame with a
longer one turns its size negative. `Delivery.DeliversAlwaysIffSolidAndReadable` puts both
conditions together, and `EndToEnd.DeliveredAlwaysIffSolidAndReadable` carries them to both
ends of a connection.

**Waiting** (common/src/tcpsession.cpp:62-67). The loop in `sendData` leaves on any wake-up
that is not a time-out, without looking at the flag again. A spurious wake-up lets an
otherwise calm run start a second write or lose buffered bytes if and only if it comes while the
flag is up and the write handler is not already holding the lock to lower it
(`SendGate.SpuriousWakeBreaksIff`); both kinds of harmful moment are reached
(`SendGate.HarmfulWakesAreReachable`). Safety and progress hold over every run without such
a wake-up (`SendGate.Calm`).

**Sending from the I/O thread** (common/src/tcpsession.cpp:61-67,
client/src/emserveradapter.cpp:140-161). The client calls the user's connection callback on
the thread that runs the I/O service, with the session already set. A `sendData` made there
keeps the write handler from running while it lasts; when it finds the flag up, or the gate
taken, it waits for a handler that only its own thread could run. `SendProgress.IoStuck`
says exactly when (`SendProgress.CanFinishIffNotStuck`), and two sends in a row from one
such callback are enough (`SendProgress.SecondSendOnIoIsStuck`). From every other state
that a calm run reaches, all calls can be brought to their end.

**Method code 4** (common/src/processoremserver.cpp:43-60). The enumeration has six method
codes and the dispatch handles five: a message with the code of
`SensorsConfigurationControl` fires no callback, whatever is registered
(`Envelopes.MethodCallRoundTrip`).

## Model

| member | source | states |
|---|---|---|
| Crc32.ChecksumIsPolynomialRemainder | common/src/baseprotocol.cpp:111-116 | the reflected shift register computes the standard's definition: the reflected, complemented remainder of division by 0x04C11DB7 |
| Crc32.ChecksumOfDigits | common/src/baseprotocol.cpp:111-116 | the published check value of this CRC for the digits 1 to 9 |
| Crc32.RegisterInjective | common/src/baseprotocol.cpp:111-116 | over any bytes the register update is a bijection |
| Crc32.FeedFourBytes | common/src/baseprotocol.cpp:111-116 | four bytes act on the register as the one little-endian word they spell |
| Crc32.BurstChangesRegister | common/src/baseprotocol.cpp:111-116 | two four-byte windows in the same surroundings leave the same register only if they are equal |
| Crc32.ChecksumMatchesIffResidue | common/src/baseprotocol.cpp:43-54 | the stored checksum is right exactly when the register over message and trailer ends at a fixed constant |
| BaseProtocols.CalculateChecksum | common/src/baseprotocol.cpp:111-116 | the byte loop computes the checksum of the whole range |
| BaseProtocols.PrintIsFrame | common/src/baseprotocol.cpp:64-83 | a printed payload is a valid frame of that size and payload |
| BaseProtocols.FrameIsPrint | common/src/baseprotocol.cpp:43-51 | every valid frame is the printed form of its payload, byte for byte |
| BaseProtocols.SampleFrame | common/tests/test_protocol.cpp:22-42 | the frame of the payload "test" as thirteen literal bytes: marker, little-endian length, payload, checksum of all of it |
| BaseProtocols.StartsFrameIffPrinted | common/src/baseprotocol.cpp:19-56 | extraction can succeed exactly on the byte strings that begin with some printed payload |
| BaseProtocols.PrintedPrefixStarts | common/src/baseprotocol.cpp:45-51 | extracting a printed frame returns its payload and size, whatever bytes follow |
| BaseProtocols.VerdictStable | common/src/baseprotocol.cpp:19-56 | only `NeedMoreData` can change when bytes are appended; a frame is valid in a prefix exactly when it is valid in the whole and ends inside the prefix |
| BaseProtocols.VerdictMeaning | common/src/baseprotocol.cpp:13-56 | each of the four verdicts described by the data alone: no printed frame begins with the first byte; a whole printed frame stands at the front; announced bytes are missing; they are there and are no printed frame |
| BaseProtocols.SizesAreExact | common/src/baseprotocol.cpp:25-50 | the uint32, size_t and int32 computations are exact for declared lengths up to 2^32-10 and for no longer one; as an `int32` the payload size is exact below 2^31 and negative from there on |
| BaseProtocols.InRangeIffExact | common/src/baseprotocol.cpp:25-50 | what `ExtractFromRawData` excludes is exactly the data on which a total or a payload size of the fixed-width arithmetic is wrong |
| BaseProtocols.BaseProtocol.MakeProtocolMessage | common/src/baseprotocol.cpp:64-83 | the buffer filled in place is the printed frame |
| BaseProtocols.ExtractFromRawData | common/src/baseprotocol.cpp:11-57 | for the null pointer and all non-empty data whose announced length is in range: the failure reason; an item exactly on success, with the declared payload, and its first `fullSize()` bytes are its printed form |
| BufferProcessors.GreedyIsParse | common/src/bufferprocessor.cpp:26-59 | any cutting of a stream into junk without frames, frames and a quiet residue is the leftmost parse, so there is only one |
| BufferProcessors.ParseIsGreedy | common/src/bufferprocessor.cpp:26-59 | every stream has such a cutting, no byte is lost, and the messages are the payloads of its frames in order |
| BufferProcessors.BufferProcessor.Messages | common/src/bufferprocessor.cpp:26-59 | wherever it tries to parse only lengths in range, the in-place scan, extract, erase and step loop terminates and computes the leftmost parse: its messages and its rest |
| BufferProcessors.BufferProcessor.AppendBuffer | common/src/bufferprocessor.cpp:12-15 | the chunk is appended to the buffer |
| BufferProcessors.BufferProcessor.AppendBuffers | common/src/bufferprocessor.cpp:17-24 | all chunks are appended, in order |
| BufferProcessors.BufferProcessor.FlushBuffer | common/src/bufferprocessor.cpp:61-64 | the buffer is emptied |
| BufferProcessors.FindMarker | common/src/bufferprocessor.cpp:29-30 | the first marker at or after a position, or the end |
| BufferProcessors.RestIsQuiet | common/src/bufferprocessor.cpp:34-58 | after an extraction no position starts a valid frame, and extracting again changes nothing |
| BufferProcessors.ParseConserves | common/src/bufferprocessor.cpp:44-49 | the buffer left is a suffix of the old one, each message takes at least nine bytes, and nothing changes exactly when nothing is returned |
| BufferProcessors.NewFramesEndInAppendedBytes | common/src/bufferprocessor.cpp:12-15 | a frame that appears after an append ends inside the appended bytes |
| BufferProcessors.Resynchronises | common/src/bufferprocessor.cpp:34-56 | garbage without a valid frame, however many markers it holds, never hides the frame behind it |
| Chunking.ChunkingInvariantIffSettled | common/src/bufferprocessor.cpp:12-59 | in exact arithmetic, every cutting into chunks and every schedule of extractions returns what one extraction returns and leaves the same buffer, if and only if the stream is settled |
| Chunking.ExtractorInvariantIffSettledAndLegible | common/src/bufferprocessor.cpp:12-59 | the same of the extractor with its 32-bit arithmetic: under every cutting and schedule it stays within the range in which that is exact and returns what one extraction returns, if and only if the stream is settled and legible |
| Chunking.LegibleSplits | common/src/bufferprocessor.cpp:34-37 | extracting early from a settled, legible stream meets only lengths in range and leaves a legible stream |
| Chunking.InRangeIsLegible | common/src/baseprotocol.cpp:33-50 | a stream that announces no length out of range anywhere is legible |
| Chunking.ParseSplits | common/src/bufferprocessor.cpp:26-59 | extracting early from a settled stream splits the extraction in two, and prefixes stay settled |
| Chunking.NoOverlapIsSettled | common/src/bufferprocessor.cpp:26-59 | a stream in which no two valid frames overlap is settled |
| Chunking.NestedFrameIsNotSettled | common/src/bufferprocessor.cpp:44-53 | a frame that carries a frame is not settled: whole it returns the outer message, one byte short the inner one |
| Chunking.Drive | common/src/bufferprocessor.cpp:12-59 | the extractor object, driven by any schedule, returns and keeps what the schedule prescribes |
| Delivery.ParseFrames | common/src/bufferprocessor.cpp:34-56 | whole frames at the front are returned first, in order, whatever follows |
| Delivery.FramesSettledIffSolid | common/src/baseprotocol.cpp:64-83 | a stream of printed frames is settled exactly when each payload is solid |
| Delivery.MarkerFreeIsSolid | common/src/bufferprocessor.cpp:29-30 | a payload whose frame has no marker where an inner frame could start is solid |
| Delivery.CompletedIsMaximal | common/src/bufferprocessor.cpp:44-49 | the number of frames counted complete after t bytes is the number that end at or before byte t |
| Delivery.FrameIffResidue | common/src/baseprotocol.cpp:43-54 | bytes with a frame's marker and length are that frame exactly when the checksum register over all of them ends at the fixed constant |
| Delivery.FramesLegibleIffReadable | common/src/baseprotocol.cpp:64-83 | a stream of printed frames is legible exactly when each payload is readable |
| Delivery.MarkerFreeIsReadable | common/src/baseprotocol.cpp:33-50 | a payload under 2^31 bytes whose frame has no marker with a length behind it is readable |
| Delivery.SolidIsNotEnough | common/src/baseprotocol.cpp:33-45 | a solid payload of ten bytes whose frame, one byte short, makes the extractor try a length that wraps |
| Delivery.DeliversAlwaysIffSolidAndReadable | common/src/bufferprocessor.cpp:26-59 | after any prefix, chunking and schedule the extractor has stayed within its 32-bit arithmetic, exactly the payloads of the complete frames have been returned, in order, and the buffer is the partial next frame, if and only if all payloads are solid and readable |
| Delivery.BurstIsDetected | common/src/baseprotocol.cpp:43-56 | any change within four consecutive bytes of payload and trailer gives `InvalidChecksum`, for frames of any length and whatever follows |
| Delivery.DamageIsContained | common/src/bufferprocessor.cpp:34-56 | one such damaged frame, with no valid frame starting inside it, costs its own message only; later frames push it out, and as the last frame it is exactly what stays |
| Delivery.DamageIsContainedAlways | common/src/bufferprocessor.cpp:12-59 | with solid payloads around it the same holds for every chunking and every schedule; with readable ones in front and a legible end the extractor stays within its 32-bit arithmetic |
| ProtoWire.VarintRoundTrip | protocol/proto/emserver.proto:36 | every 64-bit word, negative integers included, survives its varint, whatever follows |
| ProtoWire.VarintBytes | protocol/proto/emserver.proto:36 | varints as literal bytes, two groups and minus one included |
| ProtoWire.TagBytes | protocol/proto/common.proto:6-7 | the tags of the three fields as literal bytes |
| ProtoWire.FixedFields | protocol/proto/common.proto:5-8 | unknown fields of the two fixed-width types are passed over with their eight or four bytes |
| ProtoWire.MalformedFields | protocol/proto/common.proto:5-8 | field number zero, groups and the wire types that do not exist are malformed, as literal tag bytes |
| ProtoWire.UnendedVarint | protocol/proto/emserver.proto:36 | a varint that goes on to its limit or to the end of the bytes is malformed |
| ProtoWire.FieldLimits | protocol/proto/common.proto:5-8 | tags and lengths of more than five bytes and scalars of more than ten are malformed |
| ProtoWire.ScanAppend | protocol/proto/common.proto:5-13 | the fields of well-formed bytes come first, then those of what follows |
| ProtoWire.VarintIsShortest | protocol/proto/emserver.proto:36 | no varint that is read takes fewer bytes than the one written for its value |
| ProtoWire.DelimitedFirst | protocol/proto/common.proto:7 | a length-delimited field is read back whole, whatever follows |
| Envelopes.CommonRoundTrip | protocol/proto/common.proto:5-8 | parsing a serialized `CommonMessage` gives back every field, present or absent, and succeeds exactly when the required one is there |
| Envelopes.ContainerRoundTrip | protocol/proto/common.proto:10-13 | the same for `TransportContainer` |
| Envelopes.ServerRoundTrip | protocol/proto/emserver.proto:33-37 | the same for `ServerCommonMessage` |
| Envelopes.CommonMerge | protocol/proto/common.proto:5-8 | of two messages in a row each field counts where it comes last |
| Envelopes.ContainerMerge | protocol/proto/common.proto:10-13 | the same for containers |
| Envelopes.NarrowingDropsHighHalf | protocol/proto/common.proto:6 | a number too wide for its field keeps its low 32 bits |
| Envelopes.WideningOfAllOnes | protocol/proto/common.proto:11 | a negative `int32` is sign-extended on the wire, a `uint32` is not |
| Envelopes.EnvelopeBytes | common/src/commonprocessor.cpp:39-47 | the bytes that `prepareData` frames, tags, mode and version as literals |
| Envelopes.MethodCallBytes | common/src/processoremserver.cpp:21-25 | the bytes of a method call, tags and the number of each method as literals |
| Envelopes.UnwrapMeaning | common/src/commonprocessor.cpp:87-92 | a container gives a message exactly when it has its version and its payload, and then what can be read from the payload, whole or not; bytes that do not scan give none |
| Envelopes.PartialMessage | common/src/commonprocessor.cpp:90-93 | of an inner message the callback gets the fields before the first malformed one |
| Envelopes.UnwrapEnvelope | common/src/commonprocessor.cpp:84-96 | the worker unwraps what `prepareData` wrapped, and hands on the same bytes with mode 1 |
| Envelopes.EnvelopeIsShortest | common/src/commonprocessor.cpp:37-47 | no payload from which the worker takes a given message is shorter than the envelope that is sent for it |
| Envelopes.MethodCallRoundTrip | common/src/processoremserver.cpp:13-65 | a method call sent through all envelopes fires at the receiver exactly the well-typed callback registered for its code, with the same inner bytes and the same id; code 4 fires none |
| Envelopes.OutcomeTable | common/src/processoremserver.cpp:43-60 | which registered callback type fires for which code, code by code; every other type is a failed cast, an inner message that does not parse is ignored first |
| Envelopes.ServerMessageOutcome | common/src/processoremserver.cpp:37-60 | which received number stands for which method, as literals; an absent id counts as minus one, other numbers and missing fields are ignored |
| Envelopes.OwnModeOnly | common/src/processoremserver.cpp:31-39 | a processor of any mode ignores messages of other modes and without one, and payloads that do not scan |
| Envelopes.EmptyMessageFiresNothing | common/src/processoremserver.cpp:15-19 | a null or uninitialized inner message becomes an empty payload, which fires nothing at the receiver |
| Envelopes.EmserverProcessor.RegisterCallback | common/hdr/processoremserver.h:40-44 | the callback is stored under its code, replacing an earlier one |
| Envelopes.EmserverProcessor.CommonCallbackProcessing | common/hdr/processoremserver.h:54-71 | fires the registered callback once, with the message and id, exactly when the inner message parses and the callback has the expected type; reports the failed cast when it has another; otherwise makes no call |
| Envelopes.EmserverProcessor.CallbackRecievedCommonMessage | common/src/processoremserver.cpp:28-65 | the answer and the calls made are those of the dispatch of the message: one call when it answers true, none otherwise, none for another mode |
| ReceivePipeline.ApplyConservesBytes | common/src/commonprocessor.cpp:25-75 | every step of reader and worker keeps every byte, in order, in exactly one place |
| ReceivePipeline.PipelineRefinesParse | common/src/commonprocessor.cpp:58-100 | in every interleaving, if the bytes read since registration are settled and legible, every extraction stays within the 32-bit arithmetic and the payloads handed on are a prefix of the parse of those bytes, all of it once the queue is drained and no exit was requested; with the callback registered first no byte is dropped |
| ReceivePipeline.RunStaysSupported | common/src/commonprocessor.cpp:75-76 | over a settled and legible stream every extraction of every run is from a buffer on which the 32-bit arithmetic is exact |
| ReceivePipeline.ReadSideConserves | common/src/tcpsession.cpp:144-154 | in every run the bytes read are the chunks handed on followed by the reader's buffer, and no chunk is empty |
| ReceivePipeline.WorkerDrains | common/src/commonprocessor.cpp:58-100 | without an exit request, and with a settled and legible backlog, the worker alone can always reach the wait on an empty queue, each extraction within the 32-bit arithmetic |
| ReceivePipeline.EveryRunCanDrain | common/src/commonprocessor.cpp:58-100 | from every reached state with the callback registered, whenever that happened, and no exit request, the worker alone can bring every frame of the chunks pushed since then to the callback, if those are settled and legible |
| PipelineExit.ExitRequestEndsWorker | common/src/commonprocessor.cpp:58-63 | after an exit request, in every interleaving: nothing more is delivered, there is at most one more extraction, the worker's own steps are bounded by five and one for each message pending or found, and until it has ended it can take the next one by itself, a lost notification included |
| PipelineExit.WorkerCanEnd | common/src/commonprocessor.cpp:18-23 | from every state with an exit request the worker alone gets to its end |
| SendGate.ApplyKeepsInvariant | common/src/tcpsession.cpp:61-73 | every step of a sending thread, of the write and of the handler keeps the gate, the phase, the order and the bytes consistent |
| SendGate.SendGateIsSafe | common/src/tcpsession.cpp:53-75 | over every calm run with any number of threads: at most one write outstanding, nothing discarded, and wire plus unsent bytes are whole frames, each at most once, in gate order |
| SendGate.SecondConsumeFindsNothing | common/src/tcpsession.cpp:157-165 | whenever the handler reaches its `consume` the stream buffer is empty |
| SendGate.ConsumedTwice | common/src/tcpsession.cpp:157-165 | in any state the completion takes its bytes from the front of the stream buffer and the handler takes as many again, which are lost |
| SendGate.SpuriousWakeBreaksIff | common/src/tcpsession.cpp:62-67 | in every state a calm run reaches, ending a wait spuriously lets an otherwise calm run start a second write or lose bytes, if and only if the flag is up and the handler is not about to lower it under its lock |
| SendGate.HarmfulWakesAreReachable | common/src/tcpsession.cpp:53-75 | whatever two threads send, calm runs reach a harmful moment beside an outstanding write and, when the waiting call is not on the I/O thread, one between its completion and its handler |
| SendProgress.LostWakeupRecovers | common/src/tcpsession.cpp:62-67 | after a notification that fired before the wait began, in every calm interleaving, the thread has entered the write step, or still holds the gate with the flag down after at most four steps of its own and can take the next one as soon as the handler has released its lock |
| SendProgress.NotificationWakesAWaiter | common/src/tcpsession.cpp:161-165 | while a thread waits, the handler's notification wakes one that does |
| SendProgress.NotifiedThreadRaises | common/src/tcpsession.cpp:65-69 | a notified thread goes on to raise the flag without looking at it again |
| SendProgress.TimedOutThreadLooksAgain | common/src/tcpsession.cpp:62-67 | a thread whose wait timed out looks at the flag again, and waits again while it is up |
| SendProgress.EveryRunCanFinish | common/src/tcpsession.cpp:61-73 | from every state a calm run reaches in which the I/O thread is not stuck, the run can go on until every call has ended and every frame is on the wire, once, in gate order |
| SendProgress.CanFinishIffNotStuck | common/src/tcpsession.cpp:61-67 | a state a calm run reaches can come to its end if and only if the I/O thread is not stuck in a call of its own |
| SendProgress.SecondSendOnIoIsStuck | client/src/emserveradapter.cpp:140-161 | two sends in a row on the I/O thread, with nothing in between, get it stuck |
| Sessions.CommonProcessor.RegisterCommonMessageIncomingCallback | common/src/tcpsession.cpp:22-25 | the processor carries out the registration step of the receiving machine |
| Sessions.CommonProcessor.SwapOut | common/src/commonprocessor.cpp:60-67 | the worker takes the whole queue, as its two taking steps of the receiving machine do |
| Sessions.CommonProcessor.OnReadedChunk | common/src/commonprocessor.cpp:25-35 | the chunk goes to the end of the queue |
| Sessions.CommonProcessor.PrepareData | common/src/commonprocessor.cpp:37-49 | the bytes sent are the printed frame of the payload's envelopes |
| Sessions.CommonProcessor.ProcessAccepted | common/src/commonprocessor.cpp:69-97 | one pass of the worker carries out its steps of the receiving machine: without a callback the chunks are dropped; with one the callback gets the unwrapped messages of the parse, in order, up to the first for which an exit request is seen |
| Sessions.TcpSession.HandlerRead | common/src/tcpsession.cpp:144-154 | the read handler carries out the reader's steps of the receiving machine |
| Sessions.TcpSession.WriteThroughGate | common/src/tcpsession.cpp:69-71 | the thread at the gate carries out its flag and buffer steps of the sending machine with the chunk prepared before |
| Sessions.TcpSession.HandlerWrite | common/src/tcpsession.cpp:161-164 | the write handler carries out its steps of the sending machine |
| EndToEnd.WireIsPrefixOfFrames | common/src/tcpsession.cpp:53-75 | the bytes on the wire, with the unsent ones, are the frames of the envelopes in gate order |
| EndToEnd.SentIsDelivered | common/src/tcpsession.cpp:53-165 | whatever threads, network, reader and worker do, the peer's callback receives a prefix of the payloads handed to `sendData`, in gate order and unchanged, and all of them once everything written has crossed and the queue is drained, if their envelopes are solid and readable; the peer's extractor stays within its 32-bit arithmetic |
| EndToEnd.DeliveredAlwaysIffSolidAndReadable | common/src/tcpsession.cpp:53-165 | every exchange of given payloads, with any of the calls on the I/O thread, stays within the 32-bit arithmetic and delivers them in gate order and unchanged, if and only if all their envelopes are solid and readable |
| EndToEnd.DeliveredCallsTakeEffect | common/src/processoremserver.cpp:13-65 | for method calls sent by any threads, the callbacks that the delivered messages fire are those that the first calls in gate order ask for, and of all of them once everything has crossed |
| EndToEnd.CallBack | common/src/commonprocessor.cpp:85-97 | handing messages to the processor one after the other makes exactly the calls of their dispatch, in order, when the registered callbacks are well typed |

## What the methods demand

`ExtractFromRawData` and `Messages` run the source's 32-bit arithmetic and ask that nothing
they try to parse announces a length above 2^32-10 and that no valid frame has a payload of
2^31 bytes or more (`LengthInRange`, `Supported`). The parse itself is stated in exact
arithmetic. The receiving machine lets an extraction outside that range return anything, so
what is proved of its runs holds of the extractor; `Settled` and `Legible` are what a
stream needs for it. `ExtractFromRawData` reads the first byte before it looks at the size,
so non-null data must not be empty.

## Left out

- BaseProtocols.ExtractFromRawData: demands a length in range; declared lengths from 2^32-9 to 2^32-1, where the 32-bit total of the parser wraps, and valid frames with payloads of 2^31 bytes or more, whose size turns negative, are excluded by precondition.
- BufferProcessors.BufferProcessor.Messages: demands the same wherever it tries to parse.
- Chunking.Drive: demands the same of every extraction of the schedule.
- Sessions.CommonProcessor.ProcessAccepted: demands the same when a callback is registered.
- ReceivePipeline.WorkerDrains: demands a settled and legible backlog once a callback is registered, because nothing is claimed about an extraction outside the 32-bit arithmetic.
- EndToEnd.CallBack: demands well-typed callbacks; a failed cast leaves the worker thread with an exception, whose effect on the program is not modelled.
- Boost.Asio itself: reads, transfers and completions are steps that may happen at any time they are possible; the handlers run on one thread, as the source posts one `run` call, and a call of `sendData` on that thread keeps them from running.
- Write errors, read errors, closed sockets, destructors and the joining of the worker thread: all runs are free of errors.
- The C++ memory model: each access to shared state is one atomic step.
- `sendData` with its waiting loop and `bufferProcessingThreadFunc` with its outer loop as Dafny methods: a sequential method cannot wait for another thread, so they are the state machines `SendGate` and `ReceivePipeline`, and `Sessions` has their sequential parts.
- Fairness: progress is stated as "the run can always go on to the end", not as "every run ends".
- The protobuf library beyond the three envelope messages: groups are treated as malformed, sizes are bounded by the data, and the inner messages are opaque bytes with a parser given as a parameter.
- Registering the read callback again or unregistering it: registration is a step that can happen at any time, and it stays.
- `payload()`, `payloadSize()`, `bufferSize()` and the move semantics of `appendBuffers`: plain accessors.
- Sensor conversion, the client and server connection lifecycle, logging, counters, the C interface and the Qt examples.
