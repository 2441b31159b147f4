/**
 The envelopes around a method call: `ServerCommonMessage` inside `CommonMessage` inside
 `TransportContainer` inside a frame, and the dispatch of what arrives by method code
 (common/src/processoremserver.cpp, common/hdr/processoremserver.h and the builder
 `prepareData` and decoding step of common/src/commonprocessor.cpp).
 */
module Envelopes {
  import opened Crc32
  import opened Options
  import opened Words
  import opened BaseProtocols
  import opened ProtoWire

  /** The largest payload the layers accept: each adds a few bytes and the frame must stay under 2 GiB. */
  const MAX_PAYLOAD := INT32_RANGE - 64

  // ----- the three envelope messages -----

  function Low32(v: bv64): bv32 {
    (v & 0xFFFF_FFFF) as bv32
  }

  function Unsigned64(v: bv32): bv64 {
    v as bv64
  }

  /** An `int32` goes on the wire sign-extended to 64 bits. */
  function Signed64(v: bv32): bv64 {
    if v >> 31 == 1 then 0xFFFF_FFFF_0000_0000 | (v as bv64) else v as bv64
  }

  lemma Low32OfExtended(v: bv32)
    ensures Low32(Unsigned64(v)) == v && Low32(Signed64(v)) == v
  {
  }

  /** A number that is too wide for its field loses its high half, as a cast does. */
  lemma NarrowingDropsHighHalf(high: bv64, w: bv32)
    ensures Low32((high << 32) | Unsigned64(w)) == w
  {
  }

  /** The wire form of the `int32` minus one, and of the `uint32` with the same bits. */
  lemma WideningOfAllOnes()
    ensures Signed64(0xFFFF_FFFF) == 0xFFFF_FFFF_FFFF_FFFF && Unsigned64(0xFFFF_FFFF) == 0xFFFF_FFFF
    ensures Signed64(0x7FFF_FFFF) == 0x7FFF_FFFF
  {
  }

  function Map32(v: Option<bv32>, f: bv32 -> bv64): Option<bv64> {
    if v.Some? then Some(f(v.value)) else None
  }

  function Narrow(v: Option<bv64>): Option<bv32> {
    if v.Some? then Some(Low32(v.value)) else None
  }

  predicate Fits(data: Option<Bytes>) {
    data.Some? ==> |data.value| < INT32_RANGE
  }

  datatype CommonMessage = CommonMessage(code: Option<bv32>, payload: Option<Bytes>)
  {
    function Serialize(): Bytes
      requires Fits(payload)
    {
      PutScalar(1, Map32(code, Unsigned64)) + PutDelimited(2, payload)
    }
  }

  datatype TransportContainer = TransportContainer(version: Option<bv32>, payload: Option<Bytes>)
  {
    function Serialize(): Bytes
      requires Fits(payload)
    {
      PutScalar(1, Map32(version, Signed64)) + PutDelimited(2, payload)
    }
  }

  datatype ServerCommonMessage = ServerCommonMessage(kind: Option<bv32>, payload: Option<Bytes>, id: Option<bv64>)
  {
    function Serialize(): Bytes
      requires Fits(payload)
    {
      PutScalar(1, Map32(kind, Unsigned64)) + (PutDelimited(2, payload) + PutScalar(3, id))
    }
  }

  /** A parse keeps what it read before an error; it succeeds when there was none and no required field is missing. */
  datatype Parsed<+M> = Parsed(message: M, ok: bool)

  function ParseCommon(s: Bytes): Parsed<CommonMessage> {
    var scan := ScanFields(s);
    var m := CommonMessage(Narrow(LastScalar(scan.fields, 1)), LastDelimited(scan.fields, 2));
    Parsed(m, scan.complete && m.code.Some?)
  }

  function ParseContainer(s: Bytes): Parsed<TransportContainer> {
    var scan := ScanFields(s);
    var m := TransportContainer(Narrow(LastScalar(scan.fields, 1)), LastDelimited(scan.fields, 2));
    Parsed(m, scan.complete && m.version.Some?)
  }

  function ParseServer(s: Bytes): Parsed<ServerCommonMessage> {
    var scan := ScanFields(s);
    var m := ServerCommonMessage(Narrow(LastScalar(scan.fields, 1)), LastDelimited(scan.fields, 2),
                                 LastScalar(scan.fields, 3));
    Parsed(m, scan.complete && m.kind.Some? && m.payload.Some?)
  }

  /** Parsing a serialized message gives back every field, present or absent. */
  lemma CommonRoundTrip(m: CommonMessage)
    requires Fits(m.payload)
    ensures ParseCommon(m.Serialize()) == Parsed(m, m.code.Some?)
    ensures m.code.Some? && m.payload.Some? ==> |m.Serialize()| <= |m.payload.value| + 30
  {
    hide PutScalar, PutDelimited, Low32, Unsigned64;
    if m.code.Some? { Low32OfExtended(m.code.value); }
    TwoFieldScan(Map32(m.code, Unsigned64), m.payload);
  }

  lemma ContainerRoundTrip(m: TransportContainer)
    requires Fits(m.payload)
    ensures ParseContainer(m.Serialize()) == Parsed(m, m.version.Some?)
    ensures m.version.Some? && m.payload.Some? ==> |m.Serialize()| <= |m.payload.value| + 30
  {
    hide PutScalar, PutDelimited, Low32, Signed64;
    if m.version.Some? { Low32OfExtended(m.version.value); }
    TwoFieldScan(Map32(m.version, Signed64), m.payload);
  }

  lemma ServerRoundTrip(m: ServerCommonMessage)
    requires Fits(m.payload)
    ensures ParseServer(m.Serialize()) == Parsed(m, m.kind.Some? && m.payload.Some?)
    ensures m.payload.Some? ==> |m.Serialize()| <= |m.payload.value| + 50
  {
    hide PutScalar, PutDelimited, Low32, Unsigned64, ScanFields;
    if m.kind.Some? { Low32OfExtended(m.kind.value); }
    var kind := Map32(m.kind, Unsigned64);
    ScanPutScalar(1, kind, PutDelimited(2, m.payload) + PutScalar(3, m.id));
    ScanPutDelimited(2, m.payload, PutScalar(3, m.id));
    ScanPutScalar(3, m.id, []);
    assert PutScalar(3, m.id) + [] == PutScalar(3, m.id);
    NothingScanned();
    ScalarSize(1, kind);
    ScalarSize(3, m.id);
    var scan := ScanFields(m.Serialize());
    assert scan.fields == ScalarField(1, kind) + (DelimitedField(2, m.payload) + (ScalarField(3, m.id) + []));
    ThreeFieldLookup(scan.fields, kind, m.payload, m.id);
  }

  // ----- messages one after the other -----

  function Later<T>(first: Option<T>, second: Option<T>): Option<T> {
    if second.Some? then second else first
  }

  /** Of two messages in a row each field counts where it comes last. */
  lemma CommonMerge(a: CommonMessage, b: CommonMessage)
    requires Fits(a.payload) && Fits(b.payload)
    ensures ParseCommon(a.Serialize() + b.Serialize()).message ==
              CommonMessage(Later(a.code, b.code), Later(a.payload, b.payload))
  {
    hide PutScalar, PutDelimited, ScanFields, LastScalar, LastDelimited, Low32, Unsigned64;
    if a.code.Some? { Low32OfExtended(a.code.value); }
    if b.code.Some? { Low32OfExtended(b.code.value); }
    TwoFieldScan(Map32(a.code, Unsigned64), a.payload);
    TwoFieldScan(Map32(b.code, Unsigned64), b.payload);
    ScanAppend(a.Serialize(), b.Serialize());
    LookupAppend(ScanFields(a.Serialize()).fields, ScanFields(b.Serialize()).fields, 1);
    LookupAppend(ScanFields(a.Serialize()).fields, ScanFields(b.Serialize()).fields, 2);
  }

  lemma ContainerMerge(a: TransportContainer, b: TransportContainer)
    requires Fits(a.payload) && Fits(b.payload)
    ensures ParseContainer(a.Serialize() + b.Serialize()).message ==
              TransportContainer(Later(a.version, b.version), Later(a.payload, b.payload))
  {
    hide PutScalar, PutDelimited, ScanFields, LastScalar, LastDelimited, Low32, Signed64;
    if a.version.Some? { Low32OfExtended(a.version.value); }
    if b.version.Some? { Low32OfExtended(b.version.value); }
    TwoFieldScan(Map32(a.version, Signed64), a.payload);
    TwoFieldScan(Map32(b.version, Signed64), b.payload);
    ScanAppend(a.Serialize(), b.Serialize());
    LookupAppend(ScanFields(a.Serialize()).fields, ScanFields(b.Serialize()).fields, 1);
    LookupAppend(ScanFields(a.Serialize()).fields, ScanFields(b.Serialize()).fields, 2);
  }

  lemma TwoFieldScan(first: Option<bv64>, second: Option<Bytes>)
    requires Fits(second)
    ensures var scan := ScanFields(PutScalar(1, first) + PutDelimited(2, second));
            scan.complete && LastScalar(scan.fields, 1) == first && LastDelimited(scan.fields, 2) == second
    ensures second.Some? ==> |PutScalar(1, first) + PutDelimited(2, second)| <= |second.value| + 30
  {
    hide PutScalar, PutDelimited;
    ScanPutScalar(1, first, PutDelimited(2, second));
    ScanPutDelimited(2, second, []);
    assert PutDelimited(2, second) + [] == PutDelimited(2, second);
    ThreeFieldLookup(ScanFields(PutScalar(1, first) + PutDelimited(2, second)).fields, first, second, None);
    ScalarSize(1, first);
  }

  lemma ScalarSize(number: bv64, value: Option<bv64>)
    ensures |PutScalar(number, value)| <= 20
  {
    hide EncodeVarint;
  }

  lemma ThreeFieldLookup(fields: seq<Field>, first: Option<bv64>, second: Option<Bytes>, third: Option<bv64>)
    requires fields == ScalarField(1, first) + (DelimitedField(2, second) + (ScalarField(3, third) + []))
    ensures LastScalar(fields, 1) == first && LastDelimited(fields, 2) == second && LastScalar(fields, 3) == third
  {
    hide ScalarField, DelimitedField;
    var last := ScalarField(3, third) + [];
    var middle := DelimitedField(2, second) + last;
    LookupAcrossScalar(3, third, [], 1);
    LookupAcrossScalar(3, third, [], 2);
    LookupAcrossScalar(3, third, [], 3);
    LookupAcrossDelimited(2, second, last, 1);
    LookupAcrossDelimited(2, second, last, 2);
    LookupAcrossDelimited(2, second, last, 3);
    LookupAcrossScalar(1, first, middle, 1);
    LookupAcrossScalar(1, first, middle, 2);
    LookupAcrossScalar(1, first, middle, 3);
  }

  // ----- sending a method call -----

  const EMSERVER_MODE: bv32 := 1
  const NO_ID: bv64 := 0xFFFF_FFFF_FFFF_FFFF

  datatype MethodCode =
    | RequestCapabilities
    | ResponseCapabilities
    | ServerRuntimeNotification
    | SensorsConfigurationControl
    | SensorControl
    | SensorActivated

  function Number(code: MethodCode): bv32 {
    match code
    case RequestCapabilities => 1
    case ResponseCapabilities => 2
    case ServerRuntimeNotification => 3
    case SensorsConfigurationControl => 4
    case SensorControl => 5
    case SensorActivated => 6
  }

  /** `message` is the serialized inner message; it is absent for a null or uninitialized one. */
  function MakeMessage(code: MethodCode, message: Option<Bytes>, id: bv64): Bytes
    requires Fits(message)
  {
    if message.None? then []
    else ServerCommonMessage(Some(Number(code)), message, Some(id)).Serialize()
  }

  function EnvelopeOf(s: Bytes): Bytes
    requires |s| <= MAX_PAYLOAD
  {
    var common := CommonMessage(Some(EMSERVER_MODE), Some(s));
    CommonRoundTrip(common);
    TransportContainer(Some(1), Some(common.Serialize())).Serialize()
  }

  /** What the worker makes of one frame's payload: the message it hands to the read callback, if any. */
  function Unwrap(payload: Bytes): Option<CommonMessage> {
    var container := ParseContainer(payload);
    if container.ok && container.message.payload.Some? then Some(ParseCommon(container.message.payload.value).message)
    else None
  }

  lemma UnwrapEnvelope(s: Bytes)
    requires |s| <= MAX_PAYLOAD
    ensures Unwrap(EnvelopeOf(s)) == Some(CommonMessage(Some(EMSERVER_MODE), Some(s)))
    ensures |EnvelopeOf(s)| <= |s| + 60
  {
    hide ParseCommon, ParseContainer, CommonMessage.Serialize, TransportContainer.Serialize;
    var common := CommonMessage(Some(EMSERVER_MODE), Some(s));
    CommonRoundTrip(common);
    ContainerRoundTrip(TransportContainer(Some(1), Some(common.Serialize())));
  }

  /**
   Which payloads give a message, and which one.  A container gives none without its version
   or its payload; otherwise the message is what can be read from the payload, whether or
   not that is a whole message.  Bytes that are no container give none.
   */
  lemma UnwrapMeaning(m: TransportContainer, malformed: Bytes)
    requires Fits(m.payload) && !ScanFields(malformed).complete
    ensures Unwrap(m.Serialize()) ==
              if m.version.Some? && m.payload.Some? then Some(ParseCommon(m.payload.value).message) else None
    ensures Unwrap(malformed) == None
  {
    hide ParseCommon, ScanFields, TransportContainer.Serialize;
    ContainerRoundTrip(m);
  }

  /** The callback gets what could be read: the fields before the first malformed one. */
  lemma PartialMessage(m: CommonMessage, malformed: Bytes)
    requires Fits(m.payload) && ScanFields(malformed) == Scan([], false)
    ensures ParseCommon(m.Serialize() + malformed) == Parsed(m, false)
  {
    hide PutScalar, PutDelimited, ScanFields, LastScalar, LastDelimited, Low32, Unsigned64;
    if m.code.Some? { Low32OfExtended(m.code.value); }
    TwoFieldScan(Map32(m.code, Unsigned64), m.payload);
    ScanAppend(m.Serialize(), malformed);
    assert ScanFields(m.Serialize()).fields + [] == ScanFields(m.Serialize()).fields;
  }

  /** A scalar of one byte in field 1 and the data in field 2, byte for byte. */
  lemma TwoFieldBytes(scalar: bv64, byte: bv8, data: Bytes)
    requires EncodeVarint(scalar) == [byte] && |data| < UINT64_RANGE
    ensures PutScalar(1, Some(scalar)) + PutDelimited(2, Some(data)) ==
              [0x08, byte, 0x12] + EncodeVarint(Word64(|data|)) + data
  {
    hide *;
    PutScalarBytes(scalar);
    PutDelimitedBytes(data);
    JoinTwoFields(byte, EncodeVarint(Word64(|data|)), data);
  }

  lemma JoinTwoFields(scalar: bv8, length: Bytes, data: Bytes)
    ensures [0x08] + [scalar] + ([0x12] + length + data) == [0x08, scalar, 0x12] + length + data
  {
    assert [0x08] + [scalar] + [0x12] == [0x08, scalar, 0x12];
  }

  /** The bytes that `prepareData` frames. */
  lemma EnvelopeBytes(s: Bytes)
    requires |s| <= MAX_PAYLOAD
    ensures var common: Bytes := [0x08, 0x01, 0x12] + EncodeVarint(Word64(|s|)) + s;
            && |common| < UINT64_RANGE
            && EnvelopeOf(s) == [0x08, 0x01, 0x12] + EncodeVarint(Word64(|common|)) + common
  {
    hide PutScalar, PutDelimited, EncodeGroups, Word64, Unsigned64, Signed64;
    OneOnTheWire();
    VarintBytes();
    TwoFieldBytes(1, 1, s);
    TwoFieldBytes(1, 1, [0x08, 0x01, 0x12] + EncodeVarint(Word64(|s|)) + s);
  }

  /** The bytes of a method call: its number, the inner message and the id. */
  lemma MethodCallBytes(code: MethodCode, message: Bytes, id: bv64)
    requires |message| < INT32_RANGE
    ensures var number: bv8 := match code
                               case RequestCapabilities => 1
                               case ResponseCapabilities => 2
                               case ServerRuntimeNotification => 3
                               case SensorsConfigurationControl => 4
                               case SensorControl => 5
                               case SensorActivated => 6;
            MakeMessage(code, Some(message), id) ==
              [0x08, number, 0x12] + EncodeVarint(Word64(|message|)) + message + [0x18] + EncodeVarint(id)
  {
    hide PutScalar, PutDelimited, EncodeVarint, Word64, Number, Unsigned64;
    var number := NumberByte(code);
    TwoFieldBytes(Unsigned64(Number(code)), number, message);
    PutScalarBytes(id);
    ThreeInARow(PutScalar(1, Some(Unsigned64(Number(code)))), PutDelimited(2, Some(message)), [0x18], EncodeVarint(id));
  }

  lemma ThreeInARow(a: Bytes, b: Bytes, tag: Bytes, value: Bytes)
    ensures a + (b + (tag + value)) == (a + b) + tag + value
  {
  }

  /** The byte of a method's number. */
  lemma NumberByte(code: MethodCode) returns (number: bv8)
    ensures EncodeVarint(Unsigned64(Number(code))) == [number]
    ensures number == match code
                      case RequestCapabilities => 1
                      case ResponseCapabilities => 2
                      case ServerRuntimeNotification => 3
                      case SensorsConfigurationControl => 4
                      case SensorControl => 5
                      case SensorActivated => 6
  {
    number := Unsigned64(Number(code)) as bv8;
    OneGroupBytes(Unsigned64(Number(code)));
  }

  /** Of all payloads from which the worker takes this message, the envelope is the shortest. */
  lemma EnvelopeIsShortest(payload: Bytes, s: Bytes)
    requires |s| <= MAX_PAYLOAD
    requires Unwrap(payload) == Some(CommonMessage(Some(EMSERVER_MODE), Some(s)))
    ensures |EnvelopeOf(s)| <= |payload|
  {
    hide ScanFields, FieldsCost, PutScalar, PutDelimited, DelimitedCost, LastScalar, LastDelimited;
    if |payload| >= UINT64_RANGE {
      UnwrapEnvelope(s);
      return;
    }
    var common := ParseContainer(payload).message.payload.value;
    FieldsTake(payload);
    FieldsTake(common);
    DataIsInside(ScanFields(payload).fields, common);
    TwoFieldsTake(ScanFields(payload).fields, common);
    TwoFieldsTake(ScanFields(common).fields, s);
    var written := CommonMessage(Some(EMSERVER_MODE), Some(s)).Serialize();
    OneOnTheWire();
    TwoFieldsSize(1, s);
    CommonRoundTrip(CommonMessage(Some(EMSERVER_MODE), Some(s)));
    TwoFieldsSize(1, written);
    CostIsMonotone(|written|, |common|);
  }

  lemma OneOnTheWire()
    ensures Unsigned64(EMSERVER_MODE) == 1 && Signed64(1) == 1
  {
  }

  // ----- dispatch -----

  /** The five callback types, which `boost::any` keeps apart. */
  datatype CallbackType =
    | CapabilityRequestCallback
    | CapabilityResponseCallback
    | RuntimeNotificationCallback
    | SensorControlCallback
    | SensorActivatedCallback

  datatype Any = Any(kind: CallbackType, handler: nat)

  datatype Call = Call(handler: nat, message: Bytes, id: bv64)

  datatype Outcome = Ignored | Fired(call: Call) | BadAnyCast

  /** The callback type that the dispatch expects for a method code; one code has none. */
  function ExpectedType(code: MethodCode): Option<CallbackType> {
    match code
    case RequestCapabilities => Some(CapabilityRequestCallback)
    case ResponseCapabilities => Some(CapabilityResponseCallback)
    case ServerRuntimeNotification => Some(RuntimeNotificationCallback)
    case SensorsConfigurationControl => None
    case SensorControl => Some(SensorControlCallback)
    case SensorActivated => Some(SensorActivatedCallback)
  }

  /** Whether the inner message of a method code parses; the inner messages are opaque here. */
  type InnerParser = (MethodCode, Bytes) -> bool

  /** The method a number stands for, among those the dispatch knows. */
  function MethodOf(number: bv32): Option<MethodCode> {
    if number == 1 then Some(RequestCapabilities)
    else if number == 2 then Some(ResponseCapabilities)
    else if number == 3 then Some(ServerRuntimeNotification)
    else if number == 5 then Some(SensorControl)
    else if number == 6 then Some(SensorActivated)
    else None
  }

  lemma MethodOfNumber(code: MethodCode)
    ensures MethodOf(Number(code)) == if ExpectedType(code).Some? then Some(code) else None
  {
  }

  /** What a call of method `code` with this message and id brings about. */
  function OutcomeOf(callbacks: map<MethodCode, Any>, parses: InnerParser, code: MethodCode, message: Bytes,
                     id: bv64): Outcome
  {
    if ExpectedType(code).None? || !parses(code, message) || code !in callbacks then Ignored
    else if callbacks[code].kind != ExpectedType(code).value then BadAnyCast
    else Fired(Call(callbacks[code].handler, message, id))
  }

  /** What a received `CommonMessage` brings about. */
  function Dispatch(callbacks: map<MethodCode, Any>, parses: InnerParser, mode: bv32, m: CommonMessage): Outcome {
    if m.code != Some(mode) then Ignored
    else
      var server := ParseServer(if m.payload.Some? then m.payload.value else []);
      if !server.ok then Ignored
      else match MethodOf(server.message.kind.value)
        case None => Ignored
        case Some(code) =>
          OutcomeOf(callbacks, parses, code, server.message.payload.value,
                    if server.message.id.Some? then server.message.id.value else NO_ID)
  }

  /** With a callback of some type registered for a code: which type fires, code by code. */
  lemma OutcomeTable(callbacks: map<MethodCode, Any>, parses: InnerParser, code: MethodCode, kind: CallbackType,
                     handler: nat, message: Bytes, id: bv64)
    requires code in callbacks && callbacks[code] == Any(kind, handler)
    ensures var outcome := OutcomeOf(callbacks, parses, code, message, id);
            var fired := Fired(Call(handler, message, id));
            if !parses(code, message) then outcome == Ignored
            else match code
              case RequestCapabilities => outcome == if kind == CapabilityRequestCallback then fired else BadAnyCast
              case ResponseCapabilities => outcome == if kind == CapabilityResponseCallback then fired else BadAnyCast
              case ServerRuntimeNotification =>
                outcome == if kind == RuntimeNotificationCallback then fired else BadAnyCast
              case SensorsConfigurationControl => outcome == Ignored
              case SensorControl => outcome == if kind == SensorControlCallback then fired else BadAnyCast
              case SensorActivated => outcome == if kind == SensorActivatedCallback then fired else BadAnyCast
  {
  }

  lemma UnregisteredIsIgnored(callbacks: map<MethodCode, Any>, parses: InnerParser, code: MethodCode, message: Bytes,
                              id: bv64)
    requires code !in callbacks
    ensures OutcomeOf(callbacks, parses, code, message, id) == Ignored
  {
  }

  /** The method a received number stands for, and the id that stands in for an absent one. */
  lemma ServerMessageOutcome(callbacks: map<MethodCode, Any>, parses: InnerParser, mode: bv32, m: ServerCommonMessage)
    requires Fits(m.payload)
    ensures var outcome := Dispatch(callbacks, parses, mode, CommonMessage(Some(mode), Some(m.Serialize())));
            if m.kind.None? || m.payload.None? then outcome == Ignored
            else
              var message, id := m.payload.value, if m.id.Some? then m.id.value else 0xFFFF_FFFF_FFFF_FFFF;
              && (m.kind == Some(1) ==> outcome == OutcomeOf(callbacks, parses, RequestCapabilities, message, id))
              && (m.kind == Some(2) ==> outcome == OutcomeOf(callbacks, parses, ResponseCapabilities, message, id))
              && (m.kind == Some(3) ==> outcome == OutcomeOf(callbacks, parses, ServerRuntimeNotification, message, id))
              && (m.kind == Some(5) ==> outcome == OutcomeOf(callbacks, parses, SensorControl, message, id))
              && (m.kind == Some(6) ==> outcome == OutcomeOf(callbacks, parses, SensorActivated, message, id))
              && (m.kind.value !in {1, 2, 3, 5, 6} ==> outcome == Ignored)
  {
    hide ParseServer, ServerCommonMessage.Serialize, OutcomeOf;
    ServerRoundTrip(m);
  }

  /** A processor reacts to messages of its own mode only, and to those whatever its mode is. */
  lemma OwnModeOnly(callbacks: map<MethodCode, Any>, parses: InnerParser, mode: bv32, m: CommonMessage)
    ensures m.code != Some(mode) ==> Dispatch(callbacks, parses, mode, m) == Ignored
    ensures m.code == Some(mode) ==>
              Dispatch(callbacks, parses, mode, m) == Dispatch(callbacks, parses, 1, CommonMessage(Some(1), m.payload))
    ensures m.payload.None? || !ScanFields(m.payload.value).complete ==> Dispatch(callbacks, parses, mode, m) == Ignored
  {
    hide OutcomeOf;
    NothingScanned();
  }

  /** The largest inner message that fits through all the envelopes. */
  const MAX_MESSAGE := MAX_PAYLOAD - 64

  /**
   A method call sent through the envelopes brings about at the receiver what calling it
   there would.  With a well-typed callback registered for its code, exactly that callback
   fires, with the same bytes and the same id; one method code has no callback at all.
   */
  lemma MethodCallRoundTrip(callbacks: map<MethodCode, Any>, parses: InnerParser, code: MethodCode, message: Bytes,
                            id: bv64)
    requires |message| <= MAX_MESSAGE
    ensures |MakeMessage(code, Some(message), id)| <= MAX_PAYLOAD
    ensures var received := Unwrap(EnvelopeOf(MakeMessage(code, Some(message), id)));
            && received.Some?
            && var outcome := Dispatch(callbacks, parses, EMSERVER_MODE, received.value);
               && outcome == OutcomeOf(callbacks, parses, code, message, id)
               && (code == SensorsConfigurationControl ==> outcome == Ignored)
               && (code != SensorsConfigurationControl && parses(code, message) && code in callbacks
                   && Some(callbacks[code].kind) == ExpectedType(code) ==>
                     outcome == Fired(Call(callbacks[code].handler, message, id)))
  {
    hide ParseServer, ServerCommonMessage.Serialize, EnvelopeOf, Unwrap;
    var server := ServerCommonMessage(Some(Number(code)), Some(message), Some(id));
    ServerRoundTrip(server);
    UnwrapEnvelope(MakeMessage(code, Some(message), id));
    MethodOfNumber(code);
  }

  /** A null or uninitialized inner message travels as an empty payload, which fires nothing. */
  lemma EmptyMessageFiresNothing(callbacks: map<MethodCode, Any>, parses: InnerParser, code: MethodCode, id: bv64)
    ensures MakeMessage(code, None, id) == []
    ensures var received := Unwrap(EnvelopeOf([]));
            received.Some? && Dispatch(callbacks, parses, EMSERVER_MODE, received.value) == Ignored
  {
    hide EnvelopeOf, Unwrap;
    UnwrapEnvelope([]);
    NothingScanned();
  }

  /** The calls of registered callbacks that an outcome stands for. */
  function Called(outcome: Outcome): seq<Call> {
    if outcome.Fired? then [outcome.call] else []
  }

  /** A method's answer and its effect on the calls made, for a given outcome. */
  predicate Reports(outcome: Outcome, ret: bool, thrown: bool, before: seq<Call>, after: seq<Call>) {
    && ret == outcome.Fired?
    && thrown == outcome.BadAnyCast?
    && after == before + Called(outcome)
  }

  /** The calls that receiving these messages one after the other brings about. */
  function Effects(callbacks: map<MethodCode, Any>, parses: InnerParser, mode: bv32,
                   messages: seq<CommonMessage>): seq<Call>
  {
    if messages == [] then []
    else
      var n := |messages| - 1;
      Effects(callbacks, parses, mode, messages[..n]) + Called(Dispatch(callbacks, parses, mode, messages[n]))
  }

  /** Each callback has the type that its method code asks for, as every registration in the repository does. */
  predicate WellTyped(callbacks: map<MethodCode, Any>) {
    forall code :: code in callbacks && ExpectedType(code).Some? ==> callbacks[code].kind == ExpectedType(code).value
  }

  lemma WellTypedNeverThrows(callbacks: map<MethodCode, Any>, parses: InnerParser, mode: bv32, m: CommonMessage)
    requires WellTyped(callbacks)
    ensures !Dispatch(callbacks, parses, mode, m).BadAnyCast?
  {
    hide ParseServer;
    ServerOkHasFields(if m.payload.Some? then m.payload.value else []);
  }

  /** The dispatch as the chain of cases that the source goes through. */
  lemma DispatchByNumber(callbacks: map<MethodCode, Any>, parses: InnerParser, mode: bv32, m: CommonMessage)
    requires m.code == Some(mode)
    requires ParseServer(if m.payload.Some? then m.payload.value else []).ok
    ensures var server := ParseServer(if m.payload.Some? then m.payload.value else []).message;
            && server.kind.Some? && server.payload.Some?
            && var kind, message := server.kind.value, server.payload.value;
               var id := if server.id.Some? then server.id.value else NO_ID;
               Dispatch(callbacks, parses, mode, m) ==
                 if kind == Number(RequestCapabilities) then
                   OutcomeOf(callbacks, parses, RequestCapabilities, message, id)
                 else if kind == Number(ResponseCapabilities) then
                   OutcomeOf(callbacks, parses, ResponseCapabilities, message, id)
                 else if kind == Number(ServerRuntimeNotification) then
                   OutcomeOf(callbacks, parses, ServerRuntimeNotification, message, id)
                 else if kind == Number(SensorControl) then OutcomeOf(callbacks, parses, SensorControl, message, id)
                 else if kind == Number(SensorActivated) then OutcomeOf(callbacks, parses, SensorActivated, message, id)
                 else Ignored
  {
    hide ParseServer, OutcomeOf;
    ServerOkHasFields(if m.payload.Some? then m.payload.value else []);
  }

  lemma OtherwiseIgnored(callbacks: map<MethodCode, Any>, parses: InnerParser, mode: bv32, m: CommonMessage)
    requires m.code != Some(mode) || !ParseServer(if m.payload.Some? then m.payload.value else []).ok
    ensures Dispatch(callbacks, parses, mode, m) == Ignored
  {
    hide ParseServer, OutcomeOf;
  }

  lemma ExpectedTypes()
    ensures ExpectedType(RequestCapabilities) == Some(CapabilityRequestCallback)
    ensures ExpectedType(ResponseCapabilities) == Some(CapabilityResponseCallback)
    ensures ExpectedType(ServerRuntimeNotification) == Some(RuntimeNotificationCallback)
    ensures ExpectedType(SensorControl) == Some(SensorControlCallback)
    ensures ExpectedType(SensorActivated) == Some(SensorActivatedCallback)
  {
  }

  lemma NothingReported(calls: seq<Call>)
    ensures Reports(Ignored, false, false, calls, calls)
  {
  }

  class EmserverProcessor {
    const workModeCode: bv32
    const parses: InnerParser
    var callbacks: map<MethodCode, Any>
    /** The callbacks made so far. */
    var calls: seq<Call>

    constructor (workModeCode: bv32, parses: InnerParser)
      ensures this.workModeCode == workModeCode && this.parses == parses
      ensures callbacks == map[] && calls == []
    {
      this.workModeCode := workModeCode;
      this.parses := parses;
      callbacks := map[];
      calls := [];
    }

    method RegisterCallback(code: MethodCode, callback: Any) returns (ok: bool)
      modifies this`callbacks
      ensures ok && callbacks == old(callbacks)[code := callback]
    {
      callbacks := callbacks[code := callback];
      ok := true;
    }

    /** `thrown` reports the failed `any_cast` of a callback registered with another type. */
    method CommonCallbackProcessing(code: MethodCode, expected: CallbackType, message: Bytes, id: bv64)
      returns (ret: bool, thrown: bool)
      modifies this`calls
      ensures ret <==> parses(code, message) && code in callbacks && callbacks[code].kind == expected
      ensures thrown <==> parses(code, message) && code in callbacks && callbacks[code].kind != expected
      ensures ret ==> calls == old(calls) + [Call(callbacks[code].handler, message, id)]
      ensures !ret ==> calls == old(calls)
      ensures ExpectedType(code) == Some(expected) ==>
                Reports(OutcomeOf(callbacks, parses, code, message, id), ret, thrown, old(calls), calls)
    {
      ret, thrown := false, false;
      var isOk := parses(code, message);
      if !isOk {
        return;
      }
      if code in callbacks {
        if callbacks[code].kind != expected {
          thrown := true;
          return;
        }
        calls := calls + [Call(callbacks[code].handler, message, id)];
        ret := true;
      }
    }

    method CallbackRecievedCommonMessage(m: CommonMessage) returns (ret: bool, thrown: bool)
      modifies this`calls
      ensures Reports(Dispatch(callbacks, parses, workModeCode, m), ret, thrown, old(calls), calls)
      ensures m.code != Some(workModeCode) ==> !ret && !thrown
      ensures ret ==> |calls| == |old(calls)| + 1 && calls[..|old(calls)|] == old(calls)
      ensures !ret ==> calls == old(calls)
    {
      hide ParseServer, OutcomeOf, Dispatch, ExpectedType, Number;
      NothingReported(calls);
      ret, thrown := false, false;
      if m.code.None? || m.code.value != workModeCode {
        OtherwiseIgnored(callbacks, parses, workModeCode, m);
        return;
      }
      var server := ParseServer(if m.payload.Some? then m.payload.value else []);
      if !server.ok {
        OtherwiseIgnored(callbacks, parses, workModeCode, m);
        return;
      }
      DispatchByNumber(callbacks, parses, workModeCode, m);
      ExpectedTypes();
      var id := if server.message.id.Some? then server.message.id.value else NO_ID;
      var message := server.message.payload.value;
      var kind := server.message.kind.value;
      if kind == Number(RequestCapabilities) {
        ret, thrown := CommonCallbackProcessing(RequestCapabilities, CapabilityRequestCallback, message, id);
      } else if kind == Number(ResponseCapabilities) {
        ret, thrown := CommonCallbackProcessing(ResponseCapabilities, CapabilityResponseCallback, message, id);
      } else if kind == Number(ServerRuntimeNotification) {
        ret, thrown := CommonCallbackProcessing(ServerRuntimeNotification, RuntimeNotificationCallback, message, id);
      } else if kind == Number(SensorControl) {
        ret, thrown := CommonCallbackProcessing(SensorControl, SensorControlCallback, message, id);
      } else if kind == Number(SensorActivated) {
        ret, thrown := CommonCallbackProcessing(SensorActivated, SensorActivatedCallback, message, id);
      }
    }
  }

  lemma ServerOkHasFields(s: Bytes)
    ensures ParseServer(s).ok ==> ParseServer(s).message.kind.Some? && ParseServer(s).message.payload.Some?
  {
  }
}
