/**
 The extractor fed in pieces.  A run is any sequence of appends and extractions; the
 question is when it returns what one extraction over the whole stream returns.

 The extractor never waits for an incomplete frame, so the answer is not "always".  For
 the parse in exact arithmetic the condition is `Settled`: no frame that the whole-stream
 parse returns encloses another valid frame that ends earlier.  Frames that merely overlap
 do no harm.  The extractor itself also tries to parse inside frames that are still
 incomplete, so its 32-bit arithmetic needs `Legible`: nothing it may look at there
 announces a length that wraps.  Both conditions are exact.
 */
module Chunking {
  import opened Crc32
  import opened Words
  import opened BaseProtocols
  import opened BufferProcessors

  datatype Op = Append(chunk: Bytes) | Extract

  /** What a run returns in all, and the buffer it leaves. */
  function Run(buffer: Bytes, ops: seq<Op>): Extraction
    decreases |ops|
  {
    if ops == [] then Extraction([], buffer)
    else match ops[0]
      case Append(chunk) => Run(buffer + chunk, ops[1..])
      case Extract =>
        var now := Parse(buffer);
        var later := Run(now.rest, ops[1..]);
        Extraction(now.messages + later.messages, later.rest)
  }

  /** The bytes that arrive during a run. */
  function Arrived(ops: seq<Op>): Bytes
    decreases |ops|
  {
    if ops == [] then []
    else match ops[0]
      case Append(chunk) => chunk + Arrived(ops[1..])
      case Extract => Arrived(ops[1..])
  }

  /** The run feeds exactly `s` and ends with an extraction. */
  predicate Feeds(ops: seq<Op>, s: Bytes) {
    ops != [] && ops[|ops| - 1] == Extract && Arrived(ops) == s
  }

  /** No valid frame starts in `s` after position `k`. */
  ghost predicate QuietAfter(s: Bytes, k: nat) {
    forall j :: k < j < |s| ==> !StartsFrame(s[j..])
  }

  predicate HoldsFrame(s: Bytes) {
    Leftmost(s, 0) < |s|
  }

  /** Where the first frame of `s` ends. */
  function FirstEnd(s: Bytes): (end: nat)
    requires HoldsFrame(s)
    ensures OVERHEAD <= end <= |s|
  {
    Leftmost(s, 0) + FrameSize(s[Leftmost(s, 0)..])
  }

  /** With its last byte still missing, no frame of the parse gives way to a frame inside it. */
  ghost predicate Settled(s: Bytes)
    decreases |s|
  {
    HoldsFrame(s) ==> QuietAfter(s[..FirstEnd(s) - 1], Leftmost(s, 0)) && Settled(s[FirstEnd(s)..])
  }

  lemma SettledUnfolds(s: Bytes)
    requires HoldsFrame(s)
    ensures Settled(s) <==> QuietAfter(s[..FirstEnd(s) - 1], Leftmost(s, 0)) && Settled(s[FirstEnd(s)..])
  {
    hide HoldsFrame, FirstEnd, QuietAfter, StartsFrame, FrameSize, DeclaredSize, Leftmost;
  }

  lemma SettledStep(s: Bytes, k: nat)
    requires k == Leftmost(s, 0) < |s|
    ensures var end := k + FrameSize(s[k..]);
            Settled(s) <==> QuietAfter(s[..end - 1], k) && Settled(s[end..])
  {
    hide *;
    FirstEndIs(s, k);
    SettledUnfolds(s);
  }

  lemma FirstEndIs(s: Bytes, k: nat)
    requires k == Leftmost(s, 0) < |s|
    ensures HoldsFrame(s) && FirstEnd(s) == k + FrameSize(s[k..])
  {
    hide StartsFrame, FrameSize, Leftmost;
  }

  lemma QuietIsSettled(s: Bytes)
    requires Quiet(s)
    ensures Settled(s)
  {
    hide StartsFrame, FrameSize, PayloadOf;
  }

  // ----- one cut -----

  /** A frame inside `s` survives cutting the stream at or after its end, and appears only there. */
  lemma FrameAcrossCut(a: Bytes, b: Bytes, j: nat)
    requires j < |a|
    ensures StartsFrame(a[j..]) <==> StartsFrame((a + b)[j..]) && j + FrameSize((a + b)[j..]) <= |a|
    ensures StartsFrame(a[j..]) ==>
              FrameSize((a + b)[j..]) == FrameSize(a[j..]) && PayloadOf((a + b)[j..]) == PayloadOf(a[j..])
  {
    hide StartsFrame, FrameSize, PayloadOf;
    assert (a + b)[j..] == a[j..] + b;
    StartsFrameExtends(a[j..], b);
  }

  /** While the first frame of a settled stream is incomplete, nothing is extracted. */
  lemma NothingBeforeFirstFrame(a: Bytes, b: Bytes, k: nat)
    requires k < |a + b| && StartsFrame((a + b)[k..]) && |a| < k + FrameSize((a + b)[k..])
    requires forall j :: 0 <= j < k ==> !StartsFrame((a + b)[j..])
    requires QuietAfter((a + b)[..k + FrameSize((a + b)[k..]) - 1], k)
    ensures Quiet(a)
  {
    hide StartsFrame, FrameSize, PayloadOf;
    var p := (a + b)[..k + FrameSize((a + b)[k..]) - 1];
    assert p == a + p[|a|..];
    forall j | 0 <= j < |a|
      ensures !StartsFrame(a[j..])
    {
      FrameAcrossCut(a, b, j);
      FrameAcrossCut(a, p[|a|..], j);
    }
  }

  /** Extracting early from a settled stream only splits the extraction in two. */
  lemma {:induction false} ParseSplits(a: Bytes, b: Bytes)
    requires Settled(a + b)
    ensures Settled(a) && Settled(Parse(a).rest + b)
    ensures Parse(a + b).messages == Parse(a).messages + Parse(Parse(a).rest + b).messages
    ensures Parse(a + b).rest == Parse(Parse(a).rest + b).rest
    decreases |a| + |b|
  {
    hide StartsFrame, FrameSize, PayloadOf, Parse, Quiet, QuietAfter, Settled;
    var s := a + b;
    var k, n, tail := ParseStep(s);
    if k == |s| {
      forall j | 0 <= j < |a|
        ensures !StartsFrame(a[j..])
      {
        FrameAcrossCut(a, b, j);
      }
      QuietHere(a);
    } else if |a| < k + n {
      SettledStep(s, k);
      NothingBeforeFirstFrame(a, b, k);
      ParseQuiet(a);
      QuietIsSettled(a);
    } else {
      SettledStep(s, k);
      FirstFrameOfPrefix(a, b, k, n);
      var t := a[k + n..];
      assert s[k + n..] == t + b;
      ParseSplits(t, b);
      ParseFirst(a, k);
      LeftmostIs(a, k);
      SettledStep(a, k);
    }
  }

  lemma QuietHere(a: Bytes)
    requires forall j :: 0 <= j < |a| ==> !StartsFrame(a[j..])
    ensures Parse(a) == Extraction([], a) && Settled(a)
  {
    hide StartsFrame, FrameSize, PayloadOf;
    ParseQuiet(a);
    QuietIsSettled(a);
  }

  /** A complete first frame is first in the prefix too, with the same bytes around it. */
  lemma FirstFrameOfPrefix(a: Bytes, b: Bytes, k: nat, n: nat)
    requires k < |a + b| && StartsFrame((a + b)[k..]) && n == FrameSize((a + b)[k..]) && k + n <= |a|
    requires forall j :: 0 <= j < k ==> !StartsFrame((a + b)[j..])
    ensures k < |a| && StartsFrame(a[k..]) && FrameSize(a[k..]) == n && PayloadOf(a[k..]) == PayloadOf((a + b)[k..])
    ensures forall j :: 0 <= j < k ==> !StartsFrame(a[j..])
    ensures a[..k + n - 1] == (a + b)[..k + n - 1]
  {
    hide StartsFrame, FrameSize, PayloadOf;
    FrameAcrossCut(a, b, k);
    forall j | 0 <= j < k
      ensures !StartsFrame(a[j..])
    {
      FrameAcrossCut(a, b, j);
    }
  }

  // ----- every schedule -----

  lemma {:induction false} SettledRun(buffer: Bytes, ops: seq<Op>)
    requires ops != [] && ops[|ops| - 1] == Extract
    requires Settled(buffer + Arrived(ops))
    ensures Run(buffer, ops) == Parse(buffer + Arrived(ops))
    decreases |ops|
  {
    hide Parse, Settled;
    var later := ops[1..];
    match ops[0] {
      case Append(chunk) =>
        assert buffer + (chunk + Arrived(later)) == (buffer + chunk) + Arrived(later);
        SettledRun(buffer + chunk, later);
      case Extract =>
        ParseSplits(buffer, Arrived(later));
        if later == [] {
          assert buffer + Arrived(later) == buffer;
          RestIsQuiet(buffer);
          assert Parse(buffer).rest + Arrived(later) == Parse(buffer).rest;
        } else {
          SettledRun(Parse(buffer).rest, later);
        }
    }
  }

  /** Where an unsettled stream can be cut so that the two halves give something else. */
  lemma {:induction false} UnsettledCut(s: Bytes) returns (cut: nat)
    requires !Settled(s)
    ensures cut <= |s|
    ensures Parse(s).messages != Parse(s[..cut]).messages + Parse(Parse(s[..cut]).rest + s[cut..]).messages
    decreases |s|
  {
    hide StartsFrame, FrameSize, PayloadOf, Parse, Settled;
    var k, n, tail := ParseStep(s);
    if k == |s| {
      QuietHere(s);
      assert false;
    }
    SettledStep(s, k);
    var end := k + n;
    if !QuietAfter(s[..end - 1], k) {
      cut := end - 1;
      ShorterFirstMessage(s, k);
      return;
    }
    var inner := UnsettledCut(tail);
    cut := end + inner;
    var a, b := s[..cut], s[cut..];
    assert a + b == s;
    FirstFrameOfPrefix(a, b, k, n);
    ParseFirst(a, k);
    assert a[end..] == tail[..inner] && b == tail[inner..];
    var p, x, y := PayloadOf(s[k..]), Parse(tail[..inner]).messages, Parse(Parse(a).rest + b).messages;
    assert ([p] + x) + y == [p] + (x + y);
    assert ([p] + (x + y))[1..] == x + y && ([p] + Parse(tail).messages)[1..] == Parse(tail).messages;
  }

  /** Stopping one byte short of a frame that encloses another returns a shorter first message. */
  lemma ShorterFirstMessage(s: Bytes, k: nat)
    requires k == Leftmost(s, 0) < |s|
    requires !QuietAfter(s[..k + FrameSize(s[k..]) - 1], k)
    ensures var cut := k + FrameSize(s[k..]) - 1;
            && Parse(s).messages != [] && Parse(s[..cut]).messages != []
            && |Parse(s[..cut]).messages[0]| < |Parse(s).messages[0]|
  {
    hide StartsFrame, FrameSize, PayloadOf, Parse, Leftmost;
    var n := FrameSize(s[k..]);
    var a, b := s[..k + n - 1], s[k + n - 1..];
    assert a + b == s;
    ParseFirst(s, k);
    var first, m, tail := ParseStep(a);
    assert first < |a|;
    FrameAcrossCut(a, b, first);
    assert k < first;
    StartsFramePrints(a[first..]);
    StartsFramePrints(s[k..]);
  }

  lemma TwoChunkRun(s: Bytes, cut: nat)
    requires cut <= |s|
    ensures var ops := [Append(s[..cut]), Extract, Append(s[cut..]), Extract];
            && Feeds(ops, s)
            && Run([], ops).messages == Parse(s[..cut]).messages + Parse(Parse(s[..cut]).rest + s[cut..]).messages
  {
    hide Parse;
    var ops := [Append(s[..cut]), Extract, Append(s[cut..]), Extract];
    var r := Parse(s[..cut]).rest;
    assert ops[1..] == [Extract, Append(s[cut..]), Extract];
    assert ops[1..][1..] == [Append(s[cut..]), Extract];
    assert ops[1..][1..][1..] == [Extract];
    assert ops[1..][1..][1..][1..] == [];
    assert [] + s[..cut] == s[..cut];
    assert Arrived([Extract]) == [];
    assert Arrived(ops[1..][1..]) == s[cut..] + [];
    assert Arrived(ops) == s[..cut] + (s[cut..] + []) == s;
    assert Run(r + s[cut..], [Extract]).messages == Parse(r + s[cut..]).messages + [];
    assert Run(r, ops[1..][1..]) == Run(r + s[cut..], [Extract]);
  }

  /**
   Chunking invariance, exactly: every way of cutting `s` and of interleaving extractions
   gives the messages and the buffer of one extraction over `s`, if and only if `s` is settled.
   */
  lemma ChunkingInvariantIffSettled(s: Bytes)
    ensures (forall ops: seq<Op> :: Feeds(ops, s) ==> Run([], ops) == Parse(s)) <==> Settled(s)
  {
    hide Parse, Settled, Run;
    if Settled(s) {
      forall ops: seq<Op> | Feeds(ops, s)
        ensures Run([], ops) == Parse(s)
      {
        assert [] + s == s;
        SettledRun([], ops);
      }
    } else {
      var cut := UnsettledCut(s);
      TwoChunkRun(s, cut);
    }
  }

  // ----- the extractor follows the schedule -----

  /** Every buffer the run extracts from is one the 32-bit arithmetic supports. */
  ghost predicate SupportedRun(buffer: Bytes, ops: seq<Op>)
    decreases |ops|
  {
    ops == [] ||
    match ops[0]
    case Append(chunk) => SupportedRun(buffer + chunk, ops[1..])
    case Extract => Supported(buffer) && SupportedRun(Parse(buffer).rest, ops[1..])
  }

  method Drive(processor: BufferProcessor, ops: seq<Op>) returns (ret: seq<BaseProtocol>)
    requires SupportedRun(processor.processingBuffer, ops)
    modifies processor
    ensures Extraction(MessagePayloads(ret), processor.processingBuffer) == Run(old(processor.processingBuffer), ops)
  {
    hide Parse, Supported;
    ret := [];
    ghost var start := processor.processingBuffer;
    for i := 0 to |ops|
      invariant SupportedRun(processor.processingBuffer, ops[i..])
      invariant var later := Run(processor.processingBuffer, ops[i..]);
                Run(start, ops) == Extraction(MessagePayloads(ret) + later.messages, later.rest)
    {
      assert ops[i..][1..] == ops[i + 1..];
      match ops[i] {
        case Append(chunk) => processor.AppendBuffer(chunk);
        case Extract =>
          var found := processor.Messages();
          ret := ret + found;
      }
    }
  }

  // ----- which streams the 32-bit arithmetic can read under every schedule -----

  /** No position of `s` announces a length out of range. */
  ghost predicate InRange(s: Bytes) {
    forall j :: 0 <= j < |s| ==> LengthInRange(s[j..])
  }

  /**
   In range wherever some schedule tries to parse: up to the end of each frame of the parse
   while the last byte of that frame is missing, then at the frame itself.
   */
  ghost predicate Legible(s: Bytes)
    decreases |s|
  {
    && (HoldsFrame(s) ==>
          InRange(s[..FirstEnd(s) - 1]) && LengthInRange(s[Leftmost(s, 0)..]) && Legible(s[FirstEnd(s)..]))
    && (!HoldsFrame(s) ==> InRange(s))
  }

  lemma LegibleUnfolds(s: Bytes)
    requires HoldsFrame(s)
    ensures Legible(s) <==>
              InRange(s[..FirstEnd(s) - 1]) && LengthInRange(s[Leftmost(s, 0)..]) && Legible(s[FirstEnd(s)..])
  {
    hide HoldsFrame, FirstEnd, InRange, LengthInRange, StartsFrame, FrameSize, DeclaredSize, Leftmost;
  }

  lemma LegibleStep(s: Bytes, k: nat)
    requires k == Leftmost(s, 0) < |s|
    ensures var end := k + FrameSize(s[k..]);
            Legible(s) <==> InRange(s[..end - 1]) && LengthInRange(s[k..]) && Legible(s[end..])
  {
    hide *;
    FirstEndIs(s, k);
    LegibleUnfolds(s);
  }

  /** In a stream without frames one extraction looks everywhere. */
  lemma QuietIsLegible(s: Bytes)
    requires Quiet(s)
    ensures Legible(s) <==> InRange(s)
    ensures Supported(s) <==> InRange(s)
  {
    hide StartsFrame, FrameSize, LengthInRange;
    assert Leftmost(s, 0) == |s|;
  }

  /** Bytes behind a header do not change the length it announces. */
  lemma InRangeAcrossCut(a: Bytes, b: Bytes, j: nat)
    requires j < |a|
    ensures LengthInRange((a + b)[j..]) ==> LengthInRange(a[j..])
    ensures LengthInRange(a[j..]) && |a| - j > HEADER && !StartsFrame((a + b)[j..]) ==> LengthInRange((a + b)[j..])
  {
    hide StartsFrame, DeclaredSize;
    assert (a + b)[j..] == a[j..] + b;
    StartsFrameExtends(a[j..], b);
    if |a| - j > HEADER {
      FrontDependsOnPrefix(a[j..], a[j..] + b);
    }
  }

  lemma InRangePrefix(a: Bytes, b: Bytes)
    requires InRange(a + b)
    ensures InRange(a)
  {
    hide LengthInRange;
    forall j | 0 <= j < |a|
      ensures LengthInRange(a[j..])
    {
      InRangeAcrossCut(a, b, j);
    }
  }

  /** In front of a frame and at it, the frame's missing last byte makes no difference. */
  lemma InRangeUpToFrame(s: Bytes, k: nat)
    requires k < |s| && StartsFrame(s[k..]) && forall j :: 0 <= j < k ==> !StartsFrame(s[j..])
    requires InRange(s[..k + FrameSize(s[k..]) - 1]) && LengthInRange(s[k..])
    ensures forall j :: 0 <= j <= k ==> LengthInRange(s[j..])
  {
    hide LengthInRange, StartsFrame, FrameSize;
    var end := k + FrameSize(s[k..]);
    var a, b := s[..end - 1], s[end - 1..];
    assert a + b == s;
    forall j | 0 <= j < k
      ensures LengthInRange(s[j..])
    {
      InRangeAcrossCut(a, b, j);
    }
  }

  lemma {:induction false} LegibleIsSupported(s: Bytes)
    requires Legible(s)
    ensures Supported(s)
    decreases |s|
  {
    hide StartsFrame, FrameSize, PayloadOf, Parse, LengthInRange, InRange, Legible, Supported, Leftmost;
    var k, n, tail := ParseStep(s);
    if k == |s| {
      QuietIsLegible(s);
    } else {
      LegibleStep(s, k);
      InRangeUpToFrame(s, k);
      LegibleIsSupported(tail);
      SupportedStep(s, k);
    }
  }

  /** A stream that is in range everywhere is legible, however its frames lie. */
  lemma {:induction false} InRangeIsLegible(s: Bytes)
    requires InRange(s)
    ensures Legible(s)
    decreases |s|
  {
    hide StartsFrame, FrameSize, PayloadOf, Parse, LengthInRange, Legible, Leftmost;
    var k, n, tail := ParseStep(s);
    if k == |s| {
      QuietIsLegible(s);
    } else {
      assert s[..k + n - 1] + s[k + n - 1..] == s;
      InRangePrefix(s[..k + n - 1], s[k + n - 1..]);
      forall j | 0 <= j < |tail|
        ensures LengthInRange(tail[j..])
      {
        assert tail[j..] == s[k + n + j..];
      }
      InRangeIsLegible(tail);
      LegibleStep(s, k);
    }
  }

  /** Extracting early from a settled, legible stream meets only lengths in range and leaves a legible stream. */
  lemma {:induction false} LegibleSplits(a: Bytes, b: Bytes)
    requires Settled(a + b) && Legible(a + b)
    ensures Legible(a) && Supported(a) && Legible(Parse(a).rest + b)
    decreases |a| + |b|
  {
    hide StartsFrame, FrameSize, PayloadOf, Parse, Quiet, QuietAfter, Settled, LengthInRange, InRange, Legible,
      Supported, Leftmost;
    var s := a + b;
    var k, n, tail := ParseStep(s);
    if |a| < k + n || k == |s| {
      QuietBeforeFirstFrame(a, b);
      QuietIsLegible(a);
      InRangeBeforeFirstFrame(a, b);
      ParseQuiet(a);
    } else {
      SettledStep(s, k);
      LegibleStep(s, k);
      FirstFrameOfPrefix(a, b, k, n);
      var t := a[k + n..];
      assert s[k + n..] == t + b;
      LegibleSplits(t, b);
      ParseFirst(a, k);
      LeftmostIs(a, k);
      InRangeAcrossCut(a, b, k);
      LegibleStep(a, k);
      LegibleIsSupported(a);
    }
  }

  lemma QuietBeforeFirstFrame(a: Bytes, b: Bytes)
    requires Settled(a + b)
    requires var k := Leftmost(a + b, 0); k < |a + b| ==> |a| < k + FrameSize((a + b)[k..])
    ensures Quiet(a)
  {
    hide StartsFrame, FrameSize, PayloadOf, QuietAfter, Settled, Leftmost;
    var k := Leftmost(a + b, 0);
    if k < |a + b| {
      SettledStep(a + b, k);
      NothingBeforeFirstFrame(a, b, k);
    } else {
      forall j | 0 <= j < |a|
        ensures !StartsFrame(a[j..])
      {
        FrameAcrossCut(a, b, j);
      }
    }
  }

  lemma InRangeBeforeFirstFrame(a: Bytes, b: Bytes)
    requires Legible(a + b)
    requires var k := Leftmost(a + b, 0); k < |a + b| ==> |a| < k + FrameSize((a + b)[k..])
    ensures InRange(a)
  {
    hide StartsFrame, FrameSize, PayloadOf, InRange, LengthInRange, Legible, Leftmost;
    var s, k := a + b, Leftmost(a + b, 0);
    if k < |s| {
      LegibleStep(s, k);
      var cut := s[..k + FrameSize(s[k..]) - 1];
      assert a + cut[|a|..] == cut;
      InRangePrefix(a, cut[|a|..]);
    } else {
      QuietIsLegible(s);
      InRangePrefix(a, b);
    }
  }

  lemma {:induction false} LegibleRun(buffer: Bytes, ops: seq<Op>)
    requires Settled(buffer + Arrived(ops)) && Legible(buffer + Arrived(ops))
    ensures SupportedRun(buffer, ops)
    decreases |ops|
  {
    hide Parse, Settled, Legible, Supported;
    if ops != [] {
      var later := ops[1..];
      match ops[0] {
        case Append(chunk) =>
          assert buffer + (chunk + Arrived(later)) == (buffer + chunk) + Arrived(later);
          LegibleRun(buffer + chunk, later);
        case Extract =>
          ParseSplits(buffer, Arrived(later));
          LegibleSplits(buffer, Arrived(later));
          LegibleRun(Parse(buffer).rest, later);
      }
    }
  }

  /** Where a settled stream that is not legible can be cut so that the extraction leaves the range. */
  lemma {:induction false} IllegibleCut(s: Bytes) returns (cut: nat)
    requires Settled(s) && !Legible(s)
    ensures cut <= |s| && !Supported(s[..cut])
    decreases |s|
  {
    hide StartsFrame, FrameSize, PayloadOf, Parse, Settled, Legible, Supported, InRange, LengthInRange, Leftmost,
      QuietAfter;
    var k, n, tail := ParseStep(s);
    if k == |s| {
      QuietIsLegible(s);
      assert s[..|s|] == s;
      return |s|;
    }
    SettledStep(s, k);
    LegibleStep(s, k);
    var end := k + n;
    if !InRange(s[..end - 1]) {
      assert s[..end - 1] + s[end - 1..] == s;
      QuietBeforeFirstFrame(s[..end - 1], s[end - 1..]);
      QuietIsLegible(s[..end - 1]);
      return end - 1;
    }
    var inner := 0;
    if LengthInRange(s[k..]) {
      inner := IllegibleCut(tail);
    }
    cut := if LengthInRange(s[k..]) then end + inner else |s|;
    var a, b := s[..cut], s[cut..];
    assert a + b == s;
    FirstFrameOfPrefix(a, b, k, n);
    SupportedStep(a, k);
    if LengthInRange(s[k..]) {
      assert a[end..] == tail[..inner];
    } else {
      assert a == s;
    }
  }

  /**
   Chunking invariance of the extractor, exactly: under every cutting into chunks and every
   schedule of extractions it stays within its 32-bit arithmetic and gives the messages and
   the buffer of one extraction over `s`, if and only if `s` is settled and legible.
   */
  lemma ExtractorInvariantIffSettledAndLegible(s: Bytes)
    ensures (forall ops: seq<Op> :: Feeds(ops, s) ==> SupportedRun([], ops) && Run([], ops) == Parse(s))
       <==> Settled(s) && Legible(s)
  {
    hide Parse, Settled, Legible, Run, SupportedRun, Supported;
    ChunkingInvariantIffSettled(s);
    if Settled(s) && Legible(s) {
      forall ops: seq<Op> | Feeds(ops, s)
        ensures SupportedRun([], ops)
      {
        assert [] + s == s;
        LegibleRun([], ops);
      }
    } else if Settled(s) {
      var cut := IllegibleCut(s);
      TwoChunkRun(s, cut);
      TwoChunkRunExtracts(s, cut);
    }
  }

  lemma TwoChunkRunExtracts(s: Bytes, cut: nat)
    requires cut <= |s|
    ensures SupportedRun([], [Append(s[..cut]), Extract, Append(s[cut..]), Extract]) ==> Supported(s[..cut])
  {
    hide Parse, Supported;
    var ops := [Append(s[..cut]), Extract, Append(s[cut..]), Extract];
    assert [] + s[..cut] == s[..cut];
    assert ops[1..][0] == Extract;
    assert SupportedRun([], ops) ==> SupportedRun(s[..cut], ops[1..]);
  }

  /** Where a stream that is not settled and legible can be cut so that the extractor goes wrong. */
  lemma BadCut(s: Bytes) returns (cut: nat)
    requires !Settled(s) || !Legible(s)
    ensures 0 < cut <= |s|
    ensures || !Supported(s[..cut])
            || (cut < |s| &&
                Parse(s).messages != Parse(s[..cut]).messages + Parse(Parse(s[..cut]).rest + s[cut..]).messages)
  {
    hide Parse, Settled, Legible, Supported;
    NothingIsSupported();
    assert s[..0] == [];
    if Settled(s) {
      cut := IllegibleCut(s);
    } else {
      cut := UnsettledCut(s);
      CutAtEnds(s);
    }
  }

  lemma NothingIsSupported()
    ensures Supported([]) && Parse([]) == Extraction([], [])
  {
  }

  /** Cutting at an end of the stream changes nothing. */
  lemma CutAtEnds(s: Bytes)
    ensures Parse(s).messages == Parse(s[..0]).messages + Parse(Parse(s[..0]).rest + s[0..]).messages
    ensures Parse(s).messages == Parse(s[..|s|]).messages + Parse(Parse(s[..|s|]).rest + s[|s|..]).messages
  {
    hide Parse;
    NothingIsSupported();
    assert s[..0] == [] && [] + s[0..] == s;
    assert [] + Parse(s).messages == Parse(s).messages;
    assert s[..|s|] == s && s[|s|..] == [];
    RestIsQuiet(s);
    assert Parse(s).rest + [] == Parse(s).rest;
    assert Parse(s).messages + [] == Parse(s).messages;
  }

  // ----- when a stream is settled -----

  /** No two valid frames of the stream share a byte. */
  ghost predicate NoOverlap(s: Bytes) {
    forall i, j :: 0 <= i < j < |s| && StartsFrame(s[i..]) && StartsFrame(s[j..]) ==> i + FrameSize(s[i..]) <= j
  }

  lemma {:induction false} NoOverlapIsSettled(s: Bytes)
    requires NoOverlap(s)
    ensures Settled(s)
    decreases |s|
  {
    hide StartsFrame, FrameSize, PayloadOf, Settled, Parse, Leftmost;
    var k, n, tail := ParseStep(s);
    if k == |s| {
      QuietHere(s);
    } else {
      var end := k + n;
      var early := s[..end - 1];
      assert early + s[end - 1..] == s;
      forall j | k < j < |early|
        ensures !StartsFrame(early[j..])
      {
        FrameAcrossCut(early, s[end - 1..], j);
      }
      forall i, j | 0 <= i < j < |tail| && StartsFrame(tail[i..]) && StartsFrame(tail[j..])
        ensures i + FrameSize(tail[i..]) <= j
      {
        assert tail[i..] == s[end + i..] && tail[j..] == s[end + j..];
      }
      NoOverlapIsSettled(tail);
      SettledStep(s, k);
    }
  }

  /**
   The condition is needed: a frame that carries a frame, cut before its last byte, yields
   the inner message and loses the outer one.
   */
  lemma NestedFrameIsNotSettled()
    ensures |Print([])| == OVERHEAD && |Print(Print([]))| == 2 * OVERHEAD
    ensures var s := Print(Print([]));
            && !Settled(s)
            && Parse(s).messages == [Print([])]
            && Parse(s[..|s| - 1]).messages == [[]]
  {
    hide StartsFrame, FrameSize, PayloadOf, Print, Parse, Settled;
    var inner := Print([]);
    var s := Print(inner);
    PrintedPrefixStarts(inner, s);
    assert s[0..] == s;
    assert s[HEADER..|s| - TRAILER] == inner by { PrintIsFrame(inner); PayloadIsInside(inner); }
    var cut := s[..|s| - 1];
    assert cut[HEADER..] == inner + s[|s| - TRAILER..|s| - 1];
    PrintedPrefixStarts([], cut[HEADER..]);
    LeftmostIs(s, 0);
    SettledStep(s, 0);
    ParseFirst(s, 0);
    assert s[|s|..] == [];
    QuietHere([]);
    NoMarkerInSmallHeader(inner);
    assert s + [] == s;
    var k, n, tail := ParseStep(cut);
    assert k == HEADER;
    assert n == OVERHEAD;
    assert |tail| < OVERHEAD;
    ShortIsQuiet(tail);
  }

  lemma PayloadIsInside(p: Bytes)
    requires |p| < UINT32_RANGE
    ensures Print(p)[HEADER..|p| + HEADER] == p
  {
    hide WordBytes, Checksum;
  }

  lemma ShortIsQuiet(s: Bytes)
    requires |s| < OVERHEAD
    ensures Parse(s) == Extraction([], s)
  {
    hide FrameSize, PayloadOf;
    ParseQuiet(s);
  }

  lemma NoMarkerInSmallHeader(p: Bytes)
    requires |p| == OVERHEAD
    ensures var cut := Print(p)[..|p| + OVERHEAD - 1];
            forall j :: 0 <= j < HEADER ==> !StartsFrame(cut[j..])
  {
  }
}
