/**
 The stream extractor (common/src/bufferprocessor.cpp).  `Parse` is the specification:
 take the leftmost valid frame, drop everything up to its end, start again.  The class
 is the extractor, whose `Messages` scans and erases one buffer in place.
 */
module BufferProcessors {
  import opened Crc32
  import opened Options
  import opened Words
  import opened BaseProtocols

  // ----- the leftmost parse -----

  /** The first position at or after `from` where a valid frame starts, or `|s|`. */
  function Leftmost(s: Bytes, from: nat): (k: nat)
    requires from <= |s|
    ensures from <= k <= |s|
    ensures forall j :: from <= j < k ==> !StartsFrame(s[j..])
    ensures k < |s| ==> StartsFrame(s[k..])
    decreases |s| - from
  {
    if from == |s| || StartsFrame(s[from..]) then from else Leftmost(s, from + 1)
  }

  datatype Extraction = Extraction(messages: seq<Bytes>, rest: Bytes)

  function Parse(s: Bytes): Extraction
    decreases |s|
  {
    var k := Leftmost(s, 0);
    if k == |s| then Extraction([], s)
    else
      var tail := Parse(s[k + FrameSize(s[k..])..]);
      Extraction([PayloadOf(s[k..])] + tail.messages, tail.rest)
  }

  /** No position of `s` starts a valid frame. */
  ghost predicate Quiet(s: Bytes) {
    forall j :: 0 <= j < |s| ==> !StartsFrame(s[j..])
  }

  lemma LeftmostIs(s: Bytes, k: nat)
    requires k < |s| && StartsFrame(s[k..])
    requires forall j :: 0 <= j < k ==> !StartsFrame(s[j..])
    ensures Leftmost(s, 0) == k
  {
    hide StartsFrame;
  }

  lemma ParseQuiet(s: Bytes)
    ensures Quiet(s) <==> Parse(s) == Extraction([], s)
  {
    hide StartsFrame, FrameSize, PayloadOf;
  }

  lemma NothingToExtract(s: Bytes)
    requires forall j :: 0 <= j < |s| ==> !StartsFrame(s[j..])
    ensures Parse(s) == Extraction([], s)
  {
    hide StartsFrame, FrameSize, PayloadOf;
    ParseQuiet(s);
  }

  /** One step of the parse, as its definition says. */
  lemma ParseUnfolds(s: Bytes)
    ensures var k := Leftmost(s, 0);
            && (k == |s| ==> Parse(s) == Extraction([], s))
            && (k < |s| ==>
                  var tail := Parse(s[k + FrameSize(s[k..])..]);
                  Parse(s) == Extraction([PayloadOf(s[k..])] + tail.messages, tail.rest))
  {
    hide StartsFrame, FrameSize, PayloadOf, Leftmost, OVERHEAD;
  }

  lemma ParseFirst(s: Bytes, k: nat)
    requires k < |s| && StartsFrame(s[k..])
    requires forall j :: 0 <= j < k ==> !StartsFrame(s[j..])
    ensures var tail := Parse(s[k + FrameSize(s[k..])..]);
            Parse(s) == Extraction([PayloadOf(s[k..])] + tail.messages, tail.rest)
  {
    hide *;
    LeftmostIs(s, k);
    ParseUnfolds(s);
  }

  /** One step of the parse: where the next frame stands, how long it is, and what remains. */
  lemma ParseStep(s: Bytes) returns (k: nat, n: nat, tail: Bytes)
    ensures k == Leftmost(s, 0) <= |s|
    ensures forall j :: 0 <= j < k ==> !StartsFrame(s[j..])
    ensures k == |s| ==> Parse(s) == Extraction([], s)
    ensures k < |s| ==>
              && StartsFrame(s[k..]) && |s| - k >= HEADER
              && n == FrameSize(s[k..]) >= OVERHEAD && k + n <= |s| && tail == s[k + n..]
              && Parse(s) == Extraction([PayloadOf(s[k..])] + Parse(tail).messages, Parse(tail).rest)
  {
    hide StartsFrame, FrameSize, PayloadOf, DeclaredSize, Parse;
    ParseUnfolds(s);
    k := Leftmost(s, 0);
    if k < |s| {
      n := FrameSize(s[k..]);
      tail := s[k + n..];
    } else {
      n, tail := 0, [];
    }
  }

  // ----- the parse as a decomposition of the stream -----

  datatype Piece = Piece(junk: Bytes, payload: Bytes)

  function Payloads(pieces: seq<Piece>): seq<Bytes> {
    seq(|pieces|, i requires 0 <= i < |pieces| => pieces[i].payload)
  }

  ghost predicate Printable(pieces: seq<Piece>) {
    forall i :: 0 <= i < |pieces| ==> |pieces[i].payload| < UINT32_RANGE
  }

  ghost function Flatten(pieces: seq<Piece>, residue: Bytes): Bytes
    requires Printable(pieces)
  {
    if pieces == [] then residue
    else pieces[0].junk + (Print(pieces[0].payload) + Flatten(pieces[1..], residue))
  }

  /** No valid frame starts in any junk, judged against the bytes then in the buffer, nor in the residue. */
  ghost predicate IsGreedy(pieces: seq<Piece>, residue: Bytes)
    requires Printable(pieces)
  {
    if pieces == [] then Quiet(residue)
    else
      && (forall j :: 0 <= j < |pieces[0].junk| ==> !StartsFrame(Flatten(pieces, residue)[j..]))
      && IsGreedy(pieces[1..], residue)
  }

  lemma PrintableParts(pieces: seq<Piece>)
    requires Printable(pieces) && pieces != []
    ensures |pieces[0].payload| < UINT32_RANGE && Printable(pieces[1..])
  {
  }

  lemma PieceInFront(piece: Piece, later: seq<Piece>, residue: Bytes)
    requires |piece.payload| < UINT32_RANGE && Printable(later)
    ensures var pieces := [piece] + later;
            && Printable(pieces) && Payloads(pieces) == [piece.payload] + Payloads(later)
            && Flatten(pieces, residue) == piece.junk + (Print(piece.payload) + Flatten(later, residue))
            && (IsGreedy(pieces, residue) <==>
                  && (forall j :: 0 <= j < |piece.junk| ==> !StartsFrame(Flatten(pieces, residue)[j..]))
                  && IsGreedy(later, residue))
  {
    hide StartsFrame, Print, Quiet;
    assert ([piece] + later)[1..] == later;
  }

  lemma NoPieces(residue: Bytes)
    ensures Printable([]) && Flatten([], residue) == residue && Payloads([]) == []
    ensures IsGreedy([], residue) <==> Parse(residue) == Extraction([], residue)
  {
    hide Parse, Quiet, StartsFrame;
    ParseQuiet(residue);
  }

  /** Every greedy decomposition of a stream is its parse, so there is only one. */
  lemma {:induction false} GreedyIsParse(pieces: seq<Piece>, residue: Bytes)
    requires Printable(pieces) && IsGreedy(pieces, residue)
    ensures Parse(Flatten(pieces, residue)) == Extraction(Payloads(pieces), residue)
  {
    hide *;
    if pieces == [] {
      NoPieces(residue);
    } else {
      var first, later := pieces[0], pieces[1..];
      assert pieces == [first] + later;
      PrintableParts(pieces);
      PieceInFront(first, later, residue);
      GreedyIsParse(later, residue);
      var tail := Flatten(later, residue);
      assert first.junk + (Print(first.payload) + tail) == first.junk + Print(first.payload) + tail;
      Resynchronises(first.junk, first.payload, tail);
    }
  }

  /** The parse decomposes any stream into junk, frames and a residue, losing no byte. */
  lemma {:induction false} ParseIsGreedy(s: Bytes) returns (pieces: seq<Piece>)
    ensures Printable(pieces) && IsGreedy(pieces, Parse(s).rest)
    ensures Flatten(pieces, Parse(s).rest) == s
    ensures Payloads(pieces) == Parse(s).messages
    decreases |s|
  {
    hide *;
    var k, n, tail := ParseStep(s);
    if k == |s| {
      NoPieces(s);
      return [];
    }
    var later := ParseIsGreedy(tail);
    FrameThenTail(s, k);
    var first := Piece(s[..k], PayloadOf(s[k..]));
    PieceInFront(first, later, Parse(s).rest);
    pieces := [first] + later;
  }

  lemma FrameThenTail(s: Bytes, k: nat)
    requires k < |s| && StartsFrame(s[k..])
    ensures |s| - k >= HEADER && FrameSize(s[k..]) <= |s| - k
    ensures var p := PayloadOf(s[k..]);
            |p| < UINT32_RANGE && s == s[..k] + (Print(p) + s[k + FrameSize(s[k..])..])
  {
    hide StartsFrame, FrameSize, PayloadOf, Print;
    StartsFramePrints(s[k..]);
    assert s[k..][..FrameSize(s[k..])] + s[k + FrameSize(s[k..])..] == s[k..];
    assert s == s[..k] + s[k..];
  }

  // ----- what the caller can rely on -----

  /** After an extraction nothing is left to extract. */
  lemma {:induction false} RestIsQuiet(s: Bytes)
    ensures Quiet(Parse(s).rest)
    ensures Parse(Parse(s).rest) == Extraction([], Parse(s).rest)
    decreases |s|
  {
    hide StartsFrame, FrameSize, PayloadOf, Parse;
    var k, n, tail := ParseStep(s);
    if k < |s| {
      RestIsQuiet(tail);
    }
    ParseQuiet(Parse(s).rest);
  }

  /** What stays is a suffix of the buffer; each message takes at least nine bytes away. */
  lemma {:induction false} ParseConserves(s: Bytes)
    ensures |Parse(s).rest| + OVERHEAD * |Parse(s).messages| <= |s|
    ensures Parse(s).rest == s[|s| - |Parse(s).rest|..]
    ensures Parse(s).messages == [] <==> Parse(s).rest == s
    decreases |s|
  {
    hide StartsFrame, FrameSize, PayloadOf, Parse, Leftmost;
    var k, n, tail := ParseStep(s);
    if k < |s| {
      ParseConserves(tail);
      assert s[k + n..][|tail| - |Parse(s).rest|..] == s[|s| - |Parse(s).rest|..];
    }
  }

  /** A frame that shows up only after an append ends inside the appended bytes. */
  lemma NewFramesEndInAppendedBytes(before: Bytes, added: Bytes, j: nat)
    requires Quiet(before) && j < |before + added| && StartsFrame((before + added)[j..])
    ensures |before| < j + FrameSize((before + added)[j..]) <= |before + added|
  {
    hide StartsFrame, FrameSize, PayloadOf;
    if j < |before| {
      assert (before + added)[j..] == before[j..] + added;
      StartsFrameExtends(before[j..], added);
    }
  }

  /** Garbage with no valid frame in it, however many markers it holds, never hides the frame behind it. */
  lemma Resynchronises(garbage: Bytes, p: Bytes, after: Bytes)
    requires |p| < UINT32_RANGE
    requires forall j :: 0 <= j < |garbage| ==> !StartsFrame((garbage + Print(p) + after)[j..])
    ensures Parse(garbage + Print(p) + after) == Extraction([p] + Parse(after).messages, Parse(after).rest)
  {
    hide StartsFrame, FrameSize, PayloadOf, Print, Parse, Leftmost;
    var s, k := garbage + Print(p) + after, |garbage|;
    assert s[k..] == Print(p) + after;
    PrintedPrefixStarts(p, s[k..]);
    ParseFirst(s, k);
    assert s[k + |Print(p)|..] == after;
  }

  // ----- the extractor -----

  function Concat(chunks: seq<Bytes>): Bytes {
    if chunks == [] then [] else chunks[0] + Concat(chunks[1..])
  }

  lemma {:induction false} ConcatAppend(a: seq<Bytes>, b: seq<Bytes>)
    ensures Concat(a + b) == Concat(a) + Concat(b)
  {
    if a == [] {
      assert a + b == b;
    } else {
      assert (a + b)[1..] == a[1..] + b;
      ConcatAppend(a[1..], b);
    }
  }

  function MessagePayloads(items: seq<BaseProtocol>): seq<Bytes> {
    seq(|items|, i requires 0 <= i < |items| => items[i].payload)
  }

  /** The 32-bit size arithmetic is exact at every position at which one extraction tries to parse. */
  ghost predicate Supported(s: Bytes)
    decreases |s|
  {
    var k := Leftmost(s, 0);
    && (forall j :: 0 <= j <= k && j < |s| ==> LengthInRange(s[j..]))
    && (k < |s| ==> Supported(s[k + FrameSize(s[k..])..]))
  }

  lemma SupportedStep(s: Bytes, k: nat)
    requires k < |s| && StartsFrame(s[k..])
    requires forall j :: 0 <= j < k ==> !StartsFrame(s[j..])
    ensures Supported(s) <==>
              (forall j :: 0 <= j <= k ==> LengthInRange(s[j..])) && Supported(s[k + FrameSize(s[k..])..])
  {
    hide StartsFrame, FrameSize, LengthInRange, Leftmost;
    LeftmostIs(s, k);
  }

  /** Where nothing starts before `k`, the extractor may try `k`. */
  lemma SupportedHere(s: Bytes, k: nat)
    requires Supported(s) && k < |s|
    requires forall j :: 0 <= j < k ==> !StartsFrame(s[j..])
    ensures LengthInRange(s[k..])
    ensures StartsFrame(s[k..]) ==> Supported(s[k + FrameSize(s[k..])..])
  {
    hide StartsFrame, FrameSize, LengthInRange;
    if StartsFrame(s[k..]) {
      SupportedStep(s, k);
    } else {
      assert k <= Leftmost(s, 0);
    }
  }

  /** `std::find_if` for the marker, from `from` on. */
  method FindMarker(s: Bytes, from: nat) returns (pos: nat)
    requires from <= |s|
    ensures from <= pos <= |s|
    ensures forall j :: from <= j < pos ==> s[j] != MAGIC
    ensures pos < |s| ==> s[pos] == MAGIC
  {
    pos := from;
    while pos < |s| && s[pos] != MAGIC
      invariant from <= pos <= |s|
      invariant forall j :: from <= j < pos ==> s[j] != MAGIC
    {
      pos := pos + 1;
    }
  }

  lemma SkippedHoldNoFrame(s: Bytes, from: nat, pos: nat)
    requires from <= pos <= |s|
    requires forall j :: from <= j < pos ==> s[j] != MAGIC
    ensures forall j :: from <= j < pos ==> !StartsFrame(s[j..])
  {
    hide FrameSize, PayloadOf, Checksum, Word;
    forall j | from <= j < pos
      ensures !StartsFrame(s[j..])
    {
      assert s[j..][0] == s[j];
    }
  }

  class BufferProcessor {
    var processingBuffer: Bytes

    constructor ()
      ensures processingBuffer == []
    {
      processingBuffer := [];
    }

    method AppendBuffer(data: Bytes)
      modifies this
      ensures processingBuffer == old(processingBuffer) + data
    {
      processingBuffer := processingBuffer + data;
    }

    method AppendBuffers(datas: seq<Bytes>)
      modifies this
      ensures processingBuffer == old(processingBuffer) + Concat(datas)
    {
      for i := 0 to |datas|
        invariant processingBuffer == old(processingBuffer) + Concat(datas[..i])
      {
        AppendBuffer(datas[i]);
        assert datas[..i + 1] == datas[..i] + [datas[i]];
        ConcatAppend(datas[..i], [datas[i]]);
        assert Concat([datas[i]]) == datas[i];
      }
      assert datas[..|datas|] == datas;
    }

    method Messages() returns (ret: seq<BaseProtocol>)
      requires Supported(processingBuffer)
      modifies this
      ensures MessagePayloads(ret) == Parse(old(processingBuffer)).messages
      ensures processingBuffer == Parse(old(processingBuffer)).rest
    {
      hide StartsFrame, FrameSize, PayloadOf, Parse, Print, LengthInRange, Leftmost, Supported, StillDue;
      ret := [];
      var markerPos := FindMarker(processingBuffer, 0);
      SkippedHoldNoFrame(processingBuffer, 0, markerPos);
      ghost var whole := Parse(processingBuffer);
      StillDueAtStart(processingBuffer);
      while markerPos != |processingBuffer|
        invariant markerPos <= |processingBuffer|
        invariant Supported(processingBuffer)
        invariant forall j :: 0 <= j < markerPos ==> !StartsFrame(processingBuffer[j..])
        invariant StillDue(whole, ret, processingBuffer)
        decreases |processingBuffer|, |processingBuffer| - markerPos
      {
        ghost var before := processingBuffer;
        SupportedHere(before, markerPos);
        var item, reason := ExtractFromRawData(Some(processingBuffer[markerPos..]));
        SucceedsIffStartsFrame(before[markerPos..]);
        if item.Some? {
          StillDueAfter(whole, ret, before, markerPos, item.value);
          processingBuffer := processingBuffer[markerPos + item.value.FullSize()..];
          ret := ret + [item.value];
          markerPos := 0;
        } else {
          markerPos := markerPos + 1;
        }
        ghost var from := markerPos;
        markerPos := FindMarker(processingBuffer, markerPos);
        SkippedHoldNoFrame(processingBuffer, from, markerPos);
      }
      NothingToExtract(processingBuffer);
      StillDueAtEnd(whole, ret, processingBuffer);
    }

    method FlushBuffer()
      modifies this
      ensures processingBuffer == []
    {
      processingBuffer := [];
    }
  }

  /** The loop's contract: what was found so far and what the buffer still holds make up the whole parse. */
  ghost predicate StillDue(whole: Extraction, found: seq<BaseProtocol>, buffer: Bytes) {
    whole == Extraction(MessagePayloads(found) + Parse(buffer).messages, Parse(buffer).rest)
  }

  lemma StillDueAtStart(buffer: Bytes)
    ensures StillDue(Parse(buffer), [], buffer)
  {
    hide Parse;
  }

  lemma StillDueAfter(whole: Extraction, found: seq<BaseProtocol>, buffer: Bytes, k: nat, item: BaseProtocol)
    requires k < |buffer| && StartsFrame(buffer[k..]) && item.payload == PayloadOf(buffer[k..])
    requires forall j :: 0 <= j < k ==> !StartsFrame(buffer[j..])
    requires StillDue(whole, found, buffer)
    ensures StillDue(whole, found + [item], buffer[k + FrameSize(buffer[k..])..])
  {
    hide Parse, StartsFrame, FrameSize, PayloadOf;
    ParseFirst(buffer, k);
    assert MessagePayloads(found + [item]) == MessagePayloads(found) + [item.payload];
  }

  lemma StillDueAtEnd(whole: Extraction, found: seq<BaseProtocol>, buffer: Bytes)
    requires Parse(buffer) == Extraction([], buffer) && StillDue(whole, found, buffer)
    ensures whole == Extraction(MessagePayloads(found), buffer)
  {
  }
}
