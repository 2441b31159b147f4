/**
 From the sender's payloads to the receiver's messages: a stream of printed frames, cut
 anywhere, extracted at any time, and possibly damaged on the way.
 */
module Delivery {
  import opened Crc32
  import opened Words
  import opened BaseProtocols
  import opened BufferProcessors
  import opened Chunking

  ghost predicate Sendable(ps: seq<Bytes>) {
    forall i :: 0 <= i < |ps| ==> |ps[i]| < UINT32_RANGE
  }

  ghost function FramesOf(ps: seq<Bytes>): Bytes
    requires Sendable(ps)
  {
    if ps == [] then [] else Print(ps[0]) + FramesOf(ps[1..])
  }

  lemma FramesOfUnfolds(ps: seq<Bytes>)
    requires Sendable(ps)
    ensures ps == [] ==> FramesOf(ps) == []
    ensures ps != [] ==>
              |ps[0]| < UINT32_RANGE && Sendable(ps[1..]) && FramesOf(ps) == Print(ps[0]) + FramesOf(ps[1..])
  {
    hide Print;
  }

  lemma {:induction false} FramesOfAppend(ps: seq<Bytes>, qs: seq<Bytes>)
    requires Sendable(ps) && Sendable(qs)
    ensures Sendable(ps + qs) && FramesOf(ps + qs) == FramesOf(ps) + FramesOf(qs)
  {
    hide Print, FramesOf;
    assert Sendable(ps + qs);
    FramesOfUnfolds(ps);
    if ps == [] {
      assert ps + qs == qs && [] + FramesOf(qs) == FramesOf(qs);
    } else {
      FramesOfUnfolds(ps + qs);
      assert (ps + qs)[1..] == ps[1..] + qs;
      FramesOfAppend(ps[1..], qs);
      assert Print(ps[0]) + (FramesOf(ps[1..]) + FramesOf(qs)) == Print(ps[0]) + FramesOf(ps[1..]) + FramesOf(qs);
    }
  }

  /** The printed frame at the front of a stream is the parse's first message. */
  lemma FirstPrinted(p: Bytes, tail: Bytes)
    requires |p| < UINT32_RANGE
    ensures var s := Print(p) + tail;
            && Leftmost(s, 0) == 0 && FrameSize(s) == |Print(p)| == FrameSize(s[0..]) && s[|Print(p)|..] == tail
            && StartsFrame(s) && Parse(s) == Extraction([p] + Parse(tail).messages, Parse(tail).rest)
  {
    hide StartsFrame, FrameSize, PayloadOf, Print, Parse, Leftmost;
    var s := Print(p) + tail;
    assert s[0..] == s && [] + Print(p) + tail == s;
    PrintedPrefixStarts(p, s);
    LeftmostIs(s, 0);
    Resynchronises([], p, tail);
  }

  /** Whole frames at the front are returned first, whatever follows them. */
  lemma {:induction false} ParseFrames(ps: seq<Bytes>, tail: Bytes)
    requires Sendable(ps)
    ensures Parse(FramesOf(ps) + tail) == Extraction(ps + Parse(tail).messages, Parse(tail).rest)
  {
    hide StartsFrame, FrameSize, Print, Parse, Leftmost;
    if ps == [] {
      assert [] + tail == tail;
    } else {
      ParseFrames(ps[1..], tail);
      assert FramesOf(ps) + tail == Print(ps[0]) + (FramesOf(ps[1..]) + tail);
      FirstPrinted(ps[0], FramesOf(ps[1..]) + tail);
    }
  }

  // ----- which payloads survive every schedule -----

  /** No valid frame lies inside the printed frame of `p` and ends before it does. */
  ghost predicate Solid(p: Bytes)
    requires |p| < UINT32_RANGE
  {
    QuietAfter(Print(p)[..|p| + OVERHEAD - 1], 0)
  }

  ghost predicate AllSolid(ps: seq<Bytes>)
    requires Sendable(ps)
  {
    forall i :: 0 <= i < |ps| ==> Solid(ps[i])
  }

  /** A payload is solid when no marker follows the first byte of its frame early enough to start another. */
  lemma MarkerFreeIsSolid(p: Bytes)
    requires |p| < UINT32_RANGE
    requires forall j :: 0 < j < |p| ==> Print(p)[j] != MAGIC
    ensures Solid(p)
  {
    hide FrameSize, PayloadOf, Print, IsFrame;
    var cut := Print(p)[..|p| + OVERHEAD - 1];
    forall j | 0 < j < |cut|
      ensures !StartsFrame(cut[j..])
    {
      if StartsFrame(cut[j..]) {
        StartsFramePrints(cut[j..]);
        assert cut[j..][0] == Print(p)[j];
        FirstByteIsMarker(PayloadOf(cut[j..]));
      }
    }
  }

  /** Whole frames in front of a stream leave it settled exactly when each of them is solid. */
  lemma {:induction false} SettledBehindFrames(ps: seq<Bytes>, tail: Bytes)
    requires Sendable(ps)
    ensures Settled(FramesOf(ps) + tail) <==> AllSolid(ps) && Settled(tail)
  {
    hide StartsFrame, FrameSize, PayloadOf, Print, Parse, Leftmost, QuietAfter, Settled;
    if ps == [] {
      assert [] + tail == tail;
    } else {
      var s, rest := FramesOf(ps) + tail, FramesOf(ps[1..]) + tail;
      assert s == Print(ps[0]) + rest;
      FirstPrinted(ps[0], rest);
      SettledStep(s, 0);
      assert s[..|Print(ps[0])| - 1] == Print(ps[0])[..|ps[0]| + OVERHEAD - 1];
      SettledBehindFrames(ps[1..], tail);
      SolidHeadAndTail(ps);
    }
  }

  /** The stream of some payloads is settled exactly when each of them is solid. */
  lemma FramesSettledIffSolid(ps: seq<Bytes>)
    requires Sendable(ps)
    ensures Settled(FramesOf(ps)) <==> AllSolid(ps)
  {
    hide StartsFrame, Print, Settled, AllSolid;
    SettledBehindFrames(ps, []);
    assert FramesOf(ps) + [] == FramesOf(ps);
    QuietHere([]);
  }

  lemma SolidHeadAndTail(ps: seq<Bytes>)
    requires Sendable(ps) && ps != []
    ensures Sendable(ps[1..]) && (AllSolid(ps) <==> Solid(ps[0]) && AllSolid(ps[1..]))
  {
    hide Solid;
    forall i | 0 < i < |ps|
      ensures ps[i] == ps[1..][i - 1]
    {
    }
    if Solid(ps[0]) && AllSolid(ps[1..]) {
      forall i | 0 <= i < |ps|
        ensures Solid(ps[i])
      {
        if i > 0 {
          assert Solid(ps[1..][i - 1]);
        }
      }
    }
  }

  // ----- which payloads the 32-bit arithmetic can read under every schedule -----

  /**
   The size of `p` fits an `int32`, and while the last byte of its frame is missing, no
   marker in the frame announces a length that wraps.
   */
  ghost predicate Readable(p: Bytes)
    requires |p| < UINT32_RANGE
  {
    |p| < INT32_RANGE && InRange(Print(p)[..|p| + OVERHEAD - 1])
  }

  ghost predicate AllReadable(ps: seq<Bytes>)
    requires Sendable(ps)
  {
    forall i :: 0 <= i < |ps| ==> Readable(ps[i])
  }

  lemma PrintedInRange(p: Bytes, tail: Bytes)
    requires |p| < UINT32_RANGE
    ensures LengthInRange(Print(p) + tail) <==> |p| < INT32_RANGE
  {
    hide StartsFrame, PayloadOf, Print, DeclaredSize;
    var s := Print(p) + tail;
    PrintedPrefixStarts(p, s);
    FirstByteIsMarker(p);
    assert s[0] == Print(p)[0];
    assert DeclaredSize(s) == FrameSize(s) - OVERHEAD;
  }

  lemma ReadableHeadAndTail(ps: seq<Bytes>)
    requires Sendable(ps) && ps != []
    ensures Sendable(ps[1..]) && (AllReadable(ps) <==> Readable(ps[0]) && AllReadable(ps[1..]))
  {
    hide Readable;
    forall i | 0 < i < |ps|
      ensures ps[i] == ps[1..][i - 1]
    {
    }
    if Readable(ps[0]) && AllReadable(ps[1..]) {
      forall i | 0 <= i < |ps|
        ensures Readable(ps[i])
      {
        if i > 0 {
          assert Readable(ps[1..][i - 1]);
        }
      }
    }
  }

  /** Whole frames in front of a stream leave it legible exactly when each of them is readable. */
  lemma {:induction false} LegibleBehindFrames(ps: seq<Bytes>, tail: Bytes)
    requires Sendable(ps)
    ensures Legible(FramesOf(ps) + tail) <==> AllReadable(ps) && Legible(tail)
  {
    hide StartsFrame, FrameSize, PayloadOf, Print, Parse, Leftmost, InRange, LengthInRange, Legible;
    if ps == [] {
      assert [] + tail == tail;
    } else {
      var s, rest := FramesOf(ps) + tail, FramesOf(ps[1..]) + tail;
      assert s == Print(ps[0]) + rest;
      FirstPrinted(ps[0], rest);
      LegibleStep(s, 0);
      assert s[..|Print(ps[0])| - 1] == Print(ps[0])[..|ps[0]| + OVERHEAD - 1];
      assert s[0..] == s;
      PrintedInRange(ps[0], rest);
      LegibleBehindFrames(ps[1..], tail);
      ReadableHeadAndTail(ps);
    }
  }

  lemma FramesLegibleIffReadable(ps: seq<Bytes>)
    requires Sendable(ps)
    ensures Legible(FramesOf(ps)) <==> AllReadable(ps)
  {
    hide StartsFrame, Print, Legible, AllReadable;
    LegibleBehindFrames(ps, []);
    assert FramesOf(ps) + [] == FramesOf(ps);
    QuietIsLegible([]);
  }

  /** A payload is readable when no marker follows the first byte of its frame with a length behind it. */
  lemma MarkerFreeIsReadable(p: Bytes)
    requires |p| < INT32_RANGE
    requires forall j :: 0 < j < |p| + 3 ==> Print(p)[j] != MAGIC
    ensures Readable(p)
  {
    hide StartsFrame, Print, LengthInRange;
    var s, cut := Print(p), Print(p)[..|p| + OVERHEAD - 1];
    assert s == cut + s[|cut|..] && s + [] == s;
    forall j | 0 <= j < |cut|
      ensures LengthInRange(cut[j..])
    {
      if j == 0 {
        PrintedInRange(p, []);
        assert s[0..] == s;
        InRangeAcrossCut(cut, s[|cut|..], 0);
      } else {
        NoHeaderHere(cut, j);
      }
    }
  }

  lemma NoHeaderHere(s: Bytes, j: nat)
    requires j < |s| && (s[j] != MAGIC || |s| - j <= HEADER)
    ensures LengthInRange(s[j..])
  {
  }

  /** Ten bytes that look like a header with a length that wraps. */
  const MISLEADING: Bytes := [0x24, 0xF7, 0xFF, 0xFF, 0xFF, 0, 0, 0, 0, 0]

  lemma MisleadingFrame()
    ensures |MISLEADING| == 10 && |Print(MISLEADING)| == 19
    ensures Print(MISLEADING)[1..5] == [10, 0, 0, 0] && Print(MISLEADING)[5..15] == MISLEADING
  {
    hide Checksum;
    var ten: bv32 := 10;
    assert Value32(ten) == 10;
    Value32Injective(Word32(10), ten);
    assert WordBytes(ten) == [10, 0, 0, 0];
    PayloadIsInside(MISLEADING);
  }

  lemma AnnouncesTooMuch(s: Bytes)
    requires |s| == 13 && s[..5] == MISLEADING[..5]
    ensures !LengthInRange(s) && !StartsFrame(s)
  {
    hide Checksum;
    assert s[0] == s[..5][0] && s[1] == s[..5][1] && s[2] == s[..5][2] && s[3] == s[..5][3] && s[4] == s[..5][4];
    assert Word(0xF7, 0xFF, 0xFF, 0xFF) == 0xFFFF_FFF7;
    var announced: bv32 := 0xFFFF_FFF7;
    assert Value32(announced) == 0xFFFF_FFF7;
  }

  lemma NoFrameWithoutMarker(s: Bytes)
    requires |s| < OVERHEAD || s[0] != MAGIC
    ensures !StartsFrame(s)
  {
  }

  /**
   A solid payload need not be readable: five of its bytes may look like a header with a
   length that wraps, which the extractor meets when the last byte of the frame is late.
   */
  lemma SolidIsNotEnough()
    ensures var s := Print(MISLEADING);
            && Solid(MISLEADING) && !Readable(MISLEADING)
            && |s| == 19 && !SupportedRun([], [Append(s[..18]), Extract, Append(s[18..]), Extract])
  {
    hide Parse, Leftmost, Supported, LengthInRange, Print, StartsFrame, SupportedRun;
    MisleadingFrame();
    var s, cut := Print(MISLEADING), Print(MISLEADING)[..18];
    assert cut[5..][..5] == s[5..15][..5];
    AnnouncesTooMuch(cut[5..]);
    forall j | 0 < j < |cut|
      ensures !StartsFrame(cut[j..])
    {
      if j != 5 {
        assert j < 5 ==> cut[j] == s[1..5][j - 1];
        assert 5 < j < 15 ==> cut[j] == s[5..15][j - 5];
        NoFrameWithoutMarker(cut[j..]);
      }
    }
    PrefixIsNoFrame(MISLEADING);
    QuietIsLegible(cut);
    TwoChunkRunExtracts(s, 18);
  }

  /** A frame without its last byte starts no frame. */
  lemma PrefixIsNoFrame(p: Bytes)
    requires |p| < UINT32_RANGE
    ensures !StartsFrame(Print(p)[..|p| + OVERHEAD - 1][0..])
  {
    hide StartsFrame, Print, FrameSize, PayloadOf;
    var s, cut := Print(p), Print(p)[..|p| + OVERHEAD - 1];
    assert s == cut + s[|cut|..] && s[0..] == s;
    PrintedPrefixStarts(p, s);
    FrameAcrossCut(cut, s[|cut|..], 0);
  }

  // ----- end to end -----

  /** How many of the frames are complete once `t` bytes have arrived. */
  ghost function Completed(ps: seq<Bytes>, t: nat): (c: nat)
    requires Sendable(ps)
    ensures c <= |ps|
    decreases |ps|
  {
    if ps == [] || t < |ps[0]| + OVERHEAD then 0 else 1 + Completed(ps[1..], t - (|ps[0]| + OVERHEAD))
  }

  /** It is the number of frames that end at or before byte `t`. */
  lemma {:induction false} CompletedIsMaximal(ps: seq<Bytes>, t: nat)
    requires Sendable(ps)
    ensures var c := Completed(ps, t);
            && Sendable(ps[..c]) && |FramesOf(ps[..c])| <= t
            && (c < |ps| ==> Sendable(ps[..c + 1]) && t < |FramesOf(ps[..c + 1])|)
  {
    hide Print;
    var c := Completed(ps, t);
    if c > 0 {
      CompletedIsMaximal(ps[1..], t - (|ps[0]| + OVERHEAD));
      assert ps[..c][1..] == ps[1..][..c - 1];
    }
    if c < |ps| {
      assert ps[..c + 1][1..] == ps[1..][..c];
    }
  }

  /** What ought to have been returned after `t` bytes, and the partial frame that ought to remain. */
  ghost function Due(ps: seq<Bytes>, t: nat): Extraction
    requires Sendable(ps) && t <= |FramesOf(ps)|
  {
    var c := Completed(ps, t);
    CompletedIsMaximal(ps, t);
    Extraction(ps[..c], FramesOf(ps)[|FramesOf(ps[..c])|..t])
  }

  lemma {:induction false} PrefixGivesDue(ps: seq<Bytes>, t: nat)
    requires Sendable(ps) && AllSolid(ps) && t <= |FramesOf(ps)|
    ensures Parse(FramesOf(ps)[..t]) == Due(ps, t)
  {
    hide StartsFrame, FrameSize, PayloadOf, Print, Parse, Leftmost, QuietAfter, Settled, Quiet;
    var s, a := FramesOf(ps), FramesOf(ps)[..t];
    if ps == [] {
      QuietHere([]);
      assert a == [];
    } else {
      var tail, n := FramesOf(ps[1..]), |Print(ps[0])|;
      FirstPrinted(ps[0], tail);
      SolidHeadAndTail(ps);
      if t < n {
        assert a + s[t..] == s && s[0..] == s;
        assert s[..n - 1] == Print(ps[0])[..|ps[0]| + OVERHEAD - 1];
        NothingBeforeFirstFrame(a, s[t..], 0);
        ParseQuiet(a);
        assert ps[..0] == [];
      } else {
        assert a == Print(ps[0]) + tail[..t - n];
        FirstPrinted(ps[0], tail[..t - n]);
        PrefixGivesDue(ps[1..], t - n);
        DueStep(ps, t);
      }
    }
  }

  lemma DueStep(ps: seq<Bytes>, t: nat)
    requires Sendable(ps) && ps != [] && |ps[0]| + OVERHEAD <= t <= |FramesOf(ps)|
    ensures var later := Due(ps[1..], t - (|ps[0]| + OVERHEAD));
            Due(ps, t) == Extraction([ps[0]] + later.messages, later.rest)
  {
    hide Print, FramesOf, Sendable, Completed, Due;
    var n := |ps[0]| + OVERHEAD;
    FramesOfFirst(ps);
    CompletedStep(ps, t);
    DueParts(ps, t);
    DueParts(ps[1..], t - n);
    PrefixLength(ps, Completed(ps[1..], t - n));
    SliceBehind(FramesOf(ps), n, |FramesOf(ps[1..][..Completed(ps[1..], t - n)])|, t);
  }

  lemma DueParts(ps: seq<Bytes>, t: nat)
    requires Sendable(ps) && t <= |FramesOf(ps)|
    ensures var c := Completed(ps, t);
            && Sendable(ps[..c]) && |FramesOf(ps[..c])| <= t
            && Due(ps, t) == Extraction(ps[..c], FramesOf(ps)[|FramesOf(ps[..c])|..t])
  {
    hide Print, FramesOf, Completed;
    CompletedIsMaximal(ps, t);
  }

  lemma CompletedStep(ps: seq<Bytes>, t: nat)
    requires Sendable(ps) && ps != [] && |ps[0]| + OVERHEAD <= t
    ensures Sendable(ps[1..]) && Completed(ps, t) == 1 + Completed(ps[1..], t - (|ps[0]| + OVERHEAD))
  {
  }

  lemma SliceBehind(s: Bytes, n: nat, b: nat, t: nat)
    requires n + b <= t <= |s|
    ensures s[n..][b..t - n] == s[n + b..t]
  {
  }

  lemma PrefixLength(ps: seq<Bytes>, c: nat)
    requires Sendable(ps) && c < |ps|
    ensures Sendable(ps[..c + 1]) && Sendable(ps[1..][..c])
    ensures |FramesOf(ps[..c + 1])| == |ps[0]| + OVERHEAD + |FramesOf(ps[1..][..c])|
    ensures ps[..c + 1] == [ps[0]] + ps[1..][..c]
  {
    hide Print;
    assert ps[..c + 1][1..] == ps[1..][..c];
  }

  lemma FramesOfFirst(ps: seq<Bytes>)
    requires Sendable(ps) && ps != []
    ensures var n := |ps[0]| + OVERHEAD;
            && Sendable(ps[1..])
            && |FramesOf(ps)| == n + |FramesOf(ps[1..])| && FramesOf(ps)[n..] == FramesOf(ps[1..])
  {
    hide Print;
  }

  /** The frames of the messages and the rest fit into the stream, and fill it only if they are all of it. */
  lemma {:induction false} MessagesFit(s: Bytes)
    ensures Sendable(Parse(s).messages)
    ensures var size := |FramesOf(Parse(s).messages)| + |Parse(s).rest|;
            size <= |s| && (size == |s| ==> s == FramesOf(Parse(s).messages) + Parse(s).rest)
    decreases |s|
  {
    hide StartsFrame, FrameSize, PayloadOf, Print, Parse, Leftmost, FramesOf, Sendable;
    var k, n, tail := ParseStep(s);
    if k == |s| {
      NoFrames();
      assert [] + s == s;
    } else {
      FrameThenTail(s, k);
      MessagesFit(tail);
      FrameInFront(PayloadOf(s[k..]), Parse(tail).messages);
      var frame, later, rest := Print(PayloadOf(s[k..])), FramesOf(Parse(tail).messages), Parse(tail).rest;
      assert frame + later + rest == frame + (later + rest);
      if k == 0 {
        assert s[..0] == [] && [] + (frame + tail) == frame + tail;
      }
    }
  }

  lemma NoFrames()
    ensures Sendable([]) && FramesOf([]) == []
  {
  }

  lemma FrameInFront(p: Bytes, ps: seq<Bytes>)
    requires |p| < UINT32_RANGE && Sendable(ps)
    ensures Sendable([p] + ps) && FramesOf([p] + ps) == Print(p) + FramesOf(ps)
  {
    hide Print;
    assert ([p] + ps)[1..] == ps;
  }

  lemma OneFrame(p: Bytes)
    requires |p| < UINT32_RANGE
    ensures Sendable([p]) && FramesOf([p]) == Print(p)
  {
    hide Print, FramesOf;
    NoFrames();
    FrameInFront(p, []);
    assert [p] + [] == [p] && Print(p) + [] == Print(p);
  }

  lemma OneMoreFrame(ps: seq<Bytes>, p: Bytes)
    requires Sendable(ps) && |p| < UINT32_RANGE
    ensures Sendable(ps + [p]) && |FramesOf(ps + [p])| == |FramesOf(ps)| + |p| + OVERHEAD
  {
    hide *;
    OneFrame(p);
    FramesOfAppend(ps, [p]);
  }

  lemma SendableParts(ps: seq<Bytes>)
    requires Sendable(ps) && ps != []
    ensures Sendable(ps[..|ps| - 1]) && |ps[|ps| - 1]| < UINT32_RANGE
  {
  }

  lemma LastFrame(ps: seq<Bytes>)
    requires Sendable(ps) && ps != []
    ensures var n := |ps| - 1;
            Sendable(ps[..n]) && |FramesOf(ps)| == |FramesOf(ps[..n])| + |ps[n]| + OVERHEAD
  {
    hide *;
    var n := |ps| - 1;
    assert ps == ps[..n] + [ps[n]];
    SendableParts(ps);
    OneMoreFrame(ps[..n], ps[n]);
  }

  /** Messages whose frames fill the stream are those of the stream. */
  lemma FillingMessagesAreAll(ps: seq<Bytes>)
    requires Sendable(ps)
    ensures Parse(FramesOf(ps)).messages == ps
  {
    hide Parse, FramesOf;
    AllDueAtEnd(ps);
  }

  lemma AllDueAtEnd(ps: seq<Bytes>)
    requires Sendable(ps)
    ensures Due(ps, |FramesOf(ps)|) == Extraction(ps, []) == Parse(FramesOf(ps))
  {
    hide Print, Parse;
    var t := |FramesOf(ps)|;
    CompletedIsMaximal(ps, t);
    var c := Completed(ps, t);
    if c < |ps| {
      assert ps == ps[..c + 1] + ps[c + 1..];
      FramesOfAppend(ps[..c + 1], ps[c + 1..]);
      assert false;
    }
    assert ps[..c] == ps;
    assert FramesOf(ps) + [] == FramesOf(ps);
    ParseFrames(ps, []);
    QuietHere([]);
    assert ps + [] == ps;
  }

  /**
   After `t` bytes of the stream, any run that ends with an extraction has stayed within the
   32-bit arithmetic of the extractor and has returned exactly what is due.
   */
  ghost predicate DeliversAlways(ps: seq<Bytes>)
    requires Sendable(ps)
  {
    forall t: nat, ops: seq<Op> ::
      t <= |FramesOf(ps)| && Feeds(ops, FramesOf(ps)[..t]) ==> SupportedRun([], ops) && Run([], ops) == Due(ps, t)
  }

  /**
   End-to-end delivery, exactly: for every cut of the stream into chunks, every prefix that
   has arrived and every schedule of extractions, the extractor stays within its 32-bit
   arithmetic, the payloads returned are those whose frames are complete, in order, and the
   buffer is the partial next frame, if and only if every payload is solid and readable,
   which the sender can check payload by payload.
   */
  lemma DeliversAlwaysIffSolidAndReadable(ps: seq<Bytes>)
    requires Sendable(ps)
    ensures DeliversAlways(ps) <==> AllSolid(ps) && AllReadable(ps)
  {
    hide Print, Parse, Settled, Legible, Run, SupportedRun, Due, AllSolid, AllReadable, Feeds;
    var s := FramesOf(ps);
    FramesSettledIffSolid(ps);
    FramesLegibleIffReadable(ps);
    if AllSolid(ps) && AllReadable(ps) {
      forall t: nat, ops: seq<Op> | t <= |s| && Feeds(ops, s[..t])
        ensures SupportedRun([], ops) && Run([], ops) == Due(ps, t)
      {
        assert s[..t] + s[t..] == s;
        ParseSplits(s[..t], s[t..]);
        LegibleSplits(s[..t], s[t..]);
        ExtractorInvariantIffSettledAndLegible(s[..t]);
        PrefixGivesDue(ps, t);
      }
    }
    if DeliversAlways(ps) {
      AllDueAtEnd(ps);
      assert s[..|s|] == s;
      ExtractorInvariantIffSettledAndLegible(s);
    }
  }

  // ----- damage -----

  /** A string with a frame's marker and length is that frame exactly when its register ends at the residue. */
  lemma FrameIffResidue(f: Bytes)
    requires |f| >= OVERHEAD && f[0] == MAGIC && FrameSize(f) == |f|
    ensures IsFrame(f) <==> Register(INITIAL, f) == RESIDUE
  {
    hide FrameSize, Checksum, Word, Register;
    var s, t := f[..|f| - TRAILER], f[|f| - TRAILER..];
    assert f == s + t;
    ChecksumMatchesIffResidue(s, t);
  }

  /** `d` is `f` with something changed in the four bytes at `o`, behind the header. */
  ghost predicate BurstAt(f: Bytes, d: Bytes, o: nat) {
    && |d| == |f| && d != f
    && HEADER <= o && o + 4 <= |f|
    && d[..o] == f[..o] && d[o + 4..] == f[o + 4..]
  }

  /** Any change confined to four consecutive bytes of payload and trailer is detected. */
  lemma BurstIsDetected(f: Bytes, d: Bytes, o: nat, after: Bytes)
    requires IsFrame(f) && BurstAt(f, d, o)
    ensures Verdict(d + after) == InvalidChecksum
    ensures FrameSize(d + after) == |f| && !StartsFrame(d + after)
  {
    hide Checksum, Word, Register, DeclaredSize;
    HeaderUnchanged(f, d, o);
    assert f == f[..o] + f[o..o + 4] + f[o + 4..];
    assert d == f[..o] + d[o..o + 4] + f[o + 4..];
    FrameIffResidue(f);
    FrameIffResidue(d);
    BurstChangesRegister(INITIAL, f[..o], f[o..o + 4], d[o..o + 4], f[o + 4..]);
    assert !IsFrame(d);
    FrontDependsOnPrefix(d, d + after);
    assert (d + after)[..|d|] == d;
    assert (d + after)[0] == d[0];
  }

  lemma HeaderUnchanged(f: Bytes, d: Bytes, o: nat)
    requires |d| == |f| && HEADER <= o <= |f| && d[..o] == f[..o]
    ensures d[0] == f[0] && FrameSize(d) == FrameSize(f)
  {
    hide Word, Value32;
    assert f[..HEADER] == f[..o][..HEADER] == d[..HEADER];
    FrontDependsOnPrefix(f[..HEADER], f);
    FrontDependsOnPrefix(f[..HEADER], d);
    assert d[0] == d[..HEADER][0] && f[0] == f[..HEADER][0];
  }

  /**
   Damage containment: one damaged frame among good ones, with no valid frame starting
   inside it, costs exactly its own message.  What follows pushes it out of the buffer; as
   the last frame it stays behind.
   */
  lemma DamageIsContained(before: seq<Bytes>, p: Bytes, d: Bytes, o: nat, after: seq<Bytes>)
    requires Sendable(before) && |p| < UINT32_RANGE && Sendable(after)
    requires BurstAt(Print(p), d, o)
    requires forall j :: 0 < j < |d| ==> !StartsFrame((d + FramesOf(after))[j..])
    ensures Parse(FramesOf(before) + (d + FramesOf(after)))
         == if after == [] then Extraction(before, d) else Extraction(before + after, [])
  {
    hide StartsFrame, FrameSize, PayloadOf, Print, Parse, Verdict, BurstAt, FramesOf, Sendable;
    var s := d + FramesOf(after);
    PrintIsFrame(p);
    BurstIsDetected(Print(p), d, o, FramesOf(after));
    assert s[0..] == s;
    ParseFrames(before, s);
    JunkThenFrames(d, after);
    if after == [] {
      assert before + [] == before;
    }
  }

  /** Junk in front of whole frames is pushed out by the first of them, and stays when there is none. */
  lemma JunkThenFrames(d: Bytes, after: seq<Bytes>)
    requires Sendable(after)
    requires forall j :: 0 <= j < |d| ==> !StartsFrame((d + FramesOf(after))[j..])
    ensures Parse(d + FramesOf(after)) == if after == [] then Extraction([], d) else Extraction(after, [])
  {
    hide StartsFrame, Print, Parse, FramesOf, Sendable;
    FramesOfUnfolds(after);
    if after == [] {
      assert d + [] == d;
      NothingToExtract(d);
    } else {
      var later := after[1..];
      assert d + FramesOf(after) == d + Print(after[0]) + FramesOf(later);
      Resynchronises(d, after[0], FramesOf(later));
      AllDueAtEnd(later);
      assert [after[0]] + later == after;
    }
  }

  lemma SettledBehindJunk(d: Bytes, p: Bytes, tail: Bytes)
    requires |p| < UINT32_RANGE && Solid(p) && Settled(tail)
    requires forall j :: 0 <= j < |d| ==> !StartsFrame((d + (Print(p) + tail))[j..])
    ensures Settled(d + (Print(p) + tail))
  {
    hide StartsFrame, FrameSize, PayloadOf, Print, Parse, Leftmost, Settled, QuietAfter;
    var s, k, n := d + (Print(p) + tail), |d|, |Print(p)|;
    assert s[k..] == Print(p) + tail && s[k + n..] == tail;
    FirstPrinted(p, tail);
    LeftmostIs(s, k);
    SettledStep(s, k);
    assert s[..k + n - 1] == d + Print(p)[..n - 1];
    QuietAfterShift(d, Print(p)[..n - 1]);
  }

  lemma DamagedStreamIsSettled(d: Bytes, after: seq<Bytes>)
    requires Sendable(after) && AllSolid(after)
    requires forall j :: 0 <= j < |d| ==> !StartsFrame((d + FramesOf(after))[j..])
    ensures Settled(d + FramesOf(after))
  {
    hide StartsFrame, Print, Settled, Solid, FramesOf, Sendable, AllSolid;
    FramesOfUnfolds(after);
    if after == [] {
      assert d + [] == d;
      QuietHere(d);
    } else {
      SolidHeadAndTail(after);
      FramesSettledIffSolid(after[1..]);
      SettledBehindJunk(d, after[0], FramesOf(after[1..]));
    }
  }

  lemma QuietAfterShift(front: Bytes, s: Bytes)
    requires QuietAfter(s, 0)
    ensures QuietAfter(front + s, |front|)
  {
    hide StartsFrame;
    var whole := front + s;
    forall j | |front| < j < |whole|
      ensures !StartsFrame(whole[j..])
    {
      assert whole[j..] == s[j - |front|..];
    }
  }

  /**
   With solid payloads around it, the damage is contained for every chunking and every
   schedule too; the extractor stays within its 32-bit arithmetic when those in front are
   readable and the damaged end of the stream is legible.
   */
  lemma DamageIsContainedAlways(before: seq<Bytes>, p: Bytes, d: Bytes, o: nat, after: seq<Bytes>, ops: seq<Op>)
    requires Sendable(before) && |p| < UINT32_RANGE && Sendable(after) && AllSolid(before) && AllSolid(after)
    requires BurstAt(Print(p), d, o)
    requires forall j :: 0 < j < |d| ==> !StartsFrame((d + FramesOf(after))[j..])
    requires Feeds(ops, FramesOf(before) + (d + FramesOf(after)))
    ensures Run([], ops) == if after == [] then Extraction(before, d) else Extraction(before + after, [])
    ensures AllReadable(before) && Legible(d + FramesOf(after)) ==> SupportedRun([], ops)
  {
    hide StartsFrame, Print, Parse, Settled, Run, Feeds, AllSolid, AllReadable, BurstAt, Verdict, Legible, SupportedRun;
    var s := d + FramesOf(after);
    PrintIsFrame(p);
    BurstIsDetected(Print(p), d, o, FramesOf(after));
    assert s[0..] == s;
    DamagedStreamIsSettled(d, after);
    SettledBehindFrames(before, s);
    LegibleBehindFrames(before, s);
    ChunkingInvariantIffSettled(FramesOf(before) + s);
    ExtractorInvariantIffSettledAndLegible(FramesOf(before) + s);
    DamageIsContained(before, p, d, o, after);
  }
}
