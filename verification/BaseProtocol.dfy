/**
 The frame codec (common/src/baseprotocol.cpp): `'$'`, a little-endian 32-bit payload
 length, the payload, and a little-endian CRC-32 over everything before it.

 The functions say what a frame is, in exact natural-number arithmetic.  The methods are
 the codec itself, in the fixed-width arithmetic of the source.
 */
module BaseProtocols {
  import opened Crc32
  import opened Options
  import opened Words

  const MAGIC: bv8 := 0x24
  const HEADER := 5
  const TRAILER := 4
  const OVERHEAD := HEADER + TRAILER

  const INT32_RANGE := 0x8000_0000
  const SIZE_RANGE := 0x1_0000_0000_0000_0000

  /** Declared lengths above this one wrap the 32-bit total of the parser. */
  const MAX_DECLARED := UINT32_RANGE - OVERHEAD - 1

  // ----- what a frame is -----

  function DeclaredSize(s: Bytes): (n: nat)
    requires |s| >= HEADER
    ensures n < UINT32_RANGE
  {
    Value32(Word(s[1], s[2], s[3], s[4]))
  }

  function FrameSize(s: Bytes): nat
    requires |s| >= HEADER
  {
    DeclaredSize(s) + OVERHEAD
  }

  /** `f` is one valid frame, no more and no less. */
  predicate IsFrame(f: Bytes) {
    && |f| >= OVERHEAD
    && f[0] == MAGIC
    && FrameSize(f) == |f|
    && Checksum(f[..|f| - TRAILER]) == Word(f[|f| - 4], f[|f| - 3], f[|f| - 2], f[|f| - 1])
  }

  /** A valid frame stands at the front of `s`. */
  predicate StartsFrame(s: Bytes): (r: bool)
    ensures r ==> |s| >= OVERHEAD && OVERHEAD <= FrameSize(s) <= |s|
  {
    |s| >= OVERHEAD && FrameSize(s) <= |s| && IsFrame(s[..FrameSize(s)])
  }

  function PayloadOf(s: Bytes): Bytes
    requires |s| >= HEADER && FrameSize(s) <= |s|
  {
    s[HEADER..FrameSize(s) - TRAILER]
  }

  /** The frame that carries payload `p`. */
  function Print(p: Bytes): (f: Bytes)
    requires |p| < UINT32_RANGE
    ensures |f| == |p| + OVERHEAD
  {
    var covered := [MAGIC] + WordBytes(Word32(|p|)) + p;
    covered + WordBytes(Checksum(covered))
  }

  lemma PrintIsFrame(p: Bytes)
    requires |p| < UINT32_RANGE
    ensures IsFrame(Print(p))
    ensures FrameSize(Print(p)) == |p| + OVERHEAD && PayloadOf(Print(p)) == p
  {
    hide Checksum, Word, WordBytes, Value32, Word32;
    var covered := [MAGIC] + WordBytes(Word32(|p|)) + p;
    var trailer := WordBytes(Checksum(covered));
    var f := Print(p);
    assert f == covered + trailer;
    assert f[..|f| - TRAILER] == covered;
    assert f[|f| - 4] == trailer[0] && f[|f| - 3] == trailer[1] && f[|f| - 2] == trailer[2] && f[|f| - 1] == trailer[3];
    assert f[1] == WordBytes(Word32(|p|))[0] && f[2] == WordBytes(Word32(|p|))[1];
    assert f[3] == WordBytes(Word32(|p|))[2] && f[4] == WordBytes(Word32(|p|))[3];
    assert DeclaredSize(f) == |p|;
    assert PayloadOf(f) == p;
  }

  lemma SampleWords()
    ensures Word32(4) == 4 && WordBytes(4) == [0x04, 0x00, 0x00, 0x00]
    ensures WordBytes(0x4465_68EB) == [0xEB, 0x68, 0x65, 0x44]
  {
    hide Word32;
    assert Value32(4) == 4;
    Value32Injective(Word32(4), 4);
  }

  /** The frame of the payload "test", byte for byte. */
  lemma SampleFrame()
    ensures Print([0x74, 0x65, 0x73, 0x74]) ==
              [0x24, 0x04, 0x00, 0x00, 0x00, 0x74, 0x65, 0x73, 0x74, 0xEB, 0x68, 0x65, 0x44]
  {
    hide Checksum, Word32, WordBytes;
    var p: Bytes := [0x74, 0x65, 0x73, 0x74];
    SampleWords();
    assert [MAGIC] + [0x04, 0x00, 0x00, 0x00] + p == [0x24, 0x04, 0x00, 0x00, 0x00, 0x74, 0x65, 0x73, 0x74];
    ChecksumOfSample([MAGIC] + [0x04, 0x00, 0x00, 0x00] + p);
  }

  /** The four bytes at `at` are the bytes of the word they spell. */
  lemma FourBytes(f: Bytes, at: nat)
    requires at + 4 <= |f|
    ensures WordBytes(Word(f[at], f[at + 1], f[at + 2], f[at + 3])) == f[at..at + 4]
  {
    hide Word, WordBytes;
    WordBytesOfWord(f[at], f[at + 1], f[at + 2], f[at + 3]);
  }

  lemma HeaderOfFrame(f: Bytes)
    requires IsFrame(f)
    ensures |f| - OVERHEAD < UINT32_RANGE
    ensures f[..HEADER] == [MAGIC] + WordBytes(Word32(|f| - OVERHEAD))
  {
    hide Checksum, Word, WordBytes, Value32, Word32;
    FourBytes(f, 1);
    Word32OfValue(Word(f[1], f[2], f[3], f[4]));
    assert f[..HEADER] == [f[0]] + f[1..HEADER];
  }

  lemma TrailerOfFrame(f: Bytes)
    requires IsFrame(f)
    ensures f[|f| - TRAILER..] == WordBytes(Checksum(f[..|f| - TRAILER]))
  {
    hide Checksum, Word, WordBytes, Value32;
    FourBytes(f, |f| - TRAILER);
  }

  lemma ThreeParts(f: Bytes)
    requires |f| >= OVERHEAD
    ensures f[..|f| - TRAILER] == f[..HEADER] + f[HEADER..|f| - TRAILER]
    ensures f == f[..|f| - TRAILER] + f[|f| - TRAILER..]
  {
  }

  /** A frame is determined by its payload: printing it again gives the same bytes. */
  lemma FrameIsPrint(f: Bytes)
    requires IsFrame(f)
    ensures |f| - OVERHEAD < UINT32_RANGE && f == Print(f[HEADER..|f| - TRAILER])
  {
    hide Checksum, Word, WordBytes, Value32, Word32, DeclaredSize;
    HeaderOfFrame(f);
    TrailerOfFrame(f);
    ThreeParts(f);
  }

  /** The size and payload seen at the front depend only on the bytes they cover. */
  lemma FrontDependsOnPrefix(a: Bytes, s: Bytes)
    requires HEADER <= |a| && a <= s
    ensures FrameSize(s) == FrameSize(a)
    ensures FrameSize(a) <= |a| ==> s[..FrameSize(a)] == a[..FrameSize(a)] && PayloadOf(s) == PayloadOf(a)
  {
    hide Word, Value32;
    assert a == s[..|a|];
    assert a[1] == s[1] && a[2] == s[2] && a[3] == s[3] && a[4] == s[4];
  }

  lemma PrintedPrefixStarts(p: Bytes, s: Bytes)
    requires |p| < UINT32_RANGE && Print(p) <= s
    ensures StartsFrame(s) && FrameSize(s) == |p| + OVERHEAD && PayloadOf(s) == p
  {
    hide IsFrame, Print, DeclaredSize;
    PrintIsFrame(p);
    FrontDependsOnPrefix(Print(p), s);
    assert Print(p)[..|Print(p)|] == Print(p);
  }

  lemma StartsFramePrints(s: Bytes)
    requires StartsFrame(s)
    ensures |PayloadOf(s)| == FrameSize(s) - OVERHEAD < UINT32_RANGE
    ensures s[..FrameSize(s)] == Print(PayloadOf(s)) <= s
  {
    hide IsFrame, Print, DeclaredSize;
    FrameIsPrint(s[..FrameSize(s)]);
    assert s[..FrameSize(s)][HEADER..FrameSize(s) - TRAILER] == PayloadOf(s);
  }

  /** A valid frame starts `s` exactly when `s` begins with the printed form of some payload. */
  lemma StartsFrameIffPrinted(s: Bytes)
    ensures StartsFrame(s) <==> exists p: Bytes :: |p| < UINT32_RANGE && Print(p) <= s
  {
    hide StartsFrame, Print, FrameSize;
    if StartsFrame(s) {
      StartsFramePrints(s);
    }
    forall p: Bytes | |p| < UINT32_RANGE && Print(p) <= s
      ensures StartsFrame(s)
    {
      PrintedPrefixStarts(p, s);
    }
  }

  // ----- verdicts do not change when more bytes arrive -----

  datatype ExtractionFailure = NoFailure | NeedMoreData | InvalidFirstByte | InvalidChecksum

  function Verdict(s: Bytes): ExtractionFailure
    requires s != []
  {
    if s[0] != MAGIC then InvalidFirstByte
    else if |s| <= HEADER || |s| < FrameSize(s) then NeedMoreData
    else if StartsFrame(s) then NoFailure
    else InvalidChecksum
  }

  lemma SucceedsIffStartsFrame(s: Bytes)
    requires s != []
    ensures Verdict(s) == NoFailure <==> StartsFrame(s)
  {
    hide Checksum, Word, Value32;
  }

  lemma FirstByteIsMarker(p: Bytes)
    requires |p| < UINT32_RANGE
    ensures Print(p)[0] == MAGIC == 0x24
  {
    hide WordBytes, Checksum;
  }

  /**
   What the verdicts say of the data alone: the first byte is wrong when no printed frame
   begins with it, and extraction succeeds when a whole printed frame stands at the front.
   Of data with the right first byte, what lacks announced bytes needs more, whatever those
   bytes will be; the rest holds a frame with a wrong checksum.
   */
  lemma VerdictMeaning(s: Bytes)
    requires s != []
    ensures Verdict(s) == InvalidFirstByte <==> forall p: Bytes :: |p| < UINT32_RANGE ==> Print(p)[0] != s[0]
    ensures Verdict(s) == NoFailure <==> exists p: Bytes :: |p| < UINT32_RANGE && Print(p) <= s
    ensures Verdict(s) == NeedMoreData <==> s[0] == 0x24 && (|s| <= 5 || |s| < DeclaredSize(s) + 9)
    ensures Verdict(s) == InvalidChecksum <==>
              && s[0] == 0x24 && |s| > 5 && DeclaredSize(s) + 9 <= |s|
              && !exists p: Bytes :: |p| < UINT32_RANGE && Print(p) <= s
  {
    hide StartsFrame, Print, DeclaredSize;
    StartsFrameIffPrinted(s);
    SucceedsIffStartsFrame(s);
    FirstByteIsMarker([]);
    forall p: Bytes | |p| < UINT32_RANGE
      ensures Print(p)[0] == MAGIC
    {
      FirstByteIsMarker(p);
    }
  }

  /** A frame at the front stays there when bytes are appended, and was there before if it already fitted. */
  lemma StartsFrameExtends(a: Bytes, b: Bytes)
    ensures StartsFrame(a) ==>
              StartsFrame(a + b) && FrameSize(a + b) == FrameSize(a) && PayloadOf(a + b) == PayloadOf(a)
    ensures StartsFrame(a + b) && FrameSize(a + b) <= |a| ==> StartsFrame(a)
  {
    hide IsFrame, DeclaredSize;
    if |a| >= HEADER {
      FrontDependsOnPrefix(a, a + b);
    }
  }

  lemma VerdictStable(a: Bytes, b: Bytes)
    requires a != []
    ensures Verdict(a) != NeedMoreData ==> Verdict(a + b) == Verdict(a)
    ensures Verdict(a) == NoFailure ==> PayloadOf(a + b) == PayloadOf(a)
    ensures Verdict(a) == NoFailure <==> Verdict(a + b) == NoFailure && FrameSize(a + b) <= |a|
  {
    hide IsFrame, DeclaredSize;
    StartsFrameExtends(a, b);
    if |a| > HEADER {
      FrontDependsOnPrefix(a, a + b);
    }
  }

  // ----- the codec -----

  function Uint32(x: nat): nat {
    x % UINT32_RANGE
  }

  function SizeT(x: int): nat {
    x % SIZE_RANGE
  }

  function Int32(x: nat): int {
    var low := x % UINT32_RANGE;
    if low < INT32_RANGE then low else low - UINT32_RANGE
  }

  /**
   The caller's side of the 32-bit arithmetic: no marker announces a length that wraps the
   total, and no valid frame has a payload whose size an `int32` cannot hold.
   */
  predicate LengthInRange(s: Bytes) {
    |s| > HEADER && s[0] == MAGIC ==>
      DeclaredSize(s) <= MAX_DECLARED && (StartsFrame(s) ==> DeclaredSize(s) < INT32_RANGE)
  }

  /** In that range, and in no larger one, the parser's wrapping sums, differences and casts are exact. */
  lemma SizesAreExact(declared: nat)
    requires declared < UINT32_RANGE
    ensures Uint32(Uint32(4 + 1) + SizeT(declared + 4)) == declared + OVERHEAD <==> declared <= MAX_DECLARED
    ensures declared <= MAX_DECLARED ==>
              && SizeT(declared + OVERHEAD - 4) == HEADER + declared
              && (Int32(SizeT(declared + OVERHEAD - 4 * 2 - 1)) == declared <==> declared < INT32_RANGE)
              && (Int32(SizeT(declared + OVERHEAD - 4 * 2 - 1)) < 0 <==> declared >= 0x8000_0000)
  {
  }

  /** What the codec's caller must keep out is exactly what its fixed-width arithmetic gets wrong. */
  lemma InRangeIffExact(s: Bytes)
    requires |s| > HEADER && s[0] == MAGIC
    ensures var declared := DeclaredSize(s);
            LengthInRange(s) <==>
              && Uint32(Uint32(4 + 1) + SizeT(declared + 4)) == FrameSize(s)
              && (StartsFrame(s) ==> Int32(SizeT(FrameSize(s) - 4 * 2 - 1)) == declared)
  {
    hide StartsFrame, DeclaredSize, Uint32, SizeT, Int32;
    SizesAreExact(DeclaredSize(s));
  }

  /** Once the announced bytes are there, the frame is valid exactly when the stored checksum is the computed one. */
  lemma StartsFrameIffChecksum(s: Bytes)
    requires |s| >= OVERHEAD && s[0] == MAGIC && FrameSize(s) <= |s|
    ensures var at := HEADER + DeclaredSize(s);
            StartsFrame(s) <==> Checksum(s[..at]) == Word(s[at], s[at + 1], s[at + 2], s[at + 3])
    ensures StartsFrame(s) ==> |PayloadOf(s)| < UINT32_RANGE && s[..FrameSize(s)] == Print(PayloadOf(s))
  {
    hide Checksum, Word, Value32, Print;
    var f := s[..FrameSize(s)];
    assert f[..|f| - TRAILER] == s[..HEADER + DeclaredSize(s)];
    if StartsFrame(s) {
      StartsFramePrints(s);
    }
  }

  /** `memcpy` of `src` over `dst` from `pos` on. */
  function Overwrite(dst: Bytes, pos: nat, src: Bytes): (r: Bytes)
    requires pos + |src| <= |dst|
    ensures |r| == |dst|
  {
    dst[..pos] + src + dst[pos + |src|..]
  }

  method CalculateChecksum(data: Bytes) returns (sum: bv32)
    ensures sum == Checksum(data)
  {
    hide Feed, Xor;
    var register := INITIAL;
    for i := 0 to |data|
      invariant register == Register(INITIAL, data[..i])
    {
      assert data[..i + 1][..i] == data[..i];
      register := Feed(register, data[i]);
    }
    assert data[..|data|] == data;
    sum := Xor(register, FINAL_XOR);
  }

  datatype BaseProtocol = BaseProtocol(payload: Bytes)
  {
    /** The number of bytes of the printed frame, in 32-bit arithmetic. */
    function FullSize(): nat {
      Uint32(|payload| + 1 + 4 * 2)
    }

    method MakeProtocolMessage() returns (ret: Bytes)
      requires |payload| <= MAX_DECLARED
      ensures ret == Print(payload)
    {
      hide Checksum, Word, WordBytes, Value32, Word32;
      var payloadSize := Uint32(|payload|);
      ret := seq(HEADER, _ => 0);
      ret := ret[0 := MAGIC];
      ret := Overwrite(ret, 1, WordBytes(Word32(payloadSize)));
      ghost var header := [MAGIC] + WordBytes(Word32(|payload|));
      assert ret == header;
      for i := 0 to |payload|
        invariant ret == header + payload[..i]
      {
        ret := ret + [payload[i]];
        assert payload[..i + 1] == payload[..i] + [payload[i]];
      }
      assert payload[..|payload|] == payload;
      var checksumPos := Uint32(1 + 4 + payloadSize);
      var checksum := CalculateChecksum(ret);
      ghost var covered := ret;
      ret := ret + seq(TRAILER, _ => 0);
      ret := Overwrite(ret, checksumPos, WordBytes(checksum));
      assert ret == covered + WordBytes(checksum);
    }
  }

  /** Parses the frame at the front of `data`; the absent value is the null pointer. */
  method ExtractFromRawData(data: Option<Bytes>)
    returns (item: Option<BaseProtocol>, reason: ExtractionFailure)
    requires data.Some? ==> data.value != [] && LengthInRange(data.value)
    ensures reason == if data.None? then InvalidFirstByte else Verdict(data.value)
    ensures item.Some? <==> reason == NoFailure
    ensures item.Some? ==>
              && item.value.payload == PayloadOf(data.value)
              && |item.value.payload| == DeclaredSize(data.value)
              && item.value.FullSize() == FrameSize(data.value)
              && data.value[..item.value.FullSize()] == Print(item.value.payload)
  {
    hide Checksum, Word, Value32, IsFrame, Print, SizeT, Int32;
    if data.None? {
      return None, InvalidFirstByte;
    }
    var bytes := data.value;
    var available := |bytes|;
    if bytes[0] != MAGIC {
      return None, InvalidFirstByte;
    }
    var total := Uint32(4 + 1);
    if available <= total {
      return None, NeedMoreData;
    }
    var msize := Value32(Word(bytes[1], bytes[2], bytes[3], bytes[4]));
    SizesAreExact(msize);
    total := Uint32(total + SizeT(msize + 4));
    if available < total {
      return None, NeedMoreData;
    }
    StartsFrameIffChecksum(bytes);
    var at := SizeT(total - 4);
    var stored := Word(bytes[at], bytes[at + 1], bytes[at + 2], bytes[at + 3]);
    var computed := CalculateChecksum(bytes[..at]);
    if computed == stored {
      reason := NoFailure;
      var payloadSize := Int32(SizeT(total - 4 * 2 - 1));
      item := Some(BaseProtocol(bytes[1 + 4..1 + 4 + payloadSize]));
    } else {
      item := None;
      reason := InvalidChecksum;
    }
  }
}
