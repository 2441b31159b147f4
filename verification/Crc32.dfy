/**
 The checksum of the frame trailer: CRC-32 of section 3.2.9 of IEEE 802.3, as
 `boost::crc_32_type` computes it (polynomial 0x04C11DB7, reflected input and
 output, initial remainder and final xor 0xFFFFFFFF).

 The register is a `bv32`, fed one byte at a time and shifted one bit at a time,
 so that the error-detection theorems are proved from the definition.  Facts that
 need bit-level reasoning are kept in small lemmas; the theorems built on them hide
 the bit-level definitions and reason by equality alone.
 */
module Crc32 {

  type Bytes = seq<bv8>

  const POLYNOMIAL: bv32 := 0x04C1_1DB7
  const REFLECTED_POLYNOMIAL: bv32 := 0xEDB8_8320
  const INITIAL: bv32 := 0xFFFF_FFFF
  const FINAL_XOR: bv32 := 0xFFFF_FFFF

  /** The register after a message followed by its own checksum, whatever the message. */
  const RESIDUE: bv32 := 0xDEBB_20E3

  function Xor(x: bv32, y: bv32): bv32 {
    x ^ y
  }

  /** One shift of the reflected register. */
  function ShiftBit(x: bv32): bv32 {
    if x & 1 == 1 then Xor(x >> 1, REFLECTED_POLYNOMIAL) else x >> 1
  }

  /** Eight shifts: the register has absorbed its low byte. */
  function ShiftByte(x: bv32): bv32 {
    ShiftBit(ShiftBit(ShiftBit(ShiftBit(ShiftBit(ShiftBit(ShiftBit(ShiftBit(x))))))))
  }

  function ShiftWord(x: bv32): bv32 {
    ShiftByte(ShiftByte(ShiftByte(ShiftByte(x))))
  }

  /** Byte `b` standing in byte lane `lane` of an otherwise zero word. */
  function Lane(b: bv8, lane: nat): bv32
    requires lane < 4
  {
    match lane
    case 0 => b as bv32
    case 1 => (b as bv32) << 8
    case 2 => (b as bv32) << 16
    case _ => (b as bv32) << 24
  }

  function Feed(register: bv32, b: bv8): bv32 {
    ShiftByte(Xor(register, Lane(b, 0)))
  }

  /** The register after the bytes of `s`, first byte first. */
  function Register(start: bv32, s: Bytes): bv32 {
    if s == [] then start else Feed(Register(start, s[..|s| - 1]), s[|s| - 1])
  }

  function Checksum(s: Bytes): bv32 {
    Xor(Register(INITIAL, s), FINAL_XOR)
  }

  /** Four bytes as a little-endian word; the lanes are disjoint, so exclusive or joins them. */
  function Word(b0: bv8, b1: bv8, b2: bv8, b3: bv8): bv32 {
    Xor(Xor(Xor(Lane(b0, 0), Lane(b1, 1)), Lane(b2, 2)), Lane(b3, 3))
  }

  /** A word as its four little-endian bytes, the memory order that `memcpy` copies. */
  function WordBytes(w: bv32): (r: Bytes)
    ensures |r| == 4
    ensures Word(r[0], r[1], r[2], r[3]) == w
  {
    [(w & 0xFF) as bv8, ((w >> 8) & 0xFF) as bv8, ((w >> 16) & 0xFF) as bv8, ((w >> 24) & 0xFF) as bv8]
  }

  lemma WordBytesOfWord(b0: bv8, b1: bv8, b2: bv8, b3: bv8)
    ensures WordBytes(Word(b0, b1, b2, b3)) == [b0, b1, b2, b3]
  {
  }

  // ----- exclusive or -----

  lemma XorIsCancellative(a: bv32, b: bv32, c: bv32)
    ensures Xor(a, c) == Xor(b, c) <==> a == b
    ensures Xor(c, a) == Xor(c, b) <==> a == b
  {
  }

  lemma XorTwice(x: bv32, y: bv32)
    ensures x ^ (x ^ y) == y
  {
  }

  lemma XorMovesAcross(x: bv32, y: bv32, z: bv32)
    ensures Xor(x, y) == z <==> Xor(x, z) == y
  {
    XorTwice(x, y);
    XorTwice(x, z);
    assert Xor(x, Xor(x, y)) == y && Xor(x, Xor(x, z)) == z;
    hide Xor;
  }

  lemma XorOfShifted(x: bv32, y: bv32)
    ensures (x ^ y) >> 1 == (x >> 1) ^ (y >> 1)
    ensures ((x ^ y) & 1 == 1) <==> ((x & 1 == 1) != (y & 1 == 1))
  {
  }

  lemma XorRegroups(a: bv32, b: bv32, p: bv32)
    ensures (a ^ b) ^ p == (a ^ p) ^ b == a ^ (b ^ p)
    ensures (a ^ p) ^ (b ^ p) == a ^ b
  {
  }

  lemma XorAssociative(x: bv32, y: bv32, z: bv32)
    ensures (x ^ y) ^ z == x ^ (y ^ z)
  {
  }

  lemma AssociativeXor(x: bv32, y: bv32, z: bv32)
    ensures Xor(Xor(x, y), z) == Xor(x, Xor(y, z))
  {
    XorAssociative(x, y, z);
  }

  lemma WordIsXorOfLanes(start: bv32, b0: bv8, b1: bv8, b2: bv8, b3: bv8)
    ensures Xor(Xor(Xor(Xor(start, Lane(b0, 0)), Lane(b1, 1)), Lane(b2, 2)), Lane(b3, 3))
         == Xor(start, Word(b0, b1, b2, b3))
  {
    hide Lane, Xor;
    var l0, l1, l2, l3 := Lane(b0, 0), Lane(b1, 1), Lane(b2, 2), Lane(b3, 3);
    AssociativeXor(start, l0, l1);
    AssociativeXor(start, Xor(l0, l1), l2);
    AssociativeXor(start, Xor(Xor(l0, l1), l2), l3);
  }

  // ----- the shift is linear and invertible -----

  lemma ShiftBitOfXor(x: bv32, y: bv32)
    ensures ShiftBit(x ^ y) == ShiftBit(x) ^ ShiftBit(y)
  {
    XorOfShifted(x, y);
    XorRegroups(x >> 1, y >> 1, REFLECTED_POLYNOMIAL);
  }

  lemma ShiftBitLinear(x: bv32, y: bv32)
    ensures ShiftBit(Xor(x, y)) == Xor(ShiftBit(x), ShiftBit(y))
  {
    hide ShiftBit;
    ShiftBitOfXor(x, y);
  }

  lemma ShiftByteLinear(x: bv32, y: bv32)
    ensures ShiftByte(Xor(x, y)) == Xor(ShiftByte(x), ShiftByte(y))
  {
    hide ShiftBit, Xor;
    var x1, y1 := ShiftBit(x), ShiftBit(y);
    var x2, y2 := ShiftBit(x1), ShiftBit(y1);
    var x3, y3 := ShiftBit(x2), ShiftBit(y2);
    var x4, y4 := ShiftBit(x3), ShiftBit(y3);
    var x5, y5 := ShiftBit(x4), ShiftBit(y4);
    var x6, y6 := ShiftBit(x5), ShiftBit(y5);
    var x7, y7 := ShiftBit(x6), ShiftBit(y6);
    ShiftBitLinear(x, y);
    ShiftBitLinear(x1, y1);
    ShiftBitLinear(x2, y2);
    ShiftBitLinear(x3, y3);
    ShiftBitLinear(x4, y4);
    ShiftBitLinear(x5, y5);
    ShiftBitLinear(x6, y6);
    ShiftBitLinear(x7, y7);
  }

  /** Undoes `ShiftBit`: the polynomial's own top bit tells which branch was taken. */
  function UnshiftBit(y: bv32): bv32 {
    if y >> 31 == 1 then ((y ^ REFLECTED_POLYNOMIAL) << 1) | 1 else y << 1
  }

  lemma UnshiftShiftBit(x: bv32)
    ensures UnshiftBit(ShiftBit(x)) == x
  {
  }

  lemma ShiftBitInjective(x: bv32, y: bv32)
    ensures ShiftBit(x) == ShiftBit(y) <==> x == y
  {
    hide ShiftBit, UnshiftBit;
    UnshiftShiftBit(x);
    UnshiftShiftBit(y);
  }

  lemma ShiftByteInjective(x: bv32, y: bv32)
    ensures ShiftByte(x) == ShiftByte(y) <==> x == y
  {
    hide ShiftBit;
    var x1, y1 := ShiftBit(x), ShiftBit(y);
    var x2, y2 := ShiftBit(x1), ShiftBit(y1);
    var x3, y3 := ShiftBit(x2), ShiftBit(y2);
    var x4, y4 := ShiftBit(x3), ShiftBit(y3);
    var x5, y5 := ShiftBit(x4), ShiftBit(y4);
    var x6, y6 := ShiftBit(x5), ShiftBit(y5);
    var x7, y7 := ShiftBit(x6), ShiftBit(y6);
    ShiftBitInjective(x, y);
    ShiftBitInjective(x1, y1);
    ShiftBitInjective(x2, y2);
    ShiftBitInjective(x3, y3);
    ShiftBitInjective(x4, y4);
    ShiftBitInjective(x5, y5);
    ShiftBitInjective(x6, y6);
    ShiftBitInjective(x7, y7);
  }

  lemma ShiftWordInjective(x: bv32, y: bv32)
    ensures ShiftWord(x) == ShiftWord(y) <==> x == y
  {
    hide ShiftByte;
    ShiftByteInjective(x, y);
    ShiftByteInjective(ShiftByte(x), ShiftByte(y));
    ShiftByteInjective(ShiftByte(ShiftByte(x)), ShiftByte(ShiftByte(y)));
    ShiftByteInjective(ShiftByte(ShiftByte(ShiftByte(x))), ShiftByte(ShiftByte(ShiftByte(y))));
  }

  // ----- four bytes are absorbed as one word -----

  /** A byte above the low lane only moves down one lane. */
  lemma HighLanesMoveDown(b: bv8)
    ensures ShiftByte(Lane(b, 1)) == Lane(b, 0)
    ensures ShiftByte(Lane(b, 2)) == Lane(b, 1)
    ensures ShiftByte(Lane(b, 3)) == Lane(b, 2)
  {
    hide ShiftByte, Lane;
    LaneOneMovesDown(b);
    LaneTwoMovesDown(b);
    LaneThreeMovesDown(b);
  }

  lemma LaneOneMovesDown(b: bv8)
    ensures ShiftByte(Lane(b, 1)) == Lane(b, 0)
  {
  }

  lemma LaneTwoMovesDown(b: bv8)
    ensures ShiftByte(Lane(b, 2)) == Lane(b, 1)
  {
  }

  lemma LaneThreeMovesDown(b: bv8)
    ensures ShiftByte(Lane(b, 3)) == Lane(b, 2)
  {
  }

  lemma RegisterOfOne(start: bv32, b: bv8)
    ensures Register(start, [b]) == Feed(start, b)
  {
    hide Feed;
    assert [b][..0] == [];
  }

  lemma RegisterOfFour(start: bv32, b0: bv8, b1: bv8, b2: bv8, b3: bv8)
    ensures Register(start, [b0, b1, b2, b3]) == Feed(Feed(Feed(Feed(start, b0), b1), b2), b3)
  {
    hide Feed;
    assert [b0, b1, b2, b3][..3] == [b0, b1, b2];
    assert [b0, b1, b2][..2] == [b0, b1];
    assert [b0, b1][..1] == [b0];
    assert [b0][..0] == [];
    assert Register(start, [b0]) == Feed(start, b0);
    assert Register(start, [b0, b1]) == Feed(Feed(start, b0), b1);
  }

  lemma FeedFourBytes(start: bv32, b0: bv8, b1: bv8, b2: bv8, b3: bv8)
    ensures Register(start, [b0, b1, b2, b3]) == ShiftWord(Xor(start, Word(b0, b1, b2, b3)))
  {
    hide Xor, ShiftByte, Word, Register, Lane;
    RegisterOfFour(start, b0, b1, b2, b3);
    // Each later byte is pulled in front of the shifts that precede it.
    var x0 := Xor(start, Lane(b0, 0));
    HighLanesMoveDown(b1);
    ShiftByteLinear(x0, Lane(b1, 1));
    var x1 := Xor(x0, Lane(b1, 1));
    HighLanesMoveDown(b2);
    ShiftByteLinear(x1, Lane(b2, 2));
    ShiftByteLinear(ShiftByte(x1), Lane(b2, 1));
    var x2 := Xor(x1, Lane(b2, 2));
    HighLanesMoveDown(b3);
    ShiftByteLinear(x2, Lane(b3, 3));
    ShiftByteLinear(ShiftByte(x2), Lane(b3, 2));
    ShiftByteLinear(ShiftByte(ShiftByte(x2)), Lane(b3, 1));
    WordIsXorOfLanes(start, b0, b1, b2, b3);
  }

  lemma {:induction false} RegisterAppend(start: bv32, a: Bytes, b: Bytes)
    ensures Register(start, a + b) == Register(Register(start, a), b)
  {
    hide Feed;
    if b == [] {
      assert a + b == a;
    } else {
      assert (a + b)[..|a + b| - 1] == a + b[..|b| - 1];
      RegisterAppend(start, a, b[..|b| - 1]);
    }
  }

  // ----- theorems -----

  /** Over any bytes the register update is a bijection: different registers stay different. */
  lemma {:induction false} RegisterInjective(x: bv32, y: bv32, s: Bytes)
    ensures Register(x, s) == Register(y, s) <==> x == y
  {
    hide ShiftByte, Xor, Lane;
    if s != [] {
      var init, last := s[..|s| - 1], Lane(s[|s| - 1], 0);
      ShiftByteInjective(Xor(Register(x, init), last), Xor(Register(y, init), last));
      XorIsCancellative(Register(x, init), Register(y, init), last);
      RegisterInjective(x, y, init);
    }
  }

  /** Two different four-byte windows in the same surroundings never give the same register. */
  lemma BurstChangesRegister(start: bv32, before: Bytes, v: Bytes, w: Bytes, after: Bytes)
    requires |v| == |w| == 4
    ensures Register(start, before + v + after) == Register(start, before + w + after) <==> v == w
  {
    hide *;
    RegisterAppend(start, before + v, after);
    RegisterAppend(start, before + w, after);
    RegisterAppend(start, before, v);
    RegisterAppend(start, before, w);
    var x := Register(start, before);
    RegisterInjective(Register(x, v), Register(x, w), after);
    assert v == [v[0], v[1], v[2], v[3]] && w == [w[0], w[1], w[2], w[3]];
    FeedFourBytes(x, v[0], v[1], v[2], v[3]);
    FeedFourBytes(x, w[0], w[1], w[2], w[3]);
    var vw, ww := Word(v[0], v[1], v[2], v[3]), Word(w[0], w[1], w[2], w[3]);
    ShiftWordInjective(Xor(x, vw), Xor(x, ww));
    XorIsCancellative(vw, ww, x);
    WordBytesOfWord(v[0], v[1], v[2], v[3]);
    WordBytesOfWord(w[0], w[1], w[2], w[3]);
  }

  lemma ResidueIsShiftedFinalXor()
    ensures ShiftWord(FINAL_XOR) == RESIDUE
  {
    assert ShiftByte(0xFFFF_FFFF) == 0x2DFD_1072;
    assert ShiftByte(0x2DFD_1072) == 0xBE26_ED00;
    assert ShiftByte(0xBE26_ED00) == 0x00BE_26ED;
    assert ShiftByte(0x00BE_26ED) == 0xDEBB_20E3;
  }

  /** Four bytes after a message are its checksum exactly when the register ends at the residue. */
  lemma ChecksumMatchesIffResidue(s: Bytes, t: Bytes)
    requires |t| == 4
    ensures Checksum(s) == Word(t[0], t[1], t[2], t[3]) <==> Register(INITIAL, s + t) == RESIDUE
  {
    hide ShiftWord, Register, Xor, Word;
    var x, w := Register(INITIAL, s), Word(t[0], t[1], t[2], t[3]);
    RegisterAppend(INITIAL, s, t);
    assert t == [t[0], t[1], t[2], t[3]];
    FeedFourBytes(x, t[0], t[1], t[2], t[3]);
    ResidueIsShiftedFinalXor();
    ShiftWordInjective(Xor(x, w), FINAL_XOR);
    XorMovesAcross(x, FINAL_XOR, w);
  }

  // ----- agreement with the polynomial division of the standard -----

  /** Bit reversal, by exchanging ever larger neighbours. */
  function Reflect(x: bv32): bv32 {
    var x1 := ((x >> 1) & 0x5555_5555) | ((x & 0x5555_5555) << 1);
    var x2 := ((x1 >> 2) & 0x3333_3333) | ((x1 & 0x3333_3333) << 2);
    var x4 := ((x2 >> 4) & 0x0F0F_0F0F) | ((x2 & 0x0F0F_0F0F) << 4);
    var x8 := ((x4 >> 8) & 0x00FF_00FF) | ((x4 & 0x00FF_00FF) << 8);
    (x8 >> 16) | (x8 << 16)
  }

  /** One step of long division by the unreflected polynomial, highest power first. */
  function DivideBit(x: bv32): bv32 {
    if x >> 31 == 1 then Xor(x << 1, POLYNOMIAL) else x << 1
  }

  function DivideByte(x: bv32): bv32 {
    DivideBit(DivideBit(DivideBit(DivideBit(DivideBit(DivideBit(DivideBit(DivideBit(x))))))))
  }

  /** The remainder of the division, each byte entering lowest bit first at the top. */
  function Remainder(start: bv32, s: Bytes): bv32 {
    if s == [] then start
    else DivideByte(Xor(Remainder(start, s[..|s| - 1]), Reflect(Lane(s[|s| - 1], 0))))
  }

  lemma ReflectOfXor(x: bv32, y: bv32)
    ensures Reflect(x ^ y) == Reflect(x) ^ Reflect(y)
  {
  }

  lemma ReflectLinear(x: bv32, y: bv32)
    ensures Reflect(Xor(x, y)) == Xor(Reflect(x), Reflect(y))
  {
    hide Reflect;
    ReflectOfXor(x, y);
  }

  lemma ReflectOfShifted(x: bv32)
    ensures Reflect(x >> 1) == Reflect(x) << 1
    ensures Reflect(x) >> 31 == 1 <==> x & 1 == 1
    ensures Reflect(REFLECTED_POLYNOMIAL) == POLYNOMIAL
  {
  }

  lemma ReflectShiftBit(x: bv32)
    ensures Reflect(ShiftBit(x)) == DivideBit(Reflect(x))
  {
    hide Reflect, Xor;
    ReflectOfShifted(x);
    ReflectLinear(x >> 1, REFLECTED_POLYNOMIAL);
  }

  lemma ReflectShiftByte(x: bv32)
    ensures Reflect(ShiftByte(x)) == DivideByte(Reflect(x))
  {
    hide ShiftBit, DivideBit, Reflect;
    var x1 := ShiftBit(x);
    var x2 := ShiftBit(x1);
    var x3 := ShiftBit(x2);
    var x4 := ShiftBit(x3);
    var x5 := ShiftBit(x4);
    var x6 := ShiftBit(x5);
    var x7 := ShiftBit(x6);
    ReflectShiftBit(x);
    ReflectShiftBit(x1);
    ReflectShiftBit(x2);
    ReflectShiftBit(x3);
    ReflectShiftBit(x4);
    ReflectShiftBit(x5);
    ReflectShiftBit(x6);
    ReflectShiftBit(x7);
  }

  lemma {:induction false} RegisterIsReflectedRemainder(start: bv32, s: Bytes)
    ensures Reflect(Register(start, s)) == Remainder(Reflect(start), s)
  {
    hide ShiftByte, DivideByte, Reflect, Lane, Xor;
    if s != [] {
      var x, b := Register(start, s[..|s| - 1]), Lane(s[|s| - 1], 0);
      ReflectLinear(x, b);
      ReflectShiftByte(Xor(x, b));
      RegisterIsReflectedRemainder(start, s[..|s| - 1]);
    }
  }

  lemma ReflectTwice(x: bv32)
    ensures Reflect(Reflect(x)) == x
    ensures Reflect(INITIAL) == INITIAL
  {
  }

  /** The shift register computes the standard's reflected, complemented remainder. */
  lemma ChecksumIsPolynomialRemainder(s: Bytes)
    ensures Checksum(s) == Xor(Reflect(Remainder(INITIAL, s)), FINAL_XOR)
  {
    hide Reflect, Register, Remainder, Xor;
    RegisterIsReflectedRemainder(INITIAL, s);
    ReflectTwice(Register(INITIAL, s));
  }

  lemma RegisterOfNine(start: bv32, s: Bytes)
    requires |s| == 9
    ensures Register(start, s)
         == Feed(Feed(Feed(Feed(Feed(Feed(Feed(Feed(Feed(start, s[0]), s[1]), s[2]), s[3]), s[4]), s[5]), s[6]), s[7]), s[8])
  {
    hide Feed, Register;
    var a, b, c := [s[0], s[1], s[2], s[3]], [s[4], s[5], s[6], s[7]], [s[8]];
    assert s == a + b + c;
    RegisterAppend(start, a, b);
    RegisterAppend(start, a + b, c);
    RegisterOfFour(start, s[0], s[1], s[2], s[3]);
    RegisterOfFour(Register(start, a), s[4], s[5], s[6], s[7]);
    RegisterOfOne(Register(start, a + b), s[8]);
  }

  lemma FeedDigits1To3()
    ensures Feed(INITIAL, 0x31) == 0x7C23_1048
    ensures Feed(0x7C23_1048, 0x32) == 0xB0AC_BB32
    ensures Feed(0xB0AC_BB32, 0x33) == 0x77B7_9C2D
  {
  }

  lemma FeedDigits4To6()
    ensures Feed(0x77B7_9C2D, 0x34) == 0x641C_1F5C
    ensures Feed(0x641C_1F5C, 0x35) == 0x340A_C5E3
    ensures Feed(0x340A_C5E3, 0x36) == 0xF68D_2C9E
  {
  }

  lemma FeedDigits7To9()
    ensures Feed(0xF68D_2C9E, 0x37) == 0xAFFC_9660
    ensures Feed(0xAFFC_9660, 0x38) == 0x651F_2550
    ensures Feed(0x651F_2550, 0x39) == 0x340B_C6D9
  {
  }

  /** The check value the CRC-32 literature gives for the nine ASCII digits 1 to 9. */
  lemma ChecksumOfDigits(s: Bytes)
    requires s == [0x31, 0x32, 0x33, 0x34, 0x35, 0x36, 0x37, 0x38, 0x39]
    ensures Checksum(s) == 0xCBF4_3926
  {
    assert Xor(0x340B_C6D9, FINAL_XOR) == 0xCBF4_3926;
    FeedDigits1To3();
    FeedDigits4To6();
    FeedDigits7To9();
    hide Feed, Xor, Register;
    RegisterOfNine(INITIAL, s);
  }

  lemma FeedSampleFront()
    ensures Feed(INITIAL, 0x24) == 0x11FE_F4A3
    ensures Feed(0x11FE_F4A3, 0x04) == 0x48A3_C8BF
    ensures Feed(0x48A3_C8BF, 0x00) == 0x5B96_0DD5
  {
  }

  lemma FeedSampleMiddle()
    ensures Feed(0x5B96_0DD5, 0x00) == 0xF6E2_B056
    ensures Feed(0xF6E2_B056, 0x00) == 0x82FE_1671
    ensures Feed(0x82FE_1671, 0x74) == 0x70E8_0A99
  {
  }

  lemma FeedSampleBack()
    ensures Feed(0x70E8_0A99, 0x65) == 0xB47B_563D
    ensures Feed(0xB47B_563D, 0x73) == 0x91D0_17C1
    ensures Feed(0x91D0_17C1, 0x74) == 0xBB9A_9714
  {
  }

  /** The checksum of the nine bytes in front of the trailer of the frame for the payload "test". */
  lemma ChecksumOfSample(s: Bytes)
    requires s == [0x24, 0x04, 0x00, 0x00, 0x00, 0x74, 0x65, 0x73, 0x74]
    ensures Checksum(s) == 0x4465_68EB
  {
    assert Xor(0xBB9A_9714, FINAL_XOR) == 0x4465_68EB;
    FeedSampleFront();
    FeedSampleMiddle();
    FeedSampleBack();
    hide Feed, Xor, Register;
    RegisterOfNine(INITIAL, s);
  }
}
