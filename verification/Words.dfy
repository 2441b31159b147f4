/**
 The numbers that 32-bit and 64-bit words denote.  A word for a given number is built
 digit by digit; its contract makes it the only word with that value.
 */
module Words {

  const UINT32_RANGE := 0x1_0000_0000
  const UINT64_RANGE := 0x1_0000_0000_0000_0000

  function Value32(w: bv32): (n: nat)
    ensures n < UINT32_RANGE
  {
    w as nat
  }

  lemma TopBitClear32(w: bv32)
    requires w as nat < UINT32_RANGE / 2
    ensures w >> 31 == 0
  {
  }

  lemma ShiftInZero32(w: bv32)
    requires w >> 31 == 0
    ensures (w << 1) as nat == 2 * (w as nat)
  {
  }

  lemma ShiftInOne32(w: bv32)
    requires w >> 31 == 0
    ensures ((w << 1) | 1) as nat == 2 * (w as nat) + 1
  {
  }

  lemma DoubleValue32(w: bv32)
    requires Value32(w) < UINT32_RANGE / 2
    ensures Value32(w << 1) == 2 * Value32(w)
    ensures Value32((w << 1) | 1) == 2 * Value32(w) + 1
  {
    TopBitClear32(w);
    ShiftInZero32(w);
    ShiftInOne32(w);
  }

  function Word32(n: nat): (w: bv32)
    requires n < UINT32_RANGE
    ensures Value32(w) == n
  {
    if n == 0 then 0
    else
      var half := Word32(n / 2);
      DoubleValue32(half);
      if n % 2 == 0 then half << 1 else (half << 1) | 1
  }

  lemma WordOfValue32(w: bv32)
    ensures Value32(w) as bv32 == w
  {
  }

  lemma Value32Injective(v: bv32, w: bv32)
    requires Value32(v) == Value32(w)
    ensures v == w
  {
    hide Value32;
    WordOfValue32(v);
    WordOfValue32(w);
  }

  lemma Word32OfValue(w: bv32)
    ensures Word32(Value32(w)) == w
  {
    hide Value32, Word32;
    Value32Injective(Word32(Value32(w)), w);
  }

  function Value64(w: bv64): (n: nat)
    ensures n < UINT64_RANGE
  {
    w as nat
  }

  lemma TopBitClear64(w: bv64)
    requires w as nat < UINT64_RANGE / 2
    ensures w >> 63 == 0
  {
  }

  lemma ShiftInZero64(w: bv64)
    requires w >> 63 == 0
    ensures (w << 1) as nat == 2 * (w as nat)
  {
  }

  lemma ShiftInOne64(w: bv64)
    requires w >> 63 == 0
    ensures ((w << 1) | 1) as nat == 2 * (w as nat) + 1
  {
  }

  lemma DoubleValue64(w: bv64)
    requires Value64(w) < UINT64_RANGE / 2
    ensures Value64(w << 1) == 2 * Value64(w)
    ensures Value64((w << 1) | 1) == 2 * Value64(w) + 1
  {
    TopBitClear64(w);
    ShiftInZero64(w);
    ShiftInOne64(w);
  }

  function Word64(n: nat): (w: bv64)
    requires n < UINT64_RANGE
    ensures Value64(w) == n
  {
    if n == 0 then 0
    else
      var half := Word64(n / 2);
      DoubleValue64(half);
      if n % 2 == 0 then half << 1 else (half << 1) | 1
  }

  // ----- the order of words is the order of their values -----

  predicate AtMost(v: bv64, w: bv64) {
    v <= w
  }

  function Half(w: bv64): bv64 {
    w >> 1
  }

  predicate IsOdd(w: bv64) {
    w & 1 == 1
  }

  lemma HalfOfWord64(w: bv64)
    ensures (w >> 1) >> 63 == 0
    ensures w & 1 == 1 ==> ((w >> 1) << 1) | 1 == w
    ensures w & 1 != 1 ==> (w >> 1) << 1 == w
  {
  }

  lemma ShiftValue64(w: bv64)
    requires w >> 63 == 0
    ensures Value64(w << 1) == 2 * Value64(w) && Value64((w << 1) | 1) == 2 * Value64(w) + 1
  {
    ShiftInZero64(w);
    ShiftInOne64(w);
  }

  lemma HalfValue64(w: bv64)
    ensures Value64(w) == 2 * Value64(Half(w)) + (if IsOdd(w) then 1 else 0)
  {
    hide Value64;
    HalfOfWord64(w);
    ShiftValue64(w >> 1);
  }

  lemma HalfOrder(v: bv64, w: bv64)
    requires AtMost(v, w)
    ensures AtMost(Half(v), Half(w)) && (Half(v) == Half(w) && IsOdd(v) ==> IsOdd(w))
  {
  }

  lemma WordOfValue64(w: bv64)
    ensures Value64(w) as bv64 == w
  {
  }

  lemma Value64Injective(v: bv64, w: bv64)
    requires Value64(v) == Value64(w)
    ensures v == w
  {
    hide Value64;
    WordOfValue64(v);
    WordOfValue64(w);
  }

  lemma ZeroIsLeast(v: bv64, w: bv64)
    requires AtMost(v, w) && Value64(w) == 0
    ensures Value64(v) == 0
  {
  }

  lemma {:induction false} OrderOfValues(v: bv64, w: bv64)
    requires AtMost(v, w)
    ensures Value64(v) <= Value64(w)
    decreases Value64(w)
  {
    hide Value64, AtMost, Half, IsOdd;
    if Value64(w) == 0 {
      ZeroIsLeast(v, w);
    } else {
      HalfValue64(v);
      HalfValue64(w);
      HalfOrder(v, w);
      OrderOfValues(Half(v), Half(w));
      if Value64(Half(v)) == Value64(Half(w)) {
        Value64Injective(Half(v), Half(w));
      }
    }
  }

  lemma OrderIsTotal(v: bv64, w: bv64)
    ensures AtMost(v, v) && (AtMost(v, w) || AtMost(w, v))
  {
  }

  lemma ValuesOrderWords(v: bv64, w: bv64)
    requires Value64(v) <= Value64(w)
    ensures AtMost(v, w)
  {
    hide Value64, AtMost;
    OrderIsTotal(v, w);
    if AtMost(w, v) {
      OrderOfValues(w, v);
      Value64Injective(v, w);
    }
  }
}
