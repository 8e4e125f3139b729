/**
 * Half precision (IEEE 754-2008 binary16) support of the runtime: the software
 * conversions between binary32 and binary16 bit patterns, and the operations
 * that work on the 16-bit pattern alone (classification, sign manipulation,
 * equality, the NaN guards of the ordered comparisons, min and max).
 *
 * A binary16 value is its `uint16_t` pattern, a `bv16`; a `float` is its
 * binary32 pattern, a `bv32`, as the source reads it through a union.
 * The C predicates return an `int32_t` that is 0 or 1; here they are `bool`.
 * The rebiased exponent of the conversion to binary16 is computed in
 * `uint32_t` and stored in an `int32_t`; for exponents below the bias that
 * conversion is implementation-defined in C, and it is taken to be the
 * two's-complement reduction that the targets of the runtime perform.
 */
module F16 {

  /** Layout constants of binary16 (section 3.6 of IEEE 754-2008: 1 sign bit, 5 exponent bits with bias 15, 10 fraction bits). */
  const SignMask: bv16 := 0x8000
  const ExpMask: bv16 := 0x7C00
  const MantMask: bv16 := 0x03FF
  const QuietNaN: bv16 := 0x7E00
  const PosInf: bv16 := 0x7C00
  const NegInf: bv16 := 0xFC00
  const PosZero: bv16 := 0x0000
  const NegZero: bv16 := 0x8000
  const EpsilonBits: bv16 := 0x1400
  const MinPositiveBits: bv16 := 0x0400
  const MaxValueBits: bv16 := 0x7BFF

  // ---------------------------------------------------------------------------
  // Classification (rf_f16_isnan ... rf_f16_signbit)
  // ---------------------------------------------------------------------------

  predicate IsNaN(x: bv16) { x & ExpMask == ExpMask && x & MantMask != 0 }

  predicate IsInf(x: bv16) { x & !SignMask == PosInf }

  predicate IsFinite(x: bv16) { x & ExpMask != ExpMask }

  predicate IsNormal(x: bv16) {
    var exp := (x & ExpMask) >> 10;
    exp > 0 && exp < 31
  }

  predicate IsZero(x: bv16) { x & !SignMask == 0 }

  predicate SignBit(x: bv16) { x & SignMask != 0 }

  /** Nonzero patterns with exponent field 0; the source has no predicate of its own for them. */
  predicate IsSubnormal(x: bv16) { x & ExpMask == 0 && x & MantMask != 0 }

  /** Every pattern is exactly one of NaN, infinity, zero, subnormal or normal. */
  lemma ClassesPartition(x: bv16)
    ensures IsNaN(x) || IsInf(x) || IsZero(x) || IsSubnormal(x) || IsNormal(x)
    ensures IsNaN(x) ==> !IsInf(x) && !IsZero(x) && !IsSubnormal(x) && !IsNormal(x)
    ensures IsInf(x) ==> !IsZero(x) && !IsSubnormal(x) && !IsNormal(x)
    ensures IsZero(x) ==> !IsSubnormal(x) && !IsNormal(x)
    ensures IsSubnormal(x) ==> !IsNormal(x)
  {
  }

  /** isfinite holds exactly when neither isnan nor isinf does. */
  lemma FiniteIffNotNaNOrInf(x: bv16)
    ensures IsFinite(x) <==> !IsNaN(x) && !IsInf(x)
  {
  }

  // ---------------------------------------------------------------------------
  // Special values (rf_f16_nan ... rf_f16_max_value)
  // ---------------------------------------------------------------------------

  function NaN(): (x: bv16)
    ensures IsNaN(x) && !SignBit(x)
  {
    QuietNaN
  }

  function Inf(): (x: bv16)
    ensures IsInf(x) && !SignBit(x)
  {
    PosInf
  }

  function NegativeInf(): (x: bv16)
    ensures IsInf(x) && SignBit(x)
  {
    NegInf
  }

  /** 2^-10, the gap between 1.0 (0x3C00) and the next pattern. */
  function Epsilon(): (x: bv16)
    ensures IsNormal(x) && !SignBit(x)
    ensures Widen(x) == 0x3A80_0000
  {
    EpsilonBits
  }

  /** 2^-14: the least positive normal pattern. */
  function MinPositive(): (x: bv16)
    ensures IsNormal(x) && !SignBit(x)
    ensures forall y: bv16 :: IsNormal(y) ==> y & !SignMask >= x
  {
    MinPositiveBits
  }

  /** 65504: the greatest finite pattern. */
  function MaxValue(): (x: bv16)
    ensures IsFinite(x) && IsNormal(x) && !SignBit(x)
    ensures forall y: bv16 :: IsFinite(y) ==> y & !SignMask <= x
    ensures Widen(x) == 0x477F_E000
  {
    MaxValueBits
  }

  // ---------------------------------------------------------------------------
  // Sign operations (rf_f16_neg, rf_f16_abs, rf_f16_copysign)
  // ---------------------------------------------------------------------------

  function Neg(x: bv16): (r: bv16)
    ensures SignBit(r) == !SignBit(x)
    ensures r & !SignMask == x & !SignMask
  {
    x ^ SignMask
  }

  function Abs(x: bv16): (r: bv16)
    ensures !SignBit(r)
    ensures r & !SignMask == x & !SignMask
  {
    x & !SignMask
  }

  function CopySign(x: bv16, y: bv16): (r: bv16)
    ensures SignBit(r) == SignBit(y)
    ensures r & !SignMask == x & !SignMask
  {
    (x & !SignMask) | (y & SignMask)
  }

  lemma NegInvolutive(x: bv16)
    ensures Neg(Neg(x)) == x
  {
  }

  /** The class of a pattern depends only on its magnitude, the bits below the sign. */
  lemma ClassOfMagnitude(x: bv16, y: bv16)
    requires x & !SignMask == y & !SignMask
    ensures IsNaN(x) == IsNaN(y) && IsInf(x) == IsInf(y) && IsZero(x) == IsZero(y)
    ensures IsNormal(x) == IsNormal(y) && IsSubnormal(x) == IsSubnormal(y) && IsFinite(x) == IsFinite(y)
  {
    MagnitudeFields(x, y);
    ClassOfFields(x, y);
  }

  lemma ClassOfFields(x: bv16, y: bv16)
    requires x & ExpMask == y & ExpMask && x & MantMask == y & MantMask
    requires x & !SignMask == y & !SignMask
    ensures IsNaN(x) == IsNaN(y) && IsInf(x) == IsInf(y) && IsZero(x) == IsZero(y)
    ensures IsNormal(x) == IsNormal(y) && IsSubnormal(x) == IsSubnormal(y) && IsFinite(x) == IsFinite(y)
  {
  }

  lemma MagnitudeFields(x: bv16, y: bv16)
    requires x & !SignMask == y & !SignMask
    ensures x & ExpMask == y & ExpMask && x & MantMask == y & MantMask
  {
  }

  /** neg, abs and copysign change only the sign, so never the class of a pattern. */
  lemma NegKeepsClass(x: bv16)
    ensures IsNaN(Neg(x)) == IsNaN(x) && IsInf(Neg(x)) == IsInf(x) && IsZero(Neg(x)) == IsZero(x)
    ensures IsNormal(Neg(x)) == IsNormal(x) && IsSubnormal(Neg(x)) == IsSubnormal(x)
  {
    ClassOfMagnitude(Neg(x), x);
  }

  lemma AbsKeepsClass(x: bv16)
    ensures IsNaN(Abs(x)) == IsNaN(x) && IsInf(Abs(x)) == IsInf(x) && IsZero(Abs(x)) == IsZero(x)
    ensures IsNormal(Abs(x)) == IsNormal(x) && IsSubnormal(Abs(x)) == IsSubnormal(x)
  {
    ClassOfMagnitude(Abs(x), x);
  }

  lemma CopySignKeepsClass(x: bv16, y: bv16)
    ensures IsNaN(CopySign(x, y)) == IsNaN(x) && IsInf(CopySign(x, y)) == IsInf(x)
    ensures IsZero(CopySign(x, y)) == IsZero(x) && IsNormal(CopySign(x, y)) == IsNormal(x)
    ensures IsSubnormal(CopySign(x, y)) == IsSubnormal(x)
  {
    ClassOfMagnitude(CopySign(x, y), x);
  }

  lemma AbsOfNeg(x: bv16)
    ensures Abs(Neg(x)) == Abs(x)
  {
  }

  lemma AbsIdempotent(x: bv16)
    ensures Abs(Abs(x)) == Abs(x)
  {
  }

  /** copysign with a non-negative sign source is abs. */
  lemma CopySignSpecialCases(x: bv16)
    ensures CopySign(x, PosZero) == Abs(x)
  {
  }

  /** Copying a pattern's own sign changes nothing. */
  lemma CopySignOwnSign(x: bv16)
    ensures CopySign(x, x) == x
  {
  }

  // ---------------------------------------------------------------------------
  // binary32 patterns
  // ---------------------------------------------------------------------------

  /*
   * In the lemmas below, (f >> 23) & 0xFF is the biased 8-bit exponent field
   * of a binary32 pattern f and f & 0x7FFF_FFFF its magnitude; they are
   * written out rather than named because the solver handles the bit-vector
   * terms far more cheaply than calls of helper functions.
   */

  predicate F32IsNaN(f: bv32) { f & 0x7FFF_FFFF > 0x7F80_0000 }

  /** The low 16 bits of a 32-bit word: the C cast `(uint16_t)`. */
  function Low16(w: bv32): bv16 { (w & 0xFFFF) as bv16 }

  // ---------------------------------------------------------------------------
  // rf_f16_from_f32
  // ---------------------------------------------------------------------------

  /**
   * The binary16 pattern that rf_f16_from_f32 returns for the binary32
   * pattern f. The source rebiases the exponent into an `int32_t`,
   * exp = e8 - 127 + 15, where e8 is the 8-bit exponent field; every test
   * on exp is written here on e8 itself: exp <= 0 is e8 <= 112, exp < -10 is
   * e8 < 102, the subnormal shift 1 - exp is 113 - e8, exp >= 31 is
   * e8 >= 143, and the exponent stored in the result is e8 - 112.
   */
  function FromF32(f: bv32): (h: bv16)
  {
    var sign := (f >> 16) & 0x8000;
    var e8 := (f >> 23) & 0xFF;
    var mant := (f >> 13) & 0x3FF;
    if f & 0x7FFF_FFFF == 0 then
      Low16(sign)
    else if e8 <= 112 then
      if e8 < 102 then Low16(sign)
      else Low16(sign | ((mant | 0x400) >> (113 - e8)))
    else if e8 >= 143 then
      if f & 0x7FFF_FFFF > 0x7F80_0000 then Low16(sign | 0x7E00 | (mant >> 3))
      else Low16(sign | 0x7C00)
    else
      var roundBit := (f >> 12) & 1;
      var sticky := f & 0x0FFF != 0;
      if roundBit != 0 && (sticky || mant & 1 != 0) then
        var mant' := mant + 1;
        if mant' > 0x3FF then
          var exp' := e8 - 112 + 1;
          if exp' >= 31 then Low16(sign | 0x7C00)
          else Low16(sign | (exp' << 10) | 0)
        else Low16(sign | ((e8 - 112) << 10) | mant')
      else Low16(sign | ((e8 - 112) << 10) | mant)
  }

  /**
   * The source's `int32_t` exponent exp = e8 - 127 + 15 (f16_functions.c:42;
   * the `uint32_t` difference wraps for e8 < 112, and its conversion to
   * `int32_t` is read as two's complement, giving the integer e8 - 112),
   * computed on the integers, passes each of its tests exactly when the e8 test that
   * FromF32 uses holds, and the shift and stored exponent agree with it.
   */
  lemma RebiasedExponent(f: bv32)
    ensures var e8 := (f >> 23) & 0xFF; var exp := (((f >> 23) & 0xFF) as bv8) as int - 127 + 15;
      && (((f >> 23) & 0xFF) as bv8) as bv32 == e8
      && (exp <= 0 <==> e8 <= 112) && (exp < -10 <==> e8 < 102) && (exp >= 31 <==> e8 >= 143)
      && (-10 <= exp <= 0 ==> (113 - e8) as int == 1 - exp)
      && (0 < exp < 31 ==> (e8 - 112) as int == exp)
  {
  }

  /** Every return path of FromF32 carries the sign bit of its input. */
  lemma FromF32KeepsSign(f: bv32)
    ensures FromF32(f) & 0x8000 == Low16((f >> 16) & 0x8000)
  {
  }

  /** A rebiased exponent below -10 (and a zero or binary32 subnormal input with it) gives a signed zero. */
  lemma FromF32Flushes(f: bv32)
    requires ((f >> 23) & 0xFF) < 102
    ensures FromF32(f) == Low16((f >> 16) & 0x8000)
  {
  }

  /**
   * A rebiased exponent in [-10, 0] gives exponent field 0, and the fraction
   * field is the 24-bit significand (hidden bit included) shifted right so
   * that its unit is 2^-24: the value truncated toward zero, not rounded.
   */
  lemma FromF32Subnormal(f: bv32)
    requires 102 <= ((f >> 23) & 0xFF) <= 112
    ensures FromF32(f) & 0x7C00 == 0
    ensures FromF32(f) & 0x3FF == Low16((((f & 0x7F_FFFF) | 0x80_0000) >> (126 - ((f >> 23) & 0xFF))) & 0x3FF)
  {
    var e8 := (f >> 23) & 0xFF;
    if e8 == 102 {} else if e8 == 103 {} else if e8 == 104 {} else if e8 == 105 {}
    else if e8 == 106 {} else if e8 == 107 {} else if e8 == 108 {} else if e8 == 109 {}
    else if e8 == 110 {} else if e8 == 111 {} else {}
  }

  /**
   * Any binary32 NaN gives a binary16 quiet NaN of the same sign whose
   * low seven fraction bits are the top seven bits of the binary32
   * fraction and whose fraction bits 7-8 are zero.
   */
  lemma FromF32NaN(f: bv32)
    requires F32IsNaN(f)
    ensures IsNaN(FromF32(f)) && FromF32(f) & 0x0200 != 0
    ensures FromF32(f) == Low16(((f >> 16) & 0x8000) | 0x7E00 | (((f >> 13) & 0x3FF) >> 3))
    ensures FromF32(f) & 0x7F == Low16((f >> 16) & 0x7F) && FromF32(f) & 0x0180 == 0
  {
  }

  /** A non-NaN input whose rebiased exponent is 31 or more overflows to infinity of its sign. */
  lemma FromF32Overflows(f: bv32)
    requires !F32IsNaN(f) && ((f >> 23) & 0xFF) >= 143
    ensures FromF32(f) == Low16((f >> 16) & 0x8000) | 0x7C00
    ensures IsInf(FromF32(f))
  {
  }

  /**
   * roundTiesToEven (section 4.3.1 of IEEE 754-2008) on the 13 fraction bits
   * that binary16 drops: round up when they exceed half a unit in the last
   * kept place, or equal it and the kept part is odd.
   */
  predicate RoundsUp(f: bv32) {
    f & 0x1FFF > 0x1000 || (f & 0x1FFF == 0x1000 && f & 0x2000 != 0)
  }

  /**
   * In the normal range the result is the input magnitude, rebased and cut
   * to 13 fewer fraction bits, plus one unit when RoundsUp holds. A carry
   * out of the fraction bumps the exponent, and a carry into exponent 31
   * gives infinity.
   */
  lemma FromF32Rounds(f: bv32)
    requires 113 <= ((f >> 23) & 0xFF) <= 142
    ensures FromF32(f) == Low16((f >> 16) & 0x8000) | Low16((((f & 0x7FFF_FFFF) - 0x3800_0000) >> 13) + (if RoundsUp(f) then 1 else 0))
  {
    var e8 := ((f >> 23) & 0xFF);
    var mant := (f >> 13) & 0x3FF;
    RoundsUpIsRoundBitAndSticky(f);
    TruncatedFields(f);
    if !RoundsUp(f) {
      RoundKept(f);
    } else if mant != 0x3FF {
      RoundUpInPlace(f);
    } else if e8 < 142 {
      RoundUpCarries(f);
    } else {
      RoundUpToInf(f);
    }
  }

  /** RoundsUp is the source's test: round bit set, and sticky bits or an odd kept part. */
  lemma RoundsUpIsRoundBitAndSticky(f: bv32)
    ensures RoundsUp(f) <==> (f >> 12) & 1 != 0 && (f & 0x0FFF != 0 || (f >> 13) & 1 != 0)
  {
  }

  /** Rebasing the magnitude and dropping 13 bits leaves exponent e8 - 112 over the 10 kept fraction bits. */
  lemma TruncatedFields(f: bv32)
    requires 113 <= ((f >> 23) & 0xFF) <= 142
    ensures ((f & 0x7FFF_FFFF) - 0x3800_0000) >> 13 == ((((f >> 23) & 0xFF) - 112) << 10) | ((f >> 13) & 0x3FF)
  {
  }

  lemma RoundKept(f: bv32)
    requires 113 <= ((f >> 23) & 0xFF) <= 142 && !((f >> 12) & 1 != 0 && (f & 0x0FFF != 0 || (f >> 13) & 1 != 0))
    ensures FromF32(f) == Low16(((f >> 16) & 0x8000) | ((((f >> 23) & 0xFF) - 112) << 10) | ((f >> 13) & 0x3FF))
  {
  }

  lemma RoundUpInPlace(f: bv32)
    requires 113 <= ((f >> 23) & 0xFF) <= 142 && (f >> 12) & 1 != 0 && (f & 0x0FFF != 0 || (f >> 13) & 1 != 0)
    requires (f >> 13) & 0x3FF != 0x3FF
    ensures FromF32(f) == Low16(((f >> 16) & 0x8000) | ((((f >> 23) & 0xFF) - 112) << 10) | (((f >> 13) & 0x3FF) + 1))
  {
  }

  lemma RoundUpCarries(f: bv32)
    requires 113 <= ((f >> 23) & 0xFF) < 142 && (f >> 12) & 1 != 0
    requires (f >> 13) & 0x3FF == 0x3FF
    ensures FromF32(f) == Low16((f >> 16) & 0x8000) | Low16((((((f >> 23) & 0xFF) - 112) << 10) | 0x3FF) + 1)
  {
  }

  lemma RoundUpToInf(f: bv32)
    requires ((f >> 23) & 0xFF) == 142 && (f >> 12) & 1 != 0
    requires (f >> 13) & 0x3FF == 0x3FF
    ensures FromF32(f) == Low16((f >> 16) & 0x8000) | Low16((((((f >> 23) & 0xFF) - 112) << 10) | 0x3FF) + 1)
  {
  }

  /** 65504.0f, the largest finite binary16 value, converts exactly. */
  lemma FromF32Largest()
    ensures FromF32(0x477F_E000) == MaxValueBits
  {
  }

  /** 65520.0f lies halfway between 65504 and the next binary16 step and rounds up to infinity. */
  lemma FromF32OverflowByRounding()
    ensures FromF32(0x477F_F000) == PosInf
  {
  }

  /** A tie with an even kept part stays (1 + 2^-11 gives 1.0); with an odd kept part it rounds up. */
  lemma FromF32Ties()
    ensures FromF32(0x3F80_1000) == 0x3C00
    ensures FromF32(0x3F80_3000) == 0x3C02
  {
  }

  /** Subnormal results truncate: (2 - 2^-10) * 2^-15 would round to 2^-14, but gives 1023 * 2^-24. */
  lemma FromF32SubnormalTruncates()
    ensures FromF32(0x387F_E000) == 0x03FF
  {
  }

  // ---------------------------------------------------------------------------
  // rf_f16_to_f32
  // ---------------------------------------------------------------------------

  /** m shifted left by n places, n <= 10: the shifts that normalising a binary16 subnormal can need. */
  function ShiftedBy(m: bv32, n: bv32): bv32
    requires n <= 10
  {
    if n == 0 then m
    else if n == 1 then m << 1
    else if n == 2 then m << 2
    else if n == 3 then m << 3
    else if n == 4 then m << 4
    else if n == 5 then m << 5
    else if n == 6 then m << 6
    else if n == 7 then m << 7
    else if n == 8 then m << 8
    else if n == 9 then m << 9
    else m << 10
  }

  lemma ShiftedByIsShift(m: bv32, n: bv32)
    requires n <= 10
    ensures ShiftedBy(m, n) == m << n
  {
    if n == 0 {} else if n == 1 {} else if n == 2 {} else if n == 3 {} else if n == 4 {}
    else if n == 5 {} else if n == 6 {} else if n == 7 {} else if n == 8 {} else if n == 9 {} else {}
  }

  lemma ShiftedByStep(m: bv32, n: bv32)
    requires n < 10
    ensures ShiftedBy(m, n) << 1 == ShiftedBy(m, n + 1)
  {
    if n == 0 {} else if n == 1 {} else if n == 2 {} else if n == 3 {} else if n == 4 {}
    else if n == 5 {} else if n == 6 {} else if n == 7 {} else if n == 8 {} else {}
  }

  /** How far a nonzero 10-bit fraction must move left for its leading one to reach bit 10. */
  function LeadingShift(m: bv32): (s: bv32)
    requires 0 < m < 0x400
    ensures 1 <= s <= 10
  {
    if m & 0x200 != 0 then 1
    else if m & 0x100 != 0 then 2
    else if m & 0x80 != 0 then 3
    else if m & 0x40 != 0 then 4
    else if m & 0x20 != 0 then 5
    else if m & 0x10 != 0 then 6
    else if m & 0x8 != 0 then 7
    else if m & 0x4 != 0 then 8
    else if m & 0x2 != 0 then 9
    else 10
  }

  /** Shifting by LeadingShift(m) is the first shift that sets bit 10. */
  lemma LeadingShiftSetsBit10(m: bv32, n: bv32)
    requires 0 < m < 0x400 && n <= LeadingShift(m)
    ensures ShiftedBy(m, n) & 0x400 != 0 <==> n == LeadingShift(m)
  {
  }

  /** The number n as an integer, for the n <= 10 steps of the normalisation loop. */
  function StepCount(n: bv32): (k: int)
    requires n <= 10
    ensures 0 <= k <= 10
  {
    if n == 0 then 0 else if n == 1 then 1 else if n == 2 then 2 else if n == 3 then 3
    else if n == 4 then 4 else if n == 5 then 5 else if n == 6 then 6 else if n == 7 then 7
    else if n == 8 then 8 else if n == 9 then 9 else 10
  }

  /**
   * The binary32 pattern of the value of binary16 pattern x, the result that
   * rf_f16_to_f32 promises: zero keeps its sign; a subnormal becomes a normal
   * binary32 value; exponent field 31 (infinity or NaN) becomes 255 with the
   * fraction moved up by 13 places; a normal value is rebiased from 15 to 127.
   */
  function Widen(x: bv16): bv32 {
    var sign := ((x as bv32) & 0x8000) << 16;
    var e := ((x & 0x7C00) >> 10) as bv32;
    var m := (x & 0x3FF) as bv32;
    if e == 0 && m == 0 then sign
    else if e == 0 then
      var s := LeadingShift(m);
      sign | ((113 - s) << 23) | ((ShiftedBy(m, s) & 0x3FF) << 13)
    else if e == 31 then sign | 0x7F80_0000 | (m << 13)
    else sign | ((e + 112) << 23) | (m << 13)
  }

  /**
   * The normalisation loop of rf_f16_to_f32 for a nonzero subnormal fraction m:
   * shift left until bit 10 is set, decrementing the `uint32_t` exponent,
   * which starts at 0 and so wraps below zero. The loop runs
   * LeadingShift(m) <= 10 times; LoopExponent relates the wrapped exponent
   * to the integer one.
   */
  method Normalize(m: bv32) returns (mant: bv32, exp: bv32)
    requires 0 < m < 0x400
    ensures mant == ShiftedBy(m, LeadingShift(m))
    ensures exp == 0 - LeadingShift(m)
  {
    mant, exp := m, 0;
    ghost var steps: bv32 := 0;
    while mant & 0x400 == 0
      invariant steps <= LeadingShift(m)
      invariant mant == ShiftedBy(m, steps)
      invariant exp == 0 - steps
      decreases LeadingShift(m) - steps
    {
      LeadingShiftSetsBit10(m, steps);
      ShiftedByStep(m, steps);
      mant := mant << 1;
      exp := exp - 1;
      steps := steps + 1;
    }
    LeadingShiftSetsBit10(m, steps);
  }

  /**
   * Read as integers, the exponent that Normalize leaves is the true
   * exponent -k modulo 2^32 (k = LeadingShift(m) is between 1 and 10), and
   * the exponent that rf_f16_to_f32 finally stores, exp + 1 - 15 + 127, is
   * 113 - k with no wrap-around left.
   */
  lemma LoopExponent(m: bv32)
    requires 0 < m < 0x400
    ensures var k := StepCount(LeadingShift(m));
      && 1 <= k <= 10
      && (0 - LeadingShift(m)) as int == (0 - k) % 0x1_0000_0000
      && (0 - LeadingShift(m) + 1 - 15 + 127) as int == 113 - k
  {
    var s := LeadingShift(m);
    if s == 1 {} else if s == 2 {} else if s == 3 {} else if s == 4 {} else if s == 5 {}
    else if s == 6 {} else if s == 7 {} else if s == 8 {} else if s == 9 {} else {}
  }

  lemma WidenSubnormal(x: bv16, s: bv32)
    requires x & 0x7C00 == 0 && x & 0x3FF != 0
    requires s == LeadingShift((x & 0x3FF) as bv32)
    ensures Widen(x) == (((x as bv32) & 0x8000) << 16)
      | ((0 - s + 1 - 15 + 127) << 23) | ((ShiftedBy((x & 0x3FF) as bv32, s) & 0x3FF) << 13)
  {
  }

  /** rf_f16_to_f32, with the float result given as its binary32 pattern. */
  method ToF32(x: bv16) returns (f: bv32)
    ensures f == Widen(x)
  {
    var sign := ((x as bv32) & 0x8000) << 16;
    var exp: bv32 := ((x & 0x7C00) >> 10) as bv32;
    var mant: bv32 := (x & 0x3FF) as bv32;
    if exp == 0 {
      if mant == 0 {
        return sign;
      }
      WidenSubnormal(x, LeadingShift(mant));
      mant, exp := Normalize(mant);
      exp := exp + 1;
      mant := mant & 0x3FF;
    } else if exp == 31 {
      return sign | 0x7F80_0000 | (mant << 13);
    }
    exp := exp - 15 + 127;
    f := sign | (exp << 23) | (mant << 13);
  }

  // ---------------------------------------------------------------------------
  // The two conversions are inverse on non-NaN patterns
  // ---------------------------------------------------------------------------

  /** Widening and narrowing again gives back every non-NaN binary16 pattern bit for bit. */
  lemma RoundTrip(x: bv16)
    requires !IsNaN(x)
    ensures FromF32(Widen(x)) == x
  {
    if x & 0x7FFF == 0 {
      RoundTripZero(x);
    } else if x & 0x7FFF == 0x7C00 {
      RoundTripInf(x);
    } else if x & 0x7C00 == 0 {
      RoundTripSubnormal(x);
    } else {
      RoundTripNormal(x);
    }
  }

  /** A NaN pattern comes back as a NaN (its payload may not survive). */
  lemma RoundTripNaN(x: bv16)
    requires IsNaN(x)
    ensures IsNaN(FromF32(Widen(x)))
  {
    WidenNaN(x);
    FromF32NaN(Widen(x));
  }

  lemma WidenNaN(x: bv16)
    requires IsNaN(x)
    ensures F32IsNaN(Widen(x))
  {
  }

  lemma RoundTripZero(x: bv16)
    requires x & 0x7FFF == 0
    ensures FromF32(Widen(x)) == x
  {
  }

  lemma RoundTripInf(x: bv16)
    requires x & 0x7FFF == 0x7C00
    ensures FromF32(Widen(x)) == x
  {
  }

  lemma RoundTripSubnormal(x: bv16)
    requires x & 0x7C00 == 0 && x & 0x3FF != 0
    ensures FromF32(Widen(x)) == x
  {
  }

  lemma RoundTripNormal(x: bv16)
    requires 0 < (x & 0x7C00) >> 10 < 31
    ensures FromF32(Widen(x)) == x
  {
    var f := (((x as bv32) & 0x8000) << 16) | ((((x & 0x7C00) >> 10) as bv32 + 112) << 23) | ((x & 0x3FF) as bv32 << 13);
    WidenNormal(x);
    NormalFieldsExponent(x, f);
    NormalFieldsLow(x, f);
    NormalFieldsBack(x, f);
    NormalExact(f);
  }

  lemma WidenNormal(x: bv16)
    requires 0 < (x & 0x7C00) >> 10 < 31
    ensures Widen(x) == (((x as bv32) & 0x8000) << 16) | ((((x & 0x7C00) >> 10) as bv32 + 112) << 23) | ((x & 0x3FF) as bv32 << 13)
  {
  }

  lemma NormalFieldsExponent(x: bv16, f: bv32)
    requires 0 < (x & 0x7C00) >> 10 < 31
    requires f == (((x as bv32) & 0x8000) << 16) | ((((x & 0x7C00) >> 10) as bv32 + 112) << 23) | ((x & 0x3FF) as bv32 << 13)
    ensures 113 <= (f >> 23) & 0xFF <= 142
  {
  }

  lemma NormalFieldsLow(x: bv16, f: bv32)
    requires f == (((x as bv32) & 0x8000) << 16) | ((((x & 0x7C00) >> 10) as bv32 + 112) << 23) | ((x & 0x3FF) as bv32 << 13)
    ensures f & 0x1FFF == 0
  {
  }

  lemma NormalFieldsBack(x: bv16, f: bv32)
    requires 0 < (x & 0x7C00) >> 10 < 31
    requires f == (((x as bv32) & 0x8000) << 16) | ((((x & 0x7C00) >> 10) as bv32 + 112) << 23) | ((x & 0x3FF) as bv32 << 13)
    ensures Low16(((f >> 16) & 0x8000) | ((((f >> 23) & 0xFF) - 112) << 10) | ((f >> 13) & 0x3FF)) == x
  {
  }

  /** A normal-range binary32 pattern whose 13 low bits are clear converts without rounding. */
  lemma NormalExact(f: bv32)
    requires 113 <= (f >> 23) & 0xFF <= 142 && f & 0x1FFF == 0
    ensures FromF32(f) == Low16(((f >> 16) & 0x8000) | ((((f >> 23) & 0xFF) - 112) << 10) | ((f >> 13) & 0x3FF))
  {
  }

  // ---------------------------------------------------------------------------
  // Comparisons (rf_f16_eq ... rf_f16_ge) and min/max
  // ---------------------------------------------------------------------------

  /** rf_f16_eq: NaN equals nothing, +0 equals -0, otherwise the patterns must match. */
  predicate Eq(a: bv16, b: bv16) {
    if IsNaN(a) || IsNaN(b) then false
    else if a & !SignMask == 0 && b & !SignMask == 0 then true
    else a == b
  }

  predicate Ne(a: bv16, b: bv16) { !Eq(a, b) }

  /** The magnitude of a binary32 pattern (all but the sign bit) as an integer. */
  function Magnitude(p: bv32): int
  {
    (p & 0x7FFF_FFFF) as int
  }

  predicate F32NotNaN(p: bv32) { !F32IsNaN(p) }

  /**
   * The float `<` of two binary32 patterns: false if either is a NaN or both
   * are zeros; otherwise sign-magnitude order (a negative value is below a
   * non-negative one, and among negative values the larger magnitude is the
   * lesser value).
   */
  predicate F32Less(p: bv32, q: bv32) {
    if !F32NotNaN(p) || !F32NotNaN(q) then false
    else if Magnitude(p) == 0 && Magnitude(q) == 0 then false
    else if p & 0x8000_0000 == 0 && q & 0x8000_0000 == 0 then Magnitude(p) < Magnitude(q)
    else if p & 0x8000_0000 != 0 && q & 0x8000_0000 != 0 then Magnitude(q) < Magnitude(p)
    else p & 0x8000_0000 != 0
  }

  /** The float `==` of two binary32 patterns: no NaN, and the same pattern or two zeros. */
  predicate F32Equal(p: bv32, q: bv32) {
    F32NotNaN(p) && F32NotNaN(q) && (p == q || (Magnitude(p) == 0 && Magnitude(q) == 0))
  }

  /** The float `<=`: less or equal. */
  predicate F32LessEq(p: bv32, q: bv32) { F32Less(p, q) || F32Equal(p, q) }

  /** rf_f16_lt: the NaN guard, then `<` on the widened values. */
  predicate Lt(a: bv16, b: bv16) {
    if IsNaN(a) || IsNaN(b) then false else F32Less(Widen(a), Widen(b))
  }

  predicate Le(a: bv16, b: bv16) {
    if IsNaN(a) || IsNaN(b) then false else F32LessEq(Widen(a), Widen(b))
  }

  predicate Gt(a: bv16, b: bv16) {
    if IsNaN(a) || IsNaN(b) then false else F32Less(Widen(b), Widen(a))
  }

  predicate Ge(a: bv16, b: bv16) {
    if IsNaN(a) || IsNaN(b) then false else F32LessEq(Widen(b), Widen(a))
  }

  /** rf_f16_min: a NaN operand yields the other one; otherwise the lesser, y on a tie. */
  function Min(x: bv16, y: bv16): (r: bv16)
    ensures r == x || r == y
  {
    if IsNaN(x) then y
    else if IsNaN(y) then x
    else if Lt(x, y) then x else y
  }

  /** rf_f16_max: a NaN operand yields the other one; otherwise the greater, y on a tie. */
  function Max(x: bv16, y: bv16): (r: bv16)
    ensures r == x || r == y
  {
    if IsNaN(x) then y
    else if IsNaN(y) then x
    else if Gt(x, y) then x else y
  }

  /** Every comparison but `ne` is false when an operand is NaN; so ne(nan, nan) holds. */
  lemma ComparisonsWithNaN(a: bv16, b: bv16)
    requires IsNaN(a) || IsNaN(b)
    ensures !Eq(a, b) && Ne(a, b)
    ensures !Lt(a, b) && !Le(a, b) && !Gt(a, b) && !Ge(a, b)
  {
  }

  lemma NeOfNaN()
    ensures Ne(NaN(), NaN())
  {
  }

  /** Two patterns with the same sign and the same magnitude are the same pattern. */
  lemma MagnitudeDetermines(p: bv32, q: bv32)
    requires Magnitude(p) == Magnitude(q) && p & 0x8000_0000 == q & 0x8000_0000
    ensures p == q
  {
    BackToBits(p & 0x7FFF_FFFF);
    BackToBits(q & 0x7FFF_FFFF);
    SameFieldsSamePattern(p, q);
  }

  lemma BackToBits(w: bv32)
    ensures (w as int) as bv32 == w
  {
  }

  lemma SameFieldsSamePattern(p: bv32, q: bv32)
    requires p & 0x7FFF_FFFF == q & 0x7FFF_FFFF && p & 0x8000_0000 == q & 0x8000_0000
    ensures p == q
  {
  }

  /** Widening keeps a zero a zero and a non-NaN a non-NaN. */
  lemma WidenZero(x: bv16)
    ensures Magnitude(Widen(x)) == 0 <==> x & 0x7FFF == 0
  {
    BackToBits(Widen(x) & 0x7FFF_FFFF);
    WidenZeroBits(x);
  }

  lemma WidenZeroBits(x: bv16)
    ensures Widen(x) & 0x7FFF_FFFF == 0 <==> x & 0x7FFF == 0
  {
  }

  lemma WidenKeepsNonNaN(x: bv16)
    requires !IsNaN(x)
    ensures F32NotNaN(Widen(x))
  {
  }

  /** Widening is one-to-one on non-NaN patterns: it has FromF32 as a left inverse. */
  lemma WidenInjective(a: bv16, b: bv16)
    requires !IsNaN(a) && !IsNaN(b) && Widen(a) == Widen(b)
    ensures a == b
  {
    RoundTrip(a);
    RoundTrip(b);
  }

  /** rf_f16_eq agrees with float equality of the widened values. */
  lemma EqIsWidenedEquality(a: bv16, b: bv16)
    ensures Eq(a, b) <==> F32Equal(Widen(a), Widen(b))
  {
    if !IsNaN(a) && !IsNaN(b) {
      WidenZero(a);
      WidenZero(b);
      WidenKeepsNonNaN(a);
      WidenKeepsNonNaN(b);
      if Widen(a) == Widen(b) {
        WidenInjective(a, b);
      }
    } else if IsNaN(a) {
      WidenNaN(a);
    } else {
      WidenNaN(b);
    }
  }

  /** On non-NaN binary32 patterns exactly one of <, == and > holds. */
  lemma F32Trichotomy(p: bv32, q: bv32)
    requires F32NotNaN(p) && F32NotNaN(q)
    ensures F32Less(p, q) || F32Equal(p, q) || F32Less(q, p)
    ensures !(F32Less(p, q) && F32Equal(p, q))
    ensures !(F32Less(q, p) && F32Equal(p, q))
    ensures !(F32Less(p, q) && F32Less(q, p))
  {
    F32Total(p, q);
    F32LessIrreflexive(p, q);
    F32LessIrreflexive(q, p);
    F32LessAsymmetric(p, q);
  }

  lemma F32Total(p: bv32, q: bv32)
    requires F32NotNaN(p) && F32NotNaN(q)
    ensures F32Less(p, q) || F32Equal(p, q) || F32Less(q, p)
  {
    if Magnitude(p) == Magnitude(q) && p & 0x8000_0000 == q & 0x8000_0000 {
      MagnitudeDetermines(p, q);
    }
  }

  lemma F32LessIrreflexive(p: bv32, q: bv32)
    ensures !(F32Less(p, q) && F32Equal(p, q))
  {
  }

  lemma F32LessAsymmetric(p: bv32, q: bv32)
    ensures !(F32Less(p, q) && F32Less(q, p))
  {
  }

  /** On non-NaN halves exactly one of lt, eq and gt holds. */
  lemma Trichotomy(a: bv16, b: bv16)
    requires !IsNaN(a) && !IsNaN(b)
    ensures Lt(a, b) || Eq(a, b) || Gt(a, b)
    ensures !(Lt(a, b) && Eq(a, b)) && !(Gt(a, b) && Eq(a, b)) && !(Lt(a, b) && Gt(a, b))
  {
    WidenKeepsNonNaN(a);
    WidenKeepsNonNaN(b);
    F32Trichotomy(Widen(a), Widen(b));
    EqIsWidenedEquality(a, b);
  }

  /** le is lt or eq, ge is gt or eq, and gt is lt with the operands swapped. */
  lemma OrderedComparisonsAgree(a: bv16, b: bv16)
    ensures Le(a, b) <==> Lt(a, b) || Eq(a, b)
    ensures Ge(a, b) <==> Gt(a, b) || Eq(a, b)
    ensures Gt(a, b) <==> Lt(b, a)
  {
    EqIsWidenedEquality(a, b);
    EqIsWidenedEquality(b, a);
  }

  /** min(nan, y) is y and min(x, nan) is x; max likewise. */
  lemma MinMaxWithNaN(x: bv16, y: bv16)
    ensures IsNaN(x) ==> Min(x, y) == y && Max(x, y) == y
    ensures !IsNaN(x) && IsNaN(y) ==> Min(x, y) == x && Max(x, y) == x
  {
  }

  /** Without NaNs, min is at most both operands and max at least both. */
  lemma MinMaxBounds(x: bv16, y: bv16)
    requires !IsNaN(x) && !IsNaN(y)
    ensures Le(Min(x, y), x) && Le(Min(x, y), y)
    ensures Ge(Max(x, y), x) && Ge(Max(x, y), y)
  {
    Trichotomy(x, y);
    OrderedComparisonsAgree(x, y);
    OrderedComparisonsAgree(x, x);
    OrderedComparisonsAgree(y, y);
    OrderedComparisonsAgree(y, x);
    EqIsWidenedEquality(x, x);
    EqIsWidenedEquality(y, y);
    EqIsWidenedEquality(x, y);
    EqIsWidenedEquality(y, x);
  }
}
