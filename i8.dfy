/**
 * The `int8_t` arithmetic of the runtime under its three overflow policies:
 * wrapping (arithmetic modulo 256), saturating (clamp to the range) and
 * checked (wrapped value plus an overflow flag).
 *
 * Integers are mathematical here; every C conversion is written out.
 * Conversion to `int8_t` of an out-of-range value is taken to be the
 * two's-complement reduction that the targets of the runtime perform.
 */
module I8 {

  const Int8Min := -128
  const Int8Max := 127

  type Int8 = x: int | -128 <= x <= 127
  type UInt8 = x: int | 0 <= x <= 255
  type Int16 = x: int | -32768 <= x <= 32767

  /** rf_i8_result */
  datatype I8Result = I8Result(value: Int8, overflow: bool)

  /** The C conversion `(uint8_t)v`: reduction modulo 256. */
  function ToUInt8(v: int): (u: UInt8)
    ensures (u - v) % 256 == 0
  {
    v % 256
  }

  /** The conversion `(rf_i8)v`: the one `int8_t` value congruent to v modulo 256. */
  function ToInt8(v: int): (r: Int8)
    ensures (r - v) % 256 == 0
    ensures Int8Min <= v <= Int8Max ==> r == v
  {
    var u := v % 256;
    if u >= 128 then u - 256 else u
  }

  /** Two values in [-128, 127] that agree modulo 256 are equal: ToInt8 has one answer only. */
  lemma Int8Congruent(x: Int8, y: Int8)
    requires (x - y) % 256 == 0
    ensures x == y
  {
    var d := x - y;
    assert d == 256 * (d / 256);
  }

  function InRange(v: int): bool { Int8Min <= v <= Int8Max }

  // ---------------------------------------------------------------------------
  // Wrapping operations
  // ---------------------------------------------------------------------------

  /** rf_i8_add_wrap: add the `uint8_t` images and narrow back. */
  function AddWrap(a: Int8, b: Int8): (r: Int8)
    ensures (r - (a + b)) % 256 == 0
  {
    ToInt8(ToUInt8(a) + ToUInt8(b))
  }

  function SubWrap(a: Int8, b: Int8): (r: Int8)
    ensures (r - (a - b)) % 256 == 0
  {
    ToInt8(ToUInt8(a) - ToUInt8(b))
  }

  function MulWrap(a: Int8, b: Int8): (r: Int8)
    ensures (r - a * b) % 256 == 0
  {
    UInt8Product(a, b);
    ToInt8(ToUInt8(a) * ToUInt8(b))
  }

  /** The product of the `uint8_t` images agrees with the exact product modulo 256. */
  lemma UInt8Product(a: Int8, b: Int8)
    ensures (ToUInt8(a) * ToUInt8(b) - a * b) % 256 == 0
  {
    var ka := if a < 0 then 1 else 0;
    var kb := if b < 0 then 1 else 0;
    assert ToUInt8(a) == a + 256 * ka;
    assert ToUInt8(b) == b + 256 * kb;
    assert ToUInt8(a) * ToUInt8(b) - a * b == 256 * (a * kb + b * ka + 256 * ka * kb);
  }

  /** The wrapping results are the exact results reduced modulo 256 into [-128, 127]. */
  lemma WrapIsExactModulo256(a: Int8, b: Int8)
    ensures AddWrap(a, b) == ToInt8(a + b)
    ensures SubWrap(a, b) == ToInt8(a - b)
    ensures MulWrap(a, b) == ToInt8(a * b)
  {
    SameResidue(AddWrap(a, b), a + b);
    SameResidue(SubWrap(a, b), a - b);
    SameResidue(MulWrap(a, b), a * b);
  }

  /** An `int8_t` value congruent to v modulo 256 is ToInt8(v). */
  lemma SameResidue(r: Int8, v: int)
    requires (r - v) % 256 == 0
    ensures r == ToInt8(v)
  {
    var t := ToInt8(v);
    assert r - t == (r - v) - (t - v);
    assert (r - v) == 256 * ((r - v) / 256);
    assert (t - v) == 256 * ((t - v) / 256);
    assert (r - t) == 256 * ((r - v) / 256 - (t - v) / 256);
    assert (r - t) % 256 == 0;
    Int8Congruent(r, t);
  }

  /** Whenever the exact result fits, wrapping returns it unchanged. */
  lemma WrapExactWhenInRange(a: Int8, b: Int8)
    ensures InRange(a + b) ==> AddWrap(a, b) == a + b
    ensures InRange(a - b) ==> SubWrap(a, b) == a - b
    ensures InRange(a * b) ==> MulWrap(a, b) == a * b
  {
    WrapIsExactModulo256(a, b);
  }

  lemma AddWrapExamples()
    ensures AddWrap(127, 1) == -128 && SubWrap(-128, 1) == 127 && MulWrap(16, 16) == 0
  {
    WrapIsExactModulo256(127, 1);
    WrapIsExactModulo256(-128, 1);
    WrapIsExactModulo256(16, 16);
  }

  // ---------------------------------------------------------------------------
  // Saturating operations
  // ---------------------------------------------------------------------------

  function Distance(x: int, v: int): nat { if x < v then v - x else x - v }

  /** No `int8_t` value is closer to v than r. */
  predicate Nearest(r: Int8, v: int) {
    forall y: Int8 :: Distance(r, v) <= Distance(y, v)
  }

  /** rf_i8_add_saturate: the `int16_t` sum, clamped to the `int8_t` range. */
  function AddSaturate(a: Int8, b: Int8): (r: Int8)
    ensures InRange(a + b) ==> r == a + b
    ensures Nearest(r, a + b)
  {
    var result: Int16 := a + b;
    if result > Int8Max then Int8Max
    else if result < Int8Min then Int8Min
    else result
  }

  /** rf_i8_sub_saturate: the `int16_t` difference, clamped to the `int8_t` range. */
  function SubSaturate(a: Int8, b: Int8): (r: Int8)
    ensures InRange(a - b) ==> r == a - b
    ensures Nearest(r, a - b)
  {
    var result: Int16 := a - b;
    if result > Int8Max then Int8Max
    else if result < Int8Min then Int8Min
    else result
  }

  /** Out of range, saturation gives the bound on the side of the exact result. */
  lemma SaturateBounds(a: Int8, b: Int8)
    ensures a + b > Int8Max ==> AddSaturate(a, b) == Int8Max
    ensures a + b < Int8Min ==> AddSaturate(a, b) == Int8Min
    ensures a - b > Int8Max ==> SubSaturate(a, b) == Int8Max
    ensures a - b < Int8Min ==> SubSaturate(a, b) == Int8Min
  {
  }

  /** Saturation is monotone: a larger operand never gives a smaller sum. */
  lemma AddSaturateMonotone(a: Int8, a': Int8, b: Int8)
    requires a <= a'
    ensures AddSaturate(a, b) <= AddSaturate(a', b)
    ensures SubSaturate(b, a') <= SubSaturate(b, a)
  {
  }

  // ---------------------------------------------------------------------------
  // Checked operations
  // ---------------------------------------------------------------------------

  /** rf_i8_add_checked */
  function AddChecked(a: Int8, b: Int8): (res: I8Result)
    ensures res.overflow <==> !InRange(a + b)
    ensures !res.overflow ==> res.value == a + b
  {
    var temp: Int16 := a + b;
    I8Result(ToInt8(temp), temp > Int8Max || temp < Int8Min)
  }

  /** rf_i8_sub_checked */
  function SubChecked(a: Int8, b: Int8): (res: I8Result)
    ensures res.overflow <==> !InRange(a - b)
    ensures !res.overflow ==> res.value == a - b
  {
    var temp: Int16 := a - b;
    I8Result(ToInt8(temp), temp > Int8Max || temp < Int8Min)
  }

  /** rf_i8_mul_checked; the `int16_t` product cannot overflow, see ProductFitsInt16. */
  function MulChecked(a: Int8, b: Int8): (res: I8Result)
    ensures res.overflow <==> !InRange(a * b)
    ensures !res.overflow ==> res.value == a * b
  {
    ProductFitsInt16(a, b);
    var temp: Int16 := a * b;
    I8Result(ToInt8(temp), temp > Int8Max || temp < Int8Min)
  }

  /** The value a checked operation returns is always the wrapping result. */
  lemma CheckedValueIsWrap(a: Int8, b: Int8)
    ensures AddChecked(a, b).value == AddWrap(a, b)
    ensures SubChecked(a, b).value == SubWrap(a, b)
    ensures MulChecked(a, b).value == MulWrap(a, b)
  {
    WrapIsExactModulo256(a, b);
  }

  /** Checked and saturating operations agree whenever there is no overflow. */
  lemma CheckedAgreesWithSaturate(a: Int8, b: Int8)
    ensures !AddChecked(a, b).overflow ==> AddChecked(a, b).value == AddSaturate(a, b)
    ensures !SubChecked(a, b).overflow ==> SubChecked(a, b).value == SubSaturate(a, b)
  {
  }

  /** The `int16_t` intermediates never overflow: |a * b| <= 16384, |a ± b| <= 256. */
  lemma ProductFitsInt16(a: Int8, b: Int8)
    ensures -16256 <= a * b <= 16384
    ensures -256 <= a + b <= 254 && -255 <= a - b <= 255
  {
    ProductBounds(a, b);
  }

  lemma ProductBounds(a: int, b: int)
    requires -128 <= a <= 127 && -128 <= b <= 127
    ensures -16256 <= a * b <= 16384
  {
    if a >= 0 && b >= 0 {
      ScaledBound(a, b, 127, 127);
    } else if a < 0 && b < 0 {
      ScaledBound(-a, -b, 128, 128);
      assert a * b == (-a) * (-b);
    } else if a < 0 {
      ScaledBound(-a, b, 128, 127);
      assert a * b == -((-a) * b);
    } else {
      ScaledBound(a, -b, 127, 128);
      assert a * b == -(a * (-b));
    }
  }

  lemma ScaledBound(x: int, y: int, xMax: int, yMax: int)
    requires 0 <= x <= xMax && 0 <= y <= yMax
    ensures 0 <= x * y <= xMax * yMax
  {
    assert x * y <= xMax * y;
    assert xMax * y <= xMax * yMax;
  }
}
