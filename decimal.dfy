/**
 * The fallback decimal layer of the runtime, used when no decimal
 * floating-point library is present.
 *
 * A `d128_t` is two unsigned 64-bit words; without the library the
 * arithmetic on it is plain 128-bit unsigned integer arithmetic,
 * high word first in comparisons.  Multiplication, division, parsing,
 * the decimal math functions and most conversions are stubs.  The d32 and
 * d64 types are the bit patterns of a `float` and a `double`: the
 * conversions between the two are reinterpretations of the same storage.
 */
module Decimal {

  const TwoTo64: int := 0x1_0000_0000_0000_0000
  const TwoTo128: int := 0x1_0000_0000_0000_0000_0000_0000_0000_0000

  type UInt32 = x: int | 0 <= x < 0x1_0000_0000
  type UInt64 = x: int | 0 <= x < 0x1_0000_0000_0000_0000

  /** d128_t: the low word and the high word. */
  datatype D128 = D128(low: UInt64, high: UInt64)

  /** The storage of a `float` and of a `double`: nothing but their bits. */
  datatype Float32 = Float32(bits: UInt32)
  datatype Float64 = Float64(bits: UInt64)

  /** The unsigned 128-bit integer a d128_t holds: high * 2^64 + low. */
  function Value(d: D128): (v: int)
    ensures 0 <= v < TwoTo128
  {
    d.high * TwoTo64 + d.low
  }

  /** Unsigned 64-bit wrap-around. */
  function Wrap64(v: int): (w: UInt64)
    ensures (w - v) % TwoTo64 == 0
  {
    v % TwoTo64
  }

  const Zero := D128(0, 0)

  /** Distinct words give distinct values, and every 128-bit value has one d128_t. */
  lemma ValueInjective(a: D128, b: D128)
    requires Value(a) == Value(b)
    ensures a == b
  {
  }

  /** The d128_t holding v, for 0 <= v < 2^128. */
  function FromValue(v: int): (d: D128)
    requires 0 <= v < TwoTo128
    ensures Value(d) == v
  {
    D128(v % TwoTo64, v / TwoTo64)
  }

  // ---------------------------------------------------------------------------
  // Arithmetic
  // ---------------------------------------------------------------------------

  /** d128_add: add the low words, then the high words plus the carry out of the low ones. */
  function Add(a: D128, b: D128): (r: D128)
    ensures Value(r) == (Value(a) + Value(b)) % TwoTo128
  {
    var low := Wrap64(a.low + b.low);
    var high := Wrap64(a.high + b.high + (if low < a.low then 1 else 0));
    var r := D128(low, high);
    AddValue(a, b, r);
    r
  }

  lemma AddValue(a: D128, b: D128, r: D128)
    requires r.low == Wrap64(a.low + b.low)
    requires r.high == Wrap64(a.high + b.high + (if r.low < a.low then 1 else 0))
    ensures Value(r) == (Value(a) + Value(b)) % TwoTo128
  {
    var c := if a.low + b.low >= TwoTo64 then 1 else 0;
    assert r.low == a.low + b.low - c * TwoTo64;
    assert (r.low < a.low) <==> c == 1;
    var s := a.high + b.high + c;
    var k := if s >= TwoTo64 then 1 else 0;
    assert r.high == s - k * TwoTo64;
    assert Value(r) == Value(a) + Value(b) - k * TwoTo128;
    ModuloOfShifted(Value(a) + Value(b), k, Value(r));
  }

  /** d128_sub: subtract the low words, then the high words and the borrow. */
  function Sub(a: D128, b: D128): (r: D128)
    ensures Value(r) == (Value(a) - Value(b)) % TwoTo128
  {
    var low := Wrap64(a.low - b.low);
    var high := Wrap64(a.high - b.high - (if a.low < b.low then 1 else 0));
    var r := D128(low, high);
    SubValue(a, b, r);
    r
  }

  lemma SubValue(a: D128, b: D128, r: D128)
    requires r.low == Wrap64(a.low - b.low)
    requires r.high == Wrap64(a.high - b.high - (if a.low < b.low then 1 else 0))
    ensures Value(r) == (Value(a) - Value(b)) % TwoTo128
  {
    var c := if a.low < b.low then 1 else 0;
    assert r.low == a.low - b.low + c * TwoTo64;
    var s := a.high - b.high - c;
    var k := if s < 0 then 1 else 0;
    assert r.high == s + k * TwoTo64;
    assert Value(r) == Value(a) - Value(b) + k * TwoTo128;
    ModuloOfShifted(Value(a) - Value(b), -k, Value(r));
  }

  /** A value in [0, 2^128) that differs from v by a multiple of 2^128 is v mod 2^128. */
  lemma ModuloOfShifted(v: int, k: int, w: int)
    requires 0 <= w < TwoTo128
    requires w == v - k * TwoTo128
    ensures w == v % TwoTo128
  {
    var q := v / TwoTo128;
    assert v == q * TwoTo128 + v % TwoTo128;
    assert w - v % TwoTo128 == (q - k) * TwoTo128;
  }

  /** Subtraction undoes addition and addition undoes subtraction. */
  lemma SubUndoesAdd(a: D128, b: D128)
    ensures Sub(Add(a, b), b) == a
    ensures Add(Sub(a, b), b) == a
  {
    var s := Add(a, b);
    ModuloOfShifted(Value(s) - Value(b), (Value(s) - Value(b) - Value(a)) / TwoTo128, Value(a))
      by { SumDifference(Value(a), Value(b), Value(s)); }
    ValueInjective(Sub(s, b), a);
    var d := Sub(a, b);
    ModuloOfShifted(Value(d) + Value(b), (Value(d) + Value(b) - Value(a)) / TwoTo128, Value(a))
      by { DifferenceSum(Value(a), Value(b), Value(d)); }
    ValueInjective(Add(d, b), a);
  }

  lemma SumDifference(a: int, b: int, s: int)
    requires 0 <= a < TwoTo128 && 0 <= b < TwoTo128
    requires s == (a + b) % TwoTo128
    ensures s - b - a == ((s - b - a) / TwoTo128) * TwoTo128
  {
    if a + b >= TwoTo128 {
      assert s == a + b - TwoTo128;
    } else {
      assert s == a + b;
    }
  }

  lemma DifferenceSum(a: int, b: int, d: int)
    requires 0 <= a < TwoTo128 && 0 <= b < TwoTo128
    requires d == (a - b) % TwoTo128
    ensures d + b - a == ((d + b - a) / TwoTo128) * TwoTo128
  {
    if a - b < 0 {
      assert d == a - b + TwoTo128;
    } else {
      assert d == a - b;
    }
  }

  /** Addition is commutative. */
  lemma AddCommutes(a: D128, b: D128)
    ensures Add(a, b) == Add(b, a)
  {
    ValueInjective(Add(a, b), Add(b, a));
  }

  /** Zero is the identity of addition and subtraction. */
  lemma ZeroIsIdentity(a: D128)
    ensures Add(a, Zero) == a && Sub(a, Zero) == a
  {
    ValueInjective(Add(a, Zero), a);
    ValueInjective(Sub(a, Zero), a);
  }

  /** 2^128 − 1 plus one wraps to zero: the carry out of the high word is dropped. */
  lemma AddWrapsAround()
    ensures Add(D128(TwoTo64 - 1, TwoTo64 - 1), D128(1, 0)) == Zero
    ensures Add(D128(TwoTo64 - 1, 0), D128(1, 0)) == D128(0, 1)
    ensures Sub(Zero, D128(1, 0)) == D128(TwoTo64 - 1, TwoTo64 - 1)
  {
  }

  /** d128_mul: a stub, zero whatever the operands. */
  function Mul(a: D128, b: D128): (r: D128)
    ensures Value(r) == 0
  {
    D128(0, 0)
  }

  /** d128_div: a stub, zero whatever the operands (division by zero included). */
  function Div(a: D128, b: D128): (r: D128)
    ensures Value(r) == 0
  {
    D128(0, 0)
  }

  /** d128_from_string: a stub, zero whatever the text. */
  function FromString(str: string): (r: D128)
    ensures Value(r) == 0
  {
    D128(0, 0)
  }

  /** The stubs do not look at their inputs. */
  lemma StubsIgnoreInputs(a: D128, b: D128, c: D128, d: D128, s: string, t: string)
    ensures Mul(a, b) == Mul(c, d) == Zero
    ensures Div(a, b) == Div(c, d) == Zero
    ensures FromString(s) == FromString(t) == Zero
  {
  }

  // ---------------------------------------------------------------------------
  // Comparison
  // ---------------------------------------------------------------------------

  /** d128_cmp: the high words decide, and the low words break a tie. */
  function Cmp(a: D128, b: D128): (r: int)
    ensures r == -1 || r == 0 || r == 1
    ensures r == -1 <==> Value(a) < Value(b)
    ensures r == 0 <==> a == b
    ensures r == 1 <==> Value(a) > Value(b)
  {
    var r := if a.high < b.high then -1
      else if a.high > b.high then 1
      else if a.low < b.low then -1
      else if a.low > b.low then 1
      else 0;
    CmpOrder(a, b);
    r
  }

  /** Lexicographic order on (high, low) is the numeric order of the values. */
  lemma CmpOrder(a: D128, b: D128)
    ensures a.high < b.high ==> Value(a) < Value(b)
    ensures a.high == b.high ==> (Value(a) < Value(b) <==> a.low < b.low)
  {
    if a.high < b.high {
      assert Value(a) < (a.high + 1) * TwoTo64 <= Value(b);
    }
  }

  /** Swapping the operands negates the result; every value equals itself. */
  lemma CmpAntisymmetric(a: D128, b: D128)
    ensures Cmp(a, b) == -Cmp(b, a)
    ensures Cmp(a, a) == 0
  {
  }

  lemma CmpTransitive(a: D128, b: D128, c: D128)
    requires Cmp(a, b) <= 0 && Cmp(b, c) <= 0
    ensures Cmp(a, c) <= 0
  {
  }

  // ---------------------------------------------------------------------------
  // Math functions
  // ---------------------------------------------------------------------------

  /** The six d128 math functions, each a stub. */
  datatype MathOp = Sqrt | Abs | Ceil | Floor | Round | Trunc

  /** rf_d128_sqrt, rf_d128_abs, rf_d128_ceil, rf_d128_floor, rf_d128_round, rf_d128_trunc. */
  function Math(op: MathOp, x: D128): (r: D128)
    ensures Value(r) == Value(x)
  {
    x
  }

  /** Each stub returns its argument, so applying it twice is applying it once. */
  lemma MathIdempotent(op: MathOp, op': MathOp, x: D128)
    ensures Math(op, Math(op', x)) == Math(op', x) == x
  {
    ValueInjective(Math(op', x), x);
  }

  // ---------------------------------------------------------------------------
  // Conversions
  // ---------------------------------------------------------------------------

  /** rf_d64_to_d128: the 64-bit word becomes the low word. */
  function D64ToD128(x: UInt64): (r: D128)
    ensures Value(r) == x
  {
    D128(x, 0)
  }

  /** rf_d128_to_d64: the low word, that is, the value modulo 2^64. */
  function D128ToD64(x: D128): (r: UInt64)
    ensures r == Value(x) % TwoTo64
  {
    x.low
  }

  lemma D64RoundTrip(x: UInt64, y: D128)
    ensures D128ToD64(D64ToD128(x)) == x
    ensures y.high == 0 ==> D64ToD128(D128ToD64(y)) == y
  {
  }

  /** rf_f32_to_d32: the bits of the float. */
  function F32ToD32(x: Float32): (r: UInt32)
    ensures Float32(r) == x
  {
    x.bits
  }

  /** rf_d32_to_f32: the float with those bits. */
  function D32ToF32(x: UInt32): (r: Float32)
    ensures r.bits == x
  {
    Float32(x)
  }

  /** rf_f64_to_d64: the bits of the double. */
  function F64ToD64(x: Float64): (r: UInt64)
    ensures Float64(r) == x
  {
    x.bits
  }

  /** rf_d64_to_f64: the double with those bits. */
  function D64ToF64(x: UInt64): (r: Float64)
    ensures r.bits == x
  {
    Float64(x)
  }

  /** Reinterpretation loses nothing in either direction. */
  lemma ReinterpretRoundTrips(f: Float32, w: UInt32, g: Float64, v: UInt64)
    ensures D32ToF32(F32ToD32(f)) == f && F32ToD32(D32ToF32(w)) == w
    ensures D64ToF64(F64ToD64(g)) == g && F64ToD64(D64ToF64(v)) == v
  {
  }

  /** rf_f32_to_d128: a stub. */
  function F32ToD128(x: Float32): (r: D128)
    ensures Value(r) == 0
  {
    D128(0, 0)
  }

  /** rf_f64_to_d128: a stub. */
  function F64ToD128(x: Float64): (r: D128)
    ensures Value(r) == 0
  {
    D128(0, 0)
  }

  /** rf_d32_to_d128: a stub. */
  function D32ToD128(x: UInt32): (r: D128)
    ensures Value(r) == 0
  {
    D128(0, 0)
  }

  /** rf_d128_to_f32: a stub returning the bits of 0.0f. */
  function D128ToF32(x: D128): (r: Float32)
    ensures r.bits == 0
  {
    Float32(0)
  }

  /** rf_d128_to_f64: a stub returning the bits of 0.0. */
  function D128ToF64(x: D128): (r: Float64)
    ensures r.bits == 0
  {
    Float64(0)
  }

  /** rf_d128_to_d32: a stub. */
  function D128ToD32(x: D128): (r: UInt32)
    ensures r == 0
  {
    0
  }

  /** The zero stubs lose every value but zero: only zero survives a trip through d128. */
  lemma ConversionStubsLoseValues(f: Float32, w: UInt32)
    ensures D128ToF32(F32ToD128(f)) == f <==> f.bits == 0
    ensures D128ToD32(D32ToD128(w)) == w <==> w == 0
  {
  }
}
