/**
 * The fallback big-integer API of the runtime, used when no
 * arbitrary-precision library is present: an `rf_bigint` whose digit
 * pointer `dp` points at one heap cell holding a single `int64_t`.
 *
 * The cell is modelled as an optional value (`None` is a null `dp`); the
 * stub never lets two bigints share a cell.  Whether `malloc` succeeds is
 * a parameter, and so is the indeterminate content of a freshly allocated
 * cell.  Signed overflow is undefined behaviour in C, so the operations
 * that can overflow require that they do not.
 */
module BigIntStub {

  import opened Wrappers

  const Int64Min: int := -0x8000_0000_0000_0000
  const Int64Max: int := 0x7FFF_FFFF_FFFF_FFFF

  type Int64 = x: int | -0x8000_0000_0000_0000 <= x <= 0x7FFF_FFFF_FFFF_FFFF
  type UInt64 = x: int | 0 <= x <= 0xFFFF_FFFF_FFFF_FFFF
  type Int32 = x: int | -0x8000_0000 <= x <= 0x7FFF_FFFF
  type UInt32 = x: int | 0 <= x <= 0xFFFF_FFFF

  predicate IsInt64(v: int) { Int64Min <= v <= Int64Max }

  function Abs(v: int): nat { if v < 0 then -v else v }

  /** The sign field for a stored value: 1 for a negative value, else 0. */
  function SignOf(v: int): (s: Int32)
    ensures s == 1 <==> v < 0
    ensures s == 0 || s == 1
  {
    if v < 0 then 1 else 0
  }

  /** The `uint64_t` written into an `int64_t` cell, read back in two's complement. */
  function ToInt64(v: UInt64): (r: Int64)
    ensures (r - v) % 0x1_0000_0000_0000_0000 == 0
    ensures v <= Int64Max ==> r == v
  {
    if v <= Int64Max then v else v - 0x1_0000_0000_0000_0000
  }

  /** rf_bigint */
  class BigInt {
    var used: Int32
    var alloc: Int32
    var sign: Int32
    var dp: Option<Int64>

    /** A zero-filled struct, as `memset` leaves it. */
    constructor ()
      ensures used == 0 && alloc == 0 && sign == 0 && dp == None
    {
      used, alloc, sign, dp := 0, 0, 0, None;
    }

    /** rf_bigint_get_i64: the stored cell, or 0 for a null `dp`. */
    function Get(): (v: Int64)
      reads this
      ensures dp.Some? ==> v == dp.value
      ensures dp.None? ==> v == 0
    {
      if dp.Some? then dp.value else 0
    }

    /**
     * rf_bigint_set_i64: a new cell holding val (null when malloc fails),
     * `used` 1 and the sign of val; `alloc` is untouched.
     */
    method SetI64(val: Int64, mallocOk: bool) returns (status: int)
      modifies this
      ensures dp == (if mallocOk then Some(val) else None)
      ensures used == 1 && sign == SignOf(val) && alloc == old(alloc)
      ensures mallocOk ==> Get() == val
      ensures status == 0
    {
      if mallocOk {
        dp := Some(val);
      } else {
        dp := None;
      }
      used := 1;
      sign := SignOf(val);
      status := 0;
    }

    /** rf_bigint_set_u64: the bits of val in the cell, sign 0. */
    method SetU64(val: UInt64, mallocOk: bool) returns (status: int)
      modifies this
      ensures dp == (if mallocOk then Some(ToInt64(val)) else None)
      ensures used == 1 && sign == 0 && alloc == old(alloc)
      ensures mallocOk && val <= Int64Max ==> Get() == val
      ensures status == 0
    {
      if mallocOk {
        dp := Some(ToInt64(val));
      } else {
        dp := None;
      }
      used := 1;
      sign := 0;
      status := 0;
    }
  }

  /** Every field zero and `dp` null. */
  predicate IsCleared(a: BigInt)
    reads a
  {
    a.used == 0 && a.alloc == 0 && a.sign == 0 && a.dp == None
  }

  /** A cleared bigint reads as zero. */
  lemma ClearedIsZero(a: BigInt)
    requires IsCleared(a)
    ensures a.Get() == 0 && IsZero(a) && !IsNeg(a)
  {
  }

  /** rf_bigint_new: a zero-filled bigint, or null when malloc fails. */
  method New(mallocOk: bool) returns (a: BigInt?)
    ensures mallocOk <==> a != null
    ensures a != null ==> fresh(a) && IsCleared(a) && IsZero(a)
  {
    if mallocOk {
      a := new BigInt();
    } else {
      a := null;
    }
  }

  /** rf_bigint_init: zero-fill the struct (any previous cell is dropped). */
  method Init(a: BigInt) returns (status: int)
    modifies a
    ensures IsCleared(a) && IsZero(a)
    ensures status == 0
  {
    a.used, a.alloc, a.sign, a.dp := 0, 0, 0, None;
    status := 0;
  }

  /**
   * rf_bigint_copy as written: the three int fields are copied, and a new
   * cell is made only when src has one; when src has none, dest keeps its
   * own cell.  The new cell is assigned to dest before src's cell is read,
   * so copying a bigint onto itself reads the fresh cell (content `uninit`).
   */
  method Copy(dest: BigInt?, src: BigInt?, mallocOk: bool, uninit: Int64) returns (status: int)
    modifies dest
    ensures status == -1 <==> dest == null || src == null
    ensures status == -1 || status == 0
    ensures status == -1 ==> dest == null || unchanged(dest)
    ensures status == 0 ==>
      (dest.used == old(src.used) && dest.alloc == old(src.alloc) && dest.sign == old(src.sign))
    ensures status == 0 ==>
      dest.dp == (if old(src.dp).None? then old(dest.dp)
                  else if !mallocOk then None
                  else if dest == src then Some(uninit)
                  else old(src.dp))
    ensures status == 0 && dest != src ==> unchanged(src)
  {
    if dest == null || src == null {
      return -1;
    }
    dest.used := src.used;
    dest.alloc := src.alloc;
    dest.sign := src.sign;
    if src.dp.Some? {
      if mallocOk {
        dest.dp := Some(uninit);
        dest.dp := Some(src.dp.value);
      } else {
        dest.dp := None;
      }
    }
    status := 0;
  }

  /**
   * rf_bigint_copy as evidently intended: dest ends up reading the value
   * of src, a null cell included, and copying onto itself changes nothing.
   */
  method CopyCorrected(dest: BigInt?, src: BigInt?, mallocOk: bool) returns (status: int)
    modifies dest
    ensures status == -1 <==> dest == null || src == null
    ensures status == -1 || status == 0
    ensures status == -1 ==> dest == null || unchanged(dest)
    ensures status == 0 ==>
      (dest.used == old(src.used) && dest.alloc == old(src.alloc) && dest.sign == old(src.sign))
    ensures status == 0 ==>
      dest.dp == (if old(src.dp).Some? && !mallocOk && dest != src then None else old(src.dp))
    ensures status == 0 && (mallocOk || old(src.dp).None?) ==> dest.Get() == old(src.Get())
    ensures status == 0 && dest != src ==> unchanged(src)
  {
    if dest == null || src == null {
      return -1;
    }
    var cell := src.dp;
    dest.used := src.used;
    dest.alloc := src.alloc;
    dest.sign := src.sign;
    if cell.Some? && dest != src {
      if mallocOk {
        dest.dp := Some(cell.value);
      } else {
        dest.dp := None;
      }
    } else if cell.None? {
      dest.dp := None;
    }
    status := 0;
  }

  /** A copy from a bigint without a cell leaves dest reading its old value. */
  method CopyKeepsStaleValue() returns (destValue: int, srcValue: int)
    ensures destValue == 5 && srcValue == 0
  {
    var src := new BigInt();
    var dest := new BigInt();
    var s := dest.SetI64(5, true);
    s := Copy(dest, src, true, 0);
    destValue, srcValue := dest.Get(), src.Get();
  }

  /** Copying a bigint onto itself replaces its value by the fresh cell's content. */
  method SelfCopyLosesValue() returns (before: int, after: int)
    ensures before == 7 && after == 0
  {
    var a := new BigInt();
    var s := a.SetI64(7, true);
    before := a.Get();
    s := Copy(a, a, true, 0);
    after := a.Get();
  }

  /** The corrected copy, on the same two inputs, gives the intended values. */
  method CorrectedCopyExamples() returns (destValue: int, selfValue: int)
    ensures destValue == 0 && selfValue == 7
  {
    var src := new BigInt();
    var dest := new BigInt();
    var s := dest.SetI64(5, true);
    s := CopyCorrected(dest, src, true);
    destValue := dest.Get();
    var a := new BigInt();
    s := a.SetI64(7, true);
    s := CopyCorrected(a, a, true);
    selfValue := a.Get();
  }

  // ---------------------------------------------------------------------------
  // Reading and comparing
  // ---------------------------------------------------------------------------

  /** rf_bigint_cmp: -1, 0 or 1 by the order of the stored values. */
  function Cmp(a: BigInt, b: BigInt): (r: int)
    reads a, b
    ensures r == -1 || r == 0 || r == 1
    ensures r == -1 <==> a.Get() < b.Get()
    ensures r == 0 <==> a.Get() == b.Get()
    ensures r == 1 <==> a.Get() > b.Get()
  {
    var av := a.Get();
    var bv := b.Get();
    if av < bv then -1 else if av > bv then 1 else 0
  }

  /** rf_bigint_cmp_i64: the same order against a plain int64. */
  function CmpI64(a: BigInt, b: Int64): (r: int)
    reads a
    ensures r == -1 || r == 0 || r == 1
    ensures r == -1 <==> a.Get() < b
    ensures r == 0 <==> a.Get() == b
    ensures r == 1 <==> a.Get() > b
  {
    var av := a.Get();
    if av < b then -1 else if av > b then 1 else 0
  }

  /** rf_bigint_is_zero */
  predicate IsZero(a: BigInt)
    reads a
  {
    a.Get() == 0
  }

  /** rf_bigint_is_neg */
  predicate IsNeg(a: BigInt)
    reads a
  {
    a.Get() < 0
  }

  /** Comparing against a bigint and against its stored value agree; swapping negates. */
  lemma CmpConsistent(a: BigInt, b: BigInt)
    ensures CmpI64(a, b.Get()) == Cmp(a, b)
    ensures Cmp(a, b) == -Cmp(b, a)
    ensures Cmp(a, a) == 0
    ensures IsZero(a) <==> CmpI64(a, 0) == 0
    ensures IsNeg(a) <==> CmpI64(a, 0) == -1
  {
  }

  // ---------------------------------------------------------------------------
  // Truncating division
  // ---------------------------------------------------------------------------

  /** C's `/`: the quotient rounded toward zero. */
  function TruncDiv(a: int, b: int): int
    requires b != 0
  {
    if (a < 0) == (b < 0) then Abs(a) / Abs(b) else -(Abs(a) / Abs(b))
  }

  /** C's `%`: the remainder carries the dividend's sign. */
  function TruncRem(a: int, b: int): int
    requires b != 0
  {
    if a < 0 then -(Abs(a) % Abs(b)) else Abs(a) % Abs(b)
  }

  /** Truncating division and remainder fit together as C promises. */
  lemma TruncDivision(a: int, b: int)
    requires b != 0
    ensures TruncDiv(a, b) * b + TruncRem(a, b) == a
    ensures Abs(TruncRem(a, b)) < Abs(b)
    ensures TruncRem(a, b) == 0 || (TruncRem(a, b) < 0 <==> a < 0)
    ensures Abs(TruncDiv(a, b)) == Abs(a) / Abs(b)
  {
    var q := Abs(a) / Abs(b);
    var m := Abs(a) % Abs(b);
    assert Abs(a) == q * Abs(b) + m;
    if a < 0 && b < 0 {
      assert TruncDiv(a, b) * b == -(q * Abs(b));
    } else if a < 0 {
      assert TruncDiv(a, b) * b == -(q * Abs(b));
    } else if b < 0 {
      assert TruncDiv(a, b) * b == q * Abs(b);
    } else {
      assert TruncDiv(a, b) * b == q * Abs(b);
    }
  }

  /** The quotient fits in int64 except for INT64_MIN / -1; the remainder always does. */
  lemma TruncResultsFit(a: Int64, b: Int64)
    requires b != 0
    ensures !(a == Int64Min && b == -1) ==> IsInt64(TruncDiv(a, b))
    ensures IsInt64(TruncRem(a, b))
  {
    TruncDivision(a, b);
    QuotientBound(Abs(a), Abs(b));
  }

  lemma QuotientBound(n: nat, d: nat)
    requires d > 0
    ensures n / d <= n
    ensures d >= 2 ==> 2 * (n / d) <= n
  {
    var q := n / d;
    assert n == d * q + n % d;
    MulAtLeast(d, q, 1);
    if d >= 2 {
      MulAtLeast(d, q, 2);
    }
  }

  lemma MulAtLeast(d: int, q: nat, k: nat)
    requires d >= k
    ensures d * q >= k * q
  {
    assert d * q - k * q == (d - k) * q;
  }

  /** Both a signed quotient and remainder are as in C for the four sign cases. */
  lemma TruncExamples()
    ensures TruncDiv(7, 2) == 3 && TruncRem(7, 2) == 1
    ensures TruncDiv(-7, 2) == -3 && TruncRem(-7, 2) == -1
    ensures TruncDiv(7, -2) == -3 && TruncRem(7, -2) == 1
    ensures TruncDiv(-7, -2) == 3 && TruncRem(-7, -2) == -1
  {
  }

  // ---------------------------------------------------------------------------
  // Arithmetic into a result bigint
  // ---------------------------------------------------------------------------

  /**
   * rf_bigint_div: both operands are read first; the quotient is stored,
   * then the remainder (so when both outputs are one bigint, the remainder
   * wins).  Each store allocates a cell of its own: quotientOk and
   * remainderOk say whether each malloc succeeds.
   */
  method Div(quotient: BigInt, remainder: BigInt, a: BigInt, b: BigInt,
             quotientOk: bool, remainderOk: bool) returns (status: int)
    requires b.Get() != 0 && !(a.Get() == Int64Min && b.Get() == -1)
    modifies quotient, remainder
    ensures var r := TruncRem(old(a.Get()), old(b.Get()));
      && remainder.dp == (if remainderOk then Some(r) else None)
      && remainder.used == 1 && remainder.sign == SignOf(r) && remainder.alloc == old(remainder.alloc)
    ensures quotient != remainder ==>
      var q := TruncDiv(old(a.Get()), old(b.Get()));
      && quotient.dp == (if quotientOk then Some(q) else None)
      && quotient.used == 1 && quotient.sign == SignOf(q) && quotient.alloc == old(quotient.alloc)
    ensures !remainderOk ==> remainder.Get() == 0
    ensures status == 0
  {
    var av := a.Get();
    var bv := b.Get();
    TruncResultsFit(av, bv);
    var s := quotient.SetI64(TruncDiv(av, bv), quotientOk);
    s := remainder.SetI64(TruncRem(av, bv), remainderOk);
    status := 0;
  }

  /** rf_bigint_mod: the truncating remainder. */
  method Mod(result: BigInt, a: BigInt, b: BigInt, mallocOk: bool) returns (status: int)
    requires b.Get() != 0 && !(a.Get() == Int64Min && b.Get() == -1)
    modifies result
    ensures var r := TruncRem(old(a.Get()), old(b.Get()));
      && result.dp == (if mallocOk then Some(r) else None)
      && result.used == 1 && result.sign == SignOf(r) && result.alloc == old(result.alloc)
    ensures mallocOk ==> result.Get() == TruncRem(old(a.Get()), old(b.Get()))
    ensures !mallocOk ==> result.Get() == 0
    ensures status == 0
  {
    var av := a.Get();
    var bv := b.Get();
    TruncResultsFit(av, bv);
    status := result.SetI64(TruncRem(av, bv), mallocOk);
  }

  /** rf_bigint_neg */
  method Neg(result: BigInt, a: BigInt, mallocOk: bool) returns (status: int)
    requires a.Get() != Int64Min
    modifies result
    ensures result.dp == (if mallocOk then Some(-old(a.Get())) else None)
    ensures result.used == 1 && result.sign == SignOf(-old(a.Get())) && result.alloc == old(result.alloc)
    ensures mallocOk ==> result.Get() == -old(a.Get())
    ensures !mallocOk ==> result.Get() == 0
    ensures status == 0
  {
    status := result.SetI64(-a.Get(), mallocOk);
  }

  /** rf_bigint_abs */
  method AbsInto(result: BigInt, a: BigInt, mallocOk: bool) returns (status: int)
    requires a.Get() != Int64Min
    modifies result
    ensures result.dp == (if mallocOk then Some(Abs(old(a.Get()))) else None)
    ensures result.used == 1 && result.sign == 0 && result.alloc == old(result.alloc)
    ensures mallocOk ==> result.Get() == Abs(old(a.Get()))
    ensures !mallocOk ==> result.Get() == 0
    ensures status == 0
  {
    var v := a.Get();
    status := result.SetI64(if v < 0 then -v else v, mallocOk);
  }

  // ---------------------------------------------------------------------------
  // Power
  // ---------------------------------------------------------------------------

  /** b to the n, multiplied in the order of the loop: ((1 * b) * b) ... */
  function Power(b: int, n: nat): int
  {
    if n == 0 then 1 else Power(b, n - 1) * b
  }

  /** If the final power fits in int64, so does every earlier partial product. */
  lemma {:induction false} PowerPrefixFits(b: int, i: nat, n: nat)
    requires i <= n && IsInt64(Power(b, n))
    ensures IsInt64(Power(b, i))
    decreases n - i
  {
    if i < n {
      if b == 0 {
        PowerOfZero(i);
      } else if Abs(b) == 1 {
        PowerOfUnit(b, i);
      } else {
        PowerPrefixFits(b, i + 1, n);
        AbsGrows(Power(b, i), b);
      }
    }
  }

  lemma {:induction false} PowerOfUnit(b: int, i: nat)
    requires Abs(b) == 1
    ensures Abs(Power(b, i)) == 1
  {
    if i > 0 {
      PowerOfUnit(b, i - 1);
      assert Power(b, i) == Power(b, i - 1) * b;
    }
  }

  lemma PowerOfZero(i: nat)
    ensures Power(0, i) == (if i == 0 then 1 else 0)
  {
    if i > 0 {
      assert Power(0, i) == Power(0, i - 1) * 0;
    }
  }

  /** Multiplying by a factor of magnitude at least 2 at least doubles the magnitude. */
  lemma AbsGrows(p: int, b: int)
    requires Abs(b) >= 2
    ensures 2 * Abs(p) <= Abs(p * b)
  {
    AbsOfProduct(p, b);
    MulAtLeast(Abs(b), Abs(p), 2);
  }

  lemma AbsOfProduct(p: int, b: int)
    ensures Abs(p * b) == Abs(p) * Abs(b)
  {
    if p < 0 && b < 0 {
      assert p * b == (-p) * (-b);
    } else if p < 0 {
      assert p * b == -((-p) * b);
    } else if b < 0 {
      assert p * b == -(p * (-b));
    }
  }

  /**
   * rf_bigint_pow: `exp` multiplications by the base, starting from 1.
   * The loop overflows exactly when the final power does not fit in int64.
   */
  method Pow(result: BigInt, base: BigInt, exp: UInt32, mallocOk: bool) returns (status: int)
    requires IsInt64(Power(base.Get(), exp))
    modifies result
    ensures result.dp == (if mallocOk then Some(Power(old(base.Get()), exp)) else None)
    ensures result.used == 1 && result.sign == SignOf(Power(old(base.Get()), exp))
    ensures result.alloc == old(result.alloc)
    ensures mallocOk ==> result.Get() == Power(old(base.Get()), exp)
    ensures mallocOk && exp == 0 ==> result.Get() == 1
    ensures !mallocOk ==> result.Get() == 0
    ensures status == 0
  {
    var b := base.Get();
    var r: Int64 := 1;
    var i: UInt32 := 0;
    while i < exp
      invariant 0 <= i <= exp
      invariant r == Power(b, i)
      invariant result.alloc == old(result.alloc)
    {
      PowerPrefixFits(b, i + 1, exp);
      r := r * b;
      i := i + 1;
    }
    status := result.SetI64(r, mallocOk);
  }

  // ---------------------------------------------------------------------------
  // Greatest common divisor
  // ---------------------------------------------------------------------------

  /** d divides n (zero divides only zero). */
  predicate Divides(d: int, n: int) {
    if d == 0 then n == 0 else n % d == 0
  }

  /**
   * Euclid's loop on (a, b) never divides INT64_MIN by -1 and never negates
   * INT64_MIN at the end: the condition under which the C loop is defined.
   */
  predicate GcdDefined(a: Int64, b: Int64)
    decreases Abs(b)
  {
    if b == 0 then a != Int64Min
    else
      TruncResultsFit(a, b);
      TruncDivision(a, b);
      !(a == Int64Min && b == -1) && GcdDefined(b, TruncRem(a, b))
  }

  /** Inputs other than INT64_MIN always keep the loop defined. */
  lemma {:induction false} GcdDefinedWithoutMin(a: Int64, b: Int64)
    requires a != Int64Min && b != Int64Min
    ensures GcdDefined(a, b)
    decreases Abs(b)
  {
    if b != 0 {
      TruncResultsFit(a, b);
      TruncDivision(a, b);
      GcdDefinedWithoutMin(b, TruncRem(a, b));
    }
  }

  /** Multiples of d stay multiples of d when shifted by a multiple of d. */
  lemma DividesShift(d: int, x: int, y: int, q: int)
    requires Divides(d, y)
    ensures Divides(d, x) <==> Divides(d, x - q * y)
  {
    if d != 0 {
      var k := y / d;
      assert y == d * k;
      assert x - q * y == x + d * (-q * k);
      ModuloShift(x, d, -q * k);
    }
  }

  lemma ModuloShift(x: int, d: int, m: int)
    requires d != 0
    ensures (x + d * m) % d == x % d
  {
    var r := x % d;
    var s := x / d;
    assert x == d * s + r;
    assert x + d * m == d * (s + m) + r;
    DivisionUnique(x + d * m, d, s + m, r);
  }

  lemma DivisionUnique(n: int, d: int, q: int, r: int)
    requires d != 0 && 0 <= r < Abs(d) && n == d * q + r
    ensures n % d == r
  {
    var q' := n / d;
    var r' := n % d;
    assert d * q + r == d * q' + r';
    assert d * (q - q') == r' - r;
    if q != q' {
      AbsOfProduct(d, q - q');
      MulAtLeast(Abs(q - q'), Abs(d), 1);
    }
  }

  /** One step of Euclid's loop keeps the set of common divisors. */
  lemma EuclidStep(d: int, a: int, b: int)
    requires b != 0
    ensures Divides(d, a) && Divides(d, b) <==> Divides(d, b) && Divides(d, TruncRem(a, b))
  {
    TruncDivision(a, b);
    if Divides(d, b) {
      DividesShift(d, a, b, TruncDiv(a, b));
      assert a - TruncDiv(a, b) * b == TruncRem(a, b);
    }
  }

  /**
   * rf_bigint_gcd: Euclid's loop with truncating remainder, then the
   * absolute value.  The result is a non-negative common divisor of both
   * operands that every common divisor divides.
   */
  method Gcd(result: BigInt, a: BigInt, b: BigInt, mallocOk: bool) returns (status: int)
    requires GcdDefined(a.Get(), b.Get())
    modifies result
    ensures mallocOk ==> result.Get() >= 0
    ensures mallocOk ==> Divides(result.Get(), old(a.Get())) && Divides(result.Get(), old(b.Get()))
    ensures mallocOk ==>
      (forall d :: Divides(d, old(a.Get())) && Divides(d, old(b.Get())) ==> Divides(d, result.Get()))
    ensures mallocOk && old(b.Get()) == 0 ==> result.Get() == Abs(old(a.Get()))
    ensures mallocOk <==> result.dp.Some?
    ensures !mallocOk ==> result.Get() == 0
    ensures result.used == 1 && result.sign == 0 && result.alloc == old(result.alloc)
    ensures status == 0
  {
    var a0 := a.Get();
    var b0 := b.Get();
    var av: Int64 := a0;
    var bv: Int64 := b0;
    while bv != 0
      invariant GcdDefined(av, bv)
      invariant forall d :: Divides(d, av) && Divides(d, bv) <==> Divides(d, a0) && Divides(d, b0)
      invariant b0 == 0 ==> av == a0
      invariant result.alloc == old(result.alloc)
      decreases Abs(bv)
    {
      TruncResultsFit(av, bv);
      TruncDivision(av, bv);
      forall d
        ensures Divides(d, av) && Divides(d, bv) <==> Divides(d, bv) && Divides(d, TruncRem(av, bv))
      {
        EuclidStep(d, av, bv);
      }
      var t := bv;
      bv := TruncRem(av, bv);
      av := t;
    }
    var g: Int64 := if av < 0 then -av else av;
    AbsDivides(av);
    status := result.SetI64(g, mallocOk);
  }

  /** |n| and n have the same divisors, and |n| divides n and 0. */
  lemma AbsDivides(n: int)
    ensures forall d :: Divides(d, n) <==> Divides(d, Abs(n))
    ensures Divides(Abs(n), n) && Divides(Abs(n), 0)
  {
    forall d
      ensures Divides(d, n) <==> Divides(d, Abs(n))
    {
      if d != 0 && n < 0 {
        ModuloShift(n, d, 0);
        NegatedMultiple(d, n);
      }
    }
    if n != 0 {
      ModuloShift(0, Abs(n), if n < 0 then -1 else 1);
    }
  }

  lemma NegatedMultiple(d: int, n: int)
    requires d != 0
    ensures n % d == 0 <==> (-n) % d == 0
  {
    if n % d == 0 {
      ModuloShift(0, d, -(n / d));
      assert -n == d * (-(n / d));
    }
    if (-n) % d == 0 {
      ModuloShift(0, d, n / d);
      assert n == -(d * ((-n) / d));
      assert n == d * (-((-n) / d));
      ModuloShift(0, d, -((-n) / d));
    }
  }

  /** Every input pair without INT64_MIN may be passed to Gcd. */
  lemma GcdAcceptsOrdinaryInputs(a: Int64, b: Int64)
    requires a != Int64Min && b != Int64Min
    ensures GcdDefined(a, b)
    ensures GcdDefined(a, 0) && GcdDefined(0, b)
  {
    GcdDefinedWithoutMin(a, b);
    GcdDefinedWithoutMin(a, 0);
    GcdDefinedWithoutMin(0, b);
  }
}
