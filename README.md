# RazorForge native runtime: numeric fallbacks and call-stack tracking

This project models five parts of the C runtime of the RazorForge language
and proves properties of the model:

- **Half precision** (`F16`, `f16.dfy`). The software conversion of a
  binary32 bit pattern to binary16 and back, the classification
  predicates, the special values, `neg`/`abs`/`copysign`, equality, the NaN
  guards of the ordered comparisons, and `min`/`max`. A value is its bit
  pattern (`bv16`, `bv32`). The conversion to binary32 keeps its
  normalisation loop as a `while` loop.
- **The two-word `d128_t` fallback** (`Decimal`, `decimal.dfy`). This is
  what the runtime uses without hardware decimal support: add with carry,
  subtract with borrow, the zero-returning `mul`/`div`/`from_string`
  stubs, the comparison, the identity math stubs, the d64↔d128 embedding
  and projection, and the bit-for-bit float↔d32 and double↔d64
  reinterpretations.
- **`int8_t` arithmetic under three overflow policies** (`I8`, `i8.dfy`):
  wrapping, saturating and checked add/sub/mul.
- **The `int64_t` stub of the big-integer API** (`BigIntStub`,
  `bigint_stub.dfy`). An `rf_bigint` is a class whose digit pointer is an
  optional `int64_t` cell. The model covers new/init/copy/set/get, the
  comparisons, truncating division and remainder, negation, absolute
  value, the repeated-multiplication `pow` loop and Euclid's `gcd` loop.
- **Call-stack tracking** (`StackTrace`, `stacktrace.dfy`):
  - a 256-slot thread-local stack with push and pop;
  - the capture of up to 10 frames, newest first, into a trace record;
  - error-record construction;
  - the registered symbol tables and their lookups.

Where the code does something step by step, the model does too:
- the binary16 normalisation loop, `pow`, `gcd` and the two capture loops are `while` loops with invariants;
- the bigint, the runtime stack, the records the runtime fills in and the symbol tables are classes. Their methods state every field they write, including what a failed `malloc` leaves.

Each such method is proved against a specification function: `Widen`,
`Power`, `GcdDefined`/`Divides` and `Pushed`/`Popped`/`Captured`. The
symbol-table lookups are the C's guard-or-fallback branch, written once as
`Lookup`, and are characterised by their entry and fallback cases. Further
lemmas relate those functions to one another. Pure C
functions are Dafny functions.

## Model

| member | source | states |
|---|---|---|
| F16.ClassesPartition | native/runtime/f16_functions.c:274-298 | every binary16 pattern is exactly one of NaN, infinity, zero, subnormal and normal |
| F16.FiniteIffNotNaNOrInf | native/runtime/f16_functions.c:274-287 | isfinite holds exactly when neither isnan nor isinf does |
| F16.IsNaN | native/runtime/f16_functions.c:274-277 | isnan: exponent field all ones and a nonzero fraction; its properties are ClassesPartition and FiniteIffNotNaNOrInf |
| F16.IsInf | native/runtime/f16_functions.c:279-282 | isinf: the magnitude bits are those of infinity |
| F16.IsFinite | native/runtime/f16_functions.c:284-287 | isfinite: the exponent field is not all ones |
| F16.IsNormal | native/runtime/f16_functions.c:289-293 | isnormal: the exponent field lies strictly between 0 and 31 |
| F16.IsZero | native/runtime/f16_functions.c:295-298 | iszero: the magnitude bits are zero, for either sign |
| F16.SignBit | native/runtime/f16_functions.c:300-303 | signbit: bit 15 is set |
| F16.IsSubnormal | native/runtime/f16_functions.c:289-298 | the nonzero patterns with exponent field 0, the class that neither iszero nor isnormal covers; ClassesPartition places it among the others |
| F16.NaN | native/runtime/f16_functions.c:309-312 | the NaN constant satisfies isnan and has a clear sign bit |
| F16.Inf | native/runtime/f16_functions.c:314-317 | the infinity constant satisfies isinf and not signbit |
| F16.NegativeInf | native/runtime/f16_functions.c:319-322 | the negative infinity constant satisfies isinf and signbit |
| F16.Epsilon | native/runtime/f16_functions.c:324-327 | epsilon is a positive normal whose binary32 value is 2^-10 |
| F16.MinPositive | native/runtime/f16_functions.c:329-332 | min_positive is a positive normal, and no normal pattern has a smaller magnitude |
| F16.MaxValue | native/runtime/f16_functions.c:334-337 | max_value is finite, normal and positive, no finite pattern has a larger magnitude, and it widens to 65504.0f |
| F16.Neg | native/runtime/f16_functions.c:157-160 | neg flips the sign bit and keeps the magnitude bits |
| F16.Abs | native/runtime/f16_functions.c:208-211 | abs clears the sign bit and keeps the magnitude bits |
| F16.CopySign | native/runtime/f16_functions.c:213-216 | copysign has the sign of y and the magnitude of x |
| F16.NegInvolutive | native/runtime/f16_functions.c:157-160 | negating twice gives back the pattern |
| F16.ClassOfMagnitude | native/runtime/f16_functions.c:274-298 | the class of a pattern depends on its magnitude bits alone |
| F16.NegKeepsClass | native/runtime/f16_functions.c:157-160 | neg never changes the class of a pattern |
| F16.AbsKeepsClass | native/runtime/f16_functions.c:208-211 | abs never changes the class of a pattern |
| F16.CopySignKeepsClass | native/runtime/f16_functions.c:213-216 | copysign has the class of its first operand |
| F16.AbsOfNeg | native/runtime/f16_functions.c:157-211 | abs(neg(x)) == abs(x) |
| F16.AbsIdempotent | native/runtime/f16_functions.c:208-211 | abs(abs(x)) == abs(x) |
| F16.CopySignSpecialCases | native/runtime/f16_functions.c:208-216 | copysign(x, +0) is abs(x) |
| F16.CopySignOwnSign | native/runtime/f16_functions.c:213-216 | copysign(x, x) == x |
| F16.FromF32 | native/runtime/f16_functions.c:35-85 | the pattern from_f32 returns, branch by branch as the code computes it; what it means is stated by the FromF32 lemmas below and by RoundTrip |
| F16.RebiasedExponent | native/runtime/f16_functions.c:41-84 | the integer exponent e8 - 127 + 15 passes each test of from_f32 exactly when the e8 test of the model does; the subnormal shift and the stored exponent agree with it |
| F16.FromF32KeepsSign | native/runtime/f16_functions.c:41-84 | every return path of from_f32 carries the input's sign at bit 15 |
| F16.FromF32Flushes | native/runtime/f16_functions.c:46-55 | a rebiased exponent below -10 gives a signed zero |
| F16.FromF32Subnormal | native/runtime/f16_functions.c:51-59 | an exponent in [-10, 0] gives exponent field 0 and the significand shifted right, truncated |
| F16.FromF32NaN | native/runtime/f16_functions.c:61-66 | every binary32 NaN gives a quiet binary16 NaN of the input's sign, whose low seven fraction bits are the top seven bits of the binary32 fraction and whose fraction bits 7-8 are zero |
| F16.FromF32Overflows | native/runtime/f16_functions.c:61-68 | a non-NaN input with rebiased exponent of 31 or more gives infinity of its sign |
| F16.FromF32Rounds | native/runtime/f16_functions.c:70-84 | in the normal range the result is the rebased magnitude cut by 13 bits, plus one unit under roundTiesToEven; the carry ripples into the exponent and up to infinity |
| F16.RoundsUpIsRoundBitAndSticky | native/runtime/f16_functions.c:71-73 | the source's round-bit and sticky test is exactly roundTiesToEven on the dropped bits |
| F16.FromF32Largest | native/runtime/f16_functions.c:70-84 | 65504.0f converts to 0x7BFF |
| F16.FromF32OverflowByRounding | native/runtime/f16_functions.c:73-80 | 65520.0f rounds up to infinity, 0x7C00 |
| F16.FromF32Ties | native/runtime/f16_functions.c:70-84 | a tie rounds to the even kept part |
| F16.FromF32SubnormalTruncates | native/runtime/f16_functions.c:56-58 | the subnormal path truncates where rounding would carry |
| F16.Normalize | native/runtime/f16_functions.c:109-112 | the loop runs LeadingShift(m), at most 10, times: it leaves the fraction shifted to bit 10 and the uint32_t exponent at 0 - LeadingShift(m) |
| F16.Widen | native/runtime/f16_functions.c:94-125 | the binary32 pattern of the value of a binary16 pattern, the specification of ToF32; RoundTrip and WidenInjective relate it to FromF32 |
| F16.LoopExponent | native/runtime/f16_functions.c:94-125 | read as an integer, the wrapped exponent is -k mod 2^32, and the stored exponent is 113 - k with no wrap-around left |
| F16.ToF32 | native/runtime/f16_functions.c:94-125 | to_f32 returns Widen(x): zero keeps its sign; a subnormal is normalised; exponent 31 becomes 255 with the fraction shifted left by 13; a normal is rebiased |
| F16.RoundTrip | native/runtime/f16_functions.c:35-125 | from_f32(to_f32(x)) == x bit for bit for every non-NaN pattern |
| F16.RoundTripNaN | native/runtime/f16_functions.c:61-118 | a NaN widens to a binary32 NaN and comes back as a NaN |
| F16.WidenInjective | native/runtime/f16_functions.c:94-125 | to_f32 is one-to-one on non-NaN patterns |
| F16.Eq | native/runtime/f16_functions.c:166-173 | eq: false with a NaN operand, true for two zeros of either sign, otherwise bitwise equality; EqIsWidenedEquality and ComparisonsWithNaN state its meaning |
| F16.Ne | native/runtime/f16_functions.c:175-178 | ne: the negation of eq |
| F16.Lt | native/runtime/f16_functions.c:180-184 | lt: false with a NaN operand, otherwise float `<` of the widened values (F32Less) |
| F16.Le | native/runtime/f16_functions.c:186-190 | le: false with a NaN operand, otherwise float `<=` of the widened values |
| F16.Gt | native/runtime/f16_functions.c:192-196 | gt: false with a NaN operand, otherwise float `>` of the widened values |
| F16.Ge | native/runtime/f16_functions.c:198-202 | ge: false with a NaN operand, otherwise float `>=` of the widened values |
| F16.Min | native/runtime/f16_functions.c:218-223 | min returns one of its arguments |
| F16.Max | native/runtime/f16_functions.c:225-230 | max returns one of its arguments |
| F16.ComparisonsWithNaN | native/runtime/f16_functions.c:166-202 | with a NaN operand eq, lt, le, gt and ge are false and ne is true |
| F16.NeOfNaN | native/runtime/f16_functions.c:175-178 | ne(nan, nan) holds |
| F16.EqIsWidenedEquality | native/runtime/f16_functions.c:166-173 | eq (NaN equals nothing, +0 equals -0, else the same pattern) is float equality of the widened values |
| F16.F32Trichotomy | native/runtime/f16_functions.c:180-202 | on non-NaN binary32 patterns exactly one of <, == and > holds |
| F16.Trichotomy | native/runtime/f16_functions.c:166-202 | on non-NaN halves exactly one of lt, eq and gt holds |
| F16.OrderedComparisonsAgree | native/runtime/f16_functions.c:166-202 | le is lt or eq, ge is gt or eq, gt is lt with the operands swapped |
| F16.MinMaxWithNaN | native/runtime/f16_functions.c:218-230 | min(nan, y) == y and min(x, nan) == x, and max likewise |
| F16.MinMaxBounds | native/runtime/f16_functions.c:218-230 | without NaNs, min is le both operands and max is ge both |
| Decimal.Value | native/include/razorforge_math.h:17-20 | a d128_t holds high * 2^64 + low, which lies in [0, 2^128) |
| Decimal.ValueInjective | native/include/razorforge_math.h:17-20 | distinct word pairs hold distinct values |
| Decimal.FromValue | native/include/razorforge_math.h:17-20 | every value in [0, 2^128) has a d128_t |
| Decimal.Add | native/runtime/decimal_functions.c:327-333 | add with carry is (A + B) mod 2^128 |
| Decimal.Sub | native/runtime/decimal_functions.c:335-340 | subtract with borrow is (A - B) mod 2^128 |
| Decimal.SubUndoesAdd | native/runtime/decimal_functions.c:327-340 | sub(add(a, b), b) == a and add(sub(a, b), b) == a |
| Decimal.AddCommutes | native/runtime/decimal_functions.c:327-333 | add(a, b) == add(b, a) |
| Decimal.ZeroIsIdentity | native/runtime/decimal_functions.c:327-340 | adding or subtracting {0, 0} changes nothing |
| Decimal.AddWrapsAround | native/runtime/decimal_functions.c:327-340 | the carry moves into the high word, the carry out of it is dropped, and 0 - 1 is all ones |
| Decimal.Mul | native/runtime/decimal_functions.c:342-346 | mul returns zero |
| Decimal.Div | native/runtime/decimal_functions.c:348-352 | div returns zero, for a zero divisor too |
| Decimal.FromString | native/runtime/decimal_functions.c:364-368 | from_string returns zero |
| Decimal.StubsIgnoreInputs | native/runtime/decimal_functions.c:342-368 | mul, div and from_string give {0, 0} whatever their inputs |
| Decimal.Cmp | native/runtime/decimal_functions.c:354-360 | cmp is -1, 0 or 1 exactly when A < B, A == B or A > B as unsigned 128-bit values |
| Decimal.CmpOrder | native/runtime/decimal_functions.c:354-360 | comparing the high words first and then the low words is the numeric order |
| Decimal.CmpAntisymmetric | native/runtime/decimal_functions.c:354-360 | cmp(a, b) == -cmp(b, a) and cmp(a, a) == 0 |
| Decimal.CmpTransitive | native/runtime/decimal_functions.c:354-360 | cmp(a, b) <= 0 and cmp(b, c) <= 0 give cmp(a, c) <= 0 |
| Decimal.Math | native/runtime/decimal_functions.c:491-496 | the six d128 math stubs return their argument |
| Decimal.MathIdempotent | native/runtime/decimal_functions.c:491-496 | applying any two of the math stubs returns the argument |
| Decimal.D64ToD128 | native/runtime/decimal_functions.c:591-594 | the d128_t holds the value of the 64-bit word |
| Decimal.D128ToD64 | native/runtime/decimal_functions.c:609-611 | the result is the value modulo 2^64 |
| Decimal.D64RoundTrip | native/runtime/decimal_functions.c:591-611 | to_d64(to_d128(x)) == x, and the reverse holds when the high word is 0 |
| Decimal.F32ToD32 | native/runtime/decimal_functions.c:503-507 | the result is the float's bits |
| Decimal.D32ToF32 | native/runtime/decimal_functions.c:543-547 | the float has the given bits |
| Decimal.F64ToD64 | native/runtime/decimal_functions.c:530-534 | the result is the double's bits |
| Decimal.D64ToF64 | native/runtime/decimal_functions.c:576-580 | the double has the given bits |
| Decimal.ReinterpretRoundTrips | native/runtime/decimal_functions.c:503-580 | the two pairs of reinterpretations are inverse in both directions |
| Decimal.F32ToD128 | native/runtime/decimal_functions.c:516-520 | the stub returns zero |
| Decimal.F64ToD128 | native/runtime/decimal_functions.c:536-540 | the stub returns zero |
| Decimal.D32ToD128 | native/runtime/decimal_functions.c:564-567 | the stub returns zero |
| Decimal.D128ToF32 | native/runtime/decimal_functions.c:597-599 | the stub returns the bits of 0.0f |
| Decimal.D128ToF64 | native/runtime/decimal_functions.c:601-603 | the stub returns the bits of 0.0 |
| Decimal.D128ToD32 | native/runtime/decimal_functions.c:605-607 | the stub returns zero |
| Decimal.ConversionStubsLoseValues | native/runtime/decimal_functions.c:516-607 | a trip through d128 keeps a float or d32 exactly when its bits are zero |
| I8.ToInt8 | native/runtime/i8.c:18 | the narrowing cast gives the int8_t congruent modulo 256, and the identity in range |
| I8.AddWrap | native/runtime/i8.c:16-19 | the result is congruent to a + b modulo 256 |
| I8.SubWrap | native/runtime/i8.c:21-24 | the result is congruent to a - b modulo 256 |
| I8.MulWrap | native/runtime/i8.c:26-29 | the result is congruent to a * b modulo 256 |
| I8.WrapIsExactModulo256 | native/runtime/i8.c:16-29 | each wrapping result is the exact result reduced modulo 256 into [-128, 127] |
| I8.WrapExactWhenInRange | native/runtime/i8.c:16-29 | an exact result that fits is returned unchanged |
| I8.AddWrapExamples | native/runtime/i8.c:16-29 | 127 + 1 wraps to -128, -128 - 1 to 127, and 16 * 16 to 0 |
| I8.AddSaturate | native/runtime/i8.c:32-38 | the exact sum when it fits; otherwise the int8_t value nearest to it |
| I8.SubSaturate | native/runtime/i8.c:40-46 | the exact difference when it fits; otherwise the int8_t value nearest to it |
| I8.SaturateBounds | native/runtime/i8.c:32-46 | out of range, saturation gives the bound on the side of the exact result |
| I8.AddSaturateMonotone | native/runtime/i8.c:32-46 | saturating add is monotone in its first operand, and saturating sub antitone in its second |
| I8.AddChecked | native/runtime/i8.c:49-56 | overflow holds exactly when a + b is outside [-128, 127]; otherwise value is a + b |
| I8.SubChecked | native/runtime/i8.c:58-65 | overflow holds exactly when a - b is outside [-128, 127]; otherwise value is a - b |
| I8.MulChecked | native/runtime/i8.c:67-74 | overflow holds exactly when a * b is outside [-128, 127]; otherwise value is a * b |
| I8.CheckedValueIsWrap | native/runtime/i8.c:16-74 | the value of each checked operation is the wrapping result |
| I8.CheckedAgreesWithSaturate | native/runtime/i8.c:32-65 | without overflow, checked and saturating results agree |
| I8.ProductFitsInt16 | native/runtime/i8.c:32-74 | the int16_t intermediates cannot overflow: the product lies in [-16256, 16384] and the sum and difference within 256 |
| BigIntStub.SignOf | native/runtime/bignum_functions.c:197 | the sign field is 1 exactly for a negative value, otherwise 0 |
| BigIntStub.ToInt64 | native/runtime/bignum_functions.c:203 | a uint64_t stored in the cell reads back as the int64_t congruent modulo 2^64 |
| BigIntStub.BigInt.constructor | native/runtime/bignum_functions.c:162-164 | a zero-filled struct, as malloc followed by memset leaves it: every int field 0 and a null cell |
| BigIntStub.BigInt.SetI64 | native/runtime/bignum_functions.c:193-199 | the cell holds val when malloc succeeds and is null otherwise; get_i64 then reads val; used is 1, sign is (val < 0), alloc is unchanged; the status is 0 |
| BigIntStub.BigInt.SetU64 | native/runtime/bignum_functions.c:201-207 | the cell holds the bits of val; used is 1, sign is 0, alloc is unchanged; get_i64 reads val up to INT64_MAX |
| BigIntStub.BigInt.Get | native/runtime/bignum_functions.c:215-218 | get_i64: the stored cell, or 0 for a null cell; its readback properties are stated by BigInt.SetI64, BigInt.SetU64 and ClearedIsZero |
| BigIntStub.ClearedIsZero | native/runtime/bignum_functions.c:215-287 | a zero-filled bigint reads 0, satisfies is_zero and not is_neg |
| BigIntStub.New | native/runtime/bignum_functions.c:161-167 | new returns null exactly when malloc fails, and otherwise a fresh zero-filled bigint that is zero |
| BigIntStub.Init | native/runtime/bignum_functions.c:169-172 | init zero-fills the bigint, which then reads 0; the status is 0 |
| BigIntStub.Copy | native/runtime/bignum_functions.c:181-191 | the code as written: -1 exactly for a null argument; otherwise the int fields are copied and dp is src's value, a null cell when malloc fails, dest's old cell when src has none, or the fresh cell when dest is src; src is otherwise unchanged |
| BigIntStub.CopyKeepsStaleValue | native/runtime/bignum_functions.c:186-189 | a copy from a bigint without a cell leaves dest reading 5 where src reads 0 |
| BigIntStub.SelfCopyLosesValue | native/runtime/bignum_functions.c:187-188 | copying a bigint holding 7 onto itself leaves it reading the fresh cell's content |
| BigIntStub.CopyCorrected | native/runtime/bignum_functions.c:181-191 | copy as intended: null arguments give -1; otherwise the int fields are copied and dest's cell is src's, or null when malloc fails; dest then reads src's value and sign, a null cell included, and src is unchanged |
| BigIntStub.CorrectedCopyExamples | native/runtime/bignum_functions.c:181-191 | the corrected copy gives 0 and 7 on the two inputs that show the defects |
| BigIntStub.Cmp | native/runtime/bignum_functions.c:266-272 | cmp is -1, 0 or 1 exactly by the order of the stored values |
| BigIntStub.CmpI64 | native/runtime/bignum_functions.c:274-279 | cmp_i64 is -1, 0 or 1 exactly by the order of the stored value and b |
| BigIntStub.IsZero | native/runtime/bignum_functions.c:281-283 | is_zero: the stored value is 0; CmpConsistent and ClearedIsZero state its properties |
| BigIntStub.IsNeg | native/runtime/bignum_functions.c:285-287 | is_neg: the stored value is negative |
| BigIntStub.CmpConsistent | native/runtime/bignum_functions.c:266-287 | cmp and cmp_i64 agree; cmp is antisymmetric and reflexive; is_zero and is_neg are cmp_i64 against 0 |
| BigIntStub.TruncDiv | native/runtime/bignum_functions.c:248 | C's `/`: the quotient of the magnitudes, negated when the signs differ; TruncDivision states its meaning |
| BigIntStub.TruncRem | native/runtime/bignum_functions.c:249 | C's `%`: the remainder of the magnitudes, with the sign of the dividend; TruncDivision states its meaning |
| BigIntStub.TruncDivision | native/runtime/bignum_functions.c:248-249 | C's truncating quotient and remainder satisfy q * b + r == a, with abs(r) < abs(b), r carrying the dividend's sign, and abs(q) == abs(a) / abs(b) |
| BigIntStub.TruncResultsFit | native/runtime/bignum_functions.c:248-249 | the quotient fits in int64 except for INT64_MIN / -1, and the remainder always fits |
| BigIntStub.TruncExamples | native/runtime/bignum_functions.c:248-249 | 7 and -7 divided by 2 and by -2 give the C results |
| BigIntStub.Div | native/runtime/bignum_functions.c:245-251 | the remainder gets a cell holding the truncated remainder (null when its malloc fails, so it reads 0), used 1 and the sign of that remainder; unless the two outputs are one bigint, the quotient gets the same for the truncated quotient, with its own malloc outcome |
| BigIntStub.Mod | native/runtime/bignum_functions.c:253-255 | the result gets a cell holding the truncated remainder (null when malloc fails, so it reads 0), used 1 and the sign of the remainder |
| BigIntStub.Neg | native/runtime/bignum_functions.c:257-259 | the result gets a cell holding -a (null when malloc fails, so it reads 0), used 1 and the sign of -a |
| BigIntStub.AbsInto | native/runtime/bignum_functions.c:261-264 | the result gets a cell holding abs(a) (null when malloc fails, so it reads 0), used 1 and sign 0 |
| BigIntStub.PowerPrefixFits | native/runtime/bignum_functions.c:312 | if the final power fits in int64, every partial product of the loop does, so the loop never overflows |
| BigIntStub.Pow | native/runtime/bignum_functions.c:309-314 | the result gets a cell holding base^exp, which is 1 for exp 0 (null when malloc fails, so it reads 0), used 1 and the sign of base^exp |
| BigIntStub.GcdDefinedWithoutMin | native/runtime/bignum_functions.c:325-330 | with neither operand INT64_MIN, Euclid's loop never divides INT64_MIN by -1 and never negates INT64_MIN |
| BigIntStub.EuclidStep | native/runtime/bignum_functions.c:326-328 | one step of the loop keeps the set of common divisors |
| BigIntStub.AbsDivides | native/runtime/bignum_functions.c:330 | n and abs(n) have the same divisors |
| BigIntStub.Gcd | native/runtime/bignum_functions.c:322-331 | the loop terminates, and the result is a non-negative common divisor of both operands that every common divisor divides, with gcd(a, 0) == abs(a); used is 1 and sign 0; a failed malloc leaves a null cell that reads 0 |
| BigIntStub.GcdAcceptsOrdinaryInputs | native/runtime/bignum_functions.c:322-331 | every pair of operands other than INT64_MIN may be passed to gcd, with 0 on either side |
| StackTrace.Pushed | native/runtime/stacktrace.c:111-118 | a push appends the frame at index depth and leaves every other slot unchanged |
| StackTrace.Popped | native/runtime/stacktrace.c:122-128 | a pop drops the top frame from a non-empty stack and changes nothing at depth 0 |
| StackTrace.PopUndoesPush | native/runtime/stacktrace.c:101-128 | a push followed by a pop restores the depth and the frames in use |
| StackTrace.PushKeepsOlderFrames | native/runtime/stacktrace.c:111-118 | a push leaves every frame in use where it was |
| StackTrace.CaptureCount | native/runtime/stacktrace.c:140-144 | the count is at most the depth and at most 10, and equals one of them: min(depth, 10) |
| StackTrace.Captured | native/runtime/stacktrace.c:146-157 | the ten frames a capture yields, always ten: the top count frames newest first, then zero frames; CapturedFrame states them index by index |
| StackTrace.CapturedFrame | native/runtime/stacktrace.c:146-157 | captured frame i is stack slot depth - 1 - i for i below the count, and a zero frame from the count up to 10 |
| StackTrace.CaptureAfterPush | native/runtime/stacktrace.c:101-157 | after a push a capture starts with the pushed frame, followed by the earlier capture |
| StackTrace.CaptureOfEmpty | native/runtime/stacktrace.c:140-157 | an empty stack captures ten zero frames |
| StackTrace.CallStack.constructor | native/runtime/stacktrace.c:65-66 | the static storage of the stack: 256 zero frames and depth 0 |
| StackTrace.CallStack.Push | native/runtime/stacktrace.c:101-119 | at depth 256 push exits with nothing written, so depth never passes 256; otherwise the new state is Pushed of the old |
| StackTrace.CallStack.Pop | native/runtime/stacktrace.c:122-128 | the new state is Popped of the old |
| StackTrace.CallStack.Capture | native/runtime/stacktrace.c:135-160 | a null record is left alone; otherwise the record's depth is the count and its frames are Captured of the stack; the stack itself is not written |
| StackTrace.CallStack.CreateError | native/runtime/stacktrace.c:312-328 | the record gets the message pointer, the four position fields and a capture of the current stack; a null record is left alone |
| StackTrace.LookupIsEntryOrFallback | native/runtime/stacktrace.c:166-195 | a lookup yields a registered name or the fallback, nothing else |
| StackTrace.SymbolTables.constructor | native/runtime/stacktrace.c:73-80 | every table pointer null and every count 0, as the static initialisers leave them |
| StackTrace.SymbolTables.Init | native/runtime/stacktrace.c:83-94 | each table pointer and count becomes the one given |
| StackTrace.SymbolTables.FileName | native/runtime/stacktrace.c:166-173 | the registered file name, or "<unknown file>" without one |
| StackTrace.SymbolTables.RoutineName | native/runtime/stacktrace.c:175-182 | the registered routine name, or "<unknown routine>" without one |
| StackTrace.SymbolTables.TypeName | native/runtime/stacktrace.c:184-195 | no name exactly for type id 0; otherwise the registered type name, or "<unknown type>" |
| StackTrace.UnregisteredLookupsFallBack | native/runtime/stacktrace.c:73-195 | with no table registered every lookup gives its fallback |
| StackTrace.TypeZeroHasNoName | native/runtime/stacktrace.c:186-189 | type id 0 has no name even when the table has an entry 0 |

## Left out

- The float arithmetic of binary16 is not modelled, because it is binary32 arithmetic and libm calls. This covers add/sub/mul/div (f16_functions.c:137-155), the rounding functions, `sqrt` and `fma` (236-268), and the transcendentals (343-466).
- `rf_f16_from_f64` and `rf_f16_to_f64` (f16_functions.c:88-91, 128-131) are not modelled: they convert through a hardware double cast.
- F16.Lt, F16.Le, F16.Gt and F16.Ge model the float comparison of the widened values as exact sign-magnitude order on binary32 patterns: NaN is unordered and the two zeros are equal. The hardware float compare itself is not modelled.
- F16.FromF32Subnormal: subnormal results are truncated, not rounded, as the code does, where "with rounding" in the comment of f16_functions.c:34 would suggest otherwise. F16.FromF32SubnormalTruncates shows this.
- Flushing to zero in `rf_f16_from_f32`: the code flushes below an exponent of -10. At exactly -10 the subnormal path shifts by 11, so it also yields a signed zero. The model follows the code line for line.
- The libdfp branches of decimal_functions.c, which use hardware `_Decimal` types, are not modelled.
- The float-based d32/d64 arithmetic, comparisons and math (decimal_functions.c:78-127, 203-251, 382-488) are not modelled: they are float semantics.
- The conversions that go through a float↔double cast are not modelled: f32→d64 (509-514), f64→d32 (523-528), d32→f64/d64 (549-562), d64→f32 (570-574) and d64→d32 (582-589).
- `d128_to_string` (decimal_functions.c:370-376) is not modelled: it is malloc and snprintf.
- Decimal.Add, Decimal.Sub: modelled on the code, not on the comment at decimal_functions.c:328 that speaks of a double approximation.
- The bigint stub operations outside the core are not modelled:
  - `rf_bigint_clear` (174-179) only frees memory;
  - `set_str`/`get_str`/`get_u64` (209-230) are strtoll, snprintf and a reread of the cell;
  - add/sub/mul (233-243) and the bitwise and shift operations (289-307) are not modelled;
  - `sqrt` (316-320) goes through a double;
  - `lcm` (333-343) divides by a gcd that can be 0.
- BigIntStub.BigInt.SetI64 and the other writers: the previous cell is not freed in the code and is simply dropped in the model; memory leaks and the heap are not modelled. Whether malloc succeeds is a parameter (`mallocOk`; BigIntStub.Div has one for each of its two stores).
- BigIntStub.Copy: the content of a freshly allocated cell is indeterminate; the model takes it as the parameter `uninit`.
- BigIntStub.Div, BigIntStub.Mod: require a nonzero divisor and not INT64_MIN / -1, because C leaves both undefined.
- BigIntStub.Neg, BigIntStub.AbsInto: require an operand other than INT64_MIN, because its negation overflows (undefined in C).
- BigIntStub.Pow: requires that base^exp fit in int64, because signed overflow in the loop is undefined. PowerPrefixFits shows that this is the same as no step overflowing.
- BigIntStub.Gcd: requires GcdDefined, which says that the loop never computes INT64_MIN % -1 and never negates INT64_MIN. GcdAcceptsOrdinaryInputs shows that every pair without INT64_MIN qualifies.
- Printing and throwing in stacktrace.c (202-305, 331-349) are not modelled: they are stderr I/O and `exit`.
- StackTrace.CallStack.Push: the stack-overflow message and `exit(1)` are modelled as the returned flag `exited` with the state unchanged.
- The thread-local storage of stacktrace.c is modelled as one `CallStack` object, that is, a single thread.
- StackTrace.SymbolTables.Init requires that a registered count never exceed its table. A C lookup past the end of the array is undefined, and that case is not modelled.
- The names in the tables are Dafny strings; the C `const char*` pointers, and whether they are null, are not modelled.
- StackTrace.CallStack.CreateError: the message is modelled as its pointer value, the way the record stores it; its text is not read.

## Findings

| source | as written | input that shows it | evidently intended | confidence | as-written member | corrected member |
|---|---|---|---|---|---|---|
| native/runtime/bignum_functions.c:186-189 | when `src->dp` is null, `dest->dp` is left as it was | `dest` set to 5, `src` fresh from `rf_bigint_init`: after the copy `dest` reads 5 and `src` reads 0 | `dest` reads the value of `src`, so a null `dp` is copied as null | not executed | BigIntStub.CopyKeepsStaleValue | BigIntStub.CopyCorrected |
| native/runtime/bignum_functions.c:187-188 | `dest->dp` is replaced by a fresh cell before `src->dp` is read | `rf_bigint_copy(a, a)` with `a` set to 7: the fresh cell is copied onto itself and `a` reads its indeterminate content (0 in the counterexample) | copying a bigint onto itself changes nothing | not executed | BigIntStub.SelfCopyLosesValue | BigIntStub.CopyCorrected |
