# safely: a verified model of checked integer arithmetic

This project models the core of *safely*, a header-only C++ library of
overflow-aware operations on the eight fixed-width integer types u8, u16,
u32, u64, i8, i16, i32 and i64:

- checked addition, subtraction and multiplication (`add`, `sub`, `mul`),
  together with their portable overflow checks that follow SEI CERT C rules
  INT32-C and INT30-C;
- wrapping (`*_wrap`) and saturating (`*_sat`) variants;
- checked division, remainder, negation and left shift;
- unsigned rotate-left;
- comparisons across signedness and width (`cmp_*`) and range-checked
  conversions (`in_range`, `cast`, `to_unsigned`, `to_signed`);
- the compile-time classification of integer types in `detail/traits.hpp`.

Values are mathematical integers constrained to the range of their kind.
`Kinds.Wrap` is the two's-complement reduction modulo 2^width that every
narrowing `static_cast` performs. The library asserts two's complement in
`primitives.hpp`, and the model takes that as given. C++ division truncates
toward zero (section 7.6.5 [expr.mul] of ISO/IEC 14882:2020), while Dafny's
`/` and `%` are Euclidean, so `IntArith.TDiv` and `IntArith.TRem` define the
C++ operators explicitly.

Checked addition, subtraction and multiplication are proved in three ways:

- each fails exactly when the mathematical result is unrepresentable;
- on success it returns that result;
- its portable path agrees with the compiler-provided paths. These are
  `ckd_add`, `ckd_sub` and `ckd_mul` (section 7.20 of ISO/IEC 9899:2024),
  the `__builtin_*_overflow` builtins and the MSVC overflow intrinsics. All
  of them are specified by one function, `Backends.Intrinsic`: it reports
  overflow exactly when the result is out of range, and it stores the
  wrapped result. The library's own 8-bit wrapper around the MSVC
  multiplication intrinsics is modelled separately, by
  `Backends.MsvcMulOverflow`.

The other checked operations have no compiler-provided path. Each is
proved to reject exactly these inputs:

- `div` rejects r == 0, and MIN / -1 for signed types;
- `rem` rejects the same inputs, including MIN % -1, whose remainder 0 is
  representable;
- `neg` rejects MIN for signed types, and every non-zero value for
  unsigned types;
- `shl` rejects, for signed types, a negative operand, a shift outside
  [0, digits) and a shifted value above MAX (so i8 `0 << 7` is rejected).
  For unsigned types it rejects only a shift of the width or more, and it
  returns the shifted value reduced modulo 2^width.

Wrapping operations are proved equal to `Wrap` of the mathematical result,
and saturating ones equal to its clamp. Each build-time backend is a value
of `Backends.Backend`. Every dispatcher is proved to give the same answer
on every backend, with one exception: `mul_wrap` on the MSVC backend for
i8 and u8 (see Findings).

Modules follow the headers:

| file | module | header |
|---|---|---|
| arith.dfy | `IntArith` | powers of two, truncating `/` and `%` |
| kinds.dfy | `Kinds` | the eight kinds, `numeric_limits`, `Wrap` |
| traits.dfy | `Traits` | detail/traits.hpp |
| unchecked.dfy | `Unchecked` | detail/unchecked.hpp |
| errors.dfy | `Errors` | error.hpp, `std::optional` |
| backends.dfy | `Backends` | the overflow intrinsics |
| cmp.dfy | `Compare` | ops/cmp.hpp |
| cast.dfy | `Cast` | ops/cast.hpp |
| add.dfy | `Addition` | ops/add.hpp |
| sub.dfy | `Subtraction` | ops/sub.hpp |
| mul.dfy | `Multiplication` | ops/mul.hpp |
| div.dfy | `Division` | ops/div.hpp |
| rem.dfy | `Remainder` | ops/rem.hpp |
| neg.dfy | `Negation` | ops/neg.hpp |
| shl.dfy | `ShiftLeft` | ops/shl.hpp |
| bits.dfy | `Bitwise` | bits and the `\|` operator |
| rotl.dfy | `Rotation` | ops/rotl.hpp |

Out-parameters are handled like this:

- `add` and `generic_add` report through an `errc`. `mul` and `generic_mul`
  report through a `bool`. All four write their result through a reference.
  They are modelled as methods that return the status together with the
  final value of the out-parameter. A failed operation leaves the caller's
  prior value in place on the portable path, and in `mul` on the MSVC
  backend for i8 and u8. The other backends store the wrapped result.
- `add_wrap` and `add_sat` are used by the tests but are not defined in
  `add.hpp`. They are modelled the way `sub_wrap` and `sub_sat` are written.

Three points about the code:

- The signed multiplication check has no separate branch for MIN.
  `Multiplication.GenericMulCheckOverflow` proves that the sign branches
  alone are exact, and `Multiplication.MinProductsOverflow` covers MIN * -1,
  -1 * MIN, 2 * MIN, MIN * 2, MIN * MAX and MIN * MIN.
- `div`, `rem` and `shl` report failure as an empty optional. They never
  report `errc::div_by_zero` or `errc::overshift`.
- `ckd_*`, the `__builtin_*_overflow` builtins and the MSVC intrinsics
  write the wrapped result even on overflow. The portable path leaves the
  out-parameter unwritten, and so does the MSVC multiplication wrapper for
  i8 and u8 (detail/msvc_overflow_intrinsics.hpp:105-114 and 136-145).

## Model

| member | source | states |
|---|---|---|
| `IntArith.TDivTRem` | include/safely/ops/rem.hpp:38-39 | for b != 0, (a/b)*b + a%b == a. The remainder is smaller than b in magnitude and no larger than a. A non-zero remainder has the sign of a |
| `IntArith.TDivMagnitude` | include/safely/ops/div.hpp:38-39 | a truncated quotient is never larger in magnitude than the dividend. It is at most half of it when \|b\| >= 2. A non-zero quotient is negative exactly when the operand signs differ |
| `Kinds.Wrap` | include/safely/primitives.hpp:26 | the two's-complement narrowing always yields a value of the kind. It is the identity on values already in range |
| `Kinds.Digits` | include/safely/ops/shl.hpp:30 | numeric_limits digits: 2^digits is MAX + 1 |
| `Kinds.WrapIsReduction` | include/safely/primitives.hpp:26 | Wrap(k, x) is the one value of the kind congruent to x modulo 2^width |
| `Traits.KindOf` | include/safely/detail/traits.hpp:9-64 | every supported integer type is the alias of a kind. That kind is signed exactly when is_signed_integer_v holds |
| `Traits.SignedUnsignedPartition` | include/safely/detail/traits.hpp:9-64 | is_integer_v holds exactly when is_signed_integer_v or is_unsigned_integer_v does, and never both |
| `Traits.AliasesAreTheIntegers` | include/safely/detail/traits.hpp:9-64 | each of the eight aliases is an integer. It is signed exactly when its kind is signed and unsigned exactly when its kind is unsigned |
| `Traits.AliasInjective` | include/safely/detail/traits.hpp:9-34 | different kinds are different types, and KindOf inverts the alias mapping |
| `Traits.NonIntegersRejected` | include/safely/detail/traits.hpp:9-10 | bool, char, float, double and long double are in none of the three classes |
| `Traits.SomeStandardSignedTypeUnclassified` | tests/detail/traits.test.cpp:17-21 | on every platform one of the five standard signed types is not an integer, and one of the five standard unsigned types is not an unsigned integer |
| `Traits.UnclassifiedOnCommonPlatforms` | tests/detail/traits.test.cpp:17-27 | on LP64, long long is not classified; on LLP64, long is not |
| `Traits.StandardClassification` | tests/detail/traits.test.cpp:9-70 | the classification the tests expect: signed exactly for the standard signed types, unsigned exactly for the standard unsigned types |
| `Traits.StandardClassificationExtendsAliases` | include/safely/detail/traits.hpp:9-64 | the expected classification agrees with the specialisations on every alias, on every platform |
| `Unchecked.ToUnsignedBits` | include/safely/ops/sub.hpp:66 | reinterpreting as unsigned keeps a non-negative value and adds 2^width to a negative one |
| `Unchecked.AddUnchecked` | include/safely/detail/unchecked.hpp:9-15 | the result is in range. It is l + r whenever that fits, and (l + r) mod 2^width for an unsigned type |
| `Unchecked.SubUnchecked` | include/safely/detail/unchecked.hpp:17-23 | the result is in range. It is l - r whenever that fits, and (l - r) mod 2^width for an unsigned type |
| `Unchecked.MulUnchecked` | include/safely/detail/unchecked.hpp:25-31 | the result is in range. It is l * r whenever that fits, and (l * r) mod 2^width for an unsigned type |
| `Unchecked.DivUnchecked` | include/safely/detail/unchecked.hpp:33-39 | for r != 0 and not (MIN, -1), the result is the truncated quotient |
| `Unchecked.RemUnchecked` | include/safely/detail/unchecked.hpp:41-47 | under the same precondition, quotient * r + result == l, and \|result\| < \|r\| |
| `Unchecked.ShlUnchecked` | include/safely/detail/unchecked.hpp:49-55 | for 0 <= r < width, the result is l * 2^r when that fits, and its reduction modulo 2^width for an unsigned type |
| `Backends.MsvcMulOverflow` | include/safely/detail/msvc_overflow_intrinsics.hpp:100-160 | msvc_mul_overflow flags overflow exactly when the product is unrepresentable and stores it when it is not. After an overflow an 8-bit destination keeps its prior value, and a wider one receives Wrap of the product |
| `Backends.Intrinsic` | include/safely/ops/add.hpp:133-136 | ckd_add and __builtin_add_overflow report overflow exactly when the exact result is outside [MIN, MAX]. They store a value of the type, equal to the exact result when there is no overflow |
| `Compare.CmpEq` | include/safely/ops/cmp.hpp:21-33 | cmp_eq holds exactly when the mathematical values are equal, for any two kinds |
| `Compare.CmpNe` | include/safely/ops/cmp.hpp:45-49 | cmp_ne holds exactly when the values differ |
| `Compare.CmpLt` | include/safely/ops/cmp.hpp:61-73 | cmp_lt holds exactly when lhs < rhs mathematically |
| `Compare.CmpGt` | include/safely/ops/cmp.hpp:85-89 | cmp_gt holds exactly when lhs > rhs |
| `Compare.CmpLe` | include/safely/ops/cmp.hpp:101-105 | cmp_le holds exactly when lhs <= rhs |
| `Compare.CmpGe` | include/safely/ops/cmp.hpp:117-121 | cmp_ge holds exactly when lhs >= rhs |
| `Compare.UnsignedConversionPreservesValue` | include/safely/ops/cmp.hpp:27-31 | converting a non-negative signed value to its unsigned counterpart leaves the value unchanged |
| `Compare.NegativeBelowUnsigned` | include/safely/ops/cmp.hpp:67-72 | a negative signed value is below every unsigned value and equal to none |
| `Compare.Trichotomy` | include/safely/ops/cmp.hpp:21-73 | exactly one of cmp_lt(x, y), cmp_eq(x, y) and cmp_lt(y, x) holds |
| `Cast.InRangeOf` | include/safely/ops/cast.hpp:24-45 | in_range holds exactly when To's MIN <= x <= To's MAX. This includes the same-type shortcut and the skipped lower check for an unsigned source |
| `Cast.Cast` | include/safely/ops/cast.hpp:56-66 | cast yields a value exactly when the value is in range, and then the value itself |
| `Cast.CastRoundTrip` | include/safely/ops/cast.hpp:56-66 | casting a successfully cast value back gives the original |
| `Cast.WideningCastSucceeds` | include/safely/ops/cast.hpp:56-66 | a cast to a type that contains the source range always succeeds |
| `Cast.ToUnsigned` | include/safely/ops/cast.hpp:76-81 | to_unsigned yields a value exactly when v >= 0, and then v |
| `Cast.ToSigned` | include/safely/ops/cast.hpp:91-96 | to_signed yields a value exactly when v <= MAX of the signed counterpart, and then v |
| `Cast.ToUnsignedToSigned` | include/safely/ops/cast.hpp:76-96 | to_signed undoes to_unsigned |
| `Addition.GenericValidateAdd` | include/safely/ops/add.hpp:24-55 | only ok or overflow, and overflow exactly when l + r is outside [MIN, MAX]. Its bound computations `MAX - r` and `MIN - r` meet the no-overflow precondition of sub_unchecked |
| `Addition.GenericAdd` | include/safely/ops/add.hpp:58-70 | reports overflow exactly when the intrinsic does. On ok it stores l + r, equal to the intrinsic's value. On overflow it leaves the sum unwritten |
| `Addition.Add` | include/safely/ops/add.hpp:129-142 | on every backend: only ok or overflow, overflow exactly when l + r is unrepresentable, and the sum l + r on ok |
| `Addition.GenericAddWrap` | tests/ops/add_wrap.test.cpp:44 | the portable wrapping sum through unsigned reinterpretation is Wrap(l + r) |
| `Addition.AddWrap` | tests/ops/add_wrap.test.cpp:19-54 | add_wrap is Wrap(l + r) on every backend |
| `Addition.AddSat` | tests/ops/add_sat.test.cpp:81 | add_sat is l + r clamped to [MIN, MAX] |
| `Addition.AddWrapAgreesWithAdd` | tests/ops/add_wrap.test.cpp:43-47 | add_wrap equals the sum when add succeeds. It is the sum minus 2^width past MAX and plus 2^width below MIN |
| `Addition.AddExamples` | tests/ops/add.test.cpp:59-94 | for i32, MAX + 1 overflows and MIN + MAX is -1 without overflow. add_wrap(MAX, 1) is MIN for i8 and 0 for u16. The clamp that `AddSat` returns is MIN for i64 MIN + -1 |
| `Subtraction.GenericSubCheckOverflow` | include/safely/ops/sub.hpp:22-48 | true exactly when l - r is outside [MIN, MAX], which for unsigned types is r > l. Its bounds `MIN + r` and `MAX + r` meet the no-overflow precondition of add_unchecked |
| `Subtraction.GenericSub` | include/safely/ops/sub.hpp:50-59 | yields l - r exactly when it is representable |
| `Subtraction.Sub` | include/safely/ops/sub.hpp:87-113 | yields l - r exactly when it is representable, on every backend |
| `Subtraction.GenericSubWrap` | include/safely/ops/sub.hpp:61-74 | the portable wrapping difference through unsigned reinterpretation is Wrap(l - r) |
| `Subtraction.SubWrap` | include/safely/ops/sub.hpp:124-140 | sub_wrap is Wrap(l - r) on every backend |
| `Subtraction.SubSat` | include/safely/ops/sub.hpp:151-167 | sub_sat is l - r clamped to [MIN, MAX] |
| `Subtraction.SubWrapAgreesWithSub` | include/safely/ops/sub.hpp:124-140 | sub_wrap equals sub's value whenever sub succeeds, and is off by exactly 2^width otherwise |
| `Subtraction.SubBackendsAgree` | include/safely/ops/sub.hpp:93-110 | sub, sub_wrap and sub_sat give the same result on any two backends |
| `Subtraction.SubExamples` | tests/ops/sub_wrap.test.cpp:44-78 | sub_wrap(MIN, 1) is MAX, sub_wrap(MAX, -1) is MIN and 0u - 1u wraps to MAX. sub_sat(MIN, 1) is MIN, sub_sat(MAX, -1) is MAX and 0u - 1u saturates to 0 |
| `Multiplication.GenericMulCheckOverflow` | include/safely/ops/mul.hpp:21-53 | true exactly when l * r is outside [MIN, MAX]. Every div_unchecked it performs meets that function's precondition |
| `Multiplication.BothPositive` | include/safely/ops/mul.hpp:33 | for positive factors, l > MAX / r exactly when l * r is out of range |
| `Multiplication.OnlyLhsPositive` | include/safely/ops/mul.hpp:34-38 | for a positive and a non-positive factor, the non-positive one is below MIN / the positive one exactly when the product is out of range |
| `Multiplication.NeitherPositive` | include/safely/ops/mul.hpp:41 | for non-positive factors, l != 0 && r < MAX / l exactly when the product is out of range |
| `Multiplication.GenericMul` | include/safely/ops/mul.hpp:55-67 | reports overflow exactly when the intrinsic does. Without overflow it stores l * r, equal to the intrinsic's value. With overflow it leaves the product unwritten |
| `Multiplication.Mul` | include/safely/ops/mul.hpp:98-111 | on every backend, true exactly when l * r is unrepresentable, and the product l * r otherwise. After an overflow the out-parameter keeps its prior value on the portable path and on MSVC for 8-bit types, and holds Wrap(l * r) on the other backends |
| `Multiplication.GenericMulWrap` | include/safely/ops/mul.hpp:69-82 | the portable wrapping product through unsigned reinterpretation is Wrap(l * r) |
| `Multiplication.MulWrapAsWritten` | include/safely/ops/mul.hpp:122-138 | mul_wrap as written is 0 for an overflowing i8 or u8 product on the MSVC backend, and Wrap(l * r) in every other case |
| `Multiplication.MulWrap` | include/safely/ops/mul.hpp:122-138 | the corrected mul_wrap is Wrap(l * r) on every backend, as tests/ops/mul_wrap.test.cpp expects |
| `Multiplication.MsvcMulWrapDropsProduct` | tests/ops/mul_wrap.test.cpp:56 | on the MSVC backend, mul_wrap of u8 255 * 255 and of i8 127 * 127 is 0 as written, where the corrected one gives the expected 1 |
| `Multiplication.MulSat` | include/safely/ops/mul.hpp:149-165 | mul_sat is l * r clamped to [MIN, MAX] on every backend: the sign test of line 163 picks the bound the product passed |
| `Multiplication.SignOfProduct` | include/safely/ops/mul.hpp:163 | factors of opposite signs give a product <= 0, and factors of equal signs a product >= 0 |
| `Multiplication.MinProductsOverflow` | tests/ops/mul.test.cpp:102-114 | the check reports MIN * -1, -1 * MIN, 2 * MIN, MIN * 2, MIN * MAX and MIN * MIN as overflow |
| `Multiplication.MulWrapExamples` | tests/ops/mul_wrap.test.cpp:56-93 | for i8, mul_wrap(MAX, MAX) is 1 and mul_wrap(MIN, MIN) is 0. For u8, MAX * MAX wraps to 1 |
| `Multiplication.MulSatExamples` | tests/ops/mul_sat.test.cpp:89-101 | the clamp that `MulSat` returns is MAX for -1 * MIN and MIN * MIN, and MIN for MIN * MAX |
| `Division.Div` | include/safely/ops/div.hpp:22-40 | empty exactly when r == 0 or (signed, l == MIN, r == -1). Otherwise it is the truncated quotient, which is in range |
| `Division.DivExamples` | tests/ops/div.test.cpp:58-85 | -1/2 is 0, -100/4 and 100/-4 are -25, (MIN+1)/-1 is MAX and MIN/MIN is 1. MIN/-1 and 1/0 are rejected |
| `Remainder.Rem` | include/safely/ops/rem.hpp:22-40 | rejected exactly when div is. Otherwise quotient * r + result == l, \|result\| < \|r\|, and a non-zero result has the sign of l |
| `Remainder.DivRemRecompose` | include/safely/ops/rem.hpp:26-39 | div and rem succeed together and recompose the dividend |
| `Remainder.MinRemMinusOneRejected` | include/safely/ops/rem.hpp:28 | MIN % -1 is rejected although its mathematical remainder is 0 |
| `Remainder.RemExamples` | tests/ops/rem.test.cpp:50-71 | 8 % 3 is 2, -8 % 3 is -2 and MIN % MIN is 0 |
| `Negation.Neg` | include/safely/ops/neg.hpp:21-38 | yields -v exactly when it is representable. For signed types it is empty exactly at MIN; for unsigned types, exactly for v != 0 |
| `Negation.NegInvolutive` | include/safely/ops/neg.hpp:24-37 | negating a negation gives the value back |
| `ShiftLeft.MaxShiftedRight` | include/safely/ops/shl.hpp:34 | l > (MAX >> r) exactly when l * 2^r > MAX |
| `ShiftLeft.Shl` | include/safely/ops/shl.hpp:26-46 | signed: succeeds exactly when l >= 0, 0 <= r < digits and l * 2^r <= MAX, and then yields l * 2^r. Unsigned: succeeds exactly when r < width, and yields Wrap(l * 2^r) |
| `ShiftLeft.ShlExamples` | tests/ops/shl.test.cpp:11-20 | u8: 1 << 7 is 128 and 1 << 8 is rejected, as the tests expect. Also u8 0xFF << 4 wraps to 0xF0, and for i8 1 << 6 is 64 while 1 << 7, -1 << 1 and 1 << -1 are rejected |
| `Bitwise.BitOrBit` | include/safely/ops/rotl.hpp:24 | the `\|` of the model sets a bit exactly when either operand has it set |
| `Bitwise.BitOrDisjoint` | include/safely/ops/rotl.hpp:24 | `\|` of q * 2^s and a value below 2^s is their sum |
| `Rotation.RotateLeft` | include/safely/ops/rotl.hpp:41-54 | the specification of __builtin_rotateleftN: a value of the type. Its bit-level meaning is proved in RotateLeftMovesBits and RotateLeftInverse |
| `Rotation.RotateLeftZero` | include/safely/ops/rotl.hpp:17-19 | rotation by zero places is the identity |
| `Rotation.RotateLeftMovesBits` | include/safely/ops/rotl.hpp:38-58 | bit i of the value appears at bit (i + s) mod width of the rotation |
| `Rotation.RotateLeftInverse` | include/safely/ops/rotl.hpp:38-58 | rotating by s and then by (width - s) mod width restores the value |
| `Rotation.ShiftOrIsRotation` | include/safely/ops/rotl.hpp:24 | for 0 < s < width, `val << s \| val >> (width - s)` cast to the type is the rotation, whether or not the left shift is promoted to int |
| `Rotation.RotlSwAsWritten` | include/safely/ops/rotl.hpp:14-25 | rotl_sw as written is undefined exactly for an unpromoted u32 or u64 with n != 0 and n mod width == 0. Otherwise it is the rotation by n mod width |
| `Rotation.FullWidthRotationUndefined` | include/safely/ops/rotl.hpp:24 | rotl_sw by exactly the width is undefined for u32 and u64, and returns the value for u8 and u16 |
| `Rotation.RotlSw` | include/safely/ops/rotl.hpp:14-25 | the corrected rotl_sw is the rotation by n mod width for every n |
| `Rotation.RotlSwExtendsAsWritten` | include/safely/ops/rotl.hpp:14-25 | the corrected rotl_sw agrees with the original wherever the original is defined, and everywhere for u8 and u16 |
| `Rotation.RotlAsWritten` | include/safely/ops/rotl.hpp:38-58 | rotl as written is the rotation by n mod width, except without the builtin for u32 and u64 at a non-zero multiple of the width, where rotl_sw as written is undefined |
| `Rotation.Rotl` | include/safely/ops/rotl.hpp:38-58 | rotl with the corrected rotl_sw of the rotl.hpp:24 finding on its software branch: the rotation by n mod width, with or without the builtin |
| `Rotation.RotlExtendsAsWritten` | include/safely/ops/rotl.hpp:38-58 | the corrected rotl agrees with rotl as written wherever that is defined, which is always with the builtin and always for u8 and u16 |
| `Rotation.RotlPeriodic` | include/safely/ops/rotl.hpp:22 | rotl(v, 0) == v, and rotl(v, n) == rotl(v, n mod width) |
| `Rotation.RotlExamples` | tests/ops/rotl.test.cpp:9-18 | for u8, 1 rotated by 0, 7, 8 and 9 gives 1, 128, 1 and 2 |

## Left out

- The `#if` chain that selects a backend at build time is configuration, so every dispatcher takes the backend as a parameter. `mul.hpp` lines 104 and 129 gate `__builtin_mul_overflow` on `SAFELY_HAS_BUILTIN_ADD_OVERFLOW`, not on a multiplication flag. The model treats that choice as configuration too.
- `ckd_add`, `ckd_sub` and `ckd_mul`, the `__builtin_*_overflow` functions and `__builtin_rotateleftN` are foreign calls. They are specified (`Backends.Intrinsic`, `Rotation.RotateLeft`), not implemented.
- The MSVC intrinsics (`_add_overflow_*`, `_addcarry_*`, `_sub_overflow_*`, `_subborrow_*`, `_mul_full_overflow_*`) are foreign calls, specified by `Backends.Intrinsic`. The wrappers around them (detail/msvc_overflow_intrinsics.hpp, and `msvc_add_overflow` in add.hpp lines 72-116) pass the destination straight through, except the 8-bit multiplication, which `Backends.MsvcMulOverflow` models.
- `arithmetic_t`, `integer_concept_t` and `detail::to_unsigned` are not defined in the headers of this model. `arithmetic_t<T>` is taken to be a type of T's signedness at least as wide as T and, for an unsigned T, at least as wide as `unsigned int`. So unsigned unchecked operations wrap, and a signed one must have an in-range result, which `Unchecked` states as a precondition. `detail::to_unsigned` (called at sub.hpp:66 and mul.hpp:74) is taken to reinterpret the same bits as make_unsigned_t<T>: `Unchecked.ToUnsignedBits`.
- `Rotation.RotlSwAsWritten`, `Rotation.RotlSw` and the software branch of `Rotation.Rotl` assume a 32-bit `int`: a u8 or u16 operand is promoted to `int` before it is shifted.
- Integer promotion in the bound computations of `generic_validate_add` is not modelled separately. Those computations are modelled in T, which is where they must not overflow.
- `Traits`: `char`, `signed char` and `unsigned char` are distinct types here. The platform's choice of which standard type each fixed-width alias names is a parameter.
- On a failed checked operation the out-parameter is left "unspecified" by the library. The model records what each backend does: the portable path and the 8-bit MSVC multiplication keep the prior value, and the intrinsics store the wrapped result. Callers are promised neither.
- error.hpp's `div_by_zero`, `overshift` and `negative_shift` appear in `Errors.Errc`, but no operation produces them.
- predef.hpp only defines `[[likely]]`/`[[unlikely]]` macros, and safely.hpp is an umbrella include that also names a shr.hpp which is not part of this model. Neither carries logic.
- The test driver (tests/safely_tests.main.cpp), the type lists (tests/common/types.hpp) and the gtest fixtures are used only as evidence for the expected values.
- `constexpr` and `noexcept` have no counterpart in the model.

## Findings

| source | as written | input that shows it | evidently intended | confidence | as-written member | corrected member |
|---|---|---|---|---|---|---|
| include/safely/ops/rotl.hpp:24 | when n is a non-zero multiple of the width, `n_rem` is 0 and `val >> (t_digits - n_rem)` shifts an unpromoted u32 or u64 by its full width, which section 7.6.7 [expr.shift] of ISO/IEC 14882:2020 leaves undefined | `rotl_sw<u32>(1, 32)` | return the value unchanged, as the u8 and u16 instantiations and `__builtin_rotateleft32` do | not executed | `Rotation.RotlSwAsWritten` | `Rotation.RotlSw` |
| tests/detail/traits.test.cpp:17-21 | `is_integer_v` is specialised only for the four signed aliases (include/safely/detail/traits.hpp:24-34), but the test expects all five standard signed types to be integers. Lines 23-27 and 65-69 expect the same of the five unsigned types | `is_integer_v<long long>` on LP64, `is_integer_v<long>` on LLP64 | classify every standard signed and unsigned integer type by its category | not executed | `Traits.SomeStandardSignedTypeUnclassified` | `Traits.StandardClassification` |
| include/safely/detail/msvc_overflow_intrinsics.hpp:105-114 | for i8 and u8, `msvc_mul_overflow` copies the 16-bit product to the destination only when there is no overflow (also lines 136-145), and `mul_wrap` (include/safely/ops/mul.hpp:125-137) returns its zero-initialised `product` | `mul_wrap<u8>(255, 255)` built with `SAFELY_HAS_MSVC_OVERFLOW_INTRINSICS` and neither `ckd_mul` nor `__builtin_mul_overflow` | 1, the low byte of the product, as tests/ops/mul_wrap.test.cpp:56 expects and as the 16-, 32- and 64-bit wrappers give | not executed | `Multiplication.MulWrapAsWritten` | `Multiplication.MulWrap` |
