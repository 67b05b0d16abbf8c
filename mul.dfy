/** Checked, wrapping and saturating multiplication (mul.hpp). The portable
    check follows SEI CERT C rules INT32-C (signed) and INT30-C (unsigned):
    it compares one factor with a bound divided by the other, so it never
    forms the product it is guarding. `mul` reports overflow with `true` and
    writes the product through an out-parameter; it is a method returning the
    flag together with the final value of that out-parameter. */
module Multiplication {

  import opened IntArith
  import opened Kinds
  import opened Backends
  import opened Unchecked

  /** generic_mul_check_overflow. Each branch divides a bound by a factor
      of known sign; none divides by zero or forms MIN / -1, which the
      preconditions of `DivUnchecked` state. There is no separate branch for
      MIN: the sign cases alone decide every product. */
  function GenericMulCheckOverflow(k: IntKind, lhs: int, rhs: int): (o: bool)
    requires InRange(k, lhs) && InRange(k, rhs)
    ensures o <==> !InRange(k, lhs * rhs)
  {
    if k.signed then
      if lhs > 0 then
        if rhs > 0 then
          BothPositive(Min(k), Max(k), lhs, rhs);
          lhs > DivUnchecked(k, Max(k), rhs)
        else
          OnlyLhsPositive(Min(k), Max(k), lhs, rhs);
          rhs < DivUnchecked(k, Min(k), lhs)
      else if rhs > 0 then
        OnlyLhsPositive(Min(k), Max(k), rhs, lhs);
        lhs < DivUnchecked(k, Min(k), rhs)
      else
        NeitherPositive(Min(k), Max(k), lhs, rhs);
        lhs != 0 && rhs < DivUnchecked(k, Max(k), lhs)
    else
      if rhs != 0 then
        BothPositive(Min(k), Max(k), lhs, rhs);
        lhs > DivUnchecked(k, Max(k), rhs)
      else
        false
  }

  /** The branch for two positive factors (and for a non-zero unsigned `r`):
      the product is too large exactly when `l` exceeds max / r. */
  lemma BothPositive(min: int, max: int, l: int, r: int)
    requires min <= 0 <= max && l >= 0 && r > 0
    ensures l > TDiv(max, r) <==> !(min <= l * r <= max)
  {
    FloorDivGalois(max, r, l);
    assert TDiv(max, r) == max / r;
    assert l * r >= 0;
  }

  /** The branch for a positive `p` and a non-positive `n`: the product is
      too small exactly when `n` is below min / p. */
  lemma OnlyLhsPositive(min: int, max: int, p: int, n: int)
    requires min < 0 <= max && p > 0 && n <= 0
    ensures n < TDiv(min, p) <==> !(min <= p * n <= max) && !(min <= n * p <= max)
  {
    FloorDivGalois(-min, p, -n);
    assert TDiv(min, p) == -((-min) / p);
    assert p * n == -((-n) * p);
  }

  /** The branch for two non-positive factors: the product is too large
      exactly when `l` is non-zero and `r` is below max / l. */
  lemma NeitherPositive(min: int, max: int, l: int, r: int)
    requires min <= 0 <= max && l <= 0 && r <= 0
    ensures l != 0 && r < TDiv(max, l) <==> !(min <= l * r <= max)
  {
    assert l * r == (-r) * (-l);
    if l != 0 {
      FloorDivGalois(max, -l, -r);
      assert TDiv(max, l) == -(max / (-l));
    }
  }

  /** generic_mul: stores the product only when there is no overflow. It
      reports overflow exactly when the intrinsic specification does, and
      then agrees with it on the product. */
  method GenericMul(k: IntKind, lhs: int, rhs: int, prior: int) returns (overflow: bool, product: int)
    requires InRange(k, lhs) && InRange(k, rhs)
    ensures overflow == Intrinsic(k, lhs * rhs).overflow
    ensures !overflow ==> product == lhs * rhs && product == Intrinsic(k, lhs * rhs).value
    ensures overflow ==> product == prior
  {
    overflow := GenericMulCheckOverflow(k, lhs, rhs);
    product := prior;
    if !overflow {
      product := MulUnchecked(k, lhs, rhs);
    }
  }

  /** Whether mul leaves its out-parameter unwritten on overflow: the
      portable path always does, and the MSVC wrapper does for 8-bit types. */
  predicate KeepsPriorOnOverflow(b: Backend, k: IntKind) {
    b == Generic || (b == MsvcIntrinsics && k.width == W8)
  }

  /** mul: true exactly when the product is unrepresentable, on every
      backend, with the product stored when it is not. After an overflow the
      out-parameter holds the wrapped product, or its prior value where the
      backend does not write it. */
  method Mul(b: Backend, k: IntKind, lhs: int, rhs: int, prior: int) returns (overflow: bool, product: int)
    requires InRange(k, lhs) && InRange(k, rhs)
    ensures overflow <==> !InRange(k, lhs * rhs)
    ensures !overflow ==> product == lhs * rhs
    ensures overflow && KeepsPriorOnOverflow(b, k) ==> product == prior
    ensures overflow && !KeepsPriorOnOverflow(b, k) ==> product == Wrap(k, lhs * rhs)
  {
    if b == Generic {
      overflow, product := GenericMul(k, lhs, rhs, prior);
    } else if b == MsvcIntrinsics {
      var f := MsvcMulOverflow(k, lhs * rhs, prior);
      overflow, product := f.overflow, f.value;
    } else {
      var f := Intrinsic(k, lhs * rhs);
      overflow, product := f.overflow, f.value;
    }
  }

  /** generic_mul_wrap: a signed product is computed on the unsigned
      reinterpretations, where mul_unchecked wraps, and cast back. */
  function GenericMulWrap(k: IntKind, lhs: int, rhs: int): (r: int)
    requires InRange(k, lhs) && InRange(k, rhs)
    ensures r == Wrap(k, lhs * rhs)
  {
    if k.signed then
      var u := Unsigned(k);
      var a, b := ToUnsignedBits(k, lhs), ToUnsignedBits(k, rhs);
      WrapOfWrap(k, u, a * b);
      WrapOfProduct(k, u, lhs, rhs);
      Wrap(k, MulUnchecked(u, a, b))
    else
      MulUnchecked(k, lhs, rhs)
  }

  /** mul_wrap as written: the product starts as `T product {}` and the
      backend's multiplication writes it. On MsvcIntrinsics an overflowing
      8-bit product is never written, so the result is 0 there. */
  function MulWrapAsWritten(b: Backend, k: IntKind, lhs: int, rhs: int): (r: int)
    requires InRange(k, lhs) && InRange(k, rhs)
    ensures b == MsvcIntrinsics && k.width == W8 && !InRange(k, lhs * rhs) ==> r == 0
    ensures !(b == MsvcIntrinsics && k.width == W8 && !InRange(k, lhs * rhs)) ==> r == Wrap(k, lhs * rhs)
  {
    if b == Generic then GenericMulWrap(k, lhs, rhs)
    else if b == MsvcIntrinsics then MsvcMulOverflow(k, lhs * rhs, 0).value
    else Intrinsic(k, lhs * rhs).value
  }

  /** mul_wrap as its tests expect it: the product reduced modulo 2^width on
      every backend. On MsvcIntrinsics this takes the low byte of the 16-bit
      product for i8 and u8, whether or not it overflowed. */
  function MulWrap(b: Backend, k: IntKind, lhs: int, rhs: int): (r: int)
    requires InRange(k, lhs) && InRange(k, rhs)
    ensures r == Wrap(k, lhs * rhs)
  {
    if b == Generic then GenericMulWrap(k, lhs, rhs) else Intrinsic(k, lhs * rhs).value
  }

  /** On the MSVC backend mul_wrap of u8 255 * 255 and of i8 127 * 127 is 0
      as written, where mul_wrap.test.cpp expects 1. */
  lemma MsvcMulWrapDropsProduct()
    ensures MulWrapAsWritten(MsvcIntrinsics, U8, Max(U8), Max(U8)) == 0
    ensures MulWrapAsWritten(MsvcIntrinsics, I8, Max(I8), Max(I8)) == 0
    ensures MulWrap(MsvcIntrinsics, U8, Max(U8), Max(U8)) == 1
    ensures MulWrap(MsvcIntrinsics, I8, Max(I8), Max(I8)) == 1
  {
    MulWrapExamples(MsvcIntrinsics);
  }

  /** mul_sat: the checked product, or on overflow the maximum for unsigned
      types, and for signed types the minimum exactly when the factors have
      opposite signs. */
  method MulSat(b: Backend, k: IntKind, lhs: int, rhs: int) returns (r: int)
    requires InRange(k, lhs) && InRange(k, rhs)
    ensures r == Clamp(k, lhs * rhs)
  {
    var overflow, product := Mul(b, k, lhs, rhs, 0);
    if !overflow {
      r := product;
    } else if !k.signed {
      r := Max(k);
    } else {
      SignOfProduct(lhs, rhs);
      r := if (lhs < 0) != (rhs < 0) then Min(k) else Max(k);
    }
  }

  lemma SignOfProduct(a: int, b: int)
    ensures (a < 0) != (b < 0) ==> a * b <= 0
    ensures (a < 0) == (b < 0) ==> a * b >= 0
  {
    if a < 0 && b >= 0 {
      assert a * b == -((-a) * b);
    }
    if a >= 0 && b < 0 {
      assert a * b == -(a * (-b));
    }
    if a < 0 && b < 0 {
      assert a * b == (-a) * (-b);
    }
  }

  /** The signed products the check has no dedicated branch for all overflow:
      MIN * -1, -1 * MIN, 2 * MIN, MIN * 2, MIN * MAX and MIN * MIN. */
  lemma MinProductsOverflow(k: IntKind)
    requires k.signed
    ensures GenericMulCheckOverflow(k, Min(k), -1) && GenericMulCheckOverflow(k, -1, Min(k))
    ensures GenericMulCheckOverflow(k, 2, Min(k)) && GenericMulCheckOverflow(k, Min(k), 2)
    ensures GenericMulCheckOverflow(k, Min(k), Max(k)) && GenericMulCheckOverflow(k, Min(k), Min(k))
  {
    var m := Min(k);
    assert m * m > Max(k) by {
      assert m <= -1;
      assert m * m >= -m;
    }
    assert m * Max(k) < m by {
      assert Max(k) >= 2;
    }
  }

  /** The test expectations: for i8, mul_wrap of MAX * MAX is 1 and of
      MIN * MIN is 0, and for u8 MAX * MAX is 1. */
  lemma MulWrapExamples(b: Backend)
    ensures MulWrap(b, I8, Max(I8), Max(I8)) == 1
    ensures MulWrap(b, I8, Min(I8), Min(I8)) == 0
    ensures MulWrap(b, U8, Max(U8), Max(U8)) == 1
  {
    WrapIsReduction(I8, 127 * 127, 1, 63);
    WrapIsReduction(I8, -128 * -128, 0, 64);
    WrapIsReduction(U8, 255 * 255, 1, 254);
  }

  /** The saturations the mul_sat tests expect for every signed type:
      -1 * MIN and MIN * MIN give MAX, MIN * MAX gives MIN. */
  lemma MulSatExamples(k: IntKind)
    requires k.signed
    ensures Clamp(k, -1 * Min(k)) == Max(k)
    ensures Clamp(k, Min(k) * Max(k)) == Min(k)
    ensures Clamp(k, Min(k) * Min(k)) == Max(k)
  {
    MinProductsOverflow(k);
    SignOfProduct(Min(k), Max(k));
  }
}
