/** The raw operations of detail/unchecked.hpp. Each converts its operands
    to arithmetic_t<T>, computes there, and narrows the result back with
    `static_cast<T>`, which is `Wrap`. arithmetic_t is not part of this
    model; it is taken to be a type of T's signedness at least as wide as T
    and, for an unsigned T, at least as wide as `unsigned int`, so that no
    unsigned operand is promoted to `int`. Then unsigned operations wrap,
    and a signed operation is only defined when its mathematical result
    fits T: that is the `requires` its callers must meet. */
module Unchecked {

  import opened IntArith
  import opened Kinds

  /** detail::to_unsigned, which is not part of this model either: taken to
      be the same bits read as make_unsigned_t<T>, as sub.hpp:66 and
      mul.hpp:74 use it. */
  function ToUnsignedBits(k: IntKind, x: int): (r: int)
    requires InRange(k, x)
    ensures InRange(Unsigned(k), r)
    ensures x >= 0 ==> r == x
    ensures x < 0 ==> r == x + Modulus(k)
  {
    Wrap(Unsigned(k), x)
  }

  function AddUnchecked(k: IntKind, lhs: int, rhs: int): (r: int)
    requires InRange(k, lhs) && InRange(k, rhs)
    requires k.signed ==> InRange(k, lhs + rhs)
    ensures InRange(k, r)
    ensures InRange(k, lhs + rhs) ==> r == lhs + rhs
    ensures !k.signed ==> r == (lhs + rhs) % Modulus(k)
  {
    Wrap(k, lhs + rhs)
  }

  function SubUnchecked(k: IntKind, lhs: int, rhs: int): (r: int)
    requires InRange(k, lhs) && InRange(k, rhs)
    requires k.signed ==> InRange(k, lhs - rhs)
    ensures InRange(k, r)
    ensures InRange(k, lhs - rhs) ==> r == lhs - rhs
    ensures !k.signed ==> r == (lhs - rhs) % Modulus(k)
  {
    Wrap(k, lhs - rhs)
  }

  function MulUnchecked(k: IntKind, lhs: int, rhs: int): (r: int)
    requires InRange(k, lhs) && InRange(k, rhs)
    requires k.signed ==> InRange(k, lhs * rhs)
    ensures InRange(k, r)
    ensures InRange(k, lhs * rhs) ==> r == lhs * rhs
    ensures !k.signed ==> r == (lhs * rhs) % Modulus(k)
  {
    Wrap(k, lhs * rhs)
  }

  /** Division is defined unless the divisor is zero or the quotient is
      -Min, the one quotient of two values of T that T cannot hold. */
  function DivUnchecked(k: IntKind, lhs: int, rhs: int): (r: int)
    requires InRange(k, lhs) && InRange(k, rhs)
    requires rhs != 0 && !(k.signed && lhs == Min(k) && rhs == -1)
    ensures r == TDiv(lhs, rhs)
  {
    TDivMagnitude(lhs, rhs);
    Wrap(k, TDiv(lhs, rhs))
  }

  function RemUnchecked(k: IntKind, lhs: int, rhs: int): (r: int)
    requires InRange(k, lhs) && InRange(k, rhs)
    requires rhs != 0 && !(k.signed && lhs == Min(k) && rhs == -1)
    ensures TDiv(lhs, rhs) * rhs + r == lhs
    ensures Abs(r) < Abs(rhs)
  {
    TDivTRem(lhs, rhs);
    Wrap(k, TRem(lhs, rhs))
  }

  /** `lhs << rhs`: the shift amount must be below the width, and a signed
      operand must be non-negative with a representable result. */
  function ShlUnchecked(k: IntKind, lhs: int, rhs: int): (r: int)
    requires InRange(k, lhs) && 0 <= rhs < Bits(k)
    requires k.signed ==> 0 <= lhs && InRange(k, lhs * Pow2(rhs))
    ensures InRange(k, r)
    ensures InRange(k, lhs * Pow2(rhs)) ==> r == lhs * Pow2(rhs)
    ensures !k.signed ==> r == (lhs * Pow2(rhs)) % Modulus(k)
  {
    Wrap(k, lhs * Pow2(rhs))
  }
}
