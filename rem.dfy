/** Checked truncating remainder (rem.hpp). */
module Remainder {

  import opened IntArith
  import opened Kinds
  import opened Errors
  import opened Division

  /** rem: rejected exactly when div is, including MIN % -1, whose
      mathematical remainder 0 would be representable. On success the result
      completes the truncating division of [expr.mul]: quotient times divisor
      plus remainder gives the dividend back, the remainder is smaller than
      the divisor in magnitude, and a non-zero remainder has the sign of the
      dividend. */
  function Rem(k: IntKind, lhs: int, rhs: int): (r: Option<int>)
    requires InRange(k, lhs) && InRange(k, rhs)
    ensures r.None? <==> DivRejects(k, lhs, rhs)
    ensures r.Some? ==> rhs != 0 && TDiv(lhs, rhs) * rhs + r.value == lhs
    ensures r.Some? ==> Abs(r.value) < Abs(rhs)
    ensures r.Some? && r.value != 0 ==> (r.value < 0 <==> lhs < 0)
  {
    if k.signed && (rhs == 0 || (lhs == Min(k) && rhs == -1)) then None
    else if !k.signed && rhs == 0 then None
    else
      TDivTRem(lhs, rhs);
      Some(Wrap(k, TRem(lhs, rhs)))
  }

  /** div and rem succeed together and together recover the dividend. */
  lemma DivRemRecompose(k: IntKind, lhs: int, rhs: int)
    requires InRange(k, lhs) && InRange(k, rhs)
    ensures Div(k, lhs, rhs).Some? <==> Rem(k, lhs, rhs).Some?
    ensures Div(k, lhs, rhs).Some? ==>
              Div(k, lhs, rhs).value * rhs + Rem(k, lhs, rhs).value == lhs
  {
  }

  /** MIN % -1 is rejected although the remainder itself would be 0. */
  lemma MinRemMinusOneRejected(k: IntKind)
    requires k.signed
    ensures Rem(k, Min(k), -1) == None
    ensures TRem(Min(k), -1) == 0
  {
  }

  /** The test expectations 8 % 3 == 2, -8 % 3 == -2 and MIN % MIN == 0. */
  lemma RemExamples(k: IntKind)
    requires k.signed
    ensures Rem(k, 8, 3) == Some(2) && Rem(k, -8, 3) == Some(-2)
    ensures Rem(k, Min(k), Min(k)) == Some(0)
  {
    assert Min(k) <= -128 && Max(k) >= 127;
  }
}
