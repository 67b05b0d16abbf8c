/** Checked, wrapping and saturating subtraction (sub.hpp). The portable
    check follows SEI CERT C rules INT32-C (signed) and INT30-C (unsigned). */
module Subtraction {

  import opened Kinds
  import opened Errors
  import opened Backends
  import opened Unchecked

  /** generic_sub_check_overflow. The bounds `t_min + rhs` (for rhs > 0) and
      `t_max + rhs` (for rhs < 0) are computed with add_unchecked, whose
      precondition states that they stay in range. */
  function GenericSubCheckOverflow(k: IntKind, lhs: int, rhs: int): (o: bool)
    requires InRange(k, lhs) && InRange(k, rhs)
    ensures o <==> !InRange(k, lhs - rhs)
    ensures !k.signed ==> (o <==> rhs > lhs)
  {
    if k.signed then
      if rhs > 0 && lhs < AddUnchecked(k, Min(k), rhs) then true
      else if rhs < 0 && lhs > AddUnchecked(k, Max(k), rhs) then true
      else false
    else
      rhs > lhs
  }

  /** generic_sub. */
  function GenericSub(k: IntKind, lhs: int, rhs: int): (r: Option<int>)
    requires InRange(k, lhs) && InRange(k, rhs)
    ensures r.Some? <==> InRange(k, lhs - rhs)
    ensures r.Some? ==> r.value == lhs - rhs
  {
    if GenericSubCheckOverflow(k, lhs, rhs) then None else Some(SubUnchecked(k, lhs, rhs))
  }

  /** sub: the difference when it is representable, on every backend. */
  function Sub(b: Backend, k: IntKind, lhs: int, rhs: int): (r: Option<int>)
    requires InRange(k, lhs) && InRange(k, rhs)
    ensures r.Some? <==> InRange(k, lhs - rhs)
    ensures r.Some? ==> r.value == lhs - rhs
  {
    if b == Generic then GenericSub(k, lhs, rhs)
    else
      var f := Intrinsic(k, lhs - rhs);
      if !f.overflow then Some(f.value) else None
  }

  /** generic_sub_wrap: a signed difference is computed on the unsigned
      reinterpretations and cast back. */
  function GenericSubWrap(k: IntKind, lhs: int, rhs: int): (r: int)
    requires InRange(k, lhs) && InRange(k, rhs)
    ensures r == Wrap(k, lhs - rhs)
  {
    if k.signed then
      var u := Unsigned(k);
      var a, b := ToUnsignedBits(k, lhs), ToUnsignedBits(k, rhs);
      WrapOfWrap(k, u, a - b);
      WrapOfDifference(k, u, lhs, rhs);
      Wrap(k, SubUnchecked(u, a, b))
    else
      SubUnchecked(k, lhs, rhs)
  }

  /** sub_wrap: the difference reduced modulo 2^width, on every backend. */
  function SubWrap(b: Backend, k: IntKind, lhs: int, rhs: int): (r: int)
    requires InRange(k, lhs) && InRange(k, rhs)
    ensures r == Wrap(k, lhs - rhs)
  {
    if b == Generic then GenericSubWrap(k, lhs, rhs) else Intrinsic(k, lhs - rhs).value
  }

  /** sub_sat: the checked difference, or on overflow the bound the
      difference left through: the minimum for unsigned types, and for
      signed types the minimum exactly when `lhs` is negative. */
  function SubSat(b: Backend, k: IntKind, lhs: int, rhs: int): (r: int)
    requires InRange(k, lhs) && InRange(k, rhs)
    ensures r == Clamp(k, lhs - rhs)
  {
    var d := Sub(b, k, lhs, rhs);
    if d.Some? then d.value
    else if !k.signed then Min(k)
    else if lhs < 0 then Min(k) else Max(k)
  }

  /** sub_wrap agrees with sub wherever sub succeeds, and differs from the
      mathematical difference by exactly one modulus where it fails. */
  lemma SubWrapAgreesWithSub(b: Backend, k: IntKind, lhs: int, rhs: int)
    requires InRange(k, lhs) && InRange(k, rhs)
    ensures Sub(b, k, lhs, rhs).Some? ==> SubWrap(b, k, lhs, rhs) == Sub(b, k, lhs, rhs).value
    ensures lhs - rhs > Max(k) ==> SubWrap(b, k, lhs, rhs) == lhs - rhs - Modulus(k)
    ensures lhs - rhs < Min(k) ==> SubWrap(b, k, lhs, rhs) == lhs - rhs + Modulus(k)
  {
    if lhs - rhs > Max(k) {
      WrapIsReduction(k, lhs - rhs, lhs - rhs - Modulus(k), 1);
    }
    if lhs - rhs < Min(k) {
      WrapIsReduction(k, lhs - rhs, lhs - rhs + Modulus(k), -1);
    }
  }

  /** The backends are interchangeable for sub, sub_wrap and sub_sat. */
  lemma SubBackendsAgree(b: Backend, c: Backend, k: IntKind, lhs: int, rhs: int)
    requires InRange(k, lhs) && InRange(k, rhs)
    ensures Sub(b, k, lhs, rhs) == Sub(c, k, lhs, rhs)
    ensures SubWrap(b, k, lhs, rhs) == SubWrap(c, k, lhs, rhs)
    ensures SubSat(b, k, lhs, rhs) == SubSat(c, k, lhs, rhs)
  {
  }

  /** The test expectations: sub_wrap of MIN - 1 is MAX, of MAX - -1 is MIN
      and of 0u - 1u is the unsigned MAX; sub_sat of MIN - 1 is MIN, of
      MAX - -1 is MAX and of 0u - 1u is 0. */
  lemma SubExamples(b: Backend)
    ensures SubWrap(b, I32, Min(I32), 1) == Max(I32)
    ensures SubWrap(b, I32, Max(I32), -1) == Min(I32)
    ensures SubWrap(b, U8, 0, 1) == Max(U8)
    ensures SubSat(b, I16, Min(I16), 1) == Min(I16)
    ensures SubSat(b, I16, Max(I16), -1) == Max(I16)
    ensures SubSat(b, U64, 0, 1) == 0
  {
    SubWrapAgreesWithSub(b, I32, Min(I32), 1);
    SubWrapAgreesWithSub(b, I32, Max(I32), -1);
    SubWrapAgreesWithSub(b, U8, 0, 1);
  }
}
