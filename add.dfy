/** Checked addition (add.hpp) and the wrapping and saturating additions
    that the add_wrap and add_sat tests exercise. The validation follows SEI
    CERT C rules INT32-C (signed) and INT30-C (unsigned). The checked
    operations report through an out-parameter; they are methods that
    return the error code together with the final value of that
    out-parameter, which keeps the caller's `prior` value when nothing is
    written to it. */
module Addition {

  import opened Kinds
  import opened Errors
  import opened Backends
  import opened Unchecked

  /** generic_validate_add. The bounds `t_max - rhs` and `t_min - rhs` are
      computed in T, which is only defined because they stay in range: the
      preconditions of `SubUnchecked` state that obligation. */
  function GenericValidateAdd(k: IntKind, lhs: int, rhs: int): (e: Errc)
    requires InRange(k, lhs) && InRange(k, rhs)
    ensures e == Ok || e == Overflow
    ensures e == Overflow <==> !InRange(k, lhs + rhs)
  {
    if k.signed then
      if rhs > 0 && lhs > SubUnchecked(k, Max(k), rhs) then Overflow
      else if rhs < 0 && lhs < SubUnchecked(k, Min(k), rhs) then Overflow
      else Ok
    else
      if lhs > SubUnchecked(k, Max(k), rhs) then Overflow else Ok
  }

  /** generic_add: stores the sum only when the validation succeeds. It
      agrees with the intrinsic specification whenever that reports success,
      and reports failure exactly when the intrinsic does. */
  method GenericAdd(k: IntKind, lhs: int, rhs: int, prior: int) returns (e: Errc, sum: int)
    requires InRange(k, lhs) && InRange(k, rhs)
    ensures e == Ok || e == Overflow
    ensures e == Overflow <==> Intrinsic(k, lhs + rhs).overflow
    ensures e == Ok ==> sum == lhs + rhs && sum == Intrinsic(k, lhs + rhs).value
    ensures e == Overflow ==> sum == prior
  {
    e := GenericValidateAdd(k, lhs, rhs);
    sum := prior;
    if e == Ok {
      sum := Wrap(k, lhs + rhs);
    }
  }

  /** add: the same outcome on every backend. */
  method Add(b: Backend, k: IntKind, lhs: int, rhs: int, prior: int) returns (e: Errc, sum: int)
    requires InRange(k, lhs) && InRange(k, rhs)
    ensures e == Ok || e == Overflow
    ensures e == Overflow <==> !InRange(k, lhs + rhs)
    ensures e == Ok ==> sum == lhs + rhs
  {
    if b == Generic {
      e, sum := GenericAdd(k, lhs, rhs, prior);
    } else {
      var f := Intrinsic(k, lhs + rhs);
      e := if f.overflow then Overflow else Ok;
      sum := f.value;
    }
  }

  /** The portable add_wrap, written as generic_sub_wrap is: a signed sum is
      computed on the unsigned reinterpretations and cast back. */
  function GenericAddWrap(k: IntKind, lhs: int, rhs: int): (r: int)
    requires InRange(k, lhs) && InRange(k, rhs)
    ensures r == Wrap(k, lhs + rhs)
  {
    if k.signed then
      var u := Unsigned(k);
      var a, b := ToUnsignedBits(k, lhs), ToUnsignedBits(k, rhs);
      WrapOfSum(u, u, lhs, rhs);
      WrapOfWrap(k, u, a + b);
      WrapOfSum(k, u, lhs, rhs);
      Wrap(k, AddUnchecked(u, a, b))
    else
      AddUnchecked(k, lhs, rhs)
  }

  /** add_wrap: the sum reduced modulo 2^width, on every backend. */
  function AddWrap(b: Backend, k: IntKind, lhs: int, rhs: int): (r: int)
    requires InRange(k, lhs) && InRange(k, rhs)
    ensures r == Wrap(k, lhs + rhs)
  {
    if b == Generic then GenericAddWrap(k, lhs, rhs) else Intrinsic(k, lhs + rhs).value
  }

  /** add_sat, written as sub_sat is: the checked sum, or on overflow the
      bound on the side the sum left through. */
  method AddSat(b: Backend, k: IntKind, lhs: int, rhs: int) returns (r: int)
    requires InRange(k, lhs) && InRange(k, rhs)
    ensures r == Clamp(k, lhs + rhs)
  {
    var e, sum := Add(b, k, lhs, rhs, 0);
    if e == Ok {
      r := sum;
    } else if !k.signed {
      r := Max(k);
    } else {
      r := if lhs < 0 then Min(k) else Max(k);
    }
  }

  /** add_wrap agrees with add wherever add succeeds, and differs from the
      mathematical sum by exactly one modulus where it fails. */
  lemma AddWrapAgreesWithAdd(b: Backend, k: IntKind, lhs: int, rhs: int)
    requires InRange(k, lhs) && InRange(k, rhs)
    ensures InRange(k, lhs + rhs) ==> AddWrap(b, k, lhs, rhs) == lhs + rhs
    ensures lhs + rhs > Max(k) ==> AddWrap(b, k, lhs, rhs) == lhs + rhs - Modulus(k)
    ensures lhs + rhs < Min(k) ==> AddWrap(b, k, lhs, rhs) == lhs + rhs + Modulus(k)
  {
    if lhs + rhs > Max(k) {
      WrapIsReduction(k, lhs + rhs, lhs + rhs - Modulus(k), 1);
    }
    if lhs + rhs < Min(k) {
      WrapIsReduction(k, lhs + rhs, lhs + rhs + Modulus(k), -1);
    }
  }

  /** The test expectations: MAX + 1 overflows, MIN + MAX is -1, add_wrap
      of MAX + 1 is MIN, and add_sat of MIN + -1 is MIN. */
  lemma AddExamples(b: Backend)
    ensures GenericValidateAdd(I32, Max(I32), 1) == Overflow
    ensures GenericValidateAdd(I32, Min(I32), Max(I32)) == Ok && Min(I32) + Max(I32) == -1
    ensures AddWrap(b, I8, Max(I8), 1) == Min(I8)
    ensures AddWrap(b, U16, Max(U16), 1) == 0
    ensures Clamp(I64, Min(I64) + -1) == Min(I64)
  {
    AddWrapAgreesWithAdd(b, I8, Max(I8), 1);
    AddWrapAgreesWithAdd(b, U16, Max(U16), 1);
  }
}
