/** The mixed-signedness comparisons of cmp.hpp. Operands of the same
    signedness are compared directly; otherwise the signed operand is checked
    for negativity first and only then converted to its unsigned
    counterpart, so the conversion never changes its value. */
module Compare {

  import opened Kinds

  /** cmp_eq: the values are equal. */
  function CmpEq(t: IntKind, lhs: int, u: IntKind, rhs: int): (b: bool)
    requires InRange(t, lhs) && InRange(u, rhs)
    ensures b <==> lhs == rhs
  {
    if t.signed == u.signed then lhs == rhs
    else if t.signed then lhs >= 0 && Wrap(Unsigned(t), lhs) == rhs
    else rhs >= 0 && lhs == Wrap(Unsigned(u), rhs)
  }

  /** cmp_ne. */
  function CmpNe(t: IntKind, lhs: int, u: IntKind, rhs: int): (b: bool)
    requires InRange(t, lhs) && InRange(u, rhs)
    ensures b <==> lhs != rhs
  {
    !CmpEq(t, lhs, u, rhs)
  }

  /** cmp_lt: `lhs` is smaller than `rhs`. */
  function CmpLt(t: IntKind, lhs: int, u: IntKind, rhs: int): (b: bool)
    requires InRange(t, lhs) && InRange(u, rhs)
    ensures b <==> lhs < rhs
  {
    if t.signed == u.signed then lhs < rhs
    else if t.signed then lhs < 0 || Wrap(Unsigned(t), lhs) < rhs
    else rhs >= 0 && lhs < Wrap(Unsigned(u), rhs)
  }

  /** cmp_gt. */
  function CmpGt(t: IntKind, lhs: int, u: IntKind, rhs: int): (b: bool)
    requires InRange(t, lhs) && InRange(u, rhs)
    ensures b <==> lhs > rhs
  {
    CmpLt(u, rhs, t, lhs)
  }

  /** cmp_le. */
  function CmpLe(t: IntKind, lhs: int, u: IntKind, rhs: int): (b: bool)
    requires InRange(t, lhs) && InRange(u, rhs)
    ensures b <==> lhs <= rhs
  {
    !CmpLt(u, rhs, t, lhs)
  }

  /** cmp_ge. */
  function CmpGe(t: IntKind, lhs: int, u: IntKind, rhs: int): (b: bool)
    requires InRange(t, lhs) && InRange(u, rhs)
    ensures b <==> lhs >= rhs
  {
    !CmpLt(t, lhs, u, rhs)
  }

  /** The conversions to the unsigned counterpart are reached only with a
      non-negative operand, where they preserve its value. */
  lemma UnsignedConversionPreservesValue(t: IntKind, x: int)
    requires InRange(t, x) && x >= 0
    ensures Wrap(Unsigned(t), x) == x
  {
    assert Max(t) <= Max(Unsigned(t));
  }

  /** A negative signed value is below every unsigned value, and an unsigned
      value is never below a negative signed one. */
  lemma NegativeBelowUnsigned(t: IntKind, lhs: int, u: IntKind, rhs: int)
    requires t.signed && !u.signed && InRange(t, lhs) && InRange(u, rhs) && lhs < 0
    ensures CmpLt(t, lhs, u, rhs) && !CmpLt(u, rhs, t, lhs)
    ensures !CmpEq(t, lhs, u, rhs) && !CmpEq(u, rhs, t, lhs)
  {
  }

  /** Exactly one of lhs < rhs, lhs == rhs and rhs < lhs holds. */
  lemma Trichotomy(t: IntKind, lhs: int, u: IntKind, rhs: int)
    requires InRange(t, lhs) && InRange(u, rhs)
    ensures CmpLt(t, lhs, u, rhs) || CmpEq(t, lhs, u, rhs) || CmpLt(u, rhs, t, lhs)
    ensures !(CmpLt(t, lhs, u, rhs) && CmpEq(t, lhs, u, rhs))
    ensures !(CmpLt(t, lhs, u, rhs) && CmpLt(u, rhs, t, lhs))
    ensures !(CmpEq(t, lhs, u, rhs) && CmpLt(u, rhs, t, lhs))
  {
  }
}
