/** Checked truncating division (div.hpp). */
module Division {

  import opened IntArith
  import opened Kinds
  import opened Errors

  /** The two divisions whose quotient is undefined: by zero, and MIN / -1
      for a signed type, whose quotient -MIN is not representable. */
  predicate DivRejects(k: IntKind, lhs: int, rhs: int) {
    rhs == 0 || (k.signed && lhs == Min(k) && rhs == -1)
  }

  /** div: the quotient truncated toward zero, which is always in range
      once the two rejected cases are excluded. */
  function Div(k: IntKind, lhs: int, rhs: int): (r: Option<int>)
    requires InRange(k, lhs) && InRange(k, rhs)
    ensures r.None? <==> DivRejects(k, lhs, rhs)
    ensures r.Some? ==> rhs != 0 && r.value == TDiv(lhs, rhs) && InRange(k, TDiv(lhs, rhs))
  {
    if k.signed && (rhs == 0 || (lhs == Min(k) && rhs == -1)) then None
    else if !k.signed && rhs == 0 then None
    else
      TDivMagnitude(lhs, rhs);
      Some(Wrap(k, TDiv(lhs, rhs)))
  }

  /** Truncation toward zero, and the quotients at the edges of the range:
      -1 / 2 is 0, -100 / 4 and 100 / -4 are -25, (MIN + 1) / -1 is MAX and
      MIN / MIN is 1. */
  lemma DivExamples(k: IntKind)
    requires k.signed
    ensures Div(k, -1, 2) == Some(0)
    ensures Div(k, -100, 4) == Some(-25) && Div(k, 100, -4) == Some(-25)
    ensures Div(k, Min(k) + 1, -1) == Some(Max(k))
    ensures Div(k, Min(k), Min(k)) == Some(1)
    ensures Div(k, Min(k), -1) == None && Div(k, 1, 0) == None
  {
    assert Min(k) <= -128 && Max(k) >= 127;
  }
}
