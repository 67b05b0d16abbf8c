/** Checked left shift (shl.hpp). A signed shift must keep every bit of
    the value, so it succeeds only for a non-negative value shifted by less
    than the number of value bits with the product still in range. An
    unsigned shift only bounds the shift amount; bits shifted out are lost. */
module ShiftLeft {

  import opened IntArith
  import opened Kinds
  import opened Errors
  import opened Unchecked

  /** `t_max >> rhs` for a non-negative shift below the width. */
  function MaxShiftedRight(k: IntKind, rhs: int): (r: int)
    requires 0 <= rhs < Bits(k)
    ensures forall l: int :: l > r <==> l * Pow2(rhs) > Max(k)
  {
    forall l: int ensures l > Max(k) / Pow2(rhs) <==> l * Pow2(rhs) > Max(k) {
      FloorDivGalois(Max(k), Pow2(rhs), l);
    }
    Max(k) / Pow2(rhs)
  }

  /** shl. For a signed type the guard relies on short-circuit evaluation:
      `t_max >> rhs` is evaluated only once `rhs` is known to lie in
      [0, t_digits). */
  function Shl(k: IntKind, lhs: int, rhs: int): (r: Option<int>)
    requires InRange(k, lhs) && InRange(k, rhs)
    ensures k.signed ==>
              (r.Some? <==> 0 <= lhs && 0 <= rhs < Digits(k) && InRange(k, lhs * Pow2(rhs)))
    ensures !k.signed ==> (r.Some? <==> rhs < Bits(k))
    ensures r.Some? ==> 0 <= rhs && r.value == Wrap(k, lhs * Pow2(rhs))
    ensures r.Some? && k.signed ==> r.value == lhs * Pow2(rhs)
  {
    var digits := Digits(k);
    if k.signed then
      if lhs < 0 || rhs < 0 || rhs >= digits || lhs > MaxShiftedRight(k, rhs) then None
      else Some(ShlUnchecked(k, lhs, rhs))
    else
      if rhs >= digits then None
      else Some(ShlUnchecked(k, lhs, rhs))
  }

  /** The test expectations: for u8, 1 << 7 is 128 and 1 << 8 is rejected;
      for i8, 1 << 6 is 64 and 1 << 7 is rejected because it needs the sign bit. */
  lemma ShlExamples()
    ensures Shl(U8, 1, 7) == Some(128) && Shl(U8, 1, 8) == None
    ensures Shl(U8, 0xFF, 4) == Some(0xF0)
    ensures Shl(I8, 1, 6) == Some(64) && Shl(I8, 1, 7) == None
    ensures Shl(I8, -1, 1) == None && Shl(I8, 1, -1) == None
  {
    assert Pow2(4) == 16 && Pow2(7) == 128;
    WrapIsReduction(U8, 0xFF * 16, 0xF0, 15);
  }
}
