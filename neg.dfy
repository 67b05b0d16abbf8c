/** Checked negation (neg.hpp). */
module Negation {

  import opened Kinds
  import opened Errors

  /** neg: a signed value other than MIN negates; an unsigned value
      negates only when it is zero. Either way the result is the negation
      exactly when that is representable. */
  function Neg(k: IntKind, v: int): (r: Option<int>)
    requires InRange(k, v)
    ensures r.Some? <==> InRange(k, -v)
    ensures r.Some? ==> r.value == -v
    ensures k.signed ==> (r.None? <==> v == Min(k))
    ensures !k.signed ==> (r.None? <==> v != 0)
  {
    if k.signed then
      if v == Min(k) then None else Some(Wrap(k, -v))
    else
      if v != 0 then None else Some(0)
  }

  /** Negation undoes itself. */
  lemma NegInvolutive(k: IntKind, v: int)
    requires InRange(k, v) && Neg(k, v).Some?
    ensures Neg(k, Neg(k, v).value) == Some(v)
  {
  }
}
