/** The range-checked conversions of cast.hpp. */
module Cast {

  import opened Kinds
  import opened Errors
  import opened Compare

  /** in_range<To>(from): same type is trivially in range; the lower bound
      is checked only for a signed source, since an unsigned value is never
      below the minimum of any type. */
  function InRangeOf(to: IntKind, from: IntKind, x: int): (b: bool)
    requires InRange(from, x)
    ensures b <==> Min(to) <= x <= Max(to)
  {
    if to == from then true
    else if from.signed && CmpLt(from, x, to, Min(to)) then false
    else if CmpGt(from, x, to, Max(to)) then false
    else true
  }

  /** cast<To>(from): the value itself when it fits, nothing otherwise. */
  function Cast(to: IntKind, from: IntKind, x: int): (r: Option<int>)
    requires InRange(from, x)
    ensures r.Some? <==> InRange(to, x)
    ensures r.Some? ==> r.value == x
  {
    if !InRangeOf(to, from, x) then None else Some(Wrap(to, x))
  }

  /** A successful conversion can be undone. */
  lemma CastRoundTrip(to: IntKind, from: IntKind, x: int)
    requires InRange(from, x) && Cast(to, from, x).Some?
    ensures Cast(from, to, Cast(to, from, x).value) == Some(x)
  {
  }

  /** Conversion to a type that holds every value of the source never fails. */
  lemma WideningCastSucceeds(to: IntKind, from: IntKind, x: int)
    requires InRange(from, x) && Min(to) <= Min(from) && Max(from) <= Max(to)
    ensures Cast(to, from, x) == Some(x)
  {
  }

  /** to_unsigned: a signed value to its unsigned counterpart. */
  function ToUnsigned(k: IntKind, x: int): (r: Option<int>)
    requires k.signed && InRange(k, x)
    ensures r.Some? <==> x >= 0
    ensures r.Some? ==> r.value == x
  {
    Cast(Unsigned(k), k, x)
  }

  /** to_signed: an unsigned value to its signed counterpart. */
  function ToSigned(k: IntKind, x: int): (r: Option<int>)
    requires !k.signed && InRange(k, x)
    ensures r.Some? <==> x <= Max(Signed(k))
    ensures r.Some? ==> r.value == x
  {
    Cast(Signed(k), k, x)
  }

  /** to_signed undoes to_unsigned, and to_unsigned undoes to_signed. */
  lemma ToUnsignedToSigned(k: IntKind, x: int)
    requires k.signed && InRange(k, x) && x >= 0
    ensures ToSigned(Unsigned(k), ToUnsigned(k, x).value) == Some(x)
  {
    assert Signed(Unsigned(k)) == k;
  }
}
