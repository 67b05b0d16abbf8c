/** The eight fixed-width integer kinds (u8..u64, i8..i64), their ranges, and
    the two's-complement reduction `Wrap` that every narrowing `static_cast`
    and every wrapping operation of the library performs. */
module Kinds {

  import opened IntArith

  datatype Width = W8 | W16 | W32 | W64

  /** One of the eight supported integer types: its width in bits and its signedness. */
  datatype IntKind = IntKind(width: Width, signed: bool)

  const U8: IntKind := IntKind(W8, false)
  const U16: IntKind := IntKind(W16, false)
  const U32: IntKind := IntKind(W32, false)
  const U64: IntKind := IntKind(W64, false)
  const I8: IntKind := IntKind(W8, true)
  const I16: IntKind := IntKind(W16, true)
  const I32: IntKind := IntKind(W32, true)
  const I64: IntKind := IntKind(W64, true)

  function Bits(k: IntKind): nat {
    match k.width
    case W8 => 8
    case W16 => 16
    case W32 => 32
    case W64 => 64
  }

  /** The number of distinct bit patterns of the kind, 2^Bits(k). */
  function Modulus(k: IntKind): (m: int)
    ensures m == Pow2(Bits(k))
  {
    Pow2Widths();
    match k.width
    case W8 => 0x100
    case W16 => 0x1_0000
    case W32 => 0x1_0000_0000
    case W64 => 0x1_0000_0000_0000_0000
  }

  /** std::numeric_limits<T>::min(). */
  function Min(k: IntKind): int {
    if k.signed then -(Modulus(k) / 2) else 0
  }

  /** std::numeric_limits<T>::max(). */
  function Max(k: IntKind): int {
    if k.signed then Modulus(k) / 2 - 1 else Modulus(k) - 1
  }

  /** std::numeric_limits<T>::digits: the value bits, i.e. the width less the sign bit. */
  function Digits(k: IntKind): (d: nat)
    ensures Pow2(d) == Max(k) + 1
  {
    if k.signed then Bits(k) - 1 else Bits(k)
  }

  predicate InRange(k: IntKind, x: int) {
    Min(k) <= x <= Max(k)
  }

  /** make_unsigned_t<T> and make_signed_t<T>: the same width, the other signedness. */
  function Unsigned(k: IntKind): IntKind { IntKind(k.width, false) }
  function Signed(k: IntKind): IntKind { IntKind(k.width, true) }

  /** The value of type `k` whose bit pattern is the low Bits(k) bits of the
      two's-complement representation of `x`: what `static_cast<T>(x)`
      yields under the two's-complement assumption of primitives.hpp. */
  function Wrap(k: IntKind, x: int): (r: int)
    ensures InRange(k, r)
    ensures InRange(k, x) ==> r == x
  {
    var m := x % Modulus(k);
    if k.signed && m > Max(k) then m - Modulus(k) else m
  }

  /** Saturation: the value of `k` nearest to `x`. */
  function Clamp(k: IntKind, x: int): int {
    if x < Min(k) then Min(k) else if x > Max(k) then Max(k) else x
  }

  // ---------------------------------------------------------------------
  // Wrap is reduction modulo 2^Bits(k)

  /** Adding a multiple of the modulus does not change the reduction. */
  lemma WrapShift(k: IntKind, x: int, q: int)
    ensures Wrap(k, x + Modulus(k) * q) == Wrap(k, x)
  {
    ModShift(x, Modulus(k), q);
  }

  /** Every integer differs from its reduction by a multiple of the modulus. */
  lemma WrapQuotient(k: IntKind, x: int) returns (q: int)
    ensures x == Wrap(k, x) + Modulus(k) * q
  {
    var m := Modulus(k);
    DivModUnique(x, m, x / m, x % m);
    if k.signed && x % m > Max(k) {
      q := x / m + 1;
    } else {
      q := x / m;
    }
  }

  /** Wrap(k, x) is the one value of `k` that is congruent to `x`. */
  lemma {:induction false} WrapIsReduction(k: IntKind, x: int, y: int, q: int)
    requires InRange(k, y) && x == y + Modulus(k) * q
    ensures Wrap(k, x) == y
  {
    WrapShift(k, y, q);
  }

  /** Reinterpreting through a kind of the same width first changes nothing. */
  lemma WrapOfWrap(k: IntKind, j: IntKind, x: int)
    requires k.width == j.width
    ensures Wrap(k, Wrap(j, x)) == Wrap(k, x)
  {
    var q := WrapQuotient(j, x);
    WrapShift(k, Wrap(j, x), q);
  }

  lemma WrapOfSum(k: IntKind, j: IntKind, a: int, b: int)
    requires k.width == j.width
    ensures Wrap(k, Wrap(j, a) + Wrap(j, b)) == Wrap(k, a + b)
  {
    var qa := WrapQuotient(j, a);
    var qb := WrapQuotient(j, b);
    var m := Modulus(k);
    assert a + b == Wrap(j, a) + Wrap(j, b) + m * (qa + qb);
    WrapShift(k, Wrap(j, a) + Wrap(j, b), qa + qb);
  }

  lemma WrapOfDifference(k: IntKind, j: IntKind, a: int, b: int)
    requires k.width == j.width
    ensures Wrap(k, Wrap(j, a) - Wrap(j, b)) == Wrap(k, a - b)
  {
    var qa := WrapQuotient(j, a);
    var qb := WrapQuotient(j, b);
    var m := Modulus(k);
    assert a - b == Wrap(j, a) - Wrap(j, b) + m * (qa - qb);
    WrapShift(k, Wrap(j, a) - Wrap(j, b), qa - qb);
  }

  lemma WrapOfProduct(k: IntKind, j: IntKind, a: int, b: int)
    requires k.width == j.width
    ensures Wrap(k, Wrap(j, a) * Wrap(j, b)) == Wrap(k, a * b)
  {
    var qa := WrapQuotient(j, a);
    var qb := WrapQuotient(j, b);
    var m := Modulus(k);
    var wa, wb := Wrap(j, a), Wrap(j, b);
    ProductOfShifted(wa, wb, m, qa, qb);
    WrapShift(k, wa * wb, qa * wb + wa * qb + m * qa * qb);
  }
}
