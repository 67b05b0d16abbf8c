/** Unsigned rotate-left (rotl.hpp). `rotl` uses the compiler's
    `__builtin_rotateleftN` when it is available and the portable `rotl_sw`
    otherwise. The builtin is not implemented here: it is specified as
    `RotateLeft` by the shift amount modulo the width, whose meaning, the bit
    at position i moving to position (i + s) mod width, is proved below.
    `rotl_sw` is modelled on the C++ operators: a u8 or u16 operand is
    promoted to a 32-bit `int` before it is shifted, a u32 or u64 operand is
    shifted in its own type, and a shift by the full width of the shifted
    type is undefined (section 7.6.7 [expr.shift] of ISO/IEC 14882:2020). */
module Rotation {

  import opened IntArith
  import opened Kinds
  import opened Errors
  import opened Bitwise

  /** Rotation by `s` places: the top `s` bits move to the bottom and the
      rest move up by `s`. */
  function RotateLeft(k: IntKind, v: int, s: nat): (r: int)
    requires !k.signed && InRange(k, v) && s < Bits(k)
    ensures InRange(k, r)
  {
    var d := Bits(k) - s;
    var pd, ps := Pow2(d), Pow2(s);
    Pow2Add(d, s);
    Split(v, pd, ps);
    Join(v % pd, v / pd, pd, ps);
    (v % pd) * ps + v / pd
  }

  /** The parts RotateLeft exchanges: `v` is `hi * 2^d + lo` with `lo` the
      low d = width - s bits and `hi` the top s bits, and the rotation is
      `lo * 2^s + hi`. */
  lemma Parts(k: IntKind, v: int, s: nat) returns (pd: int, ps: int, lo: int, hi: int)
    requires !k.signed && InRange(k, v) && s < Bits(k)
    ensures pd == Pow2(Bits(k) - s) && ps == Pow2(s) && Modulus(k) == pd * ps
    ensures lo == v % pd && hi == v / pd && v == pd * hi + lo
    ensures 0 <= lo < pd && 0 <= hi < ps
    ensures RotateLeft(k, v, s) == lo * ps + hi
  {
    pd, ps := Pow2(Bits(k) - s), Pow2(s);
    Pow2Add(Bits(k) - s, s);
    Split(v, pd, ps);
    lo, hi := v % pd, v / pd;
  }

  /** Rotation by zero places is the identity. */
  lemma RotateLeftZero(k: IntKind, v: int)
    requires !k.signed && InRange(k, v)
    ensures RotateLeft(k, v, 0) == v
    ensures v / Pow2(Bits(k)) == 0
  {
    var pd, ps, lo, hi := Parts(k, v, 0);
  }

  /** Every bit of `v` at position i reappears at position (i + s) mod width. */
  lemma RotateLeftMovesBits(k: IntKind, v: int, s: nat, i: nat)
    requires !k.signed && InRange(k, v) && s < Bits(k) && i < Bits(k)
    ensures Bit(RotateLeft(k, v, s), (i + s) % Bits(k)) == Bit(v, i)
  {
    var w, d := Bits(k), Bits(k) - s;
    var pd, ps, lo, hi := Parts(k, v, s);
    if i < d {
      DivModUnique(i + s, w, 0, i + s);
      BitOfConcatHigh(lo, hi, s, i + s);
      BitOfMod(v, d, i);
    } else {
      DivModUnique(i + s, w, 1, i - d);
      BitOfConcatLow(lo, hi, s, i - d);
      BitOfDiv(v, d, i - d, hi);
    }
  }

  /** Rotating back by the remaining places restores the value. */
  lemma RotateLeftInverse(k: IntKind, v: int, s: nat)
    requires !k.signed && InRange(k, v) && s < Bits(k)
    ensures RotateLeft(k, RotateLeft(k, v, s), (Bits(k) - s) % Bits(k)) == v
  {
    var w := Bits(k);
    if s == 0 {
      DivModUnique(w, w, 1, 0);
      RotateLeftZero(k, v);
      RotateLeftZero(k, RotateLeft(k, v, s));
    } else {
      DivModUnique(w - s, w, 0, w - s);
      RotateBack(k, v, s);
    }
  }

  lemma RotateBack(k: IntKind, v: int, s: nat)
    requires !k.signed && InRange(k, v) && 0 < s < Bits(k)
    ensures RotateLeft(k, RotateLeft(k, v, s), Bits(k) - s) == v
  {
    var r := RotateLeft(k, v, s);
    var pd, ps, lo, hi := Parts(k, v, s);
    var t: nat := Bits(k) - s;
    assert Bits(k) - t == s;
    var pd', ps', lo', hi' := Parts(k, r, t);
    assert pd' == ps && ps' == pd;
    DivModUnique(r, ps, lo, hi);
    assert lo' == hi && hi' == lo;
    assert RotateLeft(k, r, t) == hi * pd + lo;
  }

  /** The value of `val << s | val >> (width - s)` for 0 < s < width, with
      the left shift either exact (after promotion to int) or reduced to the
      type (a shift in u32 or u64): either way, once cast back to the type, it
      is the rotation. */
  lemma ShiftOrIsRotation(k: IntKind, v: int, s: nat, promoted: bool)
    requires !k.signed && InRange(k, v) && 0 < s < Bits(k)
    ensures var left := if promoted then v * Pow2(s) else Wrap(k, v * Pow2(s));
            var right := v / Pow2(Bits(k) - s);
            left >= 0 && right >= 0 && Wrap(k, BitOr(left, right)) == RotateLeft(k, v, s)
  {
    var pd, ps, lo, hi := Parts(k, v, s);
    var low := lo * ps;
    ShiftParts(v, pd, ps, lo, hi);
    Join(lo, hi, pd, ps);
    WrapIsReduction(k, v * ps, low, hi);
    if promoted {
      BitOrDisjoint(v, hi, s);
      WrapIsReduction(k, v * ps + hi, low + hi, hi);
    } else {
      BitOrDisjoint(lo, hi, s);
    }
  }

  lemma ShiftParts(v: int, pd: int, ps: int, lo: int, hi: int)
    requires v == pd * hi + lo
    ensures v * ps == lo * ps + (pd * ps) * hi
  {
  }

  /** Whether the operands of `<<` and `>>` in rotl_sw are promoted to a
      32-bit int: true for u8 and u16. */
  predicate Promoted(k: IntKind) {
    Bits(k) < 32
  }

  /** rotl_sw as written. `None` stands for the undefined behaviour of
      `val >> (t_digits - n_rem)` when `n_rem` is 0 but `n` is not, so that
      the right shift is by the full width of an unpromoted u32 or u64. */
  function RotlSwAsWritten(k: IntKind, v: int, n: int): (r: Option<int>)
    requires !k.signed && InRange(k, v) && InRange(k, n)
    ensures r.None? <==> !Promoted(k) && n != 0 && n % Bits(k) == 0
    ensures r.Some? ==> r.value == RotateLeft(k, v, n % Bits(k))
  {
    if n == 0 then
      RotateLeftZero(k, v);
      Some(v)
    else
      var digits := Bits(k);
      var nRem := n % digits;
      if !Promoted(k) && digits - nRem >= Bits(k) then None
      else
        var left := if Promoted(k) then v * Pow2(nRem) else Wrap(k, v * Pow2(nRem));
        var right := v / Pow2(digits - nRem);
        if nRem == 0 then
          RotateLeftZero(k, v);
          assert left == v && right == 0;
          Some(Wrap(k, BitOr(left, right)))
        else
          ShiftOrIsRotation(k, v, nRem, Promoted(k));
          Some(Wrap(k, BitOr(left, right)))
  }

  /** A rotation by exactly the width, rotl_sw<u32>(v, 32) or
      rotl_sw<u64>(v, 64), shifts by the full width, while for u8 and u16 the
      same call is defined and returns the value. */
  lemma FullWidthRotationUndefined(k: IntKind, v: int)
    requires !k.signed && InRange(k, v)
    ensures !Promoted(k) ==> RotlSwAsWritten(k, v, Bits(k)) == None
    ensures Promoted(k) ==> RotlSwAsWritten(k, v, Bits(k)) == Some(v)
  {
    DivModUnique(Bits(k), Bits(k), 1, 0);
    RotateLeftZero(k, v);
  }

  /** rotl_sw as evidently intended: a rotation by a multiple of the width
      returns the value unchanged, before any shift is formed. */
  function RotlSw(k: IntKind, v: int, n: int): (r: int)
    requires !k.signed && InRange(k, v) && InRange(k, n)
    ensures r == RotateLeft(k, v, n % Bits(k))
  {
    var digits := Bits(k);
    var nRem := n % digits;
    if nRem == 0 then
      RotateLeftZero(k, v);
      v
    else
      var left := if Promoted(k) then v * Pow2(nRem) else Wrap(k, v * Pow2(nRem));
      var right := v / Pow2(digits - nRem);
      ShiftOrIsRotation(k, v, nRem, Promoted(k));
      Wrap(k, BitOr(left, right))
  }

  /** The corrected rotl_sw agrees with the one as written wherever that is
      defined. */
  lemma RotlSwExtendsAsWritten(k: IntKind, v: int, n: int)
    requires !k.signed && InRange(k, v) && InRange(k, n)
    ensures RotlSwAsWritten(k, v, n).Some? ==> RotlSwAsWritten(k, v, n).value == RotlSw(k, v, n)
    ensures Promoted(k) ==> RotlSwAsWritten(k, v, n) == Some(RotlSw(k, v, n))
  {
  }

  /** rotl as written: the builtin rotation, or without it rotl_sw as
      written, which is undefined (`None`) for u32 and u64 at a non-zero
      multiple of the width. */
  function RotlAsWritten(builtin: bool, k: IntKind, v: int, n: int): (r: Option<int>)
    requires !k.signed && InRange(k, v) && InRange(k, n)
    ensures r.None? <==> !builtin && !Promoted(k) && n != 0 && n % Bits(k) == 0
    ensures r.Some? ==> r.value == RotateLeft(k, v, n % Bits(k))
  {
    if builtin then Some(RotateLeft(k, v, n % Bits(k))) else RotlSwAsWritten(k, v, n)
  }

  /** rotl with the corrected rotl_sw of `RotlSw` on the software branch:
      with or without the builtin, the rotation by the shift amount modulo
      the width. */
  function Rotl(builtin: bool, k: IntKind, v: int, n: int): (r: int)
    requires !k.signed && InRange(k, v) && InRange(k, n)
    ensures r == RotateLeft(k, v, n % Bits(k))
  {
    if builtin then RotateLeft(k, v, n % Bits(k)) else RotlSw(k, v, n)
  }

  /** The corrected rotl agrees with rotl as written wherever that is
      defined, which is everywhere with the builtin or for u8 and u16. */
  lemma RotlExtendsAsWritten(builtin: bool, k: IntKind, v: int, n: int)
    requires !k.signed && InRange(k, v) && InRange(k, n)
    ensures RotlAsWritten(builtin, k, v, n).Some? ==> RotlAsWritten(builtin, k, v, n).value == Rotl(builtin, k, v, n)
    ensures builtin || Promoted(k) ==> RotlAsWritten(builtin, k, v, n) == Some(Rotl(builtin, k, v, n))
  {
  }

  /** Rotating by zero is the identity, and only the shift amount modulo
      the width matters. */
  lemma RotlPeriodic(builtin: bool, k: IntKind, v: int, n: int)
    requires !k.signed && InRange(k, v) && InRange(k, n)
    ensures Rotl(builtin, k, v, 0) == v
    ensures Rotl(builtin, k, v, n) == Rotl(builtin, k, v, n % Bits(k))
  {
    RotateLeftZero(k, v);
    DivModUnique(0, Bits(k), 0, 0);
    DivModUnique(n % Bits(k), Bits(k), 0, n % Bits(k));
  }

  /** The test expectations for u8: 1 rotated by 0 is 1, by 7 is 128, by 8
      is 1 again and by 9 is 2. */
  lemma RotlExamples(builtin: bool, k: IntKind, v: int)
    requires k == U8 && v == 1
    ensures Rotl(builtin, k, v, 0) == 1
    ensures Rotl(builtin, k, v, 7) == 128
    ensures Rotl(builtin, k, v, 8) == 1
    ensures Rotl(builtin, k, v, 9) == 2
  {
    RotlPeriodic(builtin, k, v, 8);
    RotlPeriodic(builtin, k, v, 9);
    RotationOfOne(k, 7);
    RotationOfOne(k, 1);
  }

  /** In a type of at least two bits, rotating 1 by 0 < s < width gives 2^s. */
  lemma RotationOfOne(k: IntKind, s: nat)
    requires !k.signed && 0 < s < Bits(k)
    ensures RotateLeft(k, 1, s) == Pow2(s)
  {
    var pd, ps, lo, hi := Parts(k, 1, s);
    assert pd >= 2 by {
      assert pd == 2 * Pow2(Bits(k) - s - 1);
    }
    DivModUnique(1, pd, 0, 1);
  }
}
