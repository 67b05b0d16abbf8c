/** Bit-level facts about non-negative integers: the bit at a position, the
    bitwise or of C++, and how multiplying, dividing and reducing by powers
    of two move bits. Rotation is stated and proved in these terms. */
module Bitwise {

  import opened IntArith

  /** Bit `i` of `x`: (x >> i) & 1. */
  function Bit(x: nat, i: nat): (b: nat)
    ensures b < 2
  {
    (x / Pow2(i)) % 2
  }

  /** The C++ operator `|` on non-negative operands, defined bit by bit
      from the lowest bit up. */
  function BitOr(a: nat, b: nat): (r: nat)
    decreases a + b
  {
    if a == 0 then b
    else if b == 0 then a
    else 2 * BitOr(a / 2, b / 2) + (if a % 2 == 1 || b % 2 == 1 then 1 else 0)
  }

  /** Dividing twice divides by the product. */
  lemma DivDiv(x: int, a: int, b: int)
    requires a > 0 && b > 0
    ensures (x / a) / b == x / (a * b)
  {
    var q1, r1 := x / a, x % a;
    var q2, r2 := q1 / b, q1 % b;
    assert x == a * q1 + r1 && 0 <= r1 < a;
    assert q1 == b * q2 + r2 && 0 <= r2 < b;
    Regroup(x, a, b, q1, q2, r1, r2);
    RemainderBound(a, b, r1, r2);
    DivModUnique(x, a * b, q2, a * r2 + r1);
  }

  lemma Regroup(x: int, a: int, b: int, q1: int, q2: int, r1: int, r2: int)
    requires x == a * q1 + r1 && q1 == b * q2 + r2
    ensures x == (a * b) * q2 + (a * r2 + r1)
  {
    assert a * (b * q2 + r2) == (a * b) * q2 + a * r2;
  }

  lemma RemainderBound(a: int, b: int, r1: int, r2: int)
    requires 0 <= r1 < a && 0 <= r2 < b
    ensures 0 <= a * r2 + r1 < a * b
  {
    assert a * r2 <= a * (b - 1);
  }

  /** Bit i of x, for i > 0, is bit i - 1 of x / 2. */
  lemma BitOfHalf(x: nat, i: nat)
    requires i > 0
    ensures Bit(x, i) == Bit(x / 2, i - 1)
  {
    DivDiv(x, 2, Pow2(i - 1));
  }

  /** Bit 0 is the parity. */
  lemma BitZero(x: nat)
    ensures Bit(x, 0) == x % 2
  {
    assert Pow2(0) == 1;
  }

  /** `|` sets a bit exactly when either operand has it set. */
  lemma {:induction false} BitOrBit(a: nat, b: nat, i: nat)
    ensures Bit(BitOr(a, b), i) == (if Bit(a, i) == 1 || Bit(b, i) == 1 then 1 else 0)
    decreases a + b
  {
    if a == 0 {
      assert Bit(0, i) == 0;
    } else if b == 0 {
      assert Bit(0, i) == 0;
    } else {
      var c := if a % 2 == 1 || b % 2 == 1 then 1 else 0;
      var r := BitOr(a / 2, b / 2);
      assert BitOr(a, b) == 2 * r + c;
      if i == 0 {
        BitZero(2 * r + c);
        BitZero(a);
        BitZero(b);
        assert (2 * r + c) % 2 == c;
      } else {
        BitOfHalf(2 * r + c, i);
        assert (2 * r + c) / 2 == r;
        assert Bit(BitOr(a, b), i) == Bit(r, i - 1);
        BitOfHalf(a, i);
        BitOfHalf(b, i);
        BitOrBit(a / 2, b / 2, i - 1);
      }
    }
  }

  /** When the operands share no set bits, here because `b` lies below the
      lowest set bit of `q * 2^s`, `|` is addition. */
  lemma {:induction false} BitOrDisjoint(q: nat, b: nat, s: nat)
    requires b < Pow2(s)
    ensures BitOr(q * Pow2(s), b) == q * Pow2(s) + b
  {
    if s > 0 && q != 0 && b != 0 {
      var h := q * Pow2(s - 1);
      assert q * Pow2(s) == 2 * h;
      BitOrDisjoint(q, b / 2, s - 1);
      assert BitOr(2 * h, b) == 2 * BitOr(h, b / 2) + b % 2;
    }
  }

  /** A value below `pd * ps` splits into a high part below `ps` and a low
      part below `pd`. */
  lemma Split(v: int, pd: int, ps: int)
    requires pd > 0 && ps > 0 && 0 <= v < pd * ps
    ensures v == pd * (v / pd) + v % pd
    ensures 0 <= v / pd < ps && 0 <= v % pd < pd
  {
    var q := v / pd;
    assert q >= ps ==> pd * q >= pd * ps;
  }

  /** Joining a part below `pd`, moved up by `ps`, with a part below `ps`
      stays below `pd * ps`. */
  lemma Join(lo: int, hi: int, pd: int, ps: int)
    requires 0 <= lo < pd && 0 <= hi < ps
    ensures 0 <= lo * ps + hi < pd * ps
  {
    assert lo * ps <= (pd - 1) * ps;
  }

  /** Dividing `q * p * t + b` by `p * t`, for `0 <= b < p`, in two steps. */
  lemma DivOfConcat(q: int, b: int, p: int, t: int)
    requires 0 <= b < p && t > 0
    ensures (q * p + b) / (p * t) == q / t
  {
    DivModUnique(q * p + b, p, q, b);
    DivDiv(q * p + b, p, t);
  }

  /** Below `p`, a multiple of `2 * p` does not change the parity of the
      quotient by `p`. */
  lemma ParityBelow(q: int, b: int, p: int, h: int)
    requires p > 0 && b >= 0
    ensures ((q * (p * (2 * h)) + b) / p) % 2 == (b / p) % 2
  {
    var hb, lo := b / p, b % p;
    var mid := hb + 2 * (q * h);
    assert q * (p * (2 * h)) + b == p * mid + lo;
    DivModUnique(q * (p * (2 * h)) + b, p, mid, lo);
    ModShift(hb, 2, q * h);
  }

  /** The bits of `q * 2^s + b` with `b < 2^s` from position `s` up are
      those of `q`. */
  lemma BitOfConcatHigh(q: nat, b: nat, s: nat, j: nat)
    requires b < Pow2(s) && j >= s
    ensures Bit(q * Pow2(s) + b, j) == Bit(q, j - s)
  {
    Pow2Add(s, j - s);
    DivOfConcat(q, b, Pow2(s), Pow2(j - s));
  }

  /** The bits of `q * 2^s + b` with `b < 2^s` below position `s` are
      those of `b`. */
  lemma BitOfConcatLow(q: nat, b: nat, s: nat, j: nat)
    requires j < s
    ensures Bit(q * Pow2(s) + b, j) == Bit(b, j)
  {
    Pow2Add(j, s - j);
    assert Pow2(s - j) == 2 * Pow2(s - j - 1);
    ParityBelow(q, b, Pow2(j), Pow2(s - j - 1));
  }

  /** Reducing modulo 2^m keeps the bits below m. */
  lemma BitOfMod(v: nat, m: nat, i: nat)
    requires i < m
    ensures Bit(v % Pow2(m), i) == Bit(v, i)
  {
    var p := Pow2(m);
    var q, r := v / p, v % p;
    FloorDivMod(v, p);
    assert v == q * p + r;
    BitOfConcatLow(q, r, m, i);
  }

  /** Dividing by 2^m moves bit i + m down to bit i: `w` is `v >> m`. */
  lemma BitOfDiv(v: nat, m: nat, i: nat, w: nat)
    requires w == v / Pow2(m)
    ensures Bit(w, i) == Bit(v, i + m)
  {
    var pm, pi, pim := Pow2(m), Pow2(i), Pow2(i + m);
    Pow2Add(m, i);
    assert pim == pm * pi;
    DivDiv(v, pm, pi);
    assert w / pi == v / pim;
  }
}
