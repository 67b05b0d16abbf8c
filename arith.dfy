/** Mathematical integer facts the model rests on: powers of two, Dafny's
    Euclidean division, and the truncating division and remainder of C++
    (section 7.6.5 [expr.mul] of ISO/IEC 14882:2020: the quotient is
    truncated toward zero and `(a/b)*b + a%b == a`). Dafny's own `/` and `%`
    on `int` are Euclidean, so the C++ operators are defined here explicitly. */
module IntArith {

  /** 2^n. */
  function Pow2(n: nat): (p: int)
    ensures p > 0
  {
    if n == 0 then 1 else 2 * Pow2(n - 1)
  }

  lemma {:induction false} Pow2Add(a: nat, b: nat)
    ensures Pow2(a + b) == Pow2(a) * Pow2(b)
  {
    if a > 0 {
      Pow2Add(a - 1, b);
    }
  }

  lemma Pow2Widths()
    ensures Pow2(8) == 0x100 && Pow2(16) == 0x1_0000
    ensures Pow2(32) == 0x1_0000_0000 && Pow2(64) == 0x1_0000_0000_0000_0000
  {
    Pow2Add(16, 16);
    Pow2Add(32, 32);
  }

  lemma ProductOfShifted(x: int, y: int, m: int, p: int, q: int)
    ensures (x + m * p) * (y + m * q) == x * y + m * (p * y + x * q + m * p * q)
  {
  }

  /** A quotient and remainder that satisfy the division equation are the ones Dafny computes. */
  lemma DivModUnique(n: int, m: int, d: int, r: int)
    requires m > 0 && n == m * d + r && 0 <= r < m
    ensures n / m == d && n % m == r
  {
    var d', r' := n / m, n % m;
    assert m * (d' - d) == r - r';
    assert d' - d >= 1 ==> m * (d' - d) >= m;
    assert d - d' >= 1 ==> m * (d - d') >= m;
  }

  lemma ModShift(x: int, m: int, q: int)
    requires m > 0
    ensures (x + m * q) % m == x % m
  {
    DivModUnique(x + m * q, m, x / m + q, x % m);
  }

  /** Floor division by a positive divisor is the largest `c` with `c * b <= a`. */
  lemma FloorDivGalois(a: int, b: int, c: int)
    requires b > 0
    ensures c * b <= a <==> c <= a / b
  {
    var q := a / b;
    assert a == b * q + a % b;
    assert c <= q ==> c * b <= q * b;
    assert c >= q + 1 ==> c * b >= (q + 1) * b;
  }

  function Abs(x: int): nat {
    if x < 0 then -x else x
  }

  /** C++ `a / b` on integers: the quotient truncated toward zero. */
  function TDiv(a: int, b: int): int
    requires b != 0
  {
    if (a < 0) == (b < 0) then Abs(a) / Abs(b) else -(Abs(a) / Abs(b))
  }

  /** C++ `a % b` on integers: the remainder takes the sign of the dividend. */
  function TRem(a: int, b: int): int
    requires b != 0
  {
    if a < 0 then -(Abs(a) % Abs(b)) else Abs(a) % Abs(b)
  }

  /** Euclidean division of a natural number by a positive one. */
  lemma FloorDivMod(a: nat, b: int)
    requires b > 0
    ensures a == b * (a / b) + a % b && 0 <= a % b < b && a / b >= 0
  {
  }

  /** The division identity of [expr.mul]/4 for the truncating pair, with the
      remainder smaller than the divisor and of the dividend's sign. */
  lemma TDivTRem(a: int, b: int)
    requires b != 0
    ensures TDiv(a, b) * b + TRem(a, b) == a
    ensures Abs(TRem(a, b)) < Abs(b) && Abs(TRem(a, b)) <= Abs(a)
    ensures TRem(a, b) != 0 ==> (TRem(a, b) < 0 <==> a < 0)
  {
    var A, B := Abs(a), Abs(b);
    var q, r := A / B, A % B;
    FloorDivMod(A, B);
    var qB := q * B;
    assert A == qB + r;
    if (a < 0) == (b < 0) {
      assert TDiv(a, b) == q;
      assert q * b == (if b < 0 then -qB else qB);
    } else {
      assert TDiv(a, b) == -q;
      assert -q * b == (if b < 0 then qB else -qB);
    }
  }

  /** Truncation toward zero: the quotient is never larger in magnitude than
      the dividend, and at most half of it when |b| >= 2. */
  lemma TDivMagnitude(a: int, b: int)
    requires b != 0
    ensures Abs(TDiv(a, b)) <= Abs(a)
    ensures Abs(b) >= 2 ==> 2 * Abs(TDiv(a, b)) <= Abs(a)
    ensures TDiv(a, b) != 0 ==> (TDiv(a, b) < 0 <==> (a < 0) != (b < 0))
  {
    var A, B := Abs(a), Abs(b);
    var q := A / B;
    FloorDivMod(A, B);
    assert Abs(TDiv(a, b)) == q;
    MulGrows(q, B);
  }

  lemma MulGrows(q: nat, b: int)
    requires b >= 1
    ensures q <= q * b
    ensures b >= 2 ==> 2 * q <= q * b
  {
    assert q * b == q + q * (b - 1);
  }
}
