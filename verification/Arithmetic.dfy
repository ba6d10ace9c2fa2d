/** Facts about integer division that the solver does not find unaided. */
module Arithmetic {
  // Quotient and remainder are determined by their defining equation.
  lemma DivModUnique(a: int, b: int, q: int, r: int)
    requires b > 0 && a == b * q + r && 0 <= r < b
    ensures a / b == q && a % b == r
  {
    var k, m := a / b, a % b;
    assert a == b * k + m;
    assert b * (k - q) == r - m by { assert b * (k - q) == b * k - b * q; }
    if k > q {
      MulMono(b, 1, k - q);
    } else if k < q {
      MulMono(b, k - q, -1);
    }
  }

  lemma MulMono(b: int, x: int, y: int)
    requires b >= 0 && x <= y
    ensures b * x <= b * y
  {
  }

  lemma MulBound(a: int, b: int, x: int, y: int)
    requires 0 <= a <= x && 0 <= b <= y
    ensures 0 <= a * b <= x * y
  {
    MulMono(a, b, y);
    MulMono(y, a, x);
  }

  lemma MulAssoc(a: int, b: int, c: int)
    ensures a * (b * c) == (a * b) * c
  {
  }

  // Adding a multiple of the modulus does not change the remainder.
  lemma ModShift(a: int, k: int, m: int)
    requires m > 0
    ensures (a + m * k) % m == a % m
  {
    DivModUnique(a + m * k, m, a / m + k, a % m);
  }

  // Products of congruent numbers are congruent.
  lemma ModMul(a: int, b: int, c: int, d: int, m: int)
    requires m > 0 && a % m == b % m && c % m == d % m
    ensures (a * c) % m == (b * d) % m
  {
    var x, y := a / m - b / m, c / m - d / m;
    assert a == b + m * x && c == d + m * y;
    assert a * c == b * d + m * (x * d + b * y + m * x * y) by { ModMulArith(b, d, m, x, y); }
    ModShift(b * d, x * d + b * y + m * x * y, m);
  }

  lemma ModMulArith(b: int, d: int, m: int, x: int, y: int)
    ensures (b + m * x) * (d + m * y) == b * d + m * (x * d + b * y + m * x * y)
  {
  }

  lemma ModSmall(a: int, m: int)
    requires 0 <= a < m
    ensures a % m == a
  {
  }

  lemma DivDiv(a: int, b: int, c: int)
    requires a >= 0 && b > 0 && c > 0
    ensures b * c > 0 && a / (b * c) == a / b / c
  {
    var q, r := a / b, a % b;
    var k, t := q / c, q % c;
    MulMono(b, 1, c);
    MulMono(b, t, c - 1);
    assert a == (b * c) * k + (b * t + r) by { DivDivArith(b, c, k, t, r); }
    DivModUnique(a, b * c, k, b * t + r);
  }

  lemma DivDivArith(b: int, c: int, k: int, t: int, r: int)
    ensures b * (c * k + t) + r == (b * c) * k + (b * t + r)
  {
  }

  function Pow2(n: nat): (p: nat)
    ensures p > 0
  {
    if n == 0 then 1 else 2 * Pow2(n - 1)
  }

  lemma {:induction false} Pow2Add(m: nat, n: nat)
    ensures Pow2(m + n) == Pow2(m) * Pow2(n)
  {
    if m > 0 {
      Pow2Add(m - 1, n);
      MulAssoc(2, Pow2(m - 1), Pow2(n));
    }
  }

  function IntPow(x: int, n: nat): int {
    if n == 0 then 1 else IntPow(x, n - 1) * x
  }

  lemma {:induction false} IntPowAdd(x: int, m: nat, n: nat)
    ensures IntPow(x, m + n) == IntPow(x, m) * IntPow(x, n)
  {
    if n > 0 {
      IntPowAdd(x, m, n - 1);
      MulAssoc(IntPow(x, m), IntPow(x, n - 1), x);
    }
  }
}
