/** Division with remainder, congruences and powers: the arithmetic the generators rest on. */
module Arith {

  // ---------------------------------------------------------------- division with remainder

  lemma MulAtLeast(q: int, m: int)
    requires q >= 1 && m > 0
    ensures q * m >= m
  {
    assert q * m == (q - 1) * m + m;
    assert (q - 1) * m >= 0;
  }

  lemma MulSwapLast(x: int, y: int, z: int)
    ensures (x * y) * z == (x * z) * y
  {
  }

  lemma MulFactor(x: int, y: int, z: int)
    ensures x * (y * z) == y * (x * z)
  {
  }

  lemma MulRegroup(w: int, x: int, y: int, z: int)
    ensures (w * x) * (y * z) == (y * w) * (x * z)
  {
  }

  /** Quotient and remainder are determined by the equation they satisfy. */
  lemma DivModUnique(a: int, q: int, r: int, m: int)
    requires 0 <= r < m
    requires a == q * m + r
    ensures a / m == q && a % m == r
  {
    var q', r' := a / m, a % m;
    assert a == q' * m + r';
    assert (q - q') * m == r' - r;
    assert (q' - q) * m == -((q - q') * m);
    if q > q' {
      MulAtLeast(q - q', m);
    } else if q < q' {
      MulAtLeast(q' - q, m);
    }
  }

  ghost predicate Divides(d: int, n: int) {
    exists k :: n == Times(k, d)
  }

  ghost function Times(k: int, d: int): int {
    k * d
  }

  lemma DividesIntro(d: int, n: int, k: int)
    requires n == k * d
    ensures Divides(d, n)
  {
    assert n == Times(k, d);
  }

  lemma DividesMod(d: int, n: int)
    requires d > 0
    ensures Divides(d, n) <==> n % d == 0
  {
    if Divides(d, n) {
      var k :| n == Times(k, d);
      DivModUnique(n, k, 0, d);
    }
    if n % d == 0 {
      DividesIntro(d, n, n / d);
    }
  }

  /** A positive number has no divisor above it. */
  lemma DividesBound(d: int, n: int)
    requires d > 0 && n > 0 && Divides(d, n)
    ensures d <= n
  {
    var k :| n == Times(k, d);
    if k >= 1 {
      MulAtLeast(k, d);
    }
  }

  /** Divisors of two numbers divide their combinations. */
  lemma DividesCombination(d: int, a: int, b: int, x: int, y: int)
    requires Divides(d, a) && Divides(d, b)
    ensures Divides(d, a * x + b * y)
  {
    var i :| a == Times(i, d);
    var j :| b == Times(j, d);
    assert a * x + b * y == (i * x + j * y) * d by {
      assert (i * d) * x == (i * x) * d;
      assert (j * d) * y == (j * y) * d;
      assert (i * x) * d + (j * y) * d == (i * x + j * y) * d;
    }
    DividesIntro(d, a * x + b * y, i * x + j * y);
  }

  // ---------------------------------------------------------------- congruences

  ghost predicate Cong(a: int, b: int, m: int)
    requires m > 0
  {
    a % m == b % m
  }

  lemma CongIntro(a: int, b: int, k: int, m: int)
    requires m > 0 && a == b + k * m
    ensures Cong(a, b, m)
  {
    var q, r := b / m, b % m;
    assert a == (q + k) * m + r by {
      assert (q + k) * m == q * m + k * m;
    }
    DivModUnique(a, q + k, r, m);
  }

  lemma CongElim(a: int, b: int, m: int) returns (k: int)
    requires m > 0 && Cong(a, b, m)
    ensures a == b + k * m
  {
    k := a / m - b / m;
    assert a == (a / m) * m + a % m && b == (b / m) * m + b % m;
    assert k * m == (a / m) * m - (b / m) * m;
  }

  lemma CongMod(a: int, m: int)
    requires m > 0
    ensures Cong(a % m, a, m)
  {
    assert a == (a / m) * m + a % m;
    CongIntro(a, a % m, a / m, m);
  }

  lemma CongDivides(a: int, b: int, m: int)
    requires m > 0
    ensures Cong(a, b, m) <==> Divides(m, a - b)
  {
    if Cong(a, b, m) {
      var k := CongElim(a, b, m);
      DividesIntro(m, a - b, k);
    }
    if Divides(m, a - b) {
      var k :| a - b == Times(k, m);
      CongIntro(a, b, k, m);
    }
  }

  lemma CongAdd(a: int, b: int, c: int, d: int, m: int)
    requires m > 0 && Cong(a, b, m) && Cong(c, d, m)
    ensures Cong(a + c, b + d, m) && Cong(a - c, b - d, m)
  {
    var k := CongElim(a, b, m);
    var l := CongElim(c, d, m);
    assert (k + l) * m == k * m + l * m;
    assert (k - l) * m == k * m - l * m;
    CongIntro(a + c, b + d, k + l, m);
    CongIntro(a - c, b - d, k - l, m);
  }

  lemma CongScale(a: int, b: int, c: int, m: int)
    requires m > 0 && Cong(a, b, m)
    ensures Cong(a * c, b * c, m) && Cong(c * a, c * b, m)
  {
    var k := CongElim(a, b, m);
    assert a * c == b * c + (k * c) * m by {
      assert (k * c) * m == (k * m) * c;
      assert (b + k * m) * c == b * c + (k * m) * c;
    }
    CongIntro(a * c, b * c, k * c, m);
  }

  lemma CongMul(a: int, b: int, c: int, d: int, m: int)
    requires m > 0 && Cong(a, b, m) && Cong(c, d, m)
    ensures Cong(a * c, b * d, m)
  {
    CongScale(a, b, c, m);
    CongScale(c, d, b, m);
  }

  lemma SmallMod(a: int, m: int)
    requires 0 <= a < m
    ensures a % m == a
  {
    DivModUnique(a, 0, a, m);
  }

  lemma ModAtMost(a: nat, m: int)
    requires m > 0
    ensures a % m <= a
  {
    assert a == (a / m) * m + a % m;
    assert (a / m) * m >= 0;
  }

  // ---------------------------------------------------------------- powers

  function Pow(b: int, e: nat): int {
    if e == 0 then 1 else b * Pow(b, e - 1)
  }

  lemma {:induction false} PowAdd(b: int, e: nat, f: nat)
    ensures Pow(b, e + f) == Pow(b, e) * Pow(b, f)
  {
    if e > 0 {
      PowAdd(b, e - 1, f);
      assert b * (Pow(b, e - 1) * Pow(b, f)) == (b * Pow(b, e - 1)) * Pow(b, f);
    }
  }

  lemma {:induction false} PowMul(b: int, e: nat, f: nat)
    ensures e * f >= 0 && Pow(b, e * f) == Pow(Pow(b, e), f)
  {
    if f > 0 {
      PowMul(b, e, f - 1);
      assert e * f == e + e * (f - 1);
      PowAdd(b, e, e * (f - 1));
    } else {
      assert e * f == 0;
    }
  }

  lemma {:induction false} PowCong(a: int, b: int, e: nat, m: int)
    requires m > 0 && Cong(a, b, m)
    ensures Cong(Pow(a, e), Pow(b, e), m)
  {
    if e > 0 {
      PowCong(a, b, e - 1, m);
      CongMul(a, b, Pow(a, e - 1), Pow(b, e - 1), m);
    }
  }

  lemma {:induction false} PowOne(e: nat)
    ensures Pow(1, e) == 1
  {
    if e > 0 {
      PowOne(e - 1);
    }
  }

  /** An odd power keeps a sign. */
  lemma {:induction false} PowNegOdd(b: int, k: nat)
    ensures Pow(-b, 2 * k) == Pow(b, 2 * k)
    ensures Pow(-b, 2 * k + 1) == -Pow(b, 2 * k + 1)
  {
    if k > 0 {
      PowNegOdd(b, k - 1);
      assert Pow(-b, 2 * k) == -b * Pow(-b, 2 * (k - 1) + 1);
      assert Pow(b, 2 * k) == b * Pow(b, 2 * (k - 1) + 1);
    }
    assert Pow(-b, 2 * k + 1) == -b * Pow(-b, 2 * k);
    assert -b * Pow(b, 2 * k) == -(b * Pow(b, 2 * k));
  }
}
