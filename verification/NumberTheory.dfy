/** Primes, Bezout's identity, Fermat's little theorem and sums of two squares modulo a prime. */
module NumberTheory {
  import opened Arith
  import opened Permutations

  ghost predicate IsPrime(p: int) {
    p >= 2 && forall d :: 2 <= d < p ==> !Divides(d, p)
  }

  // ---------------------------------------------------------------- greatest common divisors

  ghost predicate IsGcd(g: int, a: int, b: int) {
    g > 0 && Divides(g, a) && Divides(g, b) && exists x, y :: g == Combination(a, b, x, y)
  }

  ghost function Combination(a: int, b: int, x: int, y: int): int {
    a * x + b * y
  }

  /** Being a positive common divisor that is a combination makes `g` the greatest one, and unique. */
  lemma GcdIsGreatest(g: int, a: int, b: int, d: int)
    requires IsGcd(g, a, b)
    requires d > 0 && Divides(d, a) && Divides(d, b)
    ensures Divides(d, g) && d <= g
  {
    var x, y :| g == Combination(a, b, x, y);
    DividesCombination(d, a, b, x, y);
    DividesBound(d, g);
  }

  lemma GcdUnique(g: int, h: int, a: int, b: int)
    requires IsGcd(g, a, b) && IsGcd(h, a, b)
    ensures g == h
  {
    GcdIsGreatest(g, a, b, h);
    GcdIsGreatest(h, a, b, g);
  }

  lemma GcdZero(b: int)
    requires b > 0
    ensures IsGcd(b, 0, b)
  {
    DividesIntro(b, 0, 0);
    DividesIntro(b, b, 1);
    assert b == Combination(0, b, 0, 1);
  }

  /** One step of Euclid's algorithm keeps the greatest common divisor. */
  lemma GcdStep(g: int, a: int, b: int)
    requires a > 0 && IsGcd(g, b % a, a)
    ensures IsGcd(g, a, b)
  {
    var x, y :| g == Combination(b % a, a, x, y);
    var q := b / a;
    assert b == a * q + (b % a) * 1;
    DividesCombination(g, a, b % a, q, 1);
    assert a * (y - q * x) + b * x == g by {
      assert b * x == a * q * x + (b % a) * x;
      assert a * (y - q * x) == a * y - a * (q * x);
      assert a * (q * x) == a * q * x;
    }
    assert g == Combination(a, b, y - q * x, x);
  }

  lemma {:induction false} GcdExists(a: nat, b: nat) returns (g: nat)
    requires a > 0 || b > 0
    ensures IsGcd(g, a, b)
    decreases a
  {
    if a == 0 {
      GcdZero(b);
      g := b;
    } else {
      g := GcdExists(b % a, a);
      GcdStep(g, a, b);
    }
  }

  /** A number coprime to the modulus has a non-negative inverse. */
  lemma InverseExists(a: int, m: int) returns (u: nat)
    requires m > 0 && IsGcd(1, a, m)
    ensures Cong(a * u, 1, m)
  {
    var x, y :| 1 == Combination(a, m, x, y);
    u := x % m;
    CongMod(x, m);
    CongScale(u, x, a, m);
    assert a * x == 1 + (-y) * m by {
      assert (-y) * m == -(m * y);
    }
    CongIntro(a * x, 1, -y, m);
  }

  // ---------------------------------------------------------------- primes

  lemma PrimeCoprime(p: int, a: int)
    requires IsPrime(p) && !Divides(p, a)
    ensures IsGcd(1, a, p)
  {
    CongMod(a, p);
    var g := GcdExists(a % p, p);
    DividesBound(g, p);
    assert g < p by {
      if g == p {
        CongDivides(a % p, a, p);
        DividesCombination(p, a % p, a % p - a, 1, -1);
        assert false;
      }
    }
    assert g == 1;
    var x, y :| 1 == Combination(a % p, p, x, y);
    var q := a / p;
    assert a * x + p * (y - q * x) == 1 by {
      assert a == q * p + a % p;
      assert a * x == q * p * x + (a % p) * x;
      assert p * (y - q * x) == p * y - p * (q * x);
      assert p * (q * x) == q * p * x;
    }
    assert 1 == Combination(a, p, x, y - q * x);
    DividesIntro(1, a, a);
    DividesIntro(1, p, p);
  }

  /** Euclid's lemma. */
  lemma PrimeDividesProduct(p: int, a: int, b: int)
    requires IsPrime(p) && Divides(p, a * b)
    ensures Divides(p, a) || Divides(p, b)
  {
    if !Divides(p, a) {
      PrimeCoprime(p, a);
      var x, y :| 1 == Combination(a, p, x, y);
      assert (a * b) * x + p * (b * y) == b by {
        assert (a * b) * x == (a * x) * b;
        assert p * (b * y) == (p * y) * b;
        assert (a * x) * b + (p * y) * b == (a * x + p * y) * b;
      }
      DividesIntro(p, p, 1);
      DividesCombination(p, a * b, p, x, b * y);
    }
  }

  lemma PrimeCancel(p: int, a: int, x: int, y: int)
    requires IsPrime(p) && !Divides(p, a) && Cong(a * x, a * y, p)
    ensures Cong(x, y, p)
  {
    CongDivides(a * x, a * y, p);
    assert a * x - a * y == a * (x - y);
    PrimeDividesProduct(p, a, x - y);
    CongDivides(x, y, p);
  }

  /** Small distinct residues are not congruent. */
  lemma CongSmall(x: int, y: int, m: int)
    requires 0 <= x < m && 0 <= y < m && Cong(x, y, m)
    ensures x == y
  {
    SmallMod(x, m);
    SmallMod(y, m);
  }

  lemma NotDividesSmall(p: int, x: int)
    requires 0 < x < p
    ensures !Divides(p, x)
  {
    if Divides(p, x) {
      DividesBound(p, x);
    }
  }

  lemma {:induction false} PrimeDividesPow(p: int, b: int, e: nat)
    requires IsPrime(p) && Divides(p, Pow(b, e))
    ensures e > 0 && Divides(p, b)
  {
    if e == 0 {
      DividesBound(p, 1);
    } else {
      PrimeDividesProduct(p, b, Pow(b, e - 1));
      if !Divides(p, b) {
        PrimeDividesPow(p, b, e - 1);
      }
    }
  }

  // ---------------------------------------------------------------- Fermat's little theorem

  ghost function Product(s: seq<int>): int {
    if s == [] then 1 else Product(s[..|s| - 1]) * s[|s| - 1]
  }

  lemma {:induction false} ProductRemove(s: seq<int>, k: nat)
    requires k < |s|
    ensures Product(s) == Product(s[..k] + s[k + 1..]) * s[k]
  {
    var n := |s| - 1;
    if k == n {
      assert s[..k] + s[k + 1..] == s[..n];
    } else {
      var t := s[..n];
      ProductRemove(t, k);
      var u := s[..k] + s[k + 1..];
      assert u[..|u| - 1] == t[..k] + t[k + 1..];
      assert u[|u| - 1] == s[n];
      var r := Product(t[..k] + t[k + 1..]);
      MulSwapLast(r, s[k], s[n]);
    }
  }

  lemma {:induction false} ProductPermuted(s: seq<int>, t: seq<int>)
    requires multiset(s) == multiset(t)
    ensures Product(s) == Product(t)
    decreases |s|
  {
    if s == [] {
      assert |multiset(t)| == |t|;
    } else {
      var x := s[|s| - 1];
      assert s == s[..|s| - 1] + [x];
      assert x in multiset(t);
      var k :| 0 <= k < |t| && t[k] == x;
      var u := t[..k] + t[k + 1..];
      assert t == t[..k] + [x] + t[k + 1..];
      assert multiset(u) == multiset(t) - multiset{x} == multiset(s[..|s| - 1]);
      ProductPermuted(s[..|s| - 1], u);
      ProductRemove(t, k);
    }
  }

  /** The residues of a, 2a, ..., na. */
  ghost function Multiples(a: int, p: int, n: nat): (s: seq<int>)
    requires p > 0
  {
    seq(n, i => (a * (i + 1)) % p)
  }

  ghost function UpTo(n: nat): (s: seq<int>) {
    seq(n, i => i + 1)
  }

  lemma {:induction false} MultiplesProduct(a: int, p: int, n: nat)
    requires p > 0
    ensures Cong(Product(Multiples(a, p, n)), Pow(a, n) * Product(UpTo(n)), p)
  {
    if n > 0 {
      MultiplesProduct(a, p, n - 1);
      assert Multiples(a, p, n)[..n - 1] == Multiples(a, p, n - 1);
      assert UpTo(n)[..n - 1] == UpTo(n - 1);
      var x, y := Product(Multiples(a, p, n - 1)), Pow(a, n - 1) * Product(UpTo(n - 1));
      CongMod(a * n, p);
      CongMul(x, y, (a * n) % p, a * n, p);
      var c, d := Pow(a, n - 1), Product(UpTo(n - 1));
      MulRegroup(c, d, a, n);
    }
  }

  lemma {:induction false} FactorialNotDivisible(p: int, n: nat)
    requires IsPrime(p) && n < p
    ensures !Divides(p, Product(UpTo(n)))
  {
    if n == 0 {
      NotDividesSmall(p, 1);
    } else {
      FactorialNotDivisible(p, n - 1);
      NotDividesSmall(p, n);
      assert UpTo(n)[..n - 1] == UpTo(n - 1);
      if Divides(p, Product(UpTo(n))) {
        PrimeDividesProduct(p, Product(UpTo(n - 1)), n);
      }
    }
  }

  lemma MultiplesDistinct(a: int, p: int)
    requires IsPrime(p) && !Divides(p, a)
    ensures Distinct(Multiples(a, p, p - 1))
    ensures var m := Multiples(a, p, p - 1); forall i :: 0 <= i < |m| ==> 0 < m[i] < p
  {
    var m := Multiples(a, p, p - 1);
    forall i | 0 <= i < p - 1
      ensures 0 < m[i] < p
    {
      if m[i] == 0 {
        DividesMod(p, a * (i + 1));
        PrimeDividesProduct(p, a, i + 1);
        NotDividesSmall(p, i + 1);
      }
    }
    forall i, j | 0 <= i < j < p - 1
      ensures m[i] != m[j]
    {
      if m[i] == m[j] {
        PrimeCancel(p, a, i + 1, j + 1);
        CongSmall(i + 1, j + 1, p);
      }
    }
  }

  /** Multiplying by a unit only reorders 1, ..., p - 1. */
  lemma MultiplesPermute(a: int, p: int)
    requires IsPrime(p) && !Divides(p, a)
    ensures multiset(Multiples(a, p, p - 1)) == multiset(UpTo(p - 1))
  {
    var n := p - 1;
    var m := Multiples(a, p, n);
    MultiplesDistinct(a, p);
    ZeroPrefixed(m, UpTo(n), p);
  }

  lemma ZeroPrefixed(m: seq<int>, u: seq<int>, p: int)
    requires p >= 2 && |m| == p - 1 && u == UpTo(p - 1)
    requires Distinct(m) && forall i :: 0 <= i < |m| ==> 0 < m[i] < p
    ensures multiset(m) == multiset(u)
  {
    var z := [0] + m;
    Pigeonhole(z, p);
    PermutationMultiset(z, p);
    assert Iota(p) == [0] + u;
    assert multiset(z) == multiset{0} + multiset(m);
    assert multiset(Iota(p)) == multiset{0} + multiset(u);
    assert multiset(m) == multiset(z) - multiset{0};
    assert multiset(u) == multiset(Iota(p)) - multiset{0};
  }

  /** Fermat's little theorem. */
  lemma Fermat(a: int, p: int)
    requires IsPrime(p) && !Divides(p, a)
    ensures Cong(Pow(a, p - 1), 1, p)
  {
    MultiplesPermute(a, p);
    ProductPermuted(Multiples(a, p, p - 1), UpTo(p - 1));
    MultiplesProduct(a, p, p - 1);
    FactorialNotDivisible(p, p - 1);
    var f := Product(UpTo(p - 1));
    assert Pow(a, p - 1) * f == f * Pow(a, p - 1);
    PrimeCancel(p, f, 1, Pow(a, p - 1));
  }

  // ---------------------------------------------------------------- consequences for the generators

  /** When the exponent is coprime to p - 1, raising to it can be undone modulo p. */
  lemma PowerInjective(p: int, c: int, x: int, y: int)
    requires IsPrime(p) && c >= 1 && IsGcd(1, c, p - 1)
    requires 0 <= x < p && 0 <= y < p && Cong(Pow(x, c), Pow(y, c), p)
    ensures x == y
  {
    if x == 0 {
      PowerZero(p, c, y);
    } else if y == 0 {
      PowerZero(p, c, x);
    } else if p > 2 {
      NotDividesSmall(p, x);
      NotDividesSmall(p, y);
      var u := InverseExists(c, p - 1);
      UndoPower(p, c, u, x);
      UndoPower(p, c, u, y);
      PowCong(Pow(x, c), Pow(y, c), u, p);
      CongSmall(x, y, p);
    }
  }

  lemma PowerZero(p: int, c: int, y: int)
    requires IsPrime(p) && c >= 1 && 0 <= y < p && Cong(Pow(0, c), Pow(y, c), p)
    ensures y == 0
  {
    assert Pow(0, c) == 0 * Pow(0, c - 1) == 0;
    CongDivides(Pow(y, c), 0, p);
    PrimeDividesPow(p, y, c);
    if y > 0 {
      NotDividesSmall(p, y);
    }
  }

  lemma UndoPower(p: int, c: int, u: nat, x: int)
    requires IsPrime(p) && p > 2 && c >= 1 && Cong(c * u, 1, p - 1) && !Divides(p, x)
    ensures Cong(Pow(Pow(x, c), u), x, p)
  {
    var n := p - 1;
    var w := CongElim(c * u, 1, n);
    assert c * u >= 0;
    assert w * n == -((-w) * n);
    if w < 0 {
      MulAtLeast(-w, n);
    }
    assert w >= 0;
    PowMul(x, c, u);
    assert w * n == n * w;
    PowAdd(x, 1, n * w);
    assert Pow(x, 1) == x * Pow(x, 0) == x;
    PowMul(x, n, w);
    Fermat(x, p);
    PowCong(Pow(x, n), 1, w, p);
    PowOne(w);
    CongScale(Pow(x, n * w), 1, x, p);
  }

  /** Modulo a prime that is 3 modulo 4, a sum of two squares vanishes only when both squares do. */
  lemma SumOfTwoSquares(p: int, v: int, w: int)
    requires IsPrime(p) && p % 4 == 3
    requires Divides(p, v * v + w * w)
    ensures Divides(p, v) && Divides(p, w)
  {
    hide IsPrime;
    NoSquareIsMinusOne(p, v, w);
    assert v * v + w * w == w * w + v * v;
    if Divides(p, v) {
      SquaresTogether(p, v, w);
    } else {
      SquaresTogether(p, w, v);
    }
  }

  lemma SquaresTogether(p: int, v: int, w: int)
    requires IsPrime(p) && Divides(p, v * v + w * w) && Divides(p, v)
    ensures Divides(p, w)
  {
    DividesCombination(p, v * v + w * w, v, 1, -v);
    assert (v * v + w * w) * 1 + v * (-v) == w * w;
    PrimeDividesProduct(p, w, w);
  }

  /** If v^2 were -w^2, then v^(p-1) would be -w^(p-1), because (p-1)/2 is odd. */
  lemma NoSquareIsMinusOne(p: int, v: int, w: int)
    requires IsPrime(p) && p % 4 == 3
    requires Divides(p, v * v + w * w)
    ensures Divides(p, v) || Divides(p, w)
  {
    if !Divides(p, v) && !Divides(p, w) {
      hide IsPrime;
      hide Divides;
      hide Pow;
      var k := (p - 3) / 4;
      var h := 2 * k + 1;
      CongDivides(v * v, -(w * w), p);
      PowCong(v * v, -(w * w), h, p);
      PowNegOdd(w * w, k);
      SquarePower(v, h);
      SquarePower(w, h);
      Fermat(v, p);
      Fermat(w, p);
      CongAdd(0, 0, Pow(w, 2 * h), 1, p);
      CongDivides(1, -1, p);
      DividesBound(p, 2);
    }
  }

  lemma SquarePower(v: int, h: nat)
    ensures Pow(v * v, h) == Pow(v, 2 * h)
  {
    PowMul(v, 2, h);
    assert Pow(v, 2) == v * Pow(v, 1) && Pow(v, 1) == v * Pow(v, 0);
  }
}
