/** math_helpers.h: modular exponentiation and Euclid's algorithm on 32-bit operands. */
module MathHelpers {
  import opened Words
  import opened Arith
  import opened NumberTheory

  /** The products below are computed on 64 bits. */
  const DWORD: int := 0x1_0000_0000_0000_0000

  lemma ProductBelow(a: int, b: int, w: int)
    requires 0 <= a < w && 0 <= b < w
    ensures 0 <= a * b < w * w
  {
    assert a * b + a * (w - b) + (w - a) * w == w * w;
  }

  lemma ProductFits(a: uint32, b: uint32)
    ensures 0 <= a * b < DWORD
  {
    ProductBelow(a, b, WORD);
  }

  method ExpMod(v: uint32, e: uint32, m: uint32) returns (r: uint32)
    requires m > 0
    ensures e > 0 ==> r == Pow(v, e) % m
    ensures e == 0 ==> r == 1
  {
    r := 1;
    var b: uint32, n: uint32 := v, e;
    assert r * Pow(b, n) == Pow(v, e);
    while n > 0
      invariant Cong(r * Pow(b, n), Pow(v, e), m)
      invariant r < m || (r == 1 && (n > 0 || e == 0))
      invariant e == 0 ==> n == 0 && r == 1
    {
      Halve(b, n);
      ghost var sq := (b * b) % m;
      CongMod(b * b, m);
      PowCong(sq, b * b, n / 2, m);
      ProductFits(r, b);
      ProductFits(b, b);
      ghost var was := r * Pow(b, n);
      if n % 2 == 1 {
        ghost var rest := Pow(b * b, n / 2);
        assert was == (r * b) * rest;
        CongMod(r * b, m);
        CongMul((r * b) % m, r * b, Pow(sq, n / 2), rest, m);
        r := (r * b) % m;
      } else {
        CongScale(Pow(sq, n / 2), Pow(b * b, n / 2), r, m);
      }
      n := n / 2;
      b := (b * b) % m;
    }
    assert r * Pow(b, 0) == r;
    if e > 0 {
      SmallMod(r, m);
    }
  }

  /** Splitting the lowest bit off the exponent. */
  lemma Halve(b: int, n: nat)
    ensures Pow(b, n) == (if n % 2 == 1 then b else 1) * Pow(b * b, n / 2)
  {
    SquarePower(b, n / 2);
    if n % 2 == 1 {
      assert n == 2 * (n / 2) + 1;
    }
  }

  method Gcd(x: uint32, y: uint32) returns (g: uint32)
    ensures x > 0 || y > 0 ==> IsGcd(g, x, y)
    ensures x == 0 && y == 0 ==> g == 0
  {
    var a: uint32, b: uint32 := x, y;
    while a != 0
      invariant x > 0 || y > 0 <==> a > 0 || b > 0
      invariant forall d :: IsGcd(d, a, b) ==> IsGcd(d, x, y)
      decreases a
    {
      forall d | IsGcd(d, b % a, a)
        ensures IsGcd(d, a, b)
      {
        GcdStep(d, a, b);
      }
      var c := a;
      a := b % a;
      b := c;
    }
    if b > 0 {
      GcdZero(b);
    }
    g := b;
  }
}
