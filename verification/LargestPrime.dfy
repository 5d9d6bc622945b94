/** The largest prime below 2^32, which tells for which sizes find_next_prime finds one. */
module LargestPrime {
  import opened Words
  import opened Arith
  import opened NumberTheory
  import opened PrimeHelpers

  const LARGEST_PRIME: int := 4294967291

  // ---------------------------------------------------------------- small factors

  lemma {:induction false} PrimeFactor(n: int) returns (s: int)
    requires n >= 2
    ensures IsPrime(s) && Divides(s, n) && s <= n
    decreases n
  {
    if IsPrime(n) {
      s := n;
      DividesIntro(n, n, 1);
    } else {
      var d :| 2 <= d < n && Divides(d, n);
      s := PrimeFactor(d);
      DividesThrough(s, d, n);
    }
  }

  lemma DividesThrough(s: int, d: int, n: int)
    requires Divides(s, d) && Divides(d, n)
    ensures Divides(s, n)
  {
    var k :| n == Times(k, d);
    DividesCombination(s, d, d, k, 0);
    assert d * k + d * 0 == n;
  }

  /** A composite number has a prime factor not above its square root. */
  lemma SmallPrimeFactor(n: int) returns (s: int)
    requires n >= 2 && !IsPrime(n)
    ensures IsPrime(s) && Divides(s, n) && s * s <= n
  {
    var d :| 2 <= d < n && Divides(d, n);
    var e :| n == Times(e, d);
    DividesIntro(e, n, d);
    var m := if d <= e then d else e;
    s := PrimeFactor(m);
    DividesThrough(s, m, n);
    ProductOrder(s, m, s, m);
    ProductOrder(m, d, m, e);
  }

  lemma ProductOrder(x: int, y: int, z: int, w: int)
    requires 0 <= x <= y && 0 <= z <= w
    ensures x * z <= y * w && y * w == w * y
  {
    assert (y - x) * z >= 0 && y * (w - z) >= 0;
  }

  // ---------------------------------------------------------------- a primality criterion

  /** One bit of square and multiply, with the quotient `k` of the reduction. */
  lemma PowBit(b: nat, e: nat, bit: nat, x: int, y: int, k: int, m: int)
    requires m > 0 && bit <= 1 && Cong(Pow(b, e), x, m)
    requires x * x * (if bit == 1 then b else 1) == y + k * m
    ensures Cong(Pow(b, 2 * e + bit), y, m)
  {
    var p := Pow(b, e);
    PowAdd(b, e, e);
    CongMul(p, x, p, x, m);
    if bit == 1 {
      PowAdd(b, e + e, 1);
      assert Pow(b, 1) == b * Pow(b, 0) == b;
      CongScale(p * p, x * x, b, m);
      CongIntro(x * x * b, y, k, m);
    } else {
      CongIntro(x * x, y, k, m);
    }
  }

  lemma PowFirst(b: nat, m: int)
    requires m > 0
    ensures Cong(Pow(b, 1), b, m)
  {
    assert Pow(b, 1) == b * Pow(b, 0) == b;
  }

  lemma CongThrough(a: int, b: int, s: int, m: int)
    requires s > 0 && m > 0 && Divides(s, m) && Cong(a, b, m)
    ensures Cong(a, b, s)
  {
    CongDivides(a, b, m);
    DividesThrough(s, m, a - b);
    CongDivides(a, b, s);
  }

  /** An element of prime order q modulo the prime s makes q a divisor of s - 1. */
  lemma OrderDivides(s: int, q: int, b: int)
    requires IsPrime(s) && IsPrime(q) && Cong(Pow(b, q), 1, s) && !Cong(b, 1, s)
    ensures Divides(q, s - 1)
  {
    if s > 2 && !Divides(q, s - 1) {
      PrimeCoprime(q, s - 1);
      GcdSwap(s - 1, q);
      var u := InverseExists(q, s - 1);
      OrderPrimeToModulus(s, q, b);
      UndoPower(s, q, u, b);
      PowCong(Pow(b, q), 1, u, s);
      PowOne(u);
      assert false;
    }
    if s == 2 {
      OrderPrimeToModulus(s, q, b);
      CongMod(b, 2);
      CongDivides(b, 0, 2);
    }
  }

  lemma OrderPrimeToModulus(s: int, q: int, b: int)
    requires IsPrime(s) && q >= 1 && Cong(Pow(b, q), 1, s)
    ensures !Divides(s, b)
  {
    if Divides(s, b) {
      CongDivides(b, 0, s);
      PowCong(b, 0, q, s);
      assert Pow(0, q) == 0 * Pow(0, q - 1) == 0;
      CongSmall(0, 1, s);
    }
  }

  lemma GcdSwap(a: int, b: int)
    requires IsGcd(1, a, b)
    ensures IsGcd(1, b, a)
  {
    var x, y :| 1 == Combination(a, b, x, y);
    assert 1 == Combination(b, a, y, x);
  }

  /** Pocklington's criterion for one prime q: b has order q modulo every prime factor s of n. */
  lemma FactorAboveOrder(n: int, s: int, q: int, b: int, x: int, y: int)
    requires n > 1 && IsPrime(s) && Divides(s, n) && IsPrime(q)
    requires Cong(Pow(b, q), 1, n) && (b - 1) * x + n * y == 1
    ensures Divides(q, s - 1)
  {
    CongThrough(Pow(b, q), 1, s, n);
    if Cong(b, 1, s) {
      CongDivides(b, 1, s);
      DividesCombination(s, b - 1, n, x, y);
      DividesBound(s, 1);
      assert false;
    }
    OrderDivides(s, q, b);
  }

  // ---------------------------------------------------------------- the numbers

  /** 181 and nothing from 2 to 13 divides it. */
  lemma Prime181()
    ensures IsPrime(181)
  {
    hide *;
    if !IsPrime(181) {
      var s := SmallPrimeFactor(181);
      PrimeIsLarge(s);
      BelowRoot(s, 13, 181);
      NoFactor181(s);
      assert false;
    }
  }

  lemma NoFactor181(s: int)
    requires 2 <= s <= 13
    ensures !Divides(s, 181)
  {
    DividesMod(s, 181);
  }

  lemma BelowRoot(s: int, root: nat, n: int)
    requires s >= 2 && s * s <= n < (root + 1) * (root + 1)
    ensures s <= root
  {
    if s > root {
      ProductOrder(root + 1, s, root + 1, s);
    }
  }

  lemma Power181()
    ensures Cong(Pow(13954217, 181), 1, 22605091)
  {
    hide *;
    PowFirst(13954217, 22605091);
    PowBit(13954217, 1, 0, 13954217, 8629453, 8613996, 22605091);
    PowBit(13954217, 2, 1, 8629453, 8652108, 45969073224695, 22605091);
    PowBit(13954217, 5, 1, 8652108, 18624071, 46210756305187, 22605091);
    PowBit(13954217, 11, 0, 18624071, 519936, 15344155, 22605091);
    PowBit(13954217, 22, 1, 519936, 122734, 166877963078, 22605091);
    PowBit(13954217, 45, 0, 122734, 8644150, 666, 22605091);
    PowBit(13954217, 90, 1, 8644150, 1, 46125788323489, 22605091);
  }

  lemma Power22605091()
    ensures Cong(Pow(1073745729, 22605091), 1, 4294967291)
  {
    hide *;
    PowFirst(1073745729, 4294967291);
    PowBit(1073745729, 1, 0, 1073745729, 3504919713, 268437408, 4294967291);
    PowBit(1073745729, 2, 1, 3504919713, 2762101756, 3071126721297293695, 4294967291);
    PowBit(1073745729, 5, 0, 2762101756, 1474251975, 1776312971, 4294967291);
    PowBit(1073745729, 10, 1, 1474251975, 4065820878, 543356698160813817, 4294967291);
    PowBit(1073745729, 21, 1, 4065820878, 1820247785, 4132739887760620961, 4294967291);
    PowBit(1073745729, 43, 0, 1820247785, 3855700258, 771438237, 4294967291);
    PowBit(1073745729, 86, 0, 3855700258, 1858816020, 3461359184, 4294967291);
    PowBit(1073745729, 172, 0, 1858816020, 2210652769, 804475741, 4294967291);
    PowBit(1073745729, 344, 1, 2210652769, 3255072328, 1221750860959417051, 4294967291);
    PowBit(1073745729, 689, 1, 3255072328, 2036108090, 2648883601675193906, 4294967291);
    PowBit(1073745729, 1379, 1, 2036108090, 2579436866, 1036437809065933574, 4294967291);
    PowBit(1073745729, 2759, 0, 2579436866, 1810740027, 1549137419, 4294967291);
    PowBit(1073745729, 5518, 1, 1810740027, 3638735613, 819697843377527508, 4294967291);
    PowBit(1073745729, 11037, 1, 3638735613, 2142344274, 3310111257399430197, 4294967291);
    PowBit(1073745729, 22075, 0, 2142344274, 164317185, 1068608601, 4294967291);
    PowBit(1073745729, 44150, 1, 164317185, 3827152162, 6750058878062893, 4294967291);
    PowBit(1073745729, 88301, 0, 3827152162, 305512203, 3410292251, 4294967291);
    PowBit(1073745729, 176602, 0, 305512203, 999910711, 21731878, 4294967291);
    PowBit(1073745729, 353204, 1, 999910711, 3852027162, 249956266825425717, 4294967291);
    PowBit(1073745729, 706409, 0, 3852027162, 894754220, 3454767464, 4294967291);
    PowBit(1073745729, 1412818, 0, 894754220, 2824842023, 186400747, 4294967291);
    PowBit(1073745729, 2825636, 0, 2824842023, 3541280234, 1857926245, 4294967291);
    PowBit(1073745729, 5651272, 1, 3541280234, 4191888076, 3135177829598793928, 4294967291);
    PowBit(1073745729, 11302545, 1, 4191888076, 1, 4392997392001035133, 4294967291);
  }

  /** Its prime factors leave 1 modulo 181, and none of those up to its root divides it. */
  lemma Prime22605091()
    ensures IsPrime(22605091)
  {
    hide *;
    if !IsPrime(22605091) {
      var s := SmallPrimeFactor(22605091);
      Prime181();
      Power181();
      PrimeIsLarge(s);
      FactorAboveOrder(22605091, s, 181, 13954217, -3035345, 1873731);
      BelowRoot(s, 4754, 22605091);
      NoFactor22605091(s);
      assert false;
    }
  }

  lemma PrimeIsLarge(s: int)
    requires IsPrime(s)
    ensures s >= 2
  {
  }

  lemma NoFactor22605091(s: int)
    requires 2 <= s <= 4754 && Divides(181, s - 1)
    ensures !Divides(s, 22605091)
  {
    var k :| s - 1 == Times(k, 181);
    DividesMod(s, 22605091);
    if k <= 13 {
      assert k == 1 || k == 2 || k == 3 || k == 4 || k == 5 || k == 6 || k == 7 || k == 8 || k == 9 || k == 10
        || k == 11 || k == 12 || k == 13;
    } else {
      assert k == 14 || k == 15 || k == 16 || k == 17 || k == 18 || k == 19 || k == 20 || k == 21 || k == 22
        || k == 23 || k == 24 || k == 25 || k == 26;
    }
  }

  /** Its prime factors leave 1 modulo 22605091, so they are above its root. */
  lemma LargestIsPrime()
    ensures IsPrime(4294967291)
  {
    hide *;
    if !IsPrime(4294967291) {
      var s := SmallPrimeFactor(4294967291);
      Prime22605091();
      Power22605091();
      PrimeIsLarge(s);
      FactorAboveOrder(4294967291, s, 22605091, 1073745729, 1771216906, -442805837);
      BelowRoot(s, 65535, 4294967291);
      DividesBound(22605091, s - 1);
      assert false;
    }
  }

  /** The odd primes run out exactly above 4294967291. */
  lemma PrimesRunOut(max: uint32)
    ensures NoOddPrime(max, WORD) <==> max > LARGEST_PRIME
  {
    LargestIsPrime();
    if max <= LARGEST_PRIME {
      assert OddPrime(LARGEST_PRIME);
    } else {
      forall q | max <= q < WORD
        ensures !OddPrime(q)
      {
        DividesIntro(9241, 4294967293, 464773);
        DividesIntro(3, 4294967295, 1431655765);
        assert q == 4294967292 || q == 4294967293 || q == 4294967294 || q == 4294967295;
      }
    }
  }
}
