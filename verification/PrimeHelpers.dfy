/** prime_helpers.h: the searches for the primes that the generators are built on. */
module PrimeHelpers {
  import opened Words
  import opened Arith
  import opened NumberTheory
  import opened MathHelpers
  import opened RandEngine

  /** The integer part of the square root. */
  function FloorSqrt(v: nat): (s: nat)
    ensures s * s <= v < (s + 1) * (s + 1)
  {
    if v == 0 then 0
    else
      var s := FloorSqrt(v - 1);
      if (s + 1) * (s + 1) <= v then s + 1 else s
  }

  ghost predicate NoDivisor(v: int, lo: int, hi: int) {
    forall d :: lo <= d < hi ==> !Divides(d, v)
  }

  /** For an odd number, looking for divisors up to the square root decides primality. */
  lemma TrialDivisionDecides(v: int)
    requires v >= 3 && v % 2 == 1
    ensures NoDivisor(v, 3, FloorSqrt(v) + 1) <==> IsPrime(v)
  {
    var s := FloorSqrt(v);
    if IsPrime(v) {
      RootBelow(v, s);
    } else {
      var d :| 2 <= d < v && Divides(d, v);
      SmallDivisor(v, d, s);
    }
  }

  lemma RootBelow(v: int, s: int)
    requires v >= 2 && s >= 0 && s * s <= v
    ensures s < v
  {
    assert s * s - v * v == (s - v) * (s + v);
    assert v * v == v + v * (v - 1);
  }

  lemma SmallDivisor(v: int, d: int, s: int)
    requires v % 2 == 1 && 2 <= d < v && Divides(d, v) && s >= 0 && v < (s + 1) * (s + 1)
    ensures !NoDivisor(v, 3, s + 1)
  {
    var e :| v == Times(e, d);
    DividesIntro(e, v, d);
    CofactorBounds(v, d, e);
    if d <= s {
      assert 3 <= d < s + 1 && Divides(d, v);
    } else if e <= s {
      assert 3 <= e < s + 1 && Divides(e, v);
    } else {
      LargeFactors(d, e, s);
      assert false;
    }
  }

  lemma CofactorBounds(v: int, d: int, e: int)
    requires v % 2 == 1 && 2 <= d < v && v == e * d
    ensures d >= 3 && e >= 3
  {
    assert e <= 1 ==> (1 - e) * d >= 0;
  }

  lemma LargeFactors(d: int, e: int, s: int)
    requires d > s >= 0 && e > s
    ensures d * e >= (s + 1) * (s + 1) && e * d == d * e
  {
    Monotone(e, s + 1, d);
    Monotone(d, s + 1, s + 1);
  }

  lemma Monotone(x: int, y: int, z: int)
    requires x >= y && z >= 0
    ensures x * z >= y * z
  {
    assert (x - y) * z >= 0;
  }

  lemma SmallRoot(v: nat)
    requires v < 9
    ensures FloorSqrt(v) < 3
  {
    var s := FloorSqrt(v);
    if s >= 3 {
      Monotone(s, 3, s);
    }
  }

  /** Meant for odd numbers: 2 is not tried, and below 9 nothing is. */
  method IsPrimeTrial(v: uint32) returns (b: bool)
    ensures b <==> NoDivisor(v, 3, FloorSqrt(v) + 1)
    ensures v >= 3 && v % 2 == 1 ==> (b <==> IsPrime(v))
    ensures v < 9 ==> b
  {
    var root: uint32 := FloorSqrt(v);
    if v >= 3 && v % 2 == 1 {
      TrialDivisionDecides(v);
    }
    if v < 9 {
      SmallRoot(v);
    }
    var d := 3;
    while d <= root
      invariant 3 <= d
      invariant d <= root + 1 || d == 3
      invariant NoDivisor(v, 3, d)
    {
      DividesMod(d, v);
      if v % d == 0 {
        return false;
      }
      d := d + 1;
    }
    return true;
  }

  // ---------------------------------------------------------------- the prime of uni

  ghost predicate Matching(p: int) {
    IsPrime(p) && p % 4 == 3
  }

  /** The largest prime not above `v` that is 3 modulo 4, or 0. */
  ghost function MatchingPrimeUpTo(v: nat): (p: nat)
    ensures p <= v
  {
    if v == 0 then 0 else if Matching(v) then v else MatchingPrimeUpTo(v - 1)
  }

  lemma {:induction false} MatchingPrimeMeaning(v: nat, q: nat)
    ensures var p := MatchingPrimeUpTo(v);
            (p != 0 ==> Matching(p)) && (p < q <= v ==> !Matching(q))
  {
    if v > 0 && !Matching(v) {
      MatchingPrimeMeaning(v - 1, q);
    }
  }

  /** Only below 3 is there no such prime. */
  lemma MatchingPrimeExists(v: nat)
    ensures MatchingPrimeUpTo(v) == 0 <==> v < 3
  {
    DividesMod(2, 3);
    assert Matching(3);
    MatchingPrimeMeaning(v, 3);
  }

  /** `r` is the largest prime that is 3 modulo 4 and not above `v`, or 0 below 3. */
  ghost predicate LargestMatching(v: int, r: int) {
    && (r == 0 <==> v < 3)
    && (r != 0 ==> r <= v && IsPrime(r) && r % 4 == 3)
    && forall q :: r < q <= v && q % 4 == 3 ==> !IsPrime(q)
  }

  lemma MatchingPrimeLargest(v: nat)
    ensures LargestMatching(v, MatchingPrimeUpTo(v))
  {
    hide IsPrime;
    var p := MatchingPrimeUpTo(v);
    MatchingPrimeExists(v);
    MatchingPrimeMeaning(v, v);
    forall q | p < q <= v && q % 4 == 3
      ensures !IsPrime(q)
    {
      MatchingPrimeMeaning(v, q);
    }
  }

  /** Numbers that are not 3 modulo 4 and composites are passed over. */
  lemma SkipTwo(p: nat)
    requires p >= 3 && p % 2 == 1 && !Matching(p)
    ensures MatchingPrimeUpTo(p) == MatchingPrimeUpTo(p - 2) && (p - 2) % 2 == 1
  {
    assert !Matching(p - 1);
  }

  lemma SkipEven(v: nat)
    requires v >= 1 && v % 2 == 0
    ensures MatchingPrimeUpTo(v) == MatchingPrimeUpTo(v - 1)
  {
    assert !Matching(v);
  }

  /** Where the search starts: for 0 the first candidate wraps around. */
  function SearchTop(v: uint32): uint32 {
    if v == 0 then Wrap(v - 1) else v
  }

  method FindPreviousMatchingPrime(v: uint32) returns (r: uint32)
    ensures r == MatchingPrimeUpTo(SearchTop(v))
    ensures v >= 1 ==> LargestMatching(v, r)
  {
    hide IsPrime;
    hide NoDivisor;
    hide FloorSqrt;
    hide LargestMatching;
    MatchingPrimeLargest(v);
    var p: uint32;
    if v % 2 == 0 {
      p := Wrap(v - 1);
      if v > 0 {
        SkipEven(v);
      }
    } else {
      p := v;
    }
    while p >= 3
      invariant p % 2 == 1
      invariant MatchingPrimeUpTo(SearchTop(v)) == MatchingPrimeUpTo(p)
      decreases p
    {
      var b := IsPrimeTrial(p);
      if b && p % 4 == 3 {
        return p;
      }
      SkipTwo(p);
      p := p - 2;
    }
    MatchingPrimeExists(p);
    return 0;
  }

  // ---------------------------------------------------------------- the prime of uprng

  ghost predicate OddPrime(p: int) {
    p >= 3 && p % 2 == 1 && IsPrime(p)
  }

  ghost predicate NoOddPrime(lo: int, hi: int) {
    forall q :: lo <= q < hi ==> !OddPrime(q)
  }

  lemma NoOddPrimeStep(lo: int, p: int)
    requires NoOddPrime(lo, p) && p % 2 == 1 && !IsPrime(p)
    ensures NoOddPrime(lo, p + 2)
  {
    assert !OddPrime(p) && !OddPrime(p + 1);
  }

  /** The least odd prime from `v` on, or 1 when there is no 32-bit one. */
  ghost predicate IsNextPrime(v: int, p: int) {
    if NoOddPrime(v, WORD) then p == 1 else v <= p && OddPrime(p) && NoOddPrime(v, p)
  }

  /** From 3 on: the least prime from `v` on when there is a 32-bit one, and 1 otherwise. */
  lemma NextPrimeMeaning(v: int, p: int)
    requires v >= 3
    ensures IsNextPrime(v, p) <==>
              if exists q :: v <= q < WORD && IsPrime(q)
              then v <= p && IsPrime(p) && forall q :: v <= q < p ==> !IsPrime(q)
              else p == 1
  {
    forall q | q >= 3 && IsPrime(q)
      ensures OddPrime(q)
    {
      DividesMod(2, q);
    }
  }

  /** The search stops for every input. It finds the least odd prime not below `v`, and gives 1 when the
      32-bit candidates run out, or when `v` is below 2. */
  method FindNextPrime(v: uint32) returns (r: uint32)
    ensures v >= 2 ==> IsNextPrime(v, r)
    ensures v < 2 ==> r == 1
  {
    hide NoDivisor;
    hide FloorSqrt;
    hide IsPrime;
    var p: uint32;
    if v % 2 == 0 {
      p := v + 1;
      assert !OddPrime(v);
    } else {
      p := v;
    }
    while true
      invariant p % 2 == 1
      invariant v < 2 ==> p == 1
      invariant v >= 2 && p >= 3 ==> v <= p && NoOddPrime(v, p)
      invariant v >= 2 && p == 1 ==> NoOddPrime(v, WORD)
      decreases if p == 1 then 0 else WORD - p
    {
      var b := IsPrimeTrial(p);
      if b {
        assert p >= 3 ==> OddPrime(p);
        return p;
      }
      NoOddPrimeStep(v, p);
      p := Wrap(p + 2);
    }
  }

  // ---------------------------------------------------------------- the exponent of uprng

  ghost predicate GoodExponent(c: int, n: int) {
    IsGcd(1, c, n)
  }

  /** The values drawn from [0, n - 2], with the bound taken on 32 bits, include one coprime to `n` exactly
      when `n` is not 2. */
  lemma ExponentAvailable(n: uint32)
    ensures (exists c :: 0 <= c <= Wrap(n - 2) && GoodExponent(c, n)) <==> n != 2
  {
    if n == 2 {
      if exists c :: 0 <= c <= Wrap(n - 2) && GoodExponent(c, n) {
        GcdZero(2);
        GcdUnique(1, 2, 0, 2);
        assert false;
      }
    } else {
      OneIsCoprime(n);
    }
  }

  /** Usable are the numbers that have no divisor above 1 in common with `n`. */
  lemma GoodExponentMeaning(c: nat, n: nat)
    requires c > 0 || n > 0
    ensures GoodExponent(c, n) <==> forall d :: d > 1 && Divides(d, c) ==> !Divides(d, n)
  {
    var g := GcdExists(c, n);
    if GoodExponent(c, n) {
      forall d | d > 1 && Divides(d, c)
        ensures !Divides(d, n)
      {
        if Divides(d, n) {
          GcdIsGreatest(1, c, n, d);
        }
      }
    } else {
      assert g > 1 && Divides(g, c) && Divides(g, n);
    }
  }

  lemma OneIsCoprime(n: nat)
    ensures GoodExponent(1, n)
  {
    DividesIntro(1, 1, 1);
    DividesIntro(1, n, n);
    assert 1 == Combination(1, n, 1, 0);
  }

  /** For 0, which the search for a prime can lead to, only 1 will do. */
  lemma CoprimeToZero(c: nat)
    ensures GoodExponent(c, 0) <==> c == 1
  {
    hide *;
    OneIsCoprime(0);
    if GoodExponent(c, 0) {
      GcdWithZero(c);
    }
  }

  lemma GcdWithZero(c: nat)
    requires GoodExponent(c, 0)
    ensures c == 1
  {
    var x, y :| 1 == Combination(c, 0, x, y);
    hide *;
    CombinationWithZero(c, x, y);
    DividesIntro(c, 1, x);
    DividesBound(c, 1);
  }

  lemma CombinationWithZero(c: nat, x: int, y: int)
    ensures Combination(c, 0, x, y) == x * c
    ensures Combination(c, 0, x, y) == 1 ==> c > 0
  {
  }

  /** The k-th draw from [0, n - 2] is coprime to `n`. */
  ghost predicate DrawsCoprime(source: Source, seed: nat, k: nat, n: uint32) {
    GoodExponent(Draw(source, seed, k, 0, Wrap(n - 2)), n)
  }

  /** `k` is the first draw from `lo` on that is coprime to `n`. */
  ghost predicate FirstCoprime(source: Source, seed: nat, lo: nat, k: nat, n: uint32) {
    lo <= k && DrawsCoprime(source, seed, k, n) && forall i :: lo <= i < k ==> !DrawsCoprime(source, seed, i, n)
  }

  /** Draws until a value coprime to `n` comes; `hit` tells one draw at which it does. */
  method RandomPrimeWith(n: uint32, eng: Engine, ghost hit: nat) returns (c: uint32)
    requires hit >= eng.drawn && DrawsCoprime(eng.source, eng.seed, hit, n)
    modifies eng`drawn
    ensures c <= Wrap(n - 2) && GoodExponent(c, n)
    ensures n != 2 && (n != 1 ==> c >= 1)
    ensures old(eng.drawn) < eng.drawn <= hit + 1 && c == Draw(eng.source, eng.seed, eng.drawn - 1, 0, Wrap(n - 2))
    ensures FirstCoprime(eng.source, eng.seed, old(eng.drawn), eng.drawn - 1, n)
  {
    var g: uint32 := 0;
    c := 0;
    while g != 1
      invariant old(eng.drawn) <= eng.drawn
      invariant if g == 1 then old(eng.drawn) < eng.drawn <= hit + 1 else eng.drawn <= hit
      invariant g == 1 ==> c == Draw(eng.source, eng.seed, eng.drawn - 1, 0, Wrap(n - 2))
      invariant g == 1 ==> FirstCoprime(eng.source, eng.seed, old(eng.drawn), eng.drawn - 1, n)
      invariant g != 1 ==> forall i :: old(eng.drawn) <= i < eng.drawn ==> !DrawsCoprime(eng.source, eng.seed, i, n)
      decreases if g == 1 then 0 else 1, hit - eng.drawn
    {
      c := eng.Between(0, Wrap(n - 2));
      g := Gcd(c, n);
      CoprimeByGcd(c, n, g);
    }
    ExponentAvailable(n);
    CoprimeByGcd(0, n, n);
  }

  /** Comparing what `gcd` returned with 1 decides coprimality, also for a pair of zeros. */
  lemma CoprimeByGcd(c: nat, n: nat, g: nat)
    requires (c > 0 || n > 0 ==> g > 0) && (c == 0 && n == 0 ==> g == 0)
    requires c > 0 || n > 0 ==> IsGcd(g, c, n) || (c == 0 && g == n)
    ensures GoodExponent(c, n) <==> g == 1
  {
    if c == 0 && n == 0 {
      CoprimeToZero(0);
    } else {
      if c == 0 {
        GcdZero(n);
      }
      if GoodExponent(c, n) {
        GcdUnique(1, if c == 0 then n else g, c, n);
      }
    }
  }
}
