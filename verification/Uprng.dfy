/** uprng.h: the generator that composes affine maps and powers modulo a prime, and retries above max. */
module UprngModel {
  import opened Words
  import opened Arith
  import opened NumberTheory
  import opened Permutations
  import opened MathHelpers
  import opened PrimeHelpers
  import opened LargestPrime
  import opened RandEngine
  import opened UniModel

  datatype Rounds = Rounds(max: uint32, prime: uint32, a: uint32, b: uint32, c: uint32, n: uint32)

  ghost predicate ValidRounds(g: Rounds) {
    && 1 <= g.max <= g.prime
    && IsPrime(g.prime)
    && 1 <= g.a < g.max && g.b < g.max
    && 1 <= g.c && GoodExponent(g.c, g.prime - 1)
    && 1 <= g.n <= 4
  }

  /** What a set-up gives when there is no 32-bit prime from `max` on: the search for one returns 1. */
  ghost predicate StuckRounds(g: Rounds) {
    && g.prime == 1
    && 1 <= g.a < g.max && g.b < g.max
    && g.c == 1 && 1 <= g.n <= 4
  }

  ghost predicate UsableRounds(g: Rounds) {
    ValidRounds(g) || StuckRounds(g)
  }

  /** One round: X goes to (aX + b)^c modulo the prime. */
  ghost function Round(g: Rounds, x: int): int
    requires g.prime > 0
  {
    Pow((g.a * x + g.b) % g.prime, g.c) % g.prime
  }

  ghost function Rounded(g: Rounds, x: int, n: nat): int
    requires g.prime > 0
  {
    if n == 0 then x else Round(g, Rounded(g, x, n - 1))
  }

  /** get_step: all the rounds of a generator. */
  ghost function Mixed(g: Rounds, x: int): int
    requires g.prime > 0
  {
    Rounded(g, x, g.n)
  }

  /** A round takes the affine image to the power c, modulo the prime. */
  lemma RoundMeaning(g: Rounds, x: int)
    requires g.prime > 0
    ensures 0 <= Round(g, x) < g.prime && Cong(Round(g, x), Pow(g.a * x + g.b, g.c), g.prime)
  {
    var y := g.a * x + g.b;
    CongMod(y, g.prime);
    PowCong(y % g.prime, y, g.c, g.prime);
    CongMod(Pow(y % g.prime, g.c), g.prime);
  }

  /** The steps from `x` to `r`: each is the power of the affine image of the one before. */
  ghost predicate GoesThrough(g: Rounds, t: seq<int>, x: int, r: int)
    requires g.prime > 0
  {
    && |t| == g.n + 1 && t[0] == x && t[g.n] == r
    && forall i :: 0 < i <= g.n ==> 0 <= t[i] < g.prime && Cong(t[i], Pow(g.a * t[i - 1] + g.b, g.c), g.prime)
  }

  /** get_step: `r` comes out of `n` steps from `x`. */
  ghost predicate MixesTo(g: Rounds, x: int, r: int)
    requires g.prime > 0
  {
    exists t :: GoesThrough(g, t, x, r)
  }

  lemma MixedMixesTo(g: Rounds, x: int)
    requires g.prime > 0
    ensures MixesTo(g, x, Mixed(g, x))
  {
    hide Round;
    var t := seq(g.n + 1, i requires 0 <= i => Rounded(g, x, i));
    forall i | 0 < i <= g.n
      ensures 0 <= t[i] < g.prime && Cong(t[i], Pow(g.a * t[i - 1] + g.b, g.c), g.prime)
    {
      RoundMeaning(g, Rounded(g, x, i - 1));
      assert t[i] == Round(g, t[i - 1]);
    }
    assert GoesThrough(g, t, x, Mixed(g, x));
  }

  // ---------------------------------------------------------------- undoing the rounds

  /** An inverse of the exponent modulo prime - 1. */
  ghost predicate UndoesExponent(g: Rounds, d: nat)
    requires g.prime > 1
  {
    d >= 1 && Cong(g.c * d, 1, g.prime - 1)
  }

  /** Every valid generator has one. */
  lemma ExponentUndone(g: Rounds) returns (d: nat)
    requires ValidRounds(g)
    ensures UndoesExponent(g, d)
  {
    var p := g.prime;
    d := InverseExists(g.c, p - 1);
    if d == 0 {
      d := p - 1;
      assert g.c * (p - 1) == g.c * 0 + g.c * (p - 1);
      CongIntro(g.c * (p - 1), 0, g.c, p - 1);
    }
  }

  /** Raising a round's result to the inverse exponent gives the affine image back. */
  lemma RoundUndone(g: Rounds, x: int, d: nat)
    requires ValidRounds(g) && UndoesExponent(g, d)
    ensures Cong(Pow(Round(g, x), d), g.a * x + g.b, g.prime)
  {
    hide IsPrime;
    hide Round;
    var p, y := g.prime, g.a * x + g.b;
    RoundMeaning(g, x);
    PowCong(Round(g, x), Pow(y, g.c), d, p);
    PowerUndone(p, g.c, d, y);
  }

  lemma PowerUndone(p: int, c: int, d: nat, y: int)
    requires IsPrime(p) && c >= 1 && d >= 1 && Cong(c * d, 1, p - 1)
    ensures Cong(Pow(Pow(y, c), d), y, p)
  {
    if Divides(p, y) {
      CongDivides(y, 0, p);
      PowZeroCong(p, y, c);
      PowZeroCong(p, Pow(y, c), d);
    } else if p > 2 {
      UndoPower(p, c, d, y);
    } else {
      CongMod(y, 2);
      CongDivides(y, 0, 2);
      assert y % 2 == 1;
      PowCong(y, 1, c, 2);
      PowOne(c);
      PowCong(Pow(y, c), 1, d, 2);
      PowOne(d);
    }
  }

  lemma PowZeroCong(p: int, y: int, e: nat)
    requires p > 0 && e >= 1 && Cong(y, 0, p)
    ensures Cong(Pow(y, e), 0, p)
  {
    PowCong(y, 0, e, p);
    assert Pow(0, e) == 0 * Pow(0, e - 1) == 0;
  }

  /** One round backwards: the inverse power, then the inverse of the affine map. */
  ghost function RoundBack(g: Rounds, d: nat, e: int, y: int): int
    requires g.prime > 0
  {
    (e * (Pow(y, d) - g.b)) % g.prime
  }

  ghost function Back(g: Rounds, d: nat, e: int, y: int, n: nat): int
    requires g.prime > 0
    decreases n
  {
    if n == 0 then y else Back(g, d, e, RoundBack(g, d, e, y), n - 1)
  }

  lemma RoundBackAgain(g: Rounds, x: int, d: nat, e: int)
    requires ValidRounds(g) && UndoesExponent(g, d) && Cong(g.a * e, 1, g.prime) && 0 <= x < g.prime
    ensures RoundBack(g, d, e, Round(g, x)) == x
  {
    hide IsPrime;
    hide Round;
    RoundUndone(g, x, d);
    AffineBack(g.prime, g.a, g.b, e, x, Pow(Round(g, x), d));
  }

  lemma AffineBack(p: int, a: int, b: int, e: int, x: int, y: int)
    requires 0 <= x < p && Cong(y, a * x + b, p) && Cong(a * e, 1, p)
    ensures (e * (y - b)) % p == x
  {
    CongAdd(y, a * x + b, -b, -b, p);
    CongScale(y - b, a * x, e, p);
    CongScale(a * e, 1, x, p);
    MulFactor(e, a, x);
    MulFactor(x, a, e);
    assert a * (e * x) == a * (x * e);
    SmallMod(x, p);
  }

  /** get_step can be undone: going the rounds backwards from its result gives the step back. */
  lemma {:induction false} RoundedBack(g: Rounds, x: int, d: nat, e: int, n: nat)
    requires ValidRounds(g) && UndoesExponent(g, d) && Cong(g.a * e, 1, g.prime) && 0 <= x < g.prime
    ensures Back(g, d, e, Rounded(g, x, n), n) == x
  {
    hide Round;
    hide RoundBack;
    hide ValidRounds;
    assert g.prime > 0;
    if n > 0 {
      RoundedBelow(g, x, n - 1);
      RoundBackAgain(g, Rounded(g, x, n - 1), d, e);
      RoundedBack(g, x, d, e, n - 1);
    }
  }

  // ---------------------------------------------------------------- the rounds are a bijection

  lemma AffineInjective(p: int, a: int, b: int, x: int, y: int)
    requires IsPrime(p) && 0 < a < p && 0 <= x < p && 0 <= y < p
    requires (a * x + b) % p == (a * y + b) % p
    ensures x == y
  {
    hide IsPrime;
    CongAdd(a * x + b, a * y + b, b, b, p);
    NotDividesSmall(p, a);
    PrimeCancel(p, a, x, y);
    CongSmall(x, y, p);
  }

  lemma RoundInjective(g: Rounds, x: int, y: int)
    requires ValidRounds(g) && 0 <= x < g.prime && 0 <= y < g.prime
    requires Round(g, x) == Round(g, y)
    ensures x == y
  {
    PowerInjective(g.prime, g.c, (g.a * x + g.b) % g.prime, (g.a * y + g.b) % g.prime);
    AffineInjective(g.prime, g.a, g.b, x, y);
  }

  lemma {:induction false} RoundedBelow(g: Rounds, x: int, n: nat)
    requires g.prime > 0 && 0 <= x < g.prime
    ensures 0 <= Rounded(g, x, n) < g.prime
  {
  }

  lemma {:induction false} RoundedInjective(g: Rounds, x: int, y: int, n: nat)
    requires ValidRounds(g) && 0 <= x < g.prime && 0 <= y < g.prime
    requires Rounded(g, x, n) == Rounded(g, y, n)
    ensures x == y
  {
    hide Round;
    hide IsPrime;
    if n > 0 {
      RoundedBelow(g, x, n - 1);
      RoundedBelow(g, y, n - 1);
      RoundInjective(g, Rounded(g, x, n - 1), Rounded(g, y, n - 1));
      RoundedInjective(g, x, y, n - 1);
    }
  }

  /** What one full cycle of positions is mixed to. */
  ghost function Cycle(g: Rounds, pos: nat, n: nat): (s: seq<int>)
    requires g.prime > 0
  {
    seq(n, i requires 0 <= i => Mixed(g, Cyclic(pos, i, g.prime)))
  }

  /** The rounds are a bijection of [0, prime): a full cycle of positions meets every value once. */
  lemma CyclePermutation(g: Rounds, pos: nat)
    requires ValidRounds(g)
    ensures IsPermutation(Cycle(g, pos, g.prime), g.prime)
  {
    var s := Cycle(g, pos, g.prime);
    forall i | 0 <= i < |s|
      ensures 0 <= s[i] < g.prime
    {
      var c := Cyclic(pos, i, g.prime);
      RoundedBelow(g, c, g.n);
    }
    forall i, j | 0 <= i < j < |s|
      ensures s[i] != s[j]
    {
      var c, d := Cyclic(pos, i, g.prime), Cyclic(pos, j, g.prime);
      if s[i] == s[j] {
        RoundedInjective(g, c, d, g.n);
        CyclicInjective(pos, i, j, g.prime);
      }
    }
    Pigeonhole(s, g.prime);
  }

  // ---------------------------------------------------------------- walking past values above max

  /** The entries below `max`, in order. */
  ghost function Kept(s: seq<int>, max: int): (t: seq<int>) {
    if s == [] then []
    else if s[|s| - 1] < max then Kept(s[..|s| - 1], max) + [s[|s| - 1]]
    else Kept(s[..|s| - 1], max)
  }

  lemma {:induction false} KeptConcat(s: seq<int>, t: seq<int>, max: int)
    ensures Kept(s + t, max) == Kept(s, max) + Kept(t, max)
  {
    if t == [] {
      assert s + t == s;
    } else {
      var t' := t[..|t| - 1];
      KeptConcat(s, t', max);
      assert (s + t)[..|s + t| - 1] == s + t';
    }
  }

  lemma {:induction false} KeptElements(s: seq<int>, max: int)
    ensures forall v :: v in Kept(s, max) <==> v in s && v < max
  {
    if s != [] {
      KeptElements(s[..|s| - 1], max);
      assert s == s[..|s| - 1] + [s[|s| - 1]];
    }
  }

  lemma {:induction false} KeptDistinct(s: seq<int>, max: int)
    requires Distinct(s)
    ensures Distinct(Kept(s, max))
  {
    if s != [] {
      KeptDistinct(s[..|s| - 1], max);
      KeptElements(s[..|s| - 1], max);
      assert s[|s| - 1] !in s[..|s| - 1];
    }
  }

  /** A full cycle keeps exactly [0, max), each value once. */
  lemma KeptCycle(g: Rounds, pos: nat)
    requires ValidRounds(g)
    ensures IsPermutation(Kept(Cycle(g, pos, g.prime), g.max), g.max)
  {
    var s := Cycle(g, pos, g.prime);
    var t := Kept(s, g.max);
    CyclePermutation(g, pos);
    KeptElements(s, g.max);
    KeptDistinct(s, g.max);
    forall i | 0 <= i < |t|
      ensures 0 <= t[i] < g.max
    {
      assert t[i] in t;
    }
    SetSizes(t, g.max);
  }

  lemma SetSizes(t: seq<int>, n: nat)
    requires Distinct(t) && Below(t, n) && forall v :: 0 <= v < n ==> v in t
    ensures IsPermutation(t, n)
  {
    Pigeonhole(t, n);
    DistinctSize(t);
    DistinctSize(Iota(n));
    IotaElements(n);
    SubsetSize(SetOf(Iota(n)), SetOf(t));
  }

  /** get_step does not retry: all steps of a cycle give values below `max` only when `max` is the prime. */
  lemma StepsBelowMax(g: Rounds)
    requires ValidRounds(g)
    ensures (forall step :: 0 <= step < g.prime ==> Mixed(g, step) < g.max) <==> g.max == g.prime
  {
    CyclePermutation(g, 0);
    var s := Cycle(g, 0, g.prime);
    forall i | 0 <= i < g.prime
      ensures s[i] == Mixed(g, i)
    {
      SmallMod(i, g.prime);
    }
    if g.max < g.prime {
      assert g.max in s;
      var i :| 0 <= i < |s| && s[i] == g.max;
      assert Mixed(g, i) == g.max;
    }
  }

  /** How many positions a call consumes: the first one whose value is below max ends it. */
  ghost predicate CallTakes(g: Rounds, pos: nat, k: nat)
    requires g.prime > 0
  {
    && k >= 1
    && Mixed(g, Cyclic(pos, k - 1, g.prime)) < g.max
    && forall i :: 0 <= i < k - 1 ==> Mixed(g, Cyclic(pos, i, g.prime)) >= g.max
  }

  /** Modulo 1 everything is 0. */
  lemma StuckAtZero(g: Rounds, x: int)
    requires StuckRounds(g)
    ensures Mixed(g, x) == 0
  {
    var y := Rounded(g, x, g.n - 1);
    assert Mixed(g, x) == Round(g, y);
    assert Pow((g.a * y + g.b) % 1, g.c) % 1 == 0;
  }

  /** Every call ends within one cycle of positions. */
  lemma CallEnds(g: Rounds, pos: nat) returns (i: nat)
    requires UsableRounds(g)
    ensures i < g.prime && Mixed(g, Cyclic(pos, i, g.prime)) < g.max
  {
    if StuckRounds(g) {
      StuckAtZero(g, Cyclic(pos, 0, g.prime));
      return 0;
    }
    CyclePermutation(g, pos);
    var s := Cycle(g, pos, g.prime);
    assert 0 in s;
    i :| 0 <= i < |s| && s[i] == 0;
  }

  /** `outs` is what |outs| calls return when they start at `pos` and end at `end`. */
  ghost predicate CallsReturn(g: Rounds, pos: nat, outs: seq<int>, end: nat)
    requires g.prime > 0
    decreases |outs|
  {
    if outs == [] then Cyclic(pos, 0, g.prime) == end
    else exists k: nat :: CallTakes(g, pos, k)
              && outs[0] == Mixed(g, Cyclic(pos, k - 1, g.prime))
              && CallsReturn(g, Cyclic(pos, k, g.prime), outs[1..], end)
  }

  lemma CycleSplit(g: Rounds, pos: nat, n: nat, k: nat)
    requires g.prime > 0
    ensures Cycle(g, pos, n + k) == Cycle(g, pos, n) + Cycle(g, Cyclic(pos, n, g.prime), k)
  {
    var s := Cycle(g, pos, n) + Cycle(g, Cyclic(pos, n, g.prime), k);
    forall i | 0 <= i < n + k
      ensures Cycle(g, pos, n + k)[i] == s[i]
    {
      if i >= n {
        CyclicCompose(pos, n, i - n, g.prime);
      }
    }
  }

  lemma {:induction false} NothingKept(g: Rounds, pos: nat, k: nat)
    requires g.prime > 0
    requires forall i :: 0 <= i < k ==> Mixed(g, Cyclic(pos, i, g.prime)) >= g.max
    ensures Kept(Cycle(g, pos, k), g.max) == []
  {
    if k > 0 {
      NothingKept(g, pos, k - 1);
      assert Cycle(g, pos, k)[..k - 1] == Cycle(g, pos, k - 1);
    }
  }

  lemma OneCall(g: Rounds, pos: nat, k: nat)
    requires g.prime > 0 && CallTakes(g, pos, k)
    ensures Kept(Cycle(g, pos, k), g.max) == [Mixed(g, Cyclic(pos, k - 1, g.prime))]
  {
    hide Mixed;
    hide Cyclic;
    NothingKept(g, pos, k - 1);
    assert Cycle(g, pos, k)[..k - 1] == Cycle(g, pos, k - 1);
  }

  lemma FirstCall(g: Rounds, pos: nat, outs: seq<int>, end: nat) returns (k: nat)
    requires g.prime > 0 && outs != [] && CallsReturn(g, pos, outs, end)
    ensures CallTakes(g, pos, k) && k >= 1 && [outs[0]] == [Mixed(g, Cyclic(pos, k - 1, g.prime))]
    ensures CallsReturn(g, Cyclic(pos, k, g.prime), outs[1..], end)
  {
    hide Mixed;
    hide Cyclic;
    k :| CallTakes(g, pos, k) && outs[0] == Mixed(g, Cyclic(pos, k - 1, g.prime))
      && CallsReturn(g, Cyclic(pos, k, g.prime), outs[1..], end);
  }

  /** One more call continues a series. */
  lemma {:induction false} CallsExtend(g: Rounds, pos: nat, outs: seq<int>, mid: nat, k: nat)
    requires g.prime > 0 && CallsReturn(g, pos, outs, mid) && CallTakes(g, mid, k)
    ensures CallsReturn(g, pos, outs + [Mixed(g, Cyclic(mid, k - 1, g.prime))], Cyclic(mid, k, g.prime))
    decreases |outs|
  {
    hide Mixed;
    var last := Mixed(g, Cyclic(mid, k - 1, g.prime));
    var more := outs + [last];
    if outs == [] {
      CallsFromSame(g, pos, mid, k);
      CyclicCompose(pos, 0, k, g.prime);
      SmallMod(Cyclic(mid, k, g.prime), g.prime);
      assert more[1..] == [];
    } else {
      var j := FirstCall(g, pos, outs, mid);
      CallsExtend(g, Cyclic(pos, j, g.prime), outs[1..], mid, k);
      assert more[1..] == outs[1..] + [last];
    }
  }

  /** Positions count modulo the prime only. */
  lemma CallsFromSame(g: Rounds, pos: nat, mid: nat, k: nat)
    requires g.prime > 0 && mid == Cyclic(pos, 0, g.prime) && CallTakes(g, mid, k)
    ensures CallTakes(g, pos, k)
    ensures forall i: nat :: Cyclic(mid, i, g.prime) == Cyclic(pos, i, g.prime)
  {
    hide Mixed;
    forall i: nat
      ensures Cyclic(mid, i, g.prime) == Cyclic(pos, i, g.prime)
    {
      CyclicCompose(pos, 0, i, g.prime);
    }
  }

  /** A series of calls returns the kept values of the positions it consumes. */
  lemma {:induction false} CallsAreKept(g: Rounds, pos: nat, outs: seq<int>, end: nat) returns (total: nat)
    requires g.prime > 0 && CallsReturn(g, pos, outs, end)
    ensures outs == Kept(Cycle(g, pos, total), g.max)
    decreases |outs|
  {
    hide *;
    if outs == [] {
      total := 0;
      NothingKept(g, pos, 0);
    } else {
      var k := FirstCall(g, pos, outs, end);
      var rest := CallsAreKept(g, Cyclic(pos, k, g.prime), outs[1..], end);
      OneCall(g, pos, k);
      total := k + rest;
      CycleSplit(g, pos, k, rest);
      KeptConcat(Cycle(g, pos, k), Cycle(g, Cyclic(pos, k, g.prime), rest), g.max);
      assert outs == [outs[0]] + outs[1..];
    }
  }

  /** Consuming more positions only adds values at the end. */
  lemma KeptGrows(g: Rounds, pos: nat, m: nat, n: nat)
    requires g.prime > 0 && m <= n
    ensures Kept(Cycle(g, pos, m), g.max) <= Kept(Cycle(g, pos, n), g.max)
  {
    CycleSplit(g, pos, m, n - m);
    KeptConcat(Cycle(g, pos, m), Cycle(g, Cyclic(pos, m, g.prime), n - m), g.max);
  }

  lemma PermutationLength(s: seq<int>, n: int)
    requires IsPermutation(s, n)
    ensures |s| == n
  {
  }

  /** From any position, `max` calls return every value of [0, max) exactly once. */
  lemma CallsPermutation(g: Rounds, pos: nat, outs: seq<int>, end: nat)
    requires ValidRounds(g) && |outs| == g.max && CallsReturn(g, pos, outs, end)
    ensures IsPermutation(outs, g.max)
  {
    assert g.prime > 0;
    hide *;
    var total := CallsAreKept(g, pos, outs, end);
    var whole := Kept(Cycle(g, pos, g.prime), g.max);
    KeptCycle(g, pos);
    PermutationLength(whole, g.max);
    if total >= g.prime {
      KeptGrows(g, pos, g.prime, total);
    } else {
      KeptGrows(g, pos, total, g.prime);
    }
    assert outs == whole;
  }

  /** Without a prime every call returns 0. */
  lemma {:induction false} StuckCalls(g: Rounds, pos: nat, outs: seq<int>, end: nat)
    requires StuckRounds(g) && CallsReturn(g, pos, outs, end)
    ensures forall i :: 0 <= i < |outs| ==> outs[i] == 0
    decreases |outs|
  {
    if outs != [] {
      var k := FirstCall(g, pos, outs, end);
      StuckAtZero(g, Cyclic(pos, k - 1, g.prime));
      assert [outs[0]][0] == 0;
      StuckCalls(g, Cyclic(pos, k, g.prime), outs[1..], end);
      forall i | 0 <= i < |outs|
        ensures outs[i] == 0
      {
        assert i > 0 ==> outs[i] == outs[1..][i - 1];
      }
    }
  }

  /** So `max` calls are a permutation of [0, max) exactly when a prime was found. */
  lemma CallsPermutationExactly(g: Rounds, pos: nat, outs: seq<int>, end: nat)
    requires UsableRounds(g) && |outs| == g.max && CallsReturn(g, pos, outs, end)
    ensures IsPermutation(outs, g.max) <==> g.prime != 1
  {
    hide CallsReturn;
    if StuckRounds(g) {
      StuckCalls(g, pos, outs, end);
      assert outs[0] == outs[1];
      assert !Distinct(outs);
    } else {
      CallsPermutation(g, pos, outs, end);
    }
  }

  // ---------------------------------------------------------------- set-up

  /** The exponent's draw can succeed exactly when `max` is at least 4: below, the prime is 3. */
  lemma SetUpCanSucceed(max: uint32, prime: uint32)
    requires 2 <= max && IsNextPrime(max, prime)
    ensures var n: uint32 := prime - 1; (exists c :: 0 <= c <= Wrap(n - 2) && GoodExponent(c, n)) <==> max >= 4
  {
    ExponentAvailable(prime - 1);
    PrimesRunOut(max);
    DividesMod(2, 3);
    assert OddPrime(3);
  }

  /** Which set-up the drawn numbers make. */
  lemma RoundsReady(g: Rounds)
    requires g.max >= 4 && IsNextPrime(g.max, g.prime) && 1 <= g.a < g.max && g.b < g.max
    requires GoodExponent(g.c, g.prime - 1) && (g.prime - 1 != 1 ==> g.c >= 1) && 1 <= g.n <= 4
    ensures if g.max <= LARGEST_PRIME then ValidRounds(g) else StuckRounds(g)
  {
    PrimesRunOut(g.max);
    CoprimeToZero(g.c);
  }

  lemma NextPrimePositive(max: int, p: int)
    requires IsNextPrime(max, p)
    ensures p >= 1 && p != 2
  {
  }

  class Uprng {
    var prime: uint32
    var max: uint32
    var a: uint32
    var b: uint32
    var c: uint32
    var n: uint32
    var curStep: uint32

    ghost function Setup(): Rounds
      reads this
    {
      Rounds(max, prime, a, b, c, n)
    }

    ghost predicate Valid()
      reads this
    {
      ValidRounds(Setup()) && curStep < prime
    }

    /** A generator that can be called; without a prime it only returns 0. */
    ghost predicate Usable()
      reads this
    {
      UsableRounds(Setup()) && curStep < prime
    }

    constructor () {
    }

    /** Needs an engine that draws a usable exponent at some point. The result is a valid generator exactly when
        there is a 32-bit prime from `max` on. */
    method Init(max: uint32, eng: Engine, ghost hit: nat)
      requires max >= 4
      requires hit >= eng.drawn + 2
      requires forall p: uint32 :: IsNextPrime(max, p) && p >= 1 ==> DrawsCoprime(eng.source, eng.seed, hit, p - 1)
      modifies this, eng`drawn
      ensures Usable() && this.max == max && curStep == 0
      ensures Valid() <==> max <= LARGEST_PRIME
      ensures IsNextPrime(max, prime) && prime >= 1
      ensures eng.drawn >= old(eng.drawn) + 4
      ensures a == Draw(eng.source, eng.seed, old(eng.drawn), 1, max - 1)
      ensures b == Draw(eng.source, eng.seed, old(eng.drawn) + 1, 0, max - 1)
      ensures c == Draw(eng.source, eng.seed, eng.drawn - 2, 0, Wrap(prime - 3))
      ensures FirstCoprime(eng.source, eng.seed, old(eng.drawn) + 2, eng.drawn - 2, prime - 1)
      ensures n == Draw(eng.source, eng.seed, eng.drawn - 1, 1, 4)
    {
      hide *;
      this.max := max;
      a := eng.Between(1, max - 1);
      b := eng.Between(0, max - 1);
      prime := FindNextPrime(max);
      NextPrimePositive(max, prime);
      c := RandomPrimeWith(prime - 1, eng, hit);
      n := eng.Between(1, 4);
      curStep := 0;
      RoundsReady(Rounds(max, prime, a, b, c, n));
      SetUpMade(max);
    }

    lemma SetUpMade(size: uint32)
      requires var g := Rounds(max, prime, a, b, c, n);
               if size <= LARGEST_PRIME then ValidRounds(g) else StuckRounds(g)
      requires curStep == 0
      ensures Usable() && (Valid() <==> size <= LARGEST_PRIME)
    {
    }

    static method L(x: uint32, a: uint32, b: uint32, p: uint32) returns (r: uint32)
      requires p > 0
      ensures r == (a * x + b) % p
    {
      ProductFits(a, x);
      r := (a * x + b) % p;
    }

    static method G(x: uint32, c: uint32, p: uint32) returns (r: uint32)
      requires p > 0 && c > 0
      ensures r == Pow(x, c) % p
    {
      r := ExpMod(x, c, p);
    }

    method GetStep(step: uint32) returns (ret: uint32)
      requires Usable()
      ensures ret == Mixed(Setup(), step)
      ensures MixesTo(Setup(), step, ret)
    {
      MixedMixesTo(Setup(), step);
      ret := step;
      for i := 0 to n
        invariant ret == Rounded(Setup(), step, i)
      {
        var x := L(ret, a, b, prime);
        ret := G(x, c, prime);
      }
    }

    /** operator(): retries until the value is below max; `taken` counts the positions it consumed. */
    method Next() returns (res: uint32, ghost taken: nat)
      requires Usable()
      modifies this`curStep
      ensures Usable() && (Valid() <==> old(Valid())) && res < max
      ensures 1 <= taken <= prime && CallTakes(Setup(), old(curStep), taken)
      ensures res == Mixed(Setup(), Cyclic(old(curStep), taken - 1, prime))
      ensures MixesTo(Setup(), (old(curStep) + taken - 1) % prime, res)
      ensures curStep == Cyclic(old(curStep), taken, prime)
    {
      hide Mixed;
      hide MixesTo;
      hide ValidRounds;
      hide StuckRounds;
      ghost var last := CallEnds(Setup(), curStep);
      CyclicStep(curStep, prime);
      taken := 0;
      res := max;
      while res >= max
        invariant curStep < prime && curStep == Cyclic(old(curStep), taken, prime)
        invariant res >= max ==> taken <= last
        invariant forall i :: 0 <= i < taken - 1 ==> Mixed(Setup(), Cyclic(old(curStep), i, prime)) >= max
        invariant taken > 0 ==> res == Mixed(Setup(), Cyclic(old(curStep), taken - 1, prime))
        invariant taken == 0 ==> res >= max
        invariant taken <= last + 1
        decreases last + 1 - taken
      {
        var pos;
        CyclicCompose(old(curStep), taken, 1, prime);
        pos, curStep := PosIncrement(curStep, prime);
        res := GetStep(pos);
        taken := taken + 1;
      }
      MixedMixesTo(Setup(), Cyclic(old(curStep), taken - 1, prime));
    }
  }
}
