/** uni.h: the scalar generator of unique numbers, built on quadratic residues. */
module UniModel {
  import opened Words
  import opened Arith
  import opened NumberTheory
  import opened Permutations
  import opened PrimeHelpers
  import opened RandEngine
  import opened Shuffling

  /** What a generator is set up with: the fields that its calls never change. */
  datatype Params = Params(max: uint32, prime: uint32, off: uint32, tail: seq<uint32>)

  ghost predicate ValidParams(u: Params) {
    && 1 <= u.max
    && u.off < u.max
    && u.prime <= u.max
    && (u.prime != 0 ==> Matching(u.prime))
    && |u.tail| == u.max - u.prime
    && Distinct(u.tail)
    && (forall i :: 0 <= i < |u.tail| ==> u.prime <= u.tail[i] < u.max)
  }

  // ---------------------------------------------------------------- the residue map

  function Residue(u: Params, v: uint32): uint32
    requires ValidParams(u) && v < u.max
  {
    if v >= u.prime then u.tail[v - u.prime] else SignedSquare(u.prime, v)
  }

  /** The square of a lower value, the opposite of the square of an upper one. */
  function SignedSquare(p: int, v: int): (r: int)
    requires p > 0
    ensures 0 <= r <= p
  {
    var r := (v * v) % p;
    if v <= p / 2 then r else p - r
  }

  /** Squares of numbers not above p / 2 are different modulo p. */
  lemma SquaresDiffer(p: int, v: int, w: int)
    requires IsPrime(p) && 0 <= v <= p / 2 && 0 <= w <= p / 2 && p % 2 == 1
    requires Cong(v * v, w * w, p)
    ensures v == w
  {
    CongDivides(v * v, w * w, p);
    assert v * v - w * w == (v - w) * (v + w);
    PrimeDividesProduct(p, v - w, v + w);
    if v + w > 0 {
      NotDividesSmall(p, v + w);
      CongDivides(v, w, p);
      CongSmall(v, w, p);
    }
  }

  /** Where an upper value lands: the opposite of a square, and never 0. */
  lemma UpperResidue(p: int, v: int)
    requires IsPrime(p) && 0 < v < p
    ensures 0 < (v * v) % p < p
    ensures Cong(p - (v * v) % p, -(v * v), p)
    ensures Cong((p - v) * (p - v), v * v, p)
  {
    var r := (v * v) % p;
    if r == 0 {
      DividesMod(p, v * v);
      PrimeDividesProduct(p, v, v);
      NotDividesSmall(p, v);
    }
    assert v * v == (v * v / p) * p + r;
    var q := v * v / p;
    assert p - r == -(v * v) + (q + 1) * p;
    CongIntro(p - r, -(v * v), q + 1, p);
    assert (p - v) * (p - v) == v * v + (p - 2 * v) * p;
    CongIntro((p - v) * (p - v), v * v, p - 2 * v, p);
  }

  /** A square and the opposite of a non-zero square never meet, because p is 3 modulo 4. */
  lemma HalvesDisjoint(p: int, v: int, w: int)
    requires Matching(p) && 0 <= v < p && 0 < w < p
    ensures (v * v) % p != p - (w * w) % p
  {
    UpperResidue(p, w);
    CongMod(v * v, p);
    if (v * v) % p == p - (w * w) % p {
      CongDivides(v * v, -(w * w), p);
      assert v * v - -(w * w) == v * v + w * w;
      SumOfTwoSquares(p, v, w);
      NotDividesSmall(p, w);
    }
  }

  lemma ResidueBelow(u: Params, v: uint32)
    requires ValidParams(u) && v < u.max
    ensures Residue(u, v) < u.max
    ensures v < u.prime <==> Residue(u, v) < u.prime
  {
    if v < u.prime && v > u.prime / 2 {
      UpperResidue(u.prime, v);
    }
  }

  /** The opposites of squares differ as well above p / 2. */
  lemma OppositesDiffer(p: int, v: int, w: int)
    requires IsPrime(p) && p / 2 < v < p && p / 2 < w < p && p % 2 == 1
    requires (v * v) % p == (w * w) % p
    ensures v == w
  {
    hide IsPrime;
    UpperResidue(p, v);
    UpperResidue(p, w);
    SquaresDiffer(p, p - v, p - w);
  }

  lemma SignedSquareInjective(p: int, v: int, w: int)
    requires Matching(p) && 0 <= v < p && 0 <= w < p
    requires SignedSquare(p, v) == SignedSquare(p, w)
    ensures v == w
  {
    hide IsPrime;
    assert p % 2 == 1;
    if v <= p / 2 && w <= p / 2 {
      SquaresDiffer(p, v, w);
    } else if v > p / 2 && w > p / 2 {
      OppositesDiffer(p, v, w);
    } else if v <= p / 2 {
      HalvesDisjoint(p, v, w);
    } else {
      HalvesDisjoint(p, w, v);
    }
  }

  lemma ResidueInjective(u: Params, v: uint32, w: uint32)
    requires ValidParams(u) && v < u.max && w < u.max
    requires Residue(u, v) == Residue(u, w)
    ensures v == w
  {
    ResidueBelow(u, v);
    ResidueBelow(u, w);
    if v < u.prime {
      SignedSquareInjective(u.prime, v, w);
    }
  }

  /** The residues of 0, 1, ..., max - 1. */
  ghost function Residues(u: Params): (s: seq<int>)
    requires ValidParams(u)
  {
    seq(u.max, i requires 0 <= i < u.max => Residue(u, i))
  }

  /** The residue map is a bijection of [0, max) onto itself. */
  lemma ResiduePermutation(u: Params)
    requires ValidParams(u)
    ensures IsPermutation(Residues(u), u.max)
  {
    var s := Residues(u);
    forall i | 0 <= i < |s|
      ensures 0 <= s[i] < u.max
    {
      ResidueBelow(u, i);
    }
    forall i, j | 0 <= i < j < |s|
      ensures s[i] != s[j]
    {
      if s[i] == s[j] {
        ResidueInjective(u, i, j);
      }
    }
    Pigeonhole(s, u.max);
  }

  // ---------------------------------------------------------------- what the residue map computes

  /** Below p / 2 the result is congruent to the square, above to its opposite. */
  lemma SignedSquareMeaning(p: int, v: int)
    requires p > 0 && 0 <= v < p
    ensures v <= p / 2 ==> 0 <= SignedSquare(p, v) < p && Cong(SignedSquare(p, v), v * v, p)
    ensures v > p / 2 ==> 0 < SignedSquare(p, v) <= p && Cong(SignedSquare(p, v), -(v * v), p)
  {
    var r, q := (v * v) % p, v * v / p;
    CongMod(v * v, p);
    assert v * v == q * p + r;
    assert p - r == -(v * v) + (q + 1) * p;
    CongIntro(p - r, -(v * v), q + 1, p);
  }

  /** The lower half lands on the squares modulo p, the upper half on the numbers that are no squares. */
  lemma HalvesAreSquares(p: int, v: int)
    requires Matching(p) && 0 < v < p
    ensures (exists w :: Cong(w * w, SignedSquare(p, v), p)) <==> v <= p / 2
  {
    hide IsPrime;
    SignedSquareMeaning(p, v);
    if v <= p / 2 {
      assert Cong(v * v, SignedSquare(p, v), p);
    } else {
      forall w
        ensures !Cong(w * w, SignedSquare(p, v), p)
      {
        if Cong(w * w, SignedSquare(p, v), p) {
          CongDivides(w * w, -(v * v), p);
          assert w * w - -(v * v) == w * w + v * v;
          SumOfTwoSquares(p, w, v);
          NotDividesSmall(p, v);
        }
      }
    }
  }

  /** `r` is what the residue map makes of `v`: an entry of the table, a square, or the opposite of one. */
  ghost predicate MapsTo(u: Params, v: int, r: int)
    requires u.prime <= u.max && |u.tail| == u.max - u.prime
  {
    && 0 <= v < u.max
    && (v >= u.prime ==> r == u.tail[v - u.prime])
    && (v < u.prime && v <= u.prime / 2 ==> 0 <= r < u.prime && Cong(r, v * v, u.prime))
    && (v < u.prime && v > u.prime / 2 ==> 0 < r < u.prime && Cong(r, -(v * v), u.prime))
  }

  /** `r` is what a call gives at position `pos`: the map is applied, the offset added, and the map applied
      again, with the sum on 32 bits. */
  ghost predicate CallGives(u: Params, pos: int, r: int)
    requires u.prime <= u.max && |u.tail| == u.max - u.prime && u.max > 0
  {
    exists x :: MapsTo(u, pos, x) && MapsTo(u, ((x + u.off) % 0x1_0000_0000) % u.max, r)
  }

  lemma ResidueMapsTo(u: Params, v: uint32)
    requires ValidParams(u) && v < u.max
    ensures MapsTo(u, v, Residue(u, v))
  {
    if v < u.prime {
      SignedSquareMeaning(u.prime, v);
      ResidueBelow(u, v);
    }
  }

  /** These conditions leave one result only. */
  lemma CallGivesOne(u: Params, pos: int, r: int, t: int)
    requires ValidParams(u) && CallGives(u, pos, r) && CallGives(u, pos, t)
    ensures r == t
  {
    var x :| MapsTo(u, pos, x) && MapsTo(u, ((x + u.off) % 0x1_0000_0000) % u.max, r);
    var y :| MapsTo(u, pos, y) && MapsTo(u, ((y + u.off) % 0x1_0000_0000) % u.max, t);
    MapsToOne(u, pos, x, y);
    MapsToOne(u, ((x + u.off) % 0x1_0000_0000) % u.max, r, t);
  }

  lemma MapsToOne(u: Params, v: int, r: int, t: int)
    requires ValidParams(u) && MapsTo(u, v, r) && MapsTo(u, v, t)
    ensures r == t
  {
    if v < u.prime {
      CongSmall(r, t, u.prime);
    }
  }

  // ---------------------------------------------------------------- sums on 32 bits

  /** `x` moved forward by `off` around [0, max), with the sum taken on 32 bits. */
  function Shift(x: uint32, off: uint32, max: uint32): (r: uint32)
    requires x < max && off < max
    ensures r < max
  {
    Wrap(x + off) % max
  }

  lemma ShiftExact(x: uint32, off: uint32, max: uint32)
    requires x < max && off < max && x + off < WORD
    ensures Shift(x, off, max) == if x + off < max then x + off else x + off - max
  {
    WrapFits(x + off);
    if x + off < max {
      DivModUnique(x + off, 0, x + off, max);
    } else {
      DivModUnique(x + off, 1, x + off - max, max);
    }
  }

  lemma ShiftInjective(x: uint32, y: uint32, off: uint32, max: uint32)
    requires x < max && y < max && off < max && off + max <= WORD
    requires Shift(x, off, max) == Shift(y, off, max)
    ensures x == y
  {
    ShiftExact(x, off, max);
    ShiftExact(y, off, max);
  }

  /** When off + max does not fit, two values are sent to 0. */
  lemma ShiftCollides(off: uint32, max: uint32)
    requires off < max && off + max > WORD
    ensures 0 < max - off < WORD - off < max
    ensures Shift(max - off, off, max) == 0 == Shift(WORD - off, off, max)
  {
    ShiftExact(max - off, off, max);
    assert Wrap(WORD) == 0;
  }

  // ---------------------------------------------------------------- the stream of values

  /** The value at a position of the cycle. */
  function ValueAt(u: Params, pos: uint32): uint32
    requires ValidParams(u) && pos < u.max
  {
    ResidueBelow(u, pos);
    Residue(u, Shift(Residue(u, pos), u.off, u.max))
  }

  lemma ValueBelow(u: Params, pos: uint32)
    requires ValidParams(u) && pos < u.max
    ensures ValueAt(u, pos) < u.max
  {
    ResidueBelow(u, pos);
    ResidueBelow(u, Shift(Residue(u, pos), u.off, u.max));
  }

  /** The value at a position is what the two applications of the map give. */
  lemma ValueIsCall(u: Params, pos: uint32)
    requires ValidParams(u) && pos < u.max
    ensures CallGives(u, pos, ValueAt(u, pos))
  {
    hide IsPrime;
    hide Distinct;
    hide Residue;
    ResidueBelow(u, pos);
    var x := Residue(u, pos);
    ResidueMapsTo(u, pos);
    ResidueMapsTo(u, Shift(x, u.off, u.max));
    assert MapsTo(u, ((x + u.off) % 0x1_0000_0000) % u.max, ValueAt(u, pos));
  }

  function Cyclic(pos: nat, i: nat, max: nat): (r: nat)
    requires max > 0
    ensures r < max
  {
    (pos + i) % max
  }

  lemma CyclicStep(pos: nat, max: nat)
    requires pos < max
    ensures Cyclic(pos, 1, max) == if pos + 1 == max then 0 else pos + 1
    ensures Cyclic(pos, 0, max) == pos
  {
    SmallMod(pos, max);
    if pos + 1 == max {
      DivModUnique(max, 1, 0, max);
    } else {
      SmallMod(pos + 1, max);
    }
  }

  lemma CyclicCompose(pos: nat, i: nat, j: nat, max: nat)
    requires max > 0
    ensures Cyclic(Cyclic(pos, i, max), j, max) == Cyclic(pos, i + j, max)
  {
    CongMod(pos + i, max);
    CongAdd((pos + i) % max, pos + i, j, j, max);
  }

  lemma CyclicInjective(pos: nat, i: nat, j: nat, max: nat)
    requires max > 0 && i < max && j < max && Cyclic(pos, i, max) == Cyclic(pos, j, max)
    ensures i == j
  {
    CongAdd(pos + i, pos + j, pos, pos, max);
    CongSmall(i, j, max);
  }

  /** What `n` calls return, starting from position `pos`. */
  ghost function Stream(u: Params, pos: nat, n: nat): (s: seq<int>)
    requires ValidParams(u)
  {
    seq(n, i requires 0 <= i => ValueAt(u, Cyclic(pos, i, u.max)))
  }

  lemma StreamSplit(u: Params, pos: nat, n: nat, k: nat)
    requires ValidParams(u)
    ensures Stream(u, pos, n + k) == Stream(u, pos, n) + Stream(u, Cyclic(pos, n, u.max), k)
  {
    var s := Stream(u, pos, n) + Stream(u, Cyclic(pos, n, u.max), k);
    forall i | 0 <= i < n + k
      ensures Stream(u, pos, n + k)[i] == s[i]
    {
      if i >= n {
        CyclicCompose(pos, n, i - n, u.max);
      }
    }
  }

  lemma ValueAtInjective(u: Params, i: uint32, j: uint32)
    requires ValidParams(u) && i < u.max && j < u.max && u.off + u.max <= WORD
    requires ValueAt(u, i) == ValueAt(u, j)
    ensures i == j
  {
    ResidueBelow(u, i);
    ResidueBelow(u, j);
    var x, y := Residue(u, i), Residue(u, j);
    ResidueInjective(u, Shift(x, u.off, u.max), Shift(y, u.off, u.max));
    ShiftInjective(x, y, u.off, u.max);
    ResidueInjective(u, i, j);
  }

  /** From any position, `max` calls give every value of [0, max) exactly once, precisely when the largest
      32-bit sum off + (max - 1) does not wrap around. */
  lemma StreamPermutation(u: Params, pos: nat)
    requires ValidParams(u)
    ensures IsPermutation(Stream(u, pos, u.max), u.max) <==> u.off + u.max <= WORD
  {
    var s := Stream(u, pos, u.max);
    if u.off + u.max <= WORD {
      StreamBelow(u, pos, u.max);
      forall i, j | 0 <= i < j < |s|
        ensures s[i] != s[j]
      {
        if s[i] == s[j] {
          ValueAtInjective(u, Cyclic(pos, i, u.max), Cyclic(pos, j, u.max));
          CyclicInjective(pos, i, j, u.max);
        }
      }
      Pigeonhole(s, u.max);
    } else {
      StreamRepeats(u, pos);
    }
  }

  lemma StreamBelow(u: Params, pos: nat, n: nat)
    requires ValidParams(u)
    ensures Below(Stream(u, pos, n), u.max)
  {
    var s := Stream(u, pos, n);
    forall i | 0 <= i < n
      ensures 0 <= s[i] < u.max
    {
      var c := Cyclic(pos, i, u.max);
      ValueBelow(u, c);
    }
  }

  /** Every position below max comes up within max steps. */
  lemma CyclicReaches(pos: nat, target: nat, max: nat) returns (i: nat)
    requires target < max
    ensures i < max && Cyclic(pos, i, max) == target
  {
    var p := pos % max;
    CongMod(pos, max);
    i := if target >= p then target - p else target - p + max;
    CongAdd(p, pos, i, i, max);
    if target >= p {
      SmallMod(target, max);
    } else {
      DivModUnique(p + i, 1, target, max);
    }
  }

  lemma StreamRepeats(u: Params, pos: nat)
    requires ValidParams(u) && u.off + u.max > WORD
    ensures !Distinct(Stream(u, pos, u.max))
  {
    ShiftCollides(u.off, u.max);
    var x, y := u.max - u.off, WORD - u.off;
    ResiduePermutation(u);
    assert x in Residues(u) && y in Residues(u);
    var i :| 0 <= i < u.max && Residues(u)[i] == x;
    var j :| 0 <= j < u.max && Residues(u)[j] == y;
    var a := CyclicReaches(pos, i, u.max);
    var b := CyclicReaches(pos, j, u.max);
    var s := Stream(u, pos, u.max);
    assert s[a] == ValueAt(u, i) && s[b] == ValueAt(u, j);
    assert s[a] == s[b] && a != b;
    assert !Distinct(s) by {
      if a < b {
        assert s[a] == s[b];
      } else {
        assert s[b] == s[a];
      }
    }
  }

  // ---------------------------------------------------------------- the view by steps

  /** get_step: the value `step` calls ahead, without moving. */
  function StepValue(u: Params, pos: uint32, step: uint32): uint32
    requires ValidParams(u) && pos < u.max
  {
    ValueAt(u, Wrap(pos + step) % u.max)
  }

  /** The step view agrees with the call that comes `step` calls later as long as the position does not wrap. */
  lemma StepIsFutureCall(u: Params, pos: uint32, step: uint32)
    requires ValidParams(u) && pos < u.max && pos + step < WORD
    ensures StepValue(u, pos, step) == Stream(u, pos, step + 1)[step]
  {
    WrapFits(pos + step);
  }

  /** After `k` calls the step view is shifted by exactly `k`. */
  lemma StepShift(u: Params, pos: uint32, k: nat, step: uint32)
    requires ValidParams(u) && pos < u.max && step < u.max && pos + k + step < WORD && k < WORD
    ensures StepValue(u, Cyclic(pos, k, u.max), step) == StepValue(u, pos, k + step)
  {
    var c := Cyclic(pos, k, u.max);
    hide ValidParams;
    ModAtMost(pos + k, u.max);
    WrapFits(c + step);
    WrapFits(pos + (k + step));
    CyclicCompose(pos, k, step, u.max);
  }

  /** The values of steps 0, 1, ..., max - 1. */
  ghost function StepValues(u: Params, pos: uint32): (s: seq<int>)
    requires ValidParams(u) && pos < u.max
  {
    seq(u.max, i requires 0 <= i < u.max => StepValue(u, pos, i))
  }

  ghost predicate SumsFit(u: Params, pos: uint32) {
    u.off + u.max <= WORD && pos + u.max <= WORD
  }

  /** Up to 2^31 no draw can make a sum wrap around. */
  lemma SmallMaxFits(u: Params, pos: uint32)
    requires ValidParams(u) && pos < u.max && u.max <= 0x8000_0000
    ensures SumsFit(u, pos)
  {
  }

  /** The step view enumerates [0, max) exactly once precisely when neither sum can wrap around. */
  lemma StepPermutation(u: Params, pos: uint32)
    requires ValidParams(u) && pos < u.max
    ensures IsPermutation(StepValues(u, pos), u.max) <==> SumsFit(u, pos)
  {
    var s := StepValues(u, pos);
    if pos + u.max <= WORD {
      forall i | 0 <= i < u.max
        ensures s[i] == Stream(u, pos, u.max)[i]
      {
        WrapFits(pos + i);
      }
      assert s == Stream(u, pos, u.max);
      StreamPermutation(u, pos);
    } else {
      ShiftCollides(pos, u.max);
      var x, y := u.max - pos, WORD - pos;
      assert s[x] == ValueAt(u, Shift(x, pos, u.max));
      assert s[y] == ValueAt(u, Shift(y, pos, u.max));
      assert s[x] == s[y];
      assert !Distinct(s);
    }
  }

  // ---------------------------------------------------------------- setting up

  ghost function Ascending(from: uint32, n: nat): (s: seq<uint32>)
    requires from + n <= WORD
  {
    seq(n, i requires 0 <= i < n => from + i)
  }

  ghost predicate TailOf(s: seq<uint32>, lo: int, hi: int) {
    Distinct(s) && forall i :: 0 <= i < |s| ==> lo <= s[i] < hi
  }

  /** Shuffling keeps the table a table of the numbers in [lo, hi). */
  lemma ShuffledKeeps(source: Source, seed: nat, k: nat, s: seq<uint32>, lo: int, hi: int)
    requires |s| < WORD && TailOf(s, lo, hi)
    ensures TailOf(Shuffled(source, seed, k, s, |s|), lo, hi)
  {
    hide Shuffled;
    var t := Shuffled(source, seed, k, s, |s|);
    ShuffledReorders(source, seed, k, s, |s|);
    DistinctReordered(s, t);
    forall i | 0 <= i < |t|
      ensures lo <= t[i] < hi
    {
      assert t[i] in multiset(t);
      assert t[i] in s;
    }
  }

  /** The set-up that `init` makes from the draws of a seed. */
  ghost function InitParams(source: Source, seed: nat, k: nat, max: uint32): Params
    requires max >= 1
  {
    var prime := MatchingPrimeUpTo(max);
    Params(max, prime, Draw(source, seed, k, 0, max - 1),
           Shuffled(source, seed, k + 2, Ascending(prime, max - prime), max - prime))
  }

  lemma InitParamsValid(source: Source, seed: nat, k: nat, max: uint32)
    requires max >= 1
    ensures ValidParams(InitParams(source, seed, k, max))
  {
    hide IsPrime;
    hide Shuffled;
    hide Draw;
    hide MatchingPrimeUpTo;
    var prime := MatchingPrimeUpTo(max);
    MatchingPrimeMeaning(max, max);
    ShuffledKeeps(source, seed, k + 2, Ascending(prime, max - prime), prime, max);
  }

  /** The first `max` calls after a set-up, from position `pos`, give every value of [0, max) exactly once. */
  ghost predicate CallsUnique(source: Source, seed: nat, k: nat, max: uint32, pos: nat)
    requires max >= 1
  {
    InitParamsValid(source, seed, k, max);
    IsPermutation(Stream(InitParams(source, seed, k, max), pos, max), max)
  }

  /** So do the steps after a set-up. */
  ghost predicate StepsUnique(source: Source, seed: nat, k: nat, max: uint32)
    requires max >= 1
  {
    InitParamsValid(source, seed, k, max);
    IsPermutation(StepValues(InitParams(source, seed, k, max), InitPos(source, seed, k, max)), max)
  }

  /** An engine whose draws are as large as they can be. */
  function Largest(max: uint32): Source
    requires max >= 1
  {
    (seed, k) => max - 1
  }

  /** The largest draw makes the offset and the position max - 1. */
  lemma LargestDraw(max: uint32)
    requires max >= 1
    ensures InitParams(Largest(max), 0, 0, max).off == max - 1
    ensures InitPos(Largest(max), 0, 0, max) == max - 1
  {
    SmallMod(max - 1, max);
  }

  /** A caller can count on unique numbers, whatever engine and seed, exactly up to max = 2^31. */
  lemma UniqueForAllSeeds(max: uint32)
    requires max >= 1
    ensures (forall source: Source, seed, k, pos :: CallsUnique(source, seed, k, max, pos)) <==> max <= 0x8000_0000
    ensures (forall source: Source, seed, k :: StepsUnique(source, seed, k, max)) <==> max <= 0x8000_0000
  {
    hide *;
    if max <= 0x8000_0000 {
      forall source: Source, seed, k, pos
        ensures CallsUnique(source, seed, k, max, pos)
      {
        UniqueWhenSmall(source, seed, k, max, pos);
      }
      forall source: Source, seed, k
        ensures StepsUnique(source, seed, k, max)
      {
        UniqueWhenSmall(source, seed, k, max, 0);
      }
    } else {
      RepeatsWhenLarge(max);
    }
  }

  lemma UniqueWhenSmall(source: Source, seed: nat, k: nat, max: uint32, pos: nat)
    requires 1 <= max <= 0x8000_0000
    ensures CallsUnique(source, seed, k, max, pos) && StepsUnique(source, seed, k, max)
  {
    var u := InitParams(source, seed, k, max);
    InitParamsValid(source, seed, k, max);
    StreamPermutation(u, pos);
    StepPermutation(u, InitPos(source, seed, k, max));
  }

  /** Above, the largest draws make a generator that repeats numbers. */
  lemma RepeatsWhenLarge(max: uint32)
    requires max > 0x8000_0000
    ensures !CallsUnique(Largest(max), 0, 0, max, 0) && !StepsUnique(Largest(max), 0, 0, max)
  {
    var u := InitParams(Largest(max), 0, 0, max);
    InitParamsValid(Largest(max), 0, 0, max);
    LargestDraw(max);
    StreamPermutation(u, 0);
    StepPermutation(u, InitPos(Largest(max), 0, 0, max));
  }

  ghost function InitPos(source: Source, seed: nat, k: nat, max: uint32): (r: uint32)
    requires max >= 1
    ensures r < max
  {
    Draw(source, seed, k + 1, 0, max - 1)
  }

  /** atomic_helpers.h: the position before the increment, and the next one around the cycle. */
  method PosIncrement(i: uint32, max: uint32) returns (ret: uint32, next: uint32)
    requires i < max
    ensures ret == i && next == if i + 1 == max then 0 else i + 1
    ensures next == Cyclic(i, 1, max)
  {
    CyclicStep(i, max);
    ret := i;
    next := i + 1;
    if next == max {
      next := 0;
    }
  }

  class Uni {
    var prime: uint32
    var max: uint32
    var intermediateOff: uint32
    var remPerm: array<uint32>
    var curPos: uint32

    ghost function Setup(): Params
      reads this, remPerm
    {
      Params(max, prime, intermediateOff, remPerm[..])
    }

    ghost predicate Valid()
      reads this, remPerm
    {
      ValidParams(Setup()) && curPos < max
    }

    constructor ()
      ensures fresh(remPerm)
    {
      remPerm := new uint32[0];
      prime, max, intermediateOff, curPos := 0, 0, 0, 0;
    }

    /** The generator becomes the one that the engine's seed and draws determine. */
    method Init(max: uint32, eng: Engine)
      requires max >= 1
      modifies this, eng`drawn
      ensures Valid() && fresh(remPerm)
      ensures Setup() == InitParams(eng.source, eng.seed, old(eng.drawn), max)
      ensures curPos == InitPos(eng.source, eng.seed, old(eng.drawn), max)
      ensures intermediateOff == Draw(eng.source, eng.seed, old(eng.drawn), 0, max - 1)
      ensures curPos == Draw(eng.source, eng.seed, old(eng.drawn) + 1, 0, max - 1)
      ensures this.max == max && prime <= max && LargestMatching(max, prime)
      ensures remPerm[..]
           == Shuffled(eng.source, eng.seed, old(eng.drawn) + 2, Ascending(prime, max - prime), max - prime)
      ensures eng.drawn == old(eng.drawn) + 2 + if prime == max then 0 else max - prime - 1
    {
      hide MatchingPrimeUpTo;
      hide LargestMatching;
      hide Shuffled;
      hide ValidParams;
      intermediateOff := eng.Between(0, max - 1);
      curPos := eng.Between(0, max - 1);
      prime := FindPreviousMatchingPrime(max);
      this.max := max;
      InitFinalPerm(eng);
      InitParamsValid(eng.source, eng.seed, old(eng.drawn), max);
    }

    /** Numbers from the prime on are covered by a shuffled table. */
    method InitFinalPerm(eng: Engine)
      requires prime <= max
      modifies this`remPerm, eng`drawn
      ensures fresh(remPerm)
      ensures remPerm[..] == Shuffled(eng.source, eng.seed, old(eng.drawn), Ascending(prime, max - prime), max - prime)
      ensures eng.drawn == old(eng.drawn) + if prime == max then 0 else max - prime - 1
    {
      hide Shuffled;
      hide Draw;
      var rem: uint32 := max - prime;
      remPerm := new uint32[rem];
      for i := 0 to rem
        invariant fresh(remPerm) && remPerm.Length == rem
        invariant forall k :: 0 <= k < i ==> remPerm[k] == prime + k
        invariant eng.drawn == old(eng.drawn)
      {
        remPerm[i] := prime + i;
      }
      assert remPerm[..] == Ascending(prime, rem);
      RandomShuffle(remPerm, eng);
    }

    method Max() returns (r: uint32)
      ensures r == max
    {
      r := max;
    }

    /** operator(): the value at the current position, which then advances around the cycle. */
    method Next() returns (r: uint32)
      requires Valid()
      modifies this`curPos
      ensures Valid() && Setup() == old(Setup())
      ensures r == ValueAt(Setup(), old(curPos)) < max
      ensures CallGives(Setup(), old(curPos), r)
      ensures curPos == Cyclic(old(curPos), 1, max)
    {
      hide ValidParams;
      hide Residue;
      hide Cyclic;
      ValueBelow(Setup(), curPos);
      ValueIsCall(Setup(), curPos);
      var pos;
      pos, curPos := PosIncrement(curPos, max);
      var x := ResidueOf(pos);
      ResidueBelow(Setup(), pos);
      r := ResidueOf(Wrap(x + intermediateOff) % max);
    }

    method GetStep(step: uint32) returns (r: uint32)
      requires Valid()
      ensures r == StepValue(Setup(), curPos, step)
      ensures CallGives(Setup(), ((curPos + step) % 0x1_0000_0000) % max, r)
    {
      hide ValidParams;
      hide Residue;
      var realStep: uint32 := Wrap(curPos + step) % max;
      var x := ResidueOf(realStep);
      ResidueBelow(Setup(), realStep);
      ValueIsCall(Setup(), realStep);
      r := ResidueOf(Wrap(x + intermediateOff) % max);
    }

    method ResidueOf(v: uint32) returns (r: uint32)
      requires ValidParams(Setup()) && v < max
      ensures r == Residue(Setup(), v)
      ensures MapsTo(Setup(), v, r)
    {
      ResidueMapsTo(Setup(), v);
      if v >= prime {
        return remPerm[v - prime];
      }
      var residue: uint32 := (v * v) % prime;
      if v <= prime / 2 {
        return residue;
      } else {
        return prime - residue;
      }
    }
  }
}
