/** list_intervals.h: widening an aggregated list to whole blocks of a power of two. */
module MaxPrefix {
  import opened Words
  import opened Arith
  import opened Intervals
  import opened Sweep
  import opened ListIntervalsModel

  lemma TwoToThe32()
    ensures Pow(2, 32) == WORD
  {
    assert Pow(2, 2) == 2 * Pow(2, 1) && Pow(2, 1) == 2 * Pow(2, 0);
    PowAdd(2, 2, 2);
    PowAdd(2, 4, 4);
    PowAdd(2, 8, 8);
    PowAdd(2, 16, 16);
  }

  lemma {:induction false} PowOfTwoGrows(k: nat)
    ensures Pow(2, k) >= k + 1
  {
    if k > 0 {
      PowOfTwoGrows(k - 1);
    }
  }

  /** The blocks of a prefix tile the 32-bit numbers, 2^prefix of them. */
  lemma BlocksTile(prefix: nat)
    requires 1 <= prefix <= 32
    ensures 1 <= Pow(2, 32 - prefix) < WORD && WORD % Pow(2, 32 - prefix) == 0
    ensures Pow(2, 32 - prefix) * Pow(2, prefix) == WORD
  {
    hide Pow;
    TwoToThe32();
    PowAdd(2, 32 - prefix, prefix);
    PowOfTwoGrows(prefix);
    PowOfTwoGrows(32 - prefix);
    Tiles(Pow(2, prefix), Pow(2, 32 - prefix), WORD);
  }

  lemma Tiles(a: int, b: int, n: int)
    requires a >= 2 && b >= 1 && n == b * a
    ensures b < n && n % b == 0
  {
    assert n == a * b;
    assert a * b == b + (a - 1) * b;
    MulAtLeast(a - 1, b);
    DivModUnique(n, a, 0, b);
  }

  /** The block size of a prefix length: the mask of the prefix plus one. Masking with it is taking the
      remainder, and setting its bits is going to the end of the block. */
  function BlockSize(prefix: nat): (b: uint32)
    requires 1 <= prefix <= 32
    ensures b >= 1 && WORD % b == 0
    ensures b * Pow(2, prefix) == WORD
  {
    BlocksTile(prefix);
    Pow(2, 32 - prefix)
  }

  function BlockStart(x: uint32, size: uint32): uint32
    requires size > 0
  {
    ModAtMost(x, size);
    x - x % size
  }

  /** One past the last value of the block of `x`, on 32 bits. */
  function BlockPast(x: uint32, size: uint32): uint32
    requires size > 0
  {
    Wrap(x - x % size + size)
  }

  predicate NeedsWidening(i: Interval, size: uint32, strict: bool)
    requires size > 0
  {
    i.Width() < size || (!strict && i.upper % size != 0)
  }

  function Widen(i: Interval, size: uint32, strict: bool): Interval
    requires size > 0
  {
    if NeedsWidening(i, size, strict) then Interval(BlockStart(i.lower, size), BlockPast(i.upper, size)) else i
  }

  /** The end of the block of a widened interval is a 32-bit number. */
  ghost predicate Fits(i: Interval, size: uint32, strict: bool)
    requires size > 0
  {
    NeedsWidening(i, size, strict) ==> i.upper - i.upper % size + size < WORD
  }

  lemma WidenBounds(i: Interval, size: uint32, strict: bool)
    requires size > 0 && i.lower < i.upper && Fits(i, size, strict)
    ensures var w := Widen(i, size, strict);
      && i.lower - size < w.lower <= i.lower && i.upper <= w.upper <= i.upper + size
      && w.upper - w.lower >= size
      && (!strict ==> w.upper % size == 0)
  {
    BlockFacts(i.lower, size);
    BlockFacts(i.upper, size);
    WrapFits(i.upper - i.lower);
    if NeedsWidening(i, size, strict) {
      var l, u := i.lower / size, i.upper / size;
      WrapFits((u + 1) * size);
      DivModUnique((u + 1) * size, u + 1, 0, size);
      OrderFromProducts(u + 1, l, size);
      assert (u + 1) * size - l * size == (u + 1 - l) * size;
      MulAtLeast(u + 1 - l, size);
    }
  }

  /** The interval stays when it has a block's width and, in the non-strict form, an aligned end; otherwise it
      becomes the whole blocks from that of its lower bound to that of its upper bound, whose end is 0 on
      32 bits when it is the end of the last block. */
  lemma WidenMeaning(i: Interval, size: uint32, strict: bool)
    requires size > 0 && WORD % size == 0 && i.lower < i.upper
    ensures var w := Widen(i, size, strict);
      if i.upper - i.lower >= size && (strict || i.upper % size == 0) then w == i
      else
        && w.lower % size == 0 && w.lower <= i.lower < w.lower + size
        && w.upper % size == 0
        && (if i.upper < WORD - size then i.upper < w.upper <= i.upper + size else w.upper == 0)
  {
    WrapFits(i.upper - i.lower);
    BlockFacts(i.lower, size);
    BlockFacts(i.upper, size);
    var l, u := i.lower / size, i.upper / size;
    DivModUnique(l * size, l, 0, size);
    if NeedsWidening(i, size, strict) {
      WidenedEnd(i.upper, size);
      if i.upper < WORD - size {
        WrapFits((u + 1) * size);
        DivModUnique((u + 1) * size, u + 1, 0, size);
      } else {
        LastBlock(i.upper, size);
        SmallMod(0, size);
      }
    }
  }

  lemma BlockFacts(x: uint32, size: uint32)
    requires size > 0
    ensures x - x % size == (x / size) * size <= x < (x / size + 1) * size
    ensures (x / size + 1) * size == (x / size) * size + size
  {
  }

  lemma OrderFromProducts(a: int, b: int, s: int)
    requires s > 0 && a * s > b * s
    ensures a > b
  {
    assert (b - a) * s == b * s - a * s;
    if b > a {
      MulAtLeast(b - a, s);
    }
  }

  /** Widening keeps an interval's values exactly when the end of its last block fits in 32 bits. */
  lemma WidenKeepsExactly(i: Interval, size: uint32, strict: bool)
    requires size > 0 && WORD % size == 0 && i.lower < i.upper
    ensures (forall v :: i.Contains(v) ==> Widen(i, size, strict).Contains(v)) <==> Fits(i, size, strict)
  {
    if Fits(i, size, strict) {
      WidenBounds(i, size, strict);
    } else {
      LastBlock(i.upper, size);
      assert Widen(i, size, strict).upper == 0;
      assert i.Contains(i.lower);
    }
  }

  lemma LastBlock(x: uint32, size: uint32)
    requires size > 0 && WORD % size == 0 && x - x % size + size >= WORD
    ensures BlockPast(x, size) == 0
  {
    var q, n := x / size, WORD / size;
    BlockFacts(x, size);
    assert n * size == WORD;
    assert (q + 2) * size == (q + 1) * size + size;
    OrderFromProducts(n, q, size);
    OrderFromProducts(q + 2, n, size);
  }

  // ---------------------------------------------------------------- lists

  ghost predicate IsWidened(w: seq<Interval>, s: seq<Interval>, size: uint32, strict: bool)
    requires size > 0
  {
    |w| == |s| && forall i :: 0 <= i < |s| ==> w[i] == Widen(s[i], size, strict)
  }

  /** Interval `k` stops where the last block of the number range starts, and an earlier widened interval
      fills the block before. */
  ghost predicate Rescued(s: seq<Interval>, k: nat, size: uint32, strict: bool)
    requires size > 0 && k < |s|
  {
    && s[k].upper == WORD - size
    && exists j :: 0 <= j < |s| && NeedsWidening(s[j], size, strict) && WORD - 2 * size <= s[j].upper < WORD - size
  }

  /** What a caller checks on the aggregated list: the end of each block widened to is a 32-bit number, but
      for an interval that is rescued. */
  ghost predicate NothingLost(s: seq<Interval>, size: uint32, strict: bool)
    requires size > 0
  {
    forall k :: 0 <= k < |s| && !Fits(s[k], size, strict) ==> Rescued(s, k, size, strict)
  }

  /** A multiple of the size below the end of the number range leaves room for a block. */
  lemma RoomForBlock(q: int, size: uint32)
    requires size > 0 && WORD % size == 0 && q * size < WORD
    ensures q * size <= WORD - size
  {
    var n := WORD / size;
    assert n * size == WORD;
    OrderFromProducts(n, q, size);
    if n - q > 0 {
      MulAtLeast(n - q, size);
    }
    assert (n - q) * size == n * size - q * size;
  }

  /** The end of a widened interval is past its upper bound by at most a block, and leaves the last block free. */
  lemma WidenedEnd(x: uint32, size: uint32)
    requires size > 0 && WORD % size == 0
    ensures x - x % size <= WORD - size
    ensures x - x % size + size < WORD <==> x < WORD - size
    ensures WORD - 2 * size <= x < WORD - size ==> x - x % size + size == WORD - size
    ensures x - x % size + size == WORD - size ==> WORD - 2 * size <= x < WORD - size
  {
    var q := x / size;
    BlockFacts(x, size);
    RoomForBlock(q, size);
    if (q + 1) * size < WORD {
      RoomForBlock(q + 1, size);
      if (q + 2) * size < WORD {
        RoomForBlock(q + 2, size);
      }
    }
    assert (q + 2) * size == (q + 1) * size + size;
    assert (q + 3) * size == (q + 2) * size + size;
  }

  /** A widened interval that does not fit holds nothing. */
  lemma InvertedIsEmpty(i: Interval, size: uint32, strict: bool)
    requires size > 0 && WORD % size == 0 && !Fits(i, size, strict)
    ensures Widen(i, size, strict) == Interval(BlockStart(i.lower, size), 0)
    ensures i.upper >= WORD - size
  {
    LastBlock(i.upper, size);
    WidenedEnd(i.upper, size);
  }

  /** Which interval of the aggregated list makes the widened list hold `v`. */
  lemma WidenedHolds(s: seq<Interval>, w: seq<Interval>, i: nat, v: int, size: uint32, strict: bool)
    requires size > 0 && WORD % size == 0 && Canonical(s) && IsWidened(w, s, size, strict)
    requires i < |w| && w[i].Contains(v)
    ensures Fits(s[i], size, strict)
    ensures NeedsWidening(s[i], size, strict) ==> v < w[i].upper == s[i].upper - s[i].upper % size + size <= WORD - size
    ensures !NeedsWidening(s[i], size, strict) ==> s[i].Contains(v)
  {
    if !Fits(s[i], size, strict) {
      InvertedIsEmpty(s[i], size, strict);
      assert false;
    }
    if NeedsWidening(s[i], size, strict) {
      var x := s[i].upper;
      WidenedEnd(x, size);
      BlockFacts(x, size);
      RoomForBlock(x / size + 1, size);
      WrapFits(x - x % size + size);
    }
  }

  /** An interval that neither fits nor is rescued loses its last value. */
  lemma LastIsLost(s: seq<Interval>, w: seq<Interval>, k: nat, size: uint32, strict: bool)
    requires size > 0 && WORD % size == 0 && Canonical(s) && IsWidened(w, s, size, strict)
    requires k < |s| && !Fits(s[k], size, strict) && !Rescued(s, k, size, strict)
    ensures Covers(s, s[k].upper - 1) && !Covers(w, s[k].upper - 1)
  {
    var v := s[k].upper - 1;
    assert s[k].Contains(v);
    InvertedIsEmpty(s[k], size, strict);
    forall i | 0 <= i < |w|
      ensures !w[i].Contains(v)
    {
      if w[i].Contains(v) {
        WidenedHolds(s, w, i, v, size, strict);
        if NeedsWidening(s[i], size, strict) {
          WidenedEnd(s[i].upper, size);
        }
        assert false;
      }
    }
  }

  /** In a canonical list the bounds tell the order. */
  lemma SeparatedOrder(s: seq<Interval>, j: nat, k: nat)
    requires Canonical(s) && j < |s| && k < |s| && j != k
    ensures s[j].upper < s[k].lower || s[k].upper < s[j].lower
    ensures s[j].upper != s[k].upper
  {
    assert if j < k then s[j].upper < s[k].lower else s[k].upper < s[j].lower;
  }

  /** A rescued interval is held by the widened interval that rescues it. */
  lemma RescuedIsHeld(s: seq<Interval>, w: seq<Interval>, k: nat, size: uint32, strict: bool) returns (j: nat)
    requires size > 0 && WORD % size == 0 && Canonical(s) && IsWidened(w, s, size, strict)
    requires k < |s| && Rescued(s, k, size, strict)
    ensures j < |w| && NeedsWidening(s[j], size, strict) && Fits(s[j], size, strict) && s[j].upper < s[k].lower
    ensures w[j].lower <= s[j].lower && w[j].upper == s[k].upper
  {
    j :| 0 <= j < |s| && NeedsWidening(s[j], size, strict) && WORD - 2 * size <= s[j].upper < WORD - size;
    WidenedEnd(s[j].upper, size);
    WidenBounds(s[j], size, strict);
    WrapFits(s[j].upper - s[j].upper % size + size);
    assert s[k].lower < s[k].upper && s[j].lower < s[j].upper;
    assert j != k;
    SeparatedOrder(s, j, k);
  }

  /** Widening a list keeps its values exactly under that condition. */
  lemma WidenedKeeps(s: seq<Interval>, w: seq<Interval>, size: uint32, strict: bool)
    requires size > 0 && WORD % size == 0 && Canonical(s) && IsWidened(w, s, size, strict)
    ensures (forall v :: Covers(s, v) ==> Covers(w, v)) <==> NothingLost(s, size, strict)
  {
    if NothingLost(s, size, strict) {
      forall v | Covers(s, v)
        ensures Covers(w, v)
      {
        var k :| 0 <= k < |s| && s[k].Contains(v);
        if Fits(s[k], size, strict) {
          WidenBounds(s[k], size, strict);
          assert w[k].Contains(v);
        } else {
          var j := RescuedIsHeld(s, w, k, size, strict);
          assert w[j].Contains(v);
        }
      }
    } else {
      var k :| 0 <= k < |s| && !Fits(s[k], size, strict) && !Rescued(s, k, size, strict);
      LastIsLost(s, w, k, size, strict);
    }
  }

  /** Under that condition at most one widened interval holds nothing, and the one that rescues it takes it in. */
  lemma WidenedAbsorbed(s: seq<Interval>, w: seq<Interval>, size: uint32, strict: bool)
    requires size > 0 && WORD % size == 0 && Canonical(s) && IsWidened(w, s, size, strict)
    requires NothingLost(s, size, strict)
    ensures Absorbed(multiset(w))
  {
    forall i | i in multiset(w) && i.lower >= i.upper
      ensures multiset(w)[i] == 1
      ensures exists p :: p in multiset(w) && TakesIn(p, i)
      ensures forall j :: j in multiset(w) && j.lower >= j.upper ==> j == i
    {
      assert i in w;
      var k :| 0 <= k < |w| && w[k] == i;
      forall l | 0 <= l < |w| && w[l].lower >= w[l].upper
        ensures l == k
      {
        OneInverted(s, w, k, l, size, strict);
      }
      OncePresent(w, k);
      var j := RescuedTakesIn(s, w, k, size, strict);
      assert w[j] in multiset(w) && TakesIn(w[j], i);
      forall j | j in multiset(w) && j.lower >= j.upper
        ensures j == i
      {
        assert j in w;
      }
    }
  }

  lemma OneInverted(s: seq<Interval>, w: seq<Interval>, k: nat, l: nat, size: uint32, strict: bool)
    requires size > 0 && WORD % size == 0 && Canonical(s) && IsWidened(w, s, size, strict)
    requires NothingLost(s, size, strict)
    requires k < |w| && l < |w| && w[k].lower >= w[k].upper && w[l].lower >= w[l].upper
    ensures k == l && !Fits(s[k], size, strict)
  {
    if Fits(s[k], size, strict) {
      WidenBounds(s[k], size, strict);
    }
    if Fits(s[l], size, strict) {
      WidenBounds(s[l], size, strict);
    }
    assert Rescued(s, k, size, strict) && Rescued(s, l, size, strict);
    if k != l {
      SeparatedOrder(s, k, l);
    }
  }

  lemma OncePresent(w: seq<Interval>, k: nat)
    requires k < |w| && forall l :: 0 <= l < |w| && w[l] == w[k] ==> l == k
    ensures multiset(w)[w[k]] == 1
  {
    assert w == w[..k] + [w[k]] + w[k + 1..];
    assert w[k] !in w[..k] && w[k] !in w[k + 1..];
  }

  lemma RescuedTakesIn(s: seq<Interval>, w: seq<Interval>, k: nat, size: uint32, strict: bool) returns (j: nat)
    requires size > 0 && WORD % size == 0 && Canonical(s) && IsWidened(w, s, size, strict)
    requires NothingLost(s, size, strict) && k < |w| && w[k].lower >= w[k].upper
    ensures j < |w| && TakesIn(w[j], w[k])
  {
    OneInverted(s, w, k, k, size, strict);
    j := RescuedIsHeld(s, w, k, size, strict);
    InvertedIsEmpty(s[k], size, strict);
    WidenBounds(s[j], size, strict);
    BlockStartOrder(s[j].lower, s[k].lower, size);
  }

  lemma BlockStartOrder(x: uint32, y: uint32, size: uint32)
    requires size > 0 && x <= y
    ensures BlockStart(x, size) <= BlockStart(y, size)
  {
    BlockFacts(x, size);
    BlockFacts(y, size);
    if x / size > y / size {
      OrderFromProducts(y / size + 1, x / size, size);
      assert false;
    }
  }

  /** The value after an interval of a canonical list is not covered. */
  lemma PastIsFree(out: seq<Interval>, k: nat)
    requires Canonical(out) && k < |out|
    ensures !Covers(out, out[k].upper)
  {
    forall l | 0 <= l < |out|
      ensures !out[l].Contains(out[k].upper)
    {
      assert l < k ==> out[l].upper < out[k].lower;
      assert k < l ==> out[k].upper < out[l].lower;
    }
  }

  /** A stretch of values that a canonical list covers lies inside one of its intervals. */
  lemma InsideOne(out: seq<Interval>, i: Interval) returns (k: nat)
    requires Canonical(out) && i.lower < i.upper && forall v :: i.Contains(v) ==> Covers(out, v)
    ensures k < |out| && out[k].lower <= i.lower && i.upper <= out[k].upper
  {
    assert i.Contains(i.lower);
    k :| 0 <= k < |out| && out[k].Contains(i.lower);
    PastIsFree(out, k);
    assert !i.Contains(out[k].upper);
  }

  /** The same interval of the list holds both ends of what meets it. */
  lemma OnlyOne(out: seq<Interval>, k: nat, l: nat, v: int)
    requires Canonical(out) && k < |out| && l < |out| && out[k].Contains(v) && out[l].Contains(v)
    ensures k == l
  {
  }

  /** What widening to blocks achieves for an aggregated list `s`. */
  ghost predicate BlockForm(out: seq<Interval>, s: seq<Interval>, size: uint32, strict: bool)
    requires size > 0
  {
    && Canonical(out)
    && (forall v :: Covers(s, v) ==> Covers(out, v))
    && (forall k :: 0 <= k < |out| ==> out[k].upper - out[k].lower >= size)
    && (!strict ==> forall k :: 0 <= k < |out| ==> out[k].upper % size == 0)
    && (forall v :: Covers(out, v) ==> NearSome(s, v, size))
  }

  ghost predicate NearSome(s: seq<Interval>, v: int, size: int) {
    exists u :: Covers(s, u) && -size <= v - u <= size
  }

  /** Widening adds only values near the list. */
  lemma WidenedIsNear(s: seq<Interval>, w: seq<Interval>, v: int, size: uint32, strict: bool)
    requires size > 0 && WORD % size == 0 && Canonical(s) && IsWidened(w, s, size, strict)
    requires Covers(w, v)
    ensures NearSome(s, v, size)
  {
    var i :| 0 <= i < |w| && w[i].Contains(v);
    WidenedHolds(s, w, i, v, size, strict);
    WidenBounds(s[i], size, strict);
    var u := if v < s[i].lower then s[i].lower else if v < s[i].upper then v else s[i].upper - 1;
    assert s[i].Contains(u);
    assert Covers(s, u);
  }

  /** Each interval of the result ends where some widened interval ends, and holds all of it. */
  lemma EndsWithWidened(out: seq<Interval>, w: seq<Interval>, k: nat) returns (i: nat)
    requires Canonical(out) && SameSet(out, w) && k < |out|
    ensures i < |w| && out[k].lower <= w[i].lower < w[i].upper == out[k].upper && w[i].Contains(out[k].upper - 1)
  {
    var last := out[k].upper - 1;
    assert out[k].Contains(last) && Covers(out, last);
    i :| 0 <= i < |w| && w[i].Contains(last);
    forall v | w[i].Contains(v)
      ensures Covers(out, v)
    {
      assert Covers(w, v);
    }
    var l := InsideOne(out, w[i]);
    OnlyOne(out, k, l, last);
  }

  /** Aggregating the widened list gives the block form, and keeps all values, exactly under the condition. */
  lemma BlocksFromWidened(out: seq<Interval>, w: seq<Interval>, s: seq<Interval>, size: uint32, strict: bool)
    requires size > 0 && WORD % size == 0 && Canonical(s) && IsWidened(w, s, size, strict)
    requires SameSet(out, w) && (Absorbed(multiset(w)) ==> Canonical(out))
    ensures BlockForm(out, s, size, strict) <==> NothingLost(s, size, strict)
    ensures (forall v :: Covers(s, v) ==> Covers(out, v)) <==> NothingLost(s, size, strict)
    ensures forall v :: Covers(out, v) ==> NearSome(s, v, size)
  {
    hide NearSome;
    WidenedKeeps(s, w, size, strict);
    forall v | Covers(out, v)
      ensures NearSome(s, v, size)
    {
      WidenedIsNear(s, w, v, size, strict);
    }
    if NothingLost(s, size, strict) {
      WidenedAbsorbed(s, w, size, strict);
      forall k | 0 <= k < |out|
        ensures out[k].upper - out[k].lower >= size && (!strict ==> out[k].upper % size == 0)
      {
        var i := EndsWithWidened(out, w, k);
        WidenedHolds(s, w, i, out[k].upper - 1, size, strict);
        WidenBounds(s[i], size, strict);
      }
    }
  }

  /** aggregate_max_prefix and its strict form, on the aggregated list `s`. Prefix 0 leaves everything as it
      is, unaggregated. The result is in block form, and holds all that `s` holds, exactly when nothing is lost;
      what it holds is never further than a block from `s`. */
  method AggregateMaxPrefix(li: ListIntervals, minPrefix: nat, strict: bool) returns (ghost s: seq<Interval>)
    requires minPrefix <= 32 && NoneEmpty(li.intervals) && NoneEmpty(li.excluded)
    modifies li`intervals, li`excluded
    ensures minPrefix == 0 ==> li.intervals == old(li.intervals) && li.excluded == old(li.excluded)
    ensures minPrefix > 0 ==> IsAggregate(s, old(li.intervals), old(li.excluded))
    ensures minPrefix > 0 ==> var size := BlockSize(minPrefix);
      && (BlockForm(li.intervals, s, size, strict) <==> NothingLost(s, size, strict))
      && ((forall v :: Covers(s, v) ==> Covers(li.intervals, v)) <==> NothingLost(s, size, strict))
      && (forall v :: Covers(li.intervals, v) <==> WidenedCovers(s, v, size, strict))
    ensures minPrefix > 0 ==> var size := BlockSize(minPrefix);
      && size * Pow(2, minPrefix) == WORD
      && (li.intervals == s <==> AllWide(s, size, strict))
  {
    s := li.intervals;
    if minPrefix == 0 {
      return;
    }
    hide Pow;
    hide Widen;
    hide Fits;
    hide BlockSize;
    hide NothingLost;
    hide BlockForm;
    hide Absorbed;
    hide WidenedCovers;
    hide AllWide;
    li.Aggregate();
    var size := BlockSize(minPrefix);
    s := li.intervals;
    WidenAll(li, size, strict);
    ghost var w := li.intervals;
    li.Aggregate();
    AggregatedWidened(li.intervals, w, s, size, strict);
    LeftAlone(li.intervals, w, s, size, strict);
  }

  /** The loop between the two aggregations, in place. */
  method WidenAll(li: ListIntervals, size: uint32, strict: bool)
    requires size > 0
    modifies li`intervals
    ensures |li.intervals| == |old(li.intervals)|
    ensures IsWidened(li.intervals, old(li.intervals), size, strict)
  {
    hide Widen;
    ghost var s := li.intervals;
    var orgSize := |li.intervals|;
    for i := 0 to orgSize
      invariant |li.intervals| == |s|
      invariant forall k :: 0 <= k < i ==> li.intervals[k] == Widen(s[k], size, strict)
      invariant forall k :: i <= k < |s| ==> li.intervals[k] == s[k]
    {
      var it := li.intervals[i];
      WidenRule(it, size, strict);
      if NeedsWidening(it, size, strict) {
        li.intervals := li.intervals[i := Interval(BlockStart(it.lower, size), BlockPast(it.upper, size))];
      }
    }
  }

  /** All intervals have a block's width and, in the non-strict form, an aligned end. */
  ghost predicate AllWide(s: seq<Interval>, size: uint32, strict: bool)
    requires size > 0
  {
    forall k :: 0 <= k < |s| ==> s[k].upper - s[k].lower >= size && (strict || s[k].upper % size == 0)
  }

  /** Only such a list stays as it is. */
  lemma LeftAlone(out: seq<Interval>, w: seq<Interval>, s: seq<Interval>, size: uint32, strict: bool)
    requires size > 0 && WORD % size == 0 && Canonical(s) && IsWidened(w, s, size, strict)
    requires SameSet(out, w) && (Absorbed(multiset(w)) ==> Canonical(out))
    ensures out == s <==> AllWide(s, size, strict)
  {
    if AllWide(s, size, strict) {
      forall k | 0 <= k < |s|
        ensures w[k] == s[k]
      {
        WidenMeaning(s[k], size, strict);
      }
      assert w == s;
      NoneEmptyAbsorbed(w);
      CanonicalUnique(out, s);
    } else if out == s {
      BlocksFromWidened(out, w, s, size, strict);
    }
  }

  /** `v` is in an interval of the list as widened; one whose last block does not end in 32 bits is inverted
      and holds nothing. */
  ghost predicate WidenedCovers(s: seq<Interval>, v: int, size: uint32, strict: bool)
    requires size > 0
  {
    exists k :: 0 <= k < |s| && Widen(s[k], size, strict).Contains(v)
  }

  lemma AggregatedWidened(out: seq<Interval>, w: seq<Interval>, s: seq<Interval>, size: uint32, strict: bool)
    requires size > 0 && WORD % size == 0 && Canonical(s) && IsWidened(w, s, size, strict)
    requires SameSet(out, w) && (Absorbed(multiset(w)) ==> Canonical(out))
    ensures BlockForm(out, s, size, strict) <==> NothingLost(s, size, strict)
    ensures (forall v :: Covers(s, v) ==> Covers(out, v)) <==> NothingLost(s, size, strict)
    ensures forall v :: Covers(out, v) <==> WidenedCovers(s, v, size, strict)
  {
    BlocksFromWidened(out, w, s, size, strict);
    forall v
      ensures Covers(w, v) <==> WidenedCovers(s, v, size, strict)
    {
    }
  }

  lemma WidenRule(i: Interval, size: uint32, strict: bool)
    requires size > 0
    ensures NeedsWidening(i, size, strict) ==>
              Widen(i, size, strict) == Interval(BlockStart(i.lower, size), BlockPast(i.upper, size))
    ensures !NeedsWidening(i, size, strict) ==> Widen(i, size, strict) == i
  {
  }

  /** A set that is lost as a whole: its last block ends with the number range, so widening inverts the one
      interval there is. */
  lemma WideningCanLose(s: seq<Interval>)
    requires s == [Interval(0x10, 0xFFFF_FFFF)]
    ensures IsAggregate(s, s, []) && !NothingLost(s, BlockSize(24), false)
    ensures forall v :: !WidenedCovers(s, v, BlockSize(24), false)
  {
    BlockSize24();
    assert 0xFFFF_FFFF == 0xFF_FFFF * 0x100 + 0xFF;
    DivModUnique(0xFFFF_FFFF, 0xFF_FFFF, 0xFF, 0x100);
    assert !Fits(s[0], 0x100, false);
    assert Widen(s[0], 0x100, false) == Interval(0, 0);
  }

  /** Fitting is not needed: here the last interval is inverted, and the one before it makes up for it. */
  lemma WideningCanBeRescued(s: seq<Interval>)
    requires s == [Interval(0xFFFF_FE01, 0xFFFF_FE02), Interval(0xFFFF_FEFE, 0xFFFF_FF00)]
    ensures !Fits(s[1], BlockSize(24), true) && NothingLost(s, BlockSize(24), true)
  {
    BlockSize24();
    assert s[0].Width() == 1;
    assert NeedsWidening(s[0], 0x100, true);
    assert 0xFFFF_FE02 == 0xFF_FFFE * 0x100 + 2 && 0xFFFF_FF00 == 0xFF_FFFF * 0x100;
    DivModUnique(0xFFFF_FE02, 0xFF_FFFE, 2, 0x100);
    DivModUnique(0xFFFF_FF00, 0xFF_FFFF, 0, 0x100);
    assert Rescued(s, 1, 0x100, true);
  }

  lemma BlockSize24()
    ensures BlockSize(24) == 0x100
  {
    assert Pow(2, 2) == 2 * Pow(2, 1) && Pow(2, 1) == 2 * Pow(2, 0);
    PowAdd(2, 2, 2);
    PowAdd(2, 4, 4);
  }
}
