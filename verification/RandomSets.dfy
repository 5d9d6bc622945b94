/** list_intervals.h: handing out all the elements of a list in random order, batch after batch. */
module RandomSets {
  import opened Words
  import opened Arith
  import opened Permutations
  import opened Intervals
  import opened ListIntervalsModel
  import opened RandEngine
  import opened UniModel
  import opened UprngModel

  /** The elements at the given ranks. */
  ghost function Picked(elems: seq<int>, ranks: seq<int>): (s: seq<int>)
    requires Below(ranks, |elems|)
  {
    seq(|ranks|, i requires 0 <= i < |ranks| => elems[ranks[i]])
  }

  ghost function Flatten(batches: seq<seq<uint32>>): (s: seq<int>) {
    if batches == [] then [] else Flatten(batches[..|batches| - 1]) + batches[|batches| - 1]
  }

  lemma FlattenAppend(batches: seq<seq<uint32>>, b: seq<uint32>)
    ensures Flatten(batches + [b]) == Flatten(batches) + b
  {
    assert (batches + [b])[..|batches|] == batches;
  }

  ghost predicate Ready(li: ListIntervals)
    reads li
  {
    && Sorted(li.intervals)
    && CacheOf(li.intervals, li.cacheEntrySize, li.indexCache)
    && 0 < |Elements(li.intervals)| < WORD
  }

  /** What a generator of the given set-up picks during its first `n` calls. */
  ghost function Delivered(elems: seq<int>, u: Params, pos: nat, n: nat): (s: seq<int>)
    requires ValidParams(u) && u.max == |elems|
  {
    StreamBelow(u, pos, n);
    Picked(elems, Stream(u, pos, n))
  }

  lemma DeliveredSplit(elems: seq<int>, u: Params, pos: nat, n: nat, k: nat)
    requires ValidParams(u) && u.max == |elems|
    ensures Delivered(elems, u, pos, n + k)
         == Delivered(elems, u, pos, n) + Delivered(elems, u, Cyclic(pos, n, u.max), k)
  {
    StreamSplit(u, pos, n, k);
    StreamBelow(u, pos, n + k);
    StreamBelow(u, pos, n);
    StreamBelow(u, Cyclic(pos, n, u.max), k);
  }

  /** The i-th element delivered is the one at the rank that the call at the i-th position gives. */
  lemma DeliveredRank(elems: seq<int>, u: Params, pos: nat, n: nat, i: nat)
    requires ValidParams(u) && u.max == |elems| && i < n
    ensures |Delivered(elems, u, pos, n)| == n
    ensures RankGiven(elems, u, (pos + i) % u.max, Delivered(elems, u, pos, n)[i])
  {
    hide CallGives;
    hide MapsTo;
    hide Residue;
    StreamBelow(u, pos, n);
    ValueIsCall(u, Cyclic(pos, i, u.max));
    var r := Stream(u, pos, n)[i];
    assert CallGives(u, (pos + i) % u.max, r);
  }

  /** `v` is the element at the rank that the generator's call gives at a position. */
  ghost predicate RankGiven(elems: seq<int>, u: Params, at: int, v: int)
    requires u.prime <= u.max && |u.tail| == u.max - u.prime && u.max > 0
  {
    exists r :: 0 <= r < |elems| && CallGives(u, at, r) && v == elems[r]
  }

  ghost predicate EachOnce(out: seq<int>, elems: seq<int>) {
    Distinct(out) && forall v :: v in out <==> v in elems
  }

  ghost predicate SomeOnce(out: seq<int>, elems: seq<int>) {
    Distinct(out) && forall v :: v in out ==> v in elems
  }

  /** A full delivery hands out every element exactly once, precisely when the generator's sums fit. */
  lemma DeliveredEachOnce(elems: seq<int>, u: Params, pos: nat)
    requires ValidParams(u) && u.max == |elems| && Distinct(elems)
    ensures EachOnce(Delivered(elems, u, pos, u.max), elems) <==> u.off + u.max <= WORD
  {
    var ranks := Stream(u, pos, u.max);
    var out := Delivered(elems, u, pos, u.max);
    StreamBelow(u, pos, u.max);
    StreamPermutation(u, pos);
    if u.off + u.max <= WORD {
      PermutedIsDistinct(elems, ranks, out);
    } else {
      StreamRepeats(u, pos);
      var i, j :| 0 <= i < j < |ranks| && ranks[i] == ranks[j];
      assert out[i] == out[j];
    }
  }

  /** A partial delivery never repeats an element. */
  lemma DeliveredDistinct(elems: seq<int>, u: Params, pos: nat, n: nat)
    requires ValidParams(u) && u.max == |elems| && Distinct(elems) && u.off + u.max <= WORD && n <= u.max
    ensures Distinct(Delivered(elems, u, pos, n))
    ensures forall v :: v in Delivered(elems, u, pos, n) ==> v in elems
  {
    DeliveredEachOnce(elems, u, pos);
    DeliveredSplit(elems, u, pos, n, u.max - n);
    var out, whole := Delivered(elems, u, pos, n), Delivered(elems, u, pos, u.max);
    assert whole[..n] == out;
    assert forall i :: 0 <= i < n ==> whole[i] == out[i];
    forall v | v in out
      ensures v in elems
    {
      var i :| 0 <= i < n && out[i] == v;
      assert whole[i] in whole;
    }
  }

  /** The other generator delivers every element exactly once as well, over any `max` calls in a row. */
  lemma RoundsDeliverEachOnce(elems: seq<int>, g: Rounds, pos: nat, outs: seq<int>, end: nat)
    requires ValidRounds(g) && g.max == |elems| && Distinct(elems)
    requires |outs| == g.max && CallsReturn(g, pos, outs, end)
    ensures Below(outs, |elems|) && EachOnce(Picked(elems, outs), elems)
  {
    CallsPermutation(g, pos, outs, end);
    PermutedIsDistinct(elems, outs, Picked(elems, outs));
  }

  /** The inner loop: `count` calls, each mapped to its element. */
  method Fill(li: ListIntervals, uprng: Uni, buf: array<uint32>, count: nat)
    requires Ready(li) && uprng.Valid() && uprng.max == |Elements(li.intervals)|
    requires count <= buf.Length && buf != uprng.remPerm
    modifies uprng`curPos, buf
    ensures uprng.Valid() && uprng.Setup() == old(uprng.Setup())
    ensures uprng.curPos == Cyclic(old(uprng.curPos), count, uprng.max)
    ensures buf[..count] == Delivered(Elements(li.intervals), uprng.Setup(), old(uprng.curPos), count)
  {
    ghost var u, pos := uprng.Setup(), uprng.curPos;
    ghost var elems := Elements(li.intervals);
    CyclicStep(pos, u.max);
    for j := 0 to count
      invariant uprng.Valid() && uprng.Setup() == u
      invariant uprng.curPos == Cyclic(pos, j, u.max)
      invariant buf[..j] == Delivered(elems, u, pos, j)
    {
      var r := uprng.Next();
      CyclicCompose(pos, j, 1, u.max);
      DeliveredSplit(elems, u, pos, j, 1);
      CyclicStep(Cyclic(pos, j, u.max), u.max);
      buf[j] := li.AtCached(r);
      assert buf[..j + 1] == buf[..j] + [buf[j]];
      assert Delivered(elems, u, Cyclic(pos, j, u.max), 1) == [elems[r]];
    }
  }

  /** The same loop over the other generator; a full round of calls fills in every element exactly once. */
  method FillRounds(li: ListIntervals, uprng: Uprng, buf: array<uint32>, count: nat) returns (ghost outs: seq<int>)
    requires Ready(li) && uprng.Valid() && uprng.max == |Elements(li.intervals)| && count <= buf.Length
    modifies uprng`curStep, buf
    ensures uprng.Valid() && uprng.Setup() == old(uprng.Setup()) && |outs| == count
    ensures CallsReturn(uprng.Setup(), old(uprng.curStep), outs, uprng.curStep)
    ensures Below(outs, uprng.max) && forall j :: 0 <= j < count ==> buf[j] == Elements(li.intervals)[outs[j]]
    ensures count == uprng.max ==> EachOnce(buf[..count], Elements(li.intervals))
  {
    hide Elements;
    hide Mixed;
    hide CallTakes;
    hide CallsReturn;
    hide Picked;
    hide ValidRounds;
    ghost var g, pos := uprng.Setup(), uprng.curStep;
    ghost var elems := Elements(li.intervals);
    outs := [];
    NoCalls(g, pos);
    PickedEmpty(elems);
    for j := 0 to count
      invariant uprng.Valid() && uprng.Setup() == g
      invariant |outs| == j && Below(outs, g.max) && CallsReturn(g, pos, outs, uprng.curStep)
      invariant buf[..j] == Picked(elems, outs)
    {
      ghost var at := uprng.curStep;
      var r, taken := uprng.Next();
      CallsExtend(g, pos, outs, at, taken);
      PickedAppend(elems, outs, r);
      outs := outs + [r];
      buf[j] := li.AtCached(r);
      assert buf[..j + 1] == buf[..j] + [buf[j]];
    }
    PickedAt(elems, outs, buf[..count]);
    if count == g.max {
      ElementsIncrease(li.intervals);
      IncreasingIsDistinct(elems);
      RoundsDeliverEachOnce(elems, g, pos, outs, uprng.curStep);
    }
  }

  lemma PickedAt(elems: seq<int>, ranks: seq<int>, picked: seq<int>)
    requires Below(ranks, |elems|) && picked == Picked(elems, ranks)
    ensures |picked| == |ranks| && forall j :: 0 <= j < |ranks| ==> picked[j] == elems[ranks[j]]
  {
  }

  lemma PickedEmpty(elems: seq<int>)
    ensures Picked(elems, []) == []
  {
  }

  lemma PickedAppend(elems: seq<int>, ranks: seq<int>, r: nat)
    requires Below(ranks, |elems|) && r < |elems|
    ensures Below(ranks + [r], |elems|) && Picked(elems, ranks + [r]) == Picked(elems, ranks) + [elems[r]]
  {
  }

  lemma NoCalls(g: Rounds, pos: nat)
    requires 0 <= pos < g.prime
    ensures CallsReturn(g, pos, [], pos)
  {
    SmallMod(pos, g.prime);
  }

  /** Where a delivery started: the generator's set-up and its first position. */
  datatype Origin = Origin(u: Params, pos: nat)

  ghost function OriginOf(li: ListIntervals, eng: Engine): Origin
    requires Ready(li)
    reads li, eng
  {
    var n := |Elements(li.intervals)|;
    Origin(InitParams(eng.source, eng.seed, eng.drawn, n), InitPos(eng.source, eng.seed, eng.drawn, n))
  }

  /** What the first `n` calls after setting the generator up pick. */
  ghost function Picks(li: ListIntervals, eng: Engine, n: nat): seq<int>
    requires Ready(li)
    reads li, eng
  {
    var o := OriginOf(li, eng);
    InitParamsValid(eng.source, eng.seed, eng.drawn, |Elements(li.intervals)|);
    Delivered(Elements(li.intervals), o.u, o.pos, n)
  }

  ghost predicate SumFits(o: Origin) {
    o.u.off + o.u.max <= WORD
  }

  /** The calls made so far since the origin picked exactly the batches handed out. */
  ghost predicate Running(li: ListIntervals, uprng: Uni, o: Origin, batches: seq<seq<uint32>>, i: nat)
    reads li, uprng, uprng.remPerm
  {
    && Ready(li) && uprng.Valid() && uprng.Setup() == o.u && o.u.max == |Elements(li.intervals)|
    && uprng.curPos == Cyclic(o.pos, i, o.u.max)
    && Flatten(batches) == Delivered(Elements(li.intervals), o.u, o.pos, i) && |Flatten(batches)| == i
  }

  lemma PicksFrom(li: ListIntervals, eng: Engine)
    requires Ready(li)
    ensures var o := OriginOf(li, eng);
            ValidParams(o.u) && o.u.max == |Elements(li.intervals)|
            && forall n: nat :: Picks(li, eng, n) == Delivered(Elements(li.intervals), o.u, o.pos, n)
  {
    InitParamsValid(eng.source, eng.seed, eng.drawn, |Elements(li.intervals)|);
  }

  method Start(li: ListIntervals, eng: Engine) returns (uprng: Uni, all: uint32)
    requires Ready(li)
    modifies eng`drawn
    ensures fresh(uprng) && fresh(uprng.remPerm) && all == |Elements(li.intervals)|
    ensures Running(li, uprng, old(OriginOf(li, eng)), [], 0)
  {
    all := li.Size();
    uprng := new Uni();
    uprng.Init(all, eng);
    CyclicStep(uprng.curPos, all);
  }

  /** One batch: `count` calls fill the buffer, which is handed to the callback. */
  method Batch(li: ListIntervals, uprng: Uni, buf: array<uint32>, count: nat, batches: seq<seq<uint32>>,
               ghost o: Origin, ghost i: nat) returns (batches': seq<seq<uint32>>)
    requires Running(li, uprng, o, batches, i)
    requires count <= buf.Length && buf != uprng.remPerm
    modifies uprng`curPos, buf
    ensures Running(li, uprng, o, batches', i + count)
    ensures |batches'| == |batches| + 1 && batches' == batches + [batches'[|batches|]]
    ensures |batches'[|batches|]| == count
  {
    Fill(li, uprng, buf, count);
    DeliveredSplit(Elements(li.intervals), o.u, o.pos, i, count);
    CyclicCompose(o.pos, i, count, o.u.max);
    FlattenAppend(batches, buf[..count]);
    batches' := batches + [buf[..count]];
  }

  /** What a delivery amounts to. */
  lemma Finished(li: ListIntervals, uprng: Uni, o: Origin, batches: seq<seq<uint32>>, i: nat)
    requires Running(li, uprng, o, batches, i)
    ensures |Flatten(batches)| == i && o.u.max == |Elements(li.intervals)| && ValidParams(o.u)
    ensures Flatten(batches) == Delivered(Elements(li.intervals), o.u, o.pos, i)
    ensures i == |Elements(li.intervals)| ==> (SumFits(o) <==> EachOnce(Flatten(batches), Elements(li.intervals)))
    ensures i <= |Elements(li.intervals)| && SumFits(o) ==> SomeOnce(Flatten(batches), Elements(li.intervals))
  {
    var elems := Elements(li.intervals);
    ElementsIncrease(li.intervals);
    IncreasingIsDistinct(elems);
    DeliveredEachOnce(elems, o.u, o.pos);
    if i <= |elems| && SumFits(o) {
      DeliveredDistinct(elems, o.u, o.pos, i);
    }
  }

  // ---------------------------------------------------------------- batches of one size

  /** The number of elements that fill whole batches. */
  function FullPart(all: uint32, div: uint32): uint32
    requires div > 0
  {
    (all / div) * div
  }

  ghost predicate AfterBatches(k: nat, i: nat, all: nat, div: nat)
    requires div > 0
  {
    i == k * div && k <= all / div
  }

  lemma NextBatch(k: nat, i: nat, all: uint32, div: uint32)
    requires div > 0 && AfterBatches(k, i, all, div) && i < FullPart(all, div)
    ensures AfterBatches(k + 1, i + div, all, div) && i + div <= FullPart(all, div)
  {
    var left := all / div - k;
    assert left * div == FullPart(all, div) - i;
    if left > 0 {
      MulAtLeast(left, div);
    }
  }

  lemma LastBatch(k: nat, i: nat, all: uint32, div: uint32)
    requires div > 0 && AfterBatches(k, i, all, div) && i >= FullPart(all, div)
    ensures k == all / div && i == FullPart(all, div) == all - all % div
  {
    assert (all / div - k) * div == FullPart(all, div) - i;
    if k < all / div {
      MulAtLeast(all / div - k, div);
    }
  }

  /** Whole batches first, then one with the remainder. */
  ghost predicate RightShape(batches: seq<seq<uint32>>, n: nat, d: nat)
    requires d > 0
  {
    && |batches| == n / d + (if n % d == 0 then 0 else 1)
    && (forall k :: 0 <= k < |batches| ==> |batches[k]| == if k < n / d then d else n % d)
  }

  lemma ShapeWhole(batches: seq<seq<uint32>>, n: nat, d: nat)
    requires d > 0 && |batches| == n / d && AllSized(batches, d)
    ensures n % d == 0 ==> RightShape(batches, n, d)
    ensures forall b: seq<uint32> :: 0 < |b| == n % d ==> RightShape(batches + [b], n, d)
  {
  }

  /** The batches of a delivery with a fixed size: whole ones, then the remainder. */
  method SizedBatches(li: ListIntervals, uprng: Uni, ghost o: Origin, div: uint32, all: uint32)
    returns (batches: seq<seq<uint32>>)
    requires Running(li, uprng, o, [], 0) && all == |Elements(li.intervals)| && div > 0
    modifies uprng`curPos
    ensures RightShape(batches, all, div)
    ensures o.u.max == |Elements(li.intervals)| && ValidParams(o.u)
    ensures Flatten(batches) == Delivered(Elements(li.intervals), o.u, o.pos, all)
    ensures SumFits(o) <==> EachOnce(Flatten(batches), Elements(li.intervals))
  {
    hide *;
    var buf := new uint32[div];
    batches := [];
    var full: uint32 := FullPart(all, div);
    var i := 0;
    NoBatches(div, all);
    while i < full
      invariant fresh(buf) && buf != uprng.remPerm
      invariant AfterBatches(|batches|, i, all, div)
      invariant Running(li, uprng, o, batches, i)
      invariant AllSized(batches, div)
      decreases full - i
    {
      NextBatch(|batches|, i, all, div);
      AppendSized(batches, div);
      batches := Batch(li, uprng, buf, div, batches, o, i);
      i := i + div;
    }
    LastBatch(|batches|, i, all, div);
    ShapeWhole(batches, all, div);
    var rem: uint32 := all - full;
    if rem > 0 {
      batches := Batch(li, uprng, buf, rem, batches, o, i);
      i := i + rem;
    }
    Finished(li, uprng, o, batches, i);
  }

  /** random_sets with a fixed batch size. Every batch handed to the callback is recorded, in order. Together
      they hold every element exactly once, precisely when the generator's sums fit. */
  method FixedSets(li: ListIntervals, sizeDiv: uint32, eng: Engine) returns (batches: seq<seq<uint32>>)
    requires Ready(li)
    modifies eng`drawn
    ensures old(SumFits(OriginOf(li, eng))) <==> EachOnce(Flatten(batches), Elements(li.intervals))
    ensures RightShape(batches, |Elements(li.intervals)|, if sizeDiv == 0 then 1 else sizeDiv)
    ensures Flatten(batches) == old(Picks(li, eng, |Elements(li.intervals)|))
  {
    PicksFrom(li, eng);
    hide *;
    var div: uint32 := if sizeDiv <= 0 then 1 else sizeDiv;
    ghost var o := OriginOf(li, eng);
    var uprng, all := Start(li, eng);
    batches := SizedBatches(li, uprng, o, div, all);
  }

  ghost predicate AllSized(batches: seq<seq<uint32>>, d: nat) {
    forall k :: 0 <= k < |batches| ==> |batches[k]| == d
  }

  lemma AppendSized(batches: seq<seq<uint32>>, d: nat)
    requires AllSized(batches, d)
    ensures forall b: seq<uint32> :: |b| == d ==> AllSized(batches + [b], d)
  {
  }

  lemma NoBatches(div: nat, all: nat)
    requires div > 0
    ensures AfterBatches(0, 0, all, div) && AllSized([], div)
  {
  }

  // ---------------------------------------------------------------- batches of asked sizes

  function Least(a: nat, b: nat): (r: nat)
    ensures r <= a && r <= b && (r == a || r == b)
  {
    if a <= b then a else b
  }

  /** Each batch has the size asked for, or what is left when that is less. */
  ghost predicate SizesAsked(batches: seq<seq<uint32>>, fsize: nat -> nat, total: int) {
    forall k :: 0 <= k < |batches| ==> BatchAsked(batches, fsize, total, k)
  }

  ghost predicate BatchAsked(batches: seq<seq<uint32>>, fsize: nat -> nat, total: int, k: nat)
    requires k < |batches|
  {
    |Flatten(batches[..k])| <= total && |batches[k]| == Least(fsize(k), total - |Flatten(batches[..k])|)
  }

  ghost predicate Within(batches: seq<seq<uint32>>, sizeMax: nat) {
    forall k :: 0 <= k < |batches| ==> 0 < |batches[k]| <= sizeMax
  }

  /** How far a delivery with asked sizes has come. */
  ghost predicate Progress(batches: seq<seq<uint32>>, fsize: nat -> nat, sizeMax: nat, all: nat, left: nat) {
    left <= all && |Flatten(batches)| == all - left && SizesAsked(batches, fsize, all) && Within(batches, sizeMax)
  }

  lemma ProgressStep(was: seq<seq<uint32>>, b: seq<uint32>, fsize: nat -> nat, sizeMax: nat, all: nat, left: nat)
    requires Progress(was, fsize, sizeMax, all, left)
    requires |b| == Least(fsize(|was|), left) && 0 < |b| <= sizeMax
    ensures Progress(was + [b], fsize, sizeMax, all, left - |b|)
  {
    var more := was + [b];
    FlattenAppend(was, b);
    forall k | 0 <= k < |more|
      ensures BatchAsked(more, fsize, all, k)
    {
      if k < |was| {
        assert BatchAsked(was, fsize, all, k);
        assert more[..k] == was[..k];
      } else {
        assert more[..k] == was;
      }
    }
  }

  /** Why a delivery with asked sizes ends: everything is handed out, or the next size is unusable. */
  ghost predicate Stopped(fsize: nat -> nat, sizeMax: nat, calls: nat, left: nat) {
    left == 0 || Least(fsize(calls), left) > sizeMax || Least(fsize(calls), left) == 0
  }

  method AskedBatches(li: ListIntervals, uprng: Uni, ghost o: Origin, fsize: nat -> nat, sizeMax: nat, all: uint32)
    returns (batches: seq<seq<uint32>>)
    requires Running(li, uprng, o, [], 0) && all == |Elements(li.intervals)|
    modifies uprng`curPos
    ensures exists left :: Progress(batches, fsize, sizeMax, all, left) && Stopped(fsize, sizeMax, |batches|, left)
    ensures SumFits(o) ==> SomeOnce(Flatten(batches), Elements(li.intervals))
    ensures SumFits(o) && |Flatten(batches)| == all ==> EachOnce(Flatten(batches), Elements(li.intervals))
    ensures o.u.max == |Elements(li.intervals)| && ValidParams(o.u)
    ensures Flatten(batches) == Delivered(Elements(li.intervals), o.u, o.pos, |Flatten(batches)|)
  {
    hide *;
    NothingYet(fsize, sizeMax, all, []);
    var sizeRem: nat := all;
    var buf := new uint32[sizeMax];
    batches := [];
    while sizeRem > 0
      invariant fresh(buf) && buf != uprng.remPerm
      invariant Running(li, uprng, o, batches, all - sizeRem)
      invariant Progress(batches, fsize, sizeMax, all, sizeRem)
      decreases sizeRem
    {
      var size := Least(fsize(|batches|), sizeRem);
      if size > sizeMax || size == 0 {
        break;
      }
      ghost var was := batches;
      batches := Batch(li, uprng, buf, size, batches, o, all - sizeRem);
      ProgressStep(was, batches[|was|], fsize, sizeMax, all, sizeRem);
      sizeRem := sizeRem - size;
    }
    StoppedAt(fsize, sizeMax, |batches|, sizeRem);
    Finished(li, uprng, o, batches, all - sizeRem);
  }

  /** random_sets with sizes asked from a callback: only distinct elements, and all of them unless a size is
      0 or above the maximum. */
  method VariableSets(li: ListIntervals, fsize: nat -> nat, sizeMax: nat, eng: Engine)
    returns (batches: seq<seq<uint32>>)
    requires Ready(li)
    modifies eng`drawn
    ensures |Flatten(batches)| <= |Elements(li.intervals)|
    ensures Stopped(fsize, sizeMax, |batches|, |Elements(li.intervals)| - |Flatten(batches)|)
    ensures SizesAsked(batches, fsize, |Elements(li.intervals)|)
    ensures Within(batches, sizeMax)
    ensures old(SumFits(OriginOf(li, eng))) ==> SomeOnce(Flatten(batches), Elements(li.intervals))
    ensures Flatten(batches) == old(Picks(li, eng, |Flatten(batches)|))
    ensures FullOrLast(batches, fsize, |Elements(li.intervals)|)
    ensures AllUsable(fsize, sizeMax) ==> |Flatten(batches)| == |Elements(li.intervals)|
    ensures AllUsable(fsize, sizeMax) && old(SumFits(OriginOf(li, eng))) ==>
      EachOnce(Flatten(batches), Elements(li.intervals))
  {
    PicksFrom(li, eng);
    hide *;
    if sizeMax == 0 {
      NothingAsked(li, fsize, OriginOf(li, eng));
      return [];
    }
    ghost var o := OriginOf(li, eng);
    var uprng, sizeRem := Start(li, eng);
    ghost var all := sizeRem;
    batches := AskedBatches(li, uprng, o, fsize, sizeMax, sizeRem);
    ProgressMeans(batches, fsize, sizeMax, all);
    AskedMeans(batches, fsize, sizeMax, all);
  }

  /** A maximum of 0 stops everything before it starts. */
  lemma NothingAsked(li: ListIntervals, fsize: nat -> nat, o: Origin)
    requires Ready(li) && ValidParams(o.u) && o.u.max == |Elements(li.intervals)|
    ensures !AllUsable(fsize, 0) && FullOrLast([], fsize, |Elements(li.intervals)|) && |Flatten([])| == 0
    ensures Stopped(fsize, 0, 0, |Elements(li.intervals)|) && SizesAsked([], fsize, |Elements(li.intervals)|)
    ensures Within([], 0) && SomeOnce([], Elements(li.intervals)) && Flatten([]) == []
    ensures Delivered(Elements(li.intervals), o.u, o.pos, 0) == []
  {
    assert !(0 < fsize(0) <= 0);
  }

  /** Every batch is as big as asked for, or is smaller and completes the set. */
  ghost predicate FullOrLast(batches: seq<seq<uint32>>, fsize: nat -> nat, all: nat) {
    forall k :: 0 <= k < |batches| ==>
      |batches[k]| == fsize(k) || (|batches[k]| < fsize(k) && |Flatten(batches[..k + 1])| == all)
  }

  /** No size asked for stops the delivery. */
  ghost predicate AllUsable(fsize: nat -> nat, sizeMax: nat) {
    forall k :: 0 < fsize(k) <= sizeMax
  }

  /** The sizes without the minimum, and when nothing is left behind. */
  lemma AskedMeans(batches: seq<seq<uint32>>, fsize: nat -> nat, sizeMax: nat, all: nat)
    requires SizesAsked(batches, fsize, all) && |Flatten(batches)| <= all
    requires Stopped(fsize, sizeMax, |batches|, all - |Flatten(batches)|)
    ensures FullOrLast(batches, fsize, all)
    ensures AllUsable(fsize, sizeMax) ==> |Flatten(batches)| == all
  {
    forall k | 0 <= k < |batches|
      ensures |batches[k]| == fsize(k) || (|batches[k]| < fsize(k) && |Flatten(batches[..k + 1])| == all)
    {
      assert BatchAsked(batches, fsize, all, k);
      FlattenAppend(batches[..k], batches[k]);
      assert batches[..k + 1] == batches[..k] + [batches[k]];
    }
  }

  lemma StoppedAt(fsize: nat -> nat, sizeMax: nat, calls: nat, left: nat)
    requires left == 0 || Least(fsize(calls), left) > sizeMax || Least(fsize(calls), left) == 0
    ensures Stopped(fsize, sizeMax, calls, left)
  {
  }

  lemma ProgressMeans(batches: seq<seq<uint32>>, fsize: nat -> nat, sizeMax: nat, all: nat)
    requires exists left :: Progress(batches, fsize, sizeMax, all, left) && Stopped(fsize, sizeMax, |batches|, left)
    ensures |Flatten(batches)| <= all && Stopped(fsize, sizeMax, |batches|, all - |Flatten(batches)|)
    ensures SizesAsked(batches, fsize, all) && Within(batches, sizeMax)
  {
  }

  lemma NothingYet(fsize: nat -> nat, sizeMax: nat, total: nat, elems: seq<int>)
    ensures Progress([], fsize, sizeMax, total, total) && SomeOnce([], elems)
  {
  }
}
