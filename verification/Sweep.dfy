/** list_intervals.h: the sweeps that merge a container and subtract another one from it. */
module Sweep {
  import opened Intervals
  import opened Sorting

  const BY_LOWER: Interval -> int := (i: Interval) => i.lower

  /** `out` denotes what `ints` denotes without what `rem` denotes. */
  ghost predicate Minus(out: seq<Interval>, ints: seq<Interval>, rem: seq<Interval>) {
    forall v :: Covers(out, v) <==> Covers(ints, v) && !Covers(rem, v)
  }

  /** Sorting by lower bound hands over an ordered list with the same elements. */
  lemma SortedInput(sorted: seq<Interval>, ints: seq<Interval>)
    requires multiset(sorted) == multiset(ints) && |sorted| == |ints|
    ensures SameSet(sorted, ints)
    ensures AllOrdered(ints) ==> AllOrdered(sorted)
    ensures NoneEmpty(ints) ==> NoneEmpty(sorted)
  {
    SameMembers(sorted, ints);
    CoversSameMembers(sorted, ints);
    forall i | 0 <= i < |sorted|
      ensures AllOrdered(ints) ==> sorted[i].Ordered()
      ensures NoneEmpty(ints) ==> sorted[i].lower < sorted[i].upper
    {
      assert sorted[i] in ints;
    }
  }

  lemma CoversStep(s: seq<Interval>, k: nat, v: int)
    requires k < |s|
    ensures Covers(s[..k + 1], v) <==> Covers(s[..k], v) || s[k].Contains(v)
  {
    assert s[..k + 1] == s[..k] + [s[k]];
    CoversConcat(s[..k], [s[k]], v);
    CoversOne(s[k], v);
  }

  lemma CoversAppend(s: seq<Interval>, i: Interval, v: int)
    ensures Covers(s + [i], v) <==> Covers(s, v) || i.Contains(v)
  {
    CoversConcat(s, [i], v);
    CoversOne(i, v);
  }

  // ---------------------------------------------------------------- merging

  /** What the merging loop has established after `k` intervals: the finished blocks and the open one. The
      set is right even with inverted intervals, which hold nothing. */
  ghost predicate Merged(sorted: seq<Interval>, k: nat, blocks: seq<Interval>, cur: Interval) {
    && k <= |sorted|
    && (forall v :: Covers(blocks + [cur], v) <==> Covers(sorted[..k], v))
    && (forall j :: k <= j < |sorted| ==> cur.lower <= sorted[j].lower)
    && (AllOrdered(sorted) ==> Separated(blocks + [cur]))
    && (NoneEmpty(sorted) ==> NoneEmpty(blocks + [cur]))
  }

  lemma MergeStart(sorted: seq<Interval>)
    requires sorted != [] && SortedBy(sorted, BY_LOWER)
    ensures Merged(sorted, 1, [], sorted[0])
  {
    assert sorted[..1] == [] + [sorted[0]];
    forall j | 1 <= j < |sorted|
      ensures sorted[0].lower <= sorted[j].lower
    {
      assert BY_LOWER(sorted[0]) <= BY_LOWER(sorted[j]);
    }
  }

  /** In the order of the sweep, overlapping makes the hull the union, inverted intervals included. */
  lemma SweptHull(cur: Interval, next: Interval, v: int)
    requires cur.lower <= next.lower && Overlap(cur, next)
    ensures Hull(cur, next).Contains(v) <==> cur.Contains(v) || next.Contains(v)
  {
  }

  lemma MergeHull(sorted: seq<Interval>, k: nat, blocks: seq<Interval>, cur: Interval)
    requires Merged(sorted, k, blocks, cur) && k < |sorted|
    requires Overlap(cur, sorted[k])
    ensures Merged(sorted, k + 1, blocks, Hull(cur, sorted[k]))
  {
    var next := Hull(cur, sorted[k]);
    assert (blocks + [cur])[|blocks|] == cur;
    forall v
      ensures Covers(blocks + [next], v) <==> Covers(sorted[..k + 1], v)
    {
      CoversStep(sorted, k, v);
      CoversAppend(blocks, cur, v);
      CoversAppend(blocks, next, v);
      SweptHull(cur, sorted[k], v);
    }
    assert next.lower == cur.lower;
    assert forall i :: 0 <= i < |blocks| ==> (blocks + [cur])[i] == blocks[i];
  }

  lemma MergeNext(sorted: seq<Interval>, k: nat, blocks: seq<Interval>, cur: Interval)
    requires SortedBy(sorted, BY_LOWER) && Merged(sorted, k, blocks, cur) && k < |sorted|
    requires !Overlap(cur, sorted[k])
    ensures cur.upper < sorted[k].lower
    ensures Merged(sorted, k + 1, blocks + [cur], sorted[k])
  {
    var all := blocks + [cur];
    assert all[|blocks|] == cur;
    forall v
      ensures Covers(all + [sorted[k]], v) <==> Covers(sorted[..k + 1], v)
    {
      CoversStep(sorted, k, v);
      CoversAppend(all, sorted[k], v);
    }
    forall j | k + 1 <= j < |sorted|
      ensures sorted[k].lower <= sorted[j].lower
    {
      assert BY_LOWER(sorted[k]) <= BY_LOWER(sorted[j]);
    }
    if AllOrdered(sorted) {
      MergeGap(all, sorted[k]);
    }
  }

  lemma MergeGap(all: seq<Interval>, next: Interval)
    requires Separated(all) && all != [] && next.Ordered() && all[|all| - 1].upper < next.lower
    ensures Separated(all + [next])
  {
    forall i, j | 0 <= i < j < |all + [next]|
      ensures (all + [next])[i].upper < (all + [next])[j].lower
    {
      if j == |all| && i < |all| - 1 {
        assert all[i].upper < all[|all| - 1].lower;
      }
    }
  }

  // ---------------------------------------------------------------- taking in what holds nothing

  /** The non-empty interval `p` starts no later than `i` and reaches the start of `i`. */
  predicate TakesIn(p: Interval, i: Interval) {
    p.lower < p.upper && p.lower <= i.lower <= p.upper
  }

  /** Intervals that hold nothing start at different bounds, each within reach of a non-empty one. */
  ghost predicate Absorbed(m: multiset<Interval>) {
    forall i :: i in m && i.lower >= i.upper ==>
                  && m[i] == 1
                  && (exists p :: p in m && TakesIn(p, i))
                  && (forall j :: j in m && j.lower >= j.upper && j.lower == i.lower ==> j == i)
  }

  lemma NoneEmptyAbsorbed(s: seq<Interval>)
    requires NoneEmpty(s)
    ensures Absorbed(multiset(s))
  {
    forall i | i in multiset(s)
      ensures i.lower < i.upper
    {
      assert i in s;
    }
  }

  /** The same, by positions in a list. */
  ghost predicate AbsorbedAt(s: seq<Interval>, i: nat)
    requires i < |s|
  {
    s[i].lower >= s[i].upper ==>
      && (exists p :: 0 <= p < |s| && TakesIn(s[p], s[i]))
      && (forall j :: 0 <= j < |s| && j != i && s[j].lower >= s[j].upper ==> s[j].lower != s[i].lower)
  }

  lemma AbsorbedByPosition(s: seq<Interval>, i: nat)
    requires Absorbed(multiset(s)) && i < |s|
    ensures AbsorbedAt(s, i)
  {
    if s[i].lower >= s[i].upper {
      assert s[i] in multiset(s);
      var p :| p in multiset(s) && TakesIn(p, s[i]);
      assert p in s;
      forall j | 0 <= j < |s| && j != i && s[j].lower >= s[j].upper
        ensures s[j].lower != s[i].lower
      {
        assert s[j] in multiset(s);
        if s[j] == s[i] {
          TwoPositions(s, if i < j then i else j, if i < j then j else i);
        }
      }
    }
  }

  lemma TwoPositions<T>(s: seq<T>, i: nat, j: nat)
    requires i < j < |s| && s[i] == s[j]
    ensures multiset(s)[s[i]] >= 2
  {
    assert s == s[..i] + [s[i]] + s[i + 1..j] + [s[j]] + s[j + 1..];
  }

  /** What the loop keeps on a list that absorbs: finished blocks are non-empty and separated, no interval
      seen reaches beyond the open one, and an open one that holds nothing still awaits what takes it in. */
  ghost predicate Absorbing(sorted: seq<Interval>, k: nat, blocks: seq<Interval>, cur: Interval) {
    && 0 < k <= |sorted|
    && Canonical(blocks) && (forall i :: 0 <= i < |blocks| ==> blocks[i].upper < cur.lower)
    && (forall p :: 0 <= p < k && sorted[p].lower < sorted[p].upper ==>
                      sorted[p].upper <= cur.upper || sorted[p].upper < cur.lower)
    && (cur.lower < cur.upper ||
        (cur == sorted[k - 1] && forall p :: 0 <= p < k ==> !TakesIn(sorted[p], cur)))
  }

  lemma AbsorbHull(sorted: seq<Interval>, k: nat, blocks: seq<Interval>, cur: Interval)
    requires SortedBy(sorted, BY_LOWER) && k < |sorted| && cur.lower <= sorted[k].lower
    requires Absorbing(sorted, k, blocks, cur) && Overlap(cur, sorted[k])
    requires AbsorbedAt(sorted, k)
    ensures Absorbing(sorted, k + 1, blocks, Hull(cur, sorted[k]))
  {
    assert cur.lower < cur.upper || sorted[k].lower < sorted[k].upper;
  }

  /** An open block that holds nothing overlaps what comes next: the one that takes it in starts where it does. */
  lemma OpenOverlapsNext(sorted: seq<Interval>, k: nat, blocks: seq<Interval>, cur: Interval)
    requires SortedBy(sorted, BY_LOWER) && k < |sorted| && cur.lower <= sorted[k].lower
    requires Absorbing(sorted, k, blocks, cur) && cur.lower >= cur.upper
    requires AbsorbedAt(sorted, k - 1) && AbsorbedAt(sorted, k)
    ensures Overlap(cur, sorted[k])
  {
    var p :| 0 <= p < |sorted| && TakesIn(sorted[p], cur);
    assert p >= k;
    assert BY_LOWER(sorted[k]) <= BY_LOWER(sorted[p]);
    assert sorted[k].lower == cur.lower;
    assert sorted[k].lower < sorted[k].upper;
  }

  lemma AbsorbNext(sorted: seq<Interval>, k: nat, blocks: seq<Interval>, cur: Interval)
    requires SortedBy(sorted, BY_LOWER) && k < |sorted| && cur.lower <= sorted[k].lower
    requires Absorbing(sorted, k, blocks, cur) && !Overlap(cur, sorted[k])
    requires forall i :: 0 <= i < |sorted| ==> AbsorbedAt(sorted, i)
    ensures Absorbing(sorted, k + 1, blocks + [cur], sorted[k])
  {
    var next := sorted[k];
    assert AbsorbedAt(sorted, k);
    if cur.lower >= cur.upper {
      OpenOverlapsNext(sorted, k, blocks, cur);
    }
    assert cur.lower < cur.upper;
    var all := blocks + [cur];
    assert Canonical(all);
    forall p | 0 <= p < k + 1 && sorted[p].lower < sorted[p].upper
      ensures sorted[p].upper <= next.upper || sorted[p].upper < next.lower
    {
    }
    if next.lower >= next.upper {
      forall p | 0 <= p < k + 1
        ensures !TakesIn(sorted[p], next)
      {
      }
    }
  }

  lemma AbsorbEnd(sorted: seq<Interval>, blocks: seq<Interval>, cur: Interval)
    requires Absorbing(sorted, |sorted|, blocks, cur)
    requires AbsorbedAt(sorted, |sorted| - 1)
    ensures Canonical(blocks + [cur])
  {
  }

  /** aggregate_container: a merged list of the same set, with gaps between its intervals. The set is right
      for any intervals; the form also needs that those holding nothing, if any, are taken in. */
  method AggregateContainer(ints: seq<Interval>) returns (ret: seq<Interval>)
    ensures SameSet(ret, ints)
    ensures AllOrdered(ints) ==> Separated(ret)
    ensures Absorbed(multiset(ints)) ==> Canonical(ret)
    ensures NoneEmpty(ints) ==> Canonical(ret)
    ensures ret == [] <==> ints == []
  {
    if NoneEmpty(ints) {
      NoneEmptyAbsorbed(ints);
    }
    if |ints| <= 1 {
      OneAbsorbs(ints);
      return ints;
    }
    var sorted := Sort(ints, BY_LOWER);
    SortedInput(sorted, ints);
    ret := MergeSorted(sorted);
  }

  method MergeSorted(sorted: seq<Interval>) returns (ret: seq<Interval>)
    requires sorted != [] && SortedBy(sorted, BY_LOWER)
    ensures SameSet(ret, sorted) && ret != []
    ensures AllOrdered(sorted) ==> Separated(ret)
    ensures Absorbed(multiset(sorted)) ==> Canonical(ret)
  {
    hide *;
    ghost var absorbs := Absorbed(multiset(sorted));
    if absorbs {
      AllAbsorbed(sorted);
    }
    ret := [];
    var curMerge := sorted[0];
    MergeStart(sorted);
    AbsorbStart(sorted);
    for k := 1 to |sorted|
      invariant Merged(sorted, k, ret, curMerge)
      invariant absorbs ==> Absorbing(sorted, k, ret, curMerge)
    {
      var curInt := sorted[k];
      MergeOrder(sorted, k, ret, curMerge);
      if Overlap(curMerge, curInt) {
        MergeHull(sorted, k, ret, curMerge);
        if absorbs {
          AbsorbHull(sorted, k, ret, curMerge);
        }
        curMerge := Hull(curMerge, curInt);
      } else {
        MergeNext(sorted, k, ret, curMerge);
        if absorbs {
          AbsorbNext(sorted, k, ret, curMerge);
        }
        ret := ret + [curMerge];
        curMerge := curInt;
      }
    }
    MergeEnd(sorted, ret, curMerge);
    if absorbs {
      AbsorbEnd(sorted, ret, curMerge);
    }
    ret := ret + [curMerge];
  }

  lemma AllAbsorbed(s: seq<Interval>)
    requires Absorbed(multiset(s))
    ensures forall i :: 0 <= i < |s| ==> AbsorbedAt(s, i)
  {
    forall i | 0 <= i < |s|
      ensures AbsorbedAt(s, i)
    {
      AbsorbedByPosition(s, i);
    }
  }

  lemma OneAbsorbs(s: seq<Interval>)
    requires |s| <= 1
    ensures AllOrdered(s) ==> Separated(s)
    ensures Absorbed(multiset(s)) ==> Canonical(s)
  {
    if |s| == 1 && Absorbed(multiset(s)) {
      AbsorbedByPosition(s, 0);
    }
  }

  lemma AbsorbStart(sorted: seq<Interval>)
    requires sorted != []
    ensures Absorbing(sorted, 1, [], sorted[0])
  {
  }

  lemma MergeOrder(sorted: seq<Interval>, k: nat, blocks: seq<Interval>, cur: Interval)
    requires Merged(sorted, k, blocks, cur) && k < |sorted|
    ensures cur.lower <= sorted[k].lower
  {
  }

  lemma MergeEnd(sorted: seq<Interval>, blocks: seq<Interval>, cur: Interval)
    requires Merged(sorted, |sorted|, blocks, cur)
    ensures SameSet(blocks + [cur], sorted)
    ensures AllOrdered(sorted) ==> Separated(blocks + [cur])
  {
    assert sorted[..|sorted|] == sorted;
  }

  // ---------------------------------------------------------------- subtracting

  datatype Cut = Cut(piece: seq<Interval>, rest: Interval)

  /** One removed interval against the part of a block still to be handled: the four branches, in order,
      and nothing when they are apart. */
  function CutOut(cur: Interval, rem: Interval): Cut {
    if cur.lower >= rem.lower && cur.upper <= rem.upper then
      Cut([], EMPTY)
    else if cur.lower >= rem.lower && cur.upper >= rem.upper && cur.lower <= rem.upper then
      Cut([], cur.(lower := rem.upper))
    else if cur.lower <= rem.lower && cur.upper <= rem.upper && cur.upper >= rem.lower then
      Cut([], cur.(upper := rem.lower))
    else if cur.lower <= rem.lower && cur.upper >= rem.upper then
      Cut([Interval(cur.lower, rem.lower)], cur.(lower := rem.upper))
    else
      Cut([], cur)
  }

  /** The cut keeps exactly what the removed interval does not contain. */
  lemma CutOutExact(cur: Interval, rem: Interval, v: int)
    requires cur.Ordered() && rem.Ordered()
    ensures var c := CutOut(cur, rem);
            Covers(c.piece, v) || c.rest.Contains(v) <==> cur.Contains(v) && !rem.Contains(v)
  {
    var c := CutOut(cur, rem);
    if c.piece != [] {
      CoversOne(c.piece[0], v);
    }
  }

  /** What the subtracting loop has established for `block` after the removed intervals before `j`. */
  ghost predicate Carved(block: Interval, rem: seq<Interval>, j: nat, pieces: seq<Interval>, cur: Interval) {
    && j <= |rem|
    && cur.Ordered() && Sorted(pieces)
    && (forall v :: Covers(pieces, v) || cur.Contains(v) <==> block.Contains(v) && !Covers(rem[..j], v))
    && (forall i :: 0 <= i < |pieces| ==> block.lower <= pieces[i].lower && pieces[i].upper <= block.upper)
    && (forall i, k :: 0 <= i < |pieces| && j <= k < |rem| ==> pieces[i].upper <= rem[k].lower)
    && (cur.lower < cur.upper ==>
          && block.lower <= cur.lower && cur.upper <= block.upper
          && forall i :: 0 <= i < |pieces| ==> pieces[i].upper <= cur.lower)
    && (NoneEmpty(rem) ==> Separated(pieces))
    && (NoneEmpty(rem) && cur.lower < cur.upper ==> forall i :: 0 <= i < |pieces| ==> pieces[i].upper < cur.lower)
  }

  /** Nothing before the shared cursor meets the block, so carving can start there. */
  lemma CarveStart(block: Interval, rem: seq<Interval>, j: nat)
    requires block.Ordered() && j <= |rem| && forall k :: 0 <= k < j ==> rem[k].upper < block.lower
    ensures Carved(block, rem, j, [], block)
  {
    forall v
      ensures block.Contains(v) ==> !Covers(rem[..j], v)
    {
    }
  }

  lemma CarveMeaning(block: Interval, rem: seq<Interval>, j: nat, pieces: seq<Interval>, cur: Interval, v: int)
    requires Separated(rem) && j < |rem| && Carved(block, rem, j, pieces, cur)
    ensures var c := CutOut(cur, rem[j]);
            Covers(pieces + c.piece, v) || c.rest.Contains(v) <==> block.Contains(v) && !Covers(rem[..j + 1], v)
  {
    hide CutOut;
    CoversStep(rem, j, v);
    CoversConcat(pieces, CutOut(cur, rem[j]).piece, v);
    CutOutExact(cur, rem[j], v);
    if Covers(pieces, v) {
      var i :| 0 <= i < |pieces| && pieces[i].Contains(v);
      assert pieces[i].upper <= rem[j].lower;
    }
  }

  lemma CarveStep(block: Interval, rem: seq<Interval>, j: nat, pieces: seq<Interval>, cur: Interval)
    requires Separated(rem) && j < |rem| && Carved(block, rem, j, pieces, cur)
    ensures var c := CutOut(cur, rem[j]); Carved(block, rem, j + 1, pieces + c.piece, c.rest)
  {
    hide Covers;
    var c := CutOut(cur, rem[j]);
    forall v
      ensures Covers(pieces + c.piece, v) || c.rest.Contains(v) <==> block.Contains(v) && !Covers(rem[..j + 1], v)
    {
      CarveMeaning(block, rem, j, pieces, cur, v);
    }
    CarveOrder(rem, j, pieces, cur);
  }

  lemma CarveOrder(rem: seq<Interval>, j: nat, pieces: seq<Interval>, cur: Interval)
    requires Separated(rem) && j < |rem| && cur.Ordered() && Sorted(pieces)
    requires forall i, k :: 0 <= i < |pieces| && j <= k < |rem| ==> pieces[i].upper <= rem[k].lower
    requires cur.lower < cur.upper ==> forall i :: 0 <= i < |pieces| ==> pieces[i].upper <= cur.lower
    ensures var c := CutOut(cur, rem[j]);
      && c.rest.Ordered() && Sorted(pieces + c.piece)
      && forall i, k :: 0 <= i < |pieces + c.piece| && j + 1 <= k < |rem| ==>
                          (pieces + c.piece)[i].upper <= rem[k].lower
  {
    var c := CutOut(cur, rem[j]);
    var all := pieces + c.piece;
    forall i, k | 0 <= i < |all| && j + 1 <= k < |rem|
      ensures all[i].upper <= rem[k].lower
    {
      assert rem[j].upper < rem[k].lower;
    }
  }

  /** The pieces of one merged block that survive, in the order of the block. */
  ghost predicate PiecesOf(pieces: seq<Interval>, block: Interval, rem: seq<Interval>) {
    && Sorted(pieces)
    && (NoneEmpty(rem) ==> Separated(pieces))
    && (forall i :: 0 <= i < |pieces| ==> block.lower <= pieces[i].lower && pieces[i].upper <= block.upper)
    && (forall v :: Covers(pieces, v) <==> block.Contains(v) && !Covers(rem, v))
  }

  lemma LaterRemoved(rem: seq<Interval>, j: nat, v: int)
    requires Separated(rem) && j <= |rem| && Covers(rem[j..], v)
    ensures j < |rem| && v >= rem[j].lower
  {
    var k :| 0 <= k < |rem[j..]| && rem[j..][k].Contains(v);
    assert rem[j + k].Contains(v);
    assert k > 0 ==> rem[j].upper < rem[j + k].lower;
  }

  /** When the loop stops, no later removed interval can meet what is left. */
  lemma CarveComplete(block: Interval, rem: seq<Interval>, j: nat, pieces: seq<Interval>, cur: Interval, v: int)
    requires Separated(rem) && Carved(block, rem, j, pieces, cur)
    requires j == |rem| || rem[j].lower >= cur.upper
    ensures Covers(pieces, v) || cur.Contains(v) <==> block.Contains(v) && !Covers(rem, v)
  {
    assert rem == rem[..j] + rem[j..];
    CoversConcat(rem[..j], rem[j..], v);
    if Covers(rem[j..], v) {
      LaterRemoved(rem, j, v);
    }
  }

  lemma CarveEnd(block: Interval, rem: seq<Interval>, j: nat, pieces: seq<Interval>, cur: Interval)
    requires Separated(rem) && Carved(block, rem, j, pieces, cur)
    requires j == |rem| || rem[j].lower >= cur.upper
    ensures PiecesOf(if cur.Width() > 0 then pieces + [cur] else pieces, block, rem)
  {
    var all := if cur.Width() > 0 then pieces + [cur] else pieces;
    forall v
      ensures Covers(all, v) <==> block.Contains(v) && !Covers(rem, v)
    {
      CarveComplete(block, rem, j, pieces, cur, v);
      CoversAppend(pieces, cur, v);
    }
  }

  ghost predicate BehindCursor(rem: seq<Interval>, it: nat, lower: int) {
    it <= |rem| && forall k :: 0 <= k < it ==> rem[k].upper < lower
  }

  /** split_merged_interval_removed: appends the surviving pieces of a block; the shared cursor only passes
      removed intervals that end before the block, and so before every later one. */
  method SplitMerged(block: Interval, rem: seq<Interval>, ret: seq<Interval>, it: nat)
    returns (pieces: seq<Interval>, ret': seq<Interval>, it': nat)
    requires block.Ordered() && Separated(rem) && BehindCursor(rem, it, block.lower)
    ensures it <= it' && BehindCursor(rem, it', block.lower)
    ensures ret' == ret + pieces && PiecesOf(pieces, block, rem)
  {
    hide Carved;
    hide PiecesOf;
    hide Separated;
    it' := it;
    while it' < |rem| && block.lower > rem[it'].upper
      invariant it <= it' && BehindCursor(rem, it', block.lower)
      decreases |rem| - it'
    {
      it' := it' + 1;
    }
    pieces := [];
    var cur := block;
    CarveStart(block, rem, it');
    var j := it';
    if it' < |rem| {
      var more := true;
      while more
        invariant Carved(block, rem, j, pieces, cur)
        invariant j <= |rem| && (more ==> j < |rem|)
        invariant !more ==> j == |rem| || rem[j].lower >= cur.upper
        decreases |rem| - j, more
      {
        CarveStep(block, rem, j, pieces, cur);
        var cut := CutOut(cur, rem[j]);
        pieces := pieces + cut.piece;
        cur := cut.rest;
        j := j + 1;
        more := j < |rem| && rem[j].lower < cur.upper;
      }
    }
    CarveEnd(block, rem, j, pieces, cur);
    if cur.Width() > 0 {
      pieces := pieces + [cur];
    }
    ret' := ret + pieces;
  }

  /** The state of the subtracting sweep: the survivors of the finished blocks, and the open block. */
  ghost predicate Subtracted(sorted: seq<Interval>, k: nat, rem: seq<Interval>, ret: seq<Interval>, cur: Interval) {
    && k <= |sorted|
    && Sorted(ret)
    && (NoneEmpty(rem) ==> Separated(ret))
    && (forall i :: 0 <= i < |ret| ==> ret[i].upper < cur.lower)
    && (forall v :: Covers(ret, v) || (cur.Contains(v) && !Covers(rem, v))
                    <==> Covers(sorted[..k], v) && !Covers(rem, v))
  }

  lemma SubtractHull(sorted: seq<Interval>, k: nat, rem: seq<Interval>, ret: seq<Interval>, cur: Interval)
    requires Subtracted(sorted, k, rem, ret, cur) && k < |sorted|
    requires cur.Ordered() && sorted[k].Ordered() && cur.lower <= sorted[k].lower && Overlap(cur, sorted[k])
    ensures Subtracted(sorted, k + 1, rem, ret, Hull(cur, sorted[k]))
  {
    forall v
      ensures Hull(cur, sorted[k]).Contains(v) <==> cur.Contains(v) || sorted[k].Contains(v)
      ensures Covers(sorted[..k + 1], v) <==> Covers(sorted[..k], v) || sorted[k].Contains(v)
    {
      HullIsUnion(cur, sorted[k]);
      CoversStep(sorted, k, v);
    }
  }

  lemma SubtractBlock(sorted: seq<Interval>, k: nat, rem: seq<Interval>, ret: seq<Interval>, cur: Interval,
                      pieces: seq<Interval>)
    requires Subtracted(sorted, k, rem, ret, cur) && PiecesOf(pieces, cur, rem)
    ensures Sorted(ret + pieces)
    ensures NoneEmpty(rem) ==> Separated(ret + pieces)
    ensures forall v :: Covers(ret + pieces, v) <==> Covers(sorted[..k], v) && !Covers(rem, v)
    ensures forall i :: 0 <= i < |ret + pieces| ==>
                          (ret + pieces)[i].upper < cur.lower || (ret + pieces)[i].upper <= cur.upper
  {
    forall v
      ensures Covers(ret + pieces, v) <==> Covers(sorted[..k], v) && !Covers(rem, v)
    {
      CoversConcat(ret, pieces, v);
    }
  }

  lemma SubtractNext(sorted: seq<Interval>, k: nat, rem: seq<Interval>, ret: seq<Interval>, cur: Interval,
                     pieces: seq<Interval>)
    requires Subtracted(sorted, k, rem, ret, cur) && PiecesOf(pieces, cur, rem) && k < |sorted|
    requires cur.Ordered() && cur.upper < sorted[k].lower
    ensures Subtracted(sorted, k + 1, rem, ret + pieces, sorted[k])
  {
    SubtractBlock(sorted, k, rem, ret, cur, pieces);
    forall v
      ensures Covers(sorted[..k + 1], v) <==> Covers(sorted[..k], v) || sorted[k].Contains(v)
    {
      CoversStep(sorted, k, v);
    }
  }

  /** The sweep of aggregate when intervals are pending on both sides. */
  method Subtract(ints: seq<Interval>, excluded: seq<Interval>) returns (ret: seq<Interval>)
    requires ints != [] && AllOrdered(ints) && AllOrdered(excluded)
    ensures Minus(ret, ints, excluded)
    ensures Sorted(ret) && AllOrdered(ret)
    ensures NoneEmpty(excluded) ==> Canonical(ret)
  {
    var rem := AggregateContainer(excluded);
    var sorted := Sort(ints, BY_LOWER);
    SortedInput(sorted, ints);
    ret := [];
    var curMerge := sorted[0];
    var itRemoved := 0;
    ghost var pieces;
    ghost var blocks := [];
    MergeStart(sorted);
    assert sorted[..1] == [] + [sorted[0]];
    for k := 1 to |sorted|
      invariant Merged(sorted, k, blocks, curMerge)
      invariant Subtracted(sorted, k, rem, ret, curMerge)
      invariant BehindCursor(rem, itRemoved, curMerge.lower)
    {
      var curInt := sorted[k];
      assert (blocks + [curMerge])[|blocks|].Ordered();
      if Overlap(curMerge, curInt) {
        MergeHull(sorted, k, blocks, curMerge);
        SubtractHull(sorted, k, rem, ret, curMerge);
        curMerge := Hull(curMerge, curInt);
      } else {
        MergeNext(sorted, k, blocks, curMerge);
        ghost var was := ret;
        pieces, ret, itRemoved := SplitMerged(curMerge, rem, ret, itRemoved);
        SubtractNext(sorted, k, rem, was, curMerge, pieces);
        blocks := blocks + [curMerge];
        curMerge := curInt;
      }
    }
    assert (blocks + [curMerge])[|blocks|].Ordered();
    assert sorted[..|sorted|] == sorted;
    ghost var was := ret;
    pieces, ret, itRemoved := SplitMerged(curMerge, rem, ret, itRemoved);
    SubtractBlock(sorted, |sorted|, rem, was, curMerge, pieces);
  }

  // ---------------------------------------------------------------- what aggregation means

  /** `out` is the aggregated form of the additions without the removals. */
  ghost predicate IsAggregate(out: seq<Interval>, ints: seq<Interval>, rem: seq<Interval>) {
    Canonical(out) && Minus(out, ints, rem)
  }

  ghost predicate SameDifference(i1: seq<Interval>, r1: seq<Interval>, i2: seq<Interval>, r2: seq<Interval>) {
    forall v :: (Covers(i1, v) && !Covers(r1, v)) <==> (Covers(i2, v) && !Covers(r2, v))
  }

  /** The aggregated form depends on the denoted set only: not on the order, the repetitions or the way the
      same set was cut into intervals. */
  lemma AggregateIsCanonical(o1: seq<Interval>, i1: seq<Interval>, r1: seq<Interval>,
                             o2: seq<Interval>, i2: seq<Interval>, r2: seq<Interval>)
    requires IsAggregate(o1, i1, r1) && IsAggregate(o2, i2, r2)
    ensures o1 == o2 <==> SameDifference(i1, r1, i2, r2)
  {
    CanonicalUnique(o1, o2);
    assert SameSet(o1, o2) <==> SameDifference(i1, r1, i2, r2) by {
      if SameSet(o1, o2) {
        forall v
          ensures (Covers(i1, v) && !Covers(r1, v)) <==> (Covers(i2, v) && !Covers(r2, v))
        {
          assert Covers(o1, v) <==> Covers(o2, v);
        }
      }
      if SameDifference(i1, r1, i2, r2) {
        forall v
          ensures Covers(o1, v) <==> Covers(o2, v)
        {
          assert Covers(o1, v) <==> (Covers(i1, v) && !Covers(r1, v));
        }
      }
    }
  }

  /** Aggregating twice changes nothing. */
  lemma AggregateIdempotent(ints: seq<Interval>, rem: seq<Interval>, once: seq<Interval>, twice: seq<Interval>)
    requires IsAggregate(once, ints, rem) && IsAggregate(twice, once, [])
    ensures twice == once
  {
    AggregateIsCanonical(once, ints, rem, twice, once, []);
  }

  /** Aggregating between two batches of additions gives what one aggregation at the end gives. */
  lemma AggregateIncremental(a: seq<Interval>, b: seq<Interval>, mid: seq<Interval>,
                             out: seq<Interval>, direct: seq<Interval>)
    requires IsAggregate(mid, a, []) && IsAggregate(out, mid + b, []) && IsAggregate(direct, a + b, [])
    ensures out == direct
  {
    forall v
      ensures Covers(mid + b, v) <==> Covers(a + b, v)
    {
      CoversConcat(mid, b, v);
      CoversConcat(a, b, v);
    }
    AggregateIsCanonical(out, mid + b, [], direct, a + b, []);
  }
}
