/** list_intervals.h: the list of intervals, its searches, its index cache and its value iterator. */
module ListIntervalsModel {
  import opened Words
  import opened Arith
  import opened Intervals
  import opened Sweep

  // ---------------------------------------------------------------- positions in the list of elements

  /** The value at offset `off` of interval `i` is the element of rank |elements before i| + off. */
  lemma ElementAt(s: seq<Interval>, i: nat, off: nat)
    requires AllOrdered(s) && i < |s| && s[i].lower + off < s[i].upper
    ensures |Elements(s[..i])| + off < |Elements(s)|
    ensures Elements(s)[|Elements(s[..i])| + off] == s[i].lower + off
  {
    ElementsStep(s, i);
    ElementsPrefix(s, i, i + 1);
    ElementsPrefix(s, i + 1, |s|);
    var r := Range(s[i].lower, s[i].upper);
    assert Elements(s) == Elements(s[..i]) + r + Elements(s[i + 1..]);
    assert (Elements(s[..i]) + r)[|Elements(s[..i])| + off] == r[off];
  }

  lemma SizeStep(s: seq<Interval>, i: nat)
    requires AllOrdered(s) && i < |s|
    ensures s[i].Width() == s[i].upper - s[i].lower
    ensures |Elements(s[..i + 1])| == |Elements(s[..i])| + s[i].Width()
    ensures |Elements(s[..i + 1])| <= |Elements(s)|
  {
    ElementsStep(s, i);
    ElementsPrefix(s, i, i + 1);
  }

  lemma WrapAdd(x: int, y: int)
    ensures Wrap(Wrap(x) + y) == Wrap(x + y)
  {
    CongMod(x, WORD);
    CongAdd(x % WORD, x, y, y, WORD);
  }

  // ---------------------------------------------------------------- the index cache

  /** The first interval after the k-th block of `entry` intervals. */
  function BlockEnd(n: nat, entry: nat, k: nat): (e: nat)
    ensures e <= n
  {
    if k * entry < n then k * entry else n
  }

  /** Entry k holds the number of elements up to the end of block k, on 32 bits. */
  ghost predicate CacheOf(s: seq<Interval>, entry: nat, cache: seq<uint32>) {
    && AllOrdered(s)
    && entry > 0
    && |s| <= |cache| * entry
    && forall k :: 0 <= k < |cache| ==> CacheEntry(s, entry, cache, k)
  }

  ghost predicate CacheEntry(s: seq<Interval>, entry: nat, cache: seq<uint32>, k: nat)
    requires AllOrdered(s) && k < |cache|
  {
    && k * entry < |s|
    && cache[k] == Wrap(|Elements(s[..BlockEnd(|s|, entry, k + 1)])|)
  }

  lemma CacheFacts(s: seq<Interval>, entry: nat, cache: seq<uint32>, k: nat)
    requires CacheOf(s, entry, cache) && Sorted(s) && k < |cache|
    ensures k * entry < |s|
    ensures cache[k] == |Elements(s[..BlockEnd(|s|, entry, k + 1)])| <= |Elements(s)|
    ensures (k + 1) * entry >= |s| ==> cache[k] == |Elements(s)|
    ensures k + 1 == |cache| ==> cache[k] == |Elements(s)|
  {
    assert CacheEntry(s, entry, cache, k);
    var e := BlockEnd(|s|, entry, k + 1);
    ElementsPrefix(s, e, e);
    SortedSizeFits(s);
    WrapFits(|Elements(s[..e])|);
    assert s[..|s|] == s;
  }

  /** Where element `r` is found: counting from interval `i`, it is the element of rank `rem`. */
  ghost predicate Located(s: seq<Interval>, r: int, i: int, rem: int)
    requires AllOrdered(s)
  {
    0 <= i < |s| && rem >= 0 && |Elements(s[..i])| + rem == r
  }

  /** An entry equal to `r` or the last one below it locates `r` at the start of the next block. */
  lemma LocateAfter(s: seq<Interval>, entry: nat, cache: seq<uint32>, k: nat, r: nat)
    requires CacheOf(s, entry, cache) && Sorted(s) && k < |cache|
    requires cache[k] <= r < |Elements(s)|
    ensures Located(s, r, (k + 1) * entry, r - cache[k]) && k + 1 < |cache|
  {
    CacheFacts(s, entry, cache, k);
    assert (k + 1) * entry >= 0;
  }

  /** From a located position, the element is found by counting on. */
  lemma LocatedElement(s: seq<Interval>, r: nat, i: nat, rem: nat)
    requires Sorted(s) && AllOrdered(s) && Located(s, r, i, rem) && r < |Elements(s)|
    ensures rem < |Elements(s[i..])| && Elements(s[i..])[rem] == Elements(s)[r]
    ensures rem == 0 ==> s[i].lower == Elements(s)[r]
  {
    hide Elements;
    ElementsPrefix(s, i, i);
    if rem == 0 {
      ElementAt(s, i, 0);
    }
  }

  /** Counting on from interval `i`: its own values first, then those of the later intervals. */
  lemma CountOn(s: seq<Interval>, i: nat)
    requires AllOrdered(s) && i < |s|
    ensures var rest, width := Elements(s[i..]), s[i].Width();
      && width <= |rest| && rest[width..] == Elements(s[i + 1..])
      && forall k :: 0 <= k < width ==> rest[k] == s[i].upper - (width - k)
  {
    ElementsStep(s, i);
    assert Elements(s[i..]) == Range(s[i].lower, s[i].upper) + Elements(s[i + 1..]);
  }

  lemma NothingLeft(s: seq<Interval>)
    ensures Elements(s[|s|..]) == []
  {
    assert s[|s|..] == [];
  }

  lemma FirstEntry(s: seq<Interval>, entry: nat)
    requires AllOrdered(s)
    ensures BlockEnd(|s|, entry, 0) == 0 && |Elements(s[..0])| == 0
  {
    assert s[..0] == [];
  }

  /** A new entry completes the next block and leaves the earlier ones as they are. */
  lemma NextEntry(s: seq<Interval>, entry: nat, cache: seq<uint32>, x: uint32)
    requires AllOrdered(s) && |cache| * entry < |s|
    requires forall k :: 0 <= k < |cache| ==> CacheEntry(s, entry, cache, k)
    requires x == Wrap(|Elements(s[..BlockEnd(|s|, entry, |cache| + 1)])|)
    ensures forall k :: 0 <= k <= |cache| ==> CacheEntry(s, entry, cache + [x], k)
  {
    forall k | 0 <= k <= |cache|
      ensures CacheEntry(s, entry, cache + [x], k)
    {
      if k < |cache| {
        assert CacheEntry(s, entry, cache, k);
      }
    }
  }

  // ---------------------------------------------------------------- counts

  /** Gaps leave room for at most 2^31 intervals, so that sums of two indices fit in 32 bits. */
  lemma {:induction false} CountFits(s: seq<Interval>)
    requires Canonical(s)
    ensures 2 * |s| <= WORD
    ensures s != [] ==> s[|s| - 1].upper >= 2 * |s| - 1
  {
    if s != [] {
      var n := |s| - 1;
      CountFits(s[..n]);
      if n > 0 {
        assert s[..n][n - 1] == s[n - 1];
        assert s[n - 1].upper < s[n].lower;
      }
    }
  }

  /** In a sorted list a value lies in at most one interval, and comparing with any interval tells the side. */
  lemma SortedSide(s: seq<Interval>, mid: nat, i: nat, v: int)
    requires Sorted(s) && mid < |s| && i < |s| && s[i].Contains(v)
    ensures v < s[mid].lower ==> i < mid
    ensures v >= s[mid].lower ==> mid <= i
  {
    if i < mid {
      assert s[i].upper <= s[mid].lower;
    }
    if mid < i {
      assert s[mid].upper <= s[i].lower;
    }
  }

  class ListIntervals {
    var intervals: seq<Interval>
    var excluded: seq<Interval>
    var indexCache: seq<uint32>
    var cacheEntrySize: nat

    constructor ()
      ensures intervals == [] && excluded == [] && indexCache == [] && cacheEntrySize == 0
    {
      intervals, excluded, indexCache, cacheEntrySize := [], [], [], 0;
    }

    method Add(i: Interval)
      modifies this`intervals
      ensures intervals == old(intervals) + [i]
    {
      intervals := intervals + [i];
    }

    method Remove(i: Interval)
      modifies this`excluded
      ensures excluded == old(excluded) + [i]
    {
      excluded := excluded + [i];
    }

    method AddAll(o: ListIntervals)
      modifies this`intervals
      ensures intervals == old(intervals) + old(o.intervals)
    {
      intervals := intervals + o.intervals;
    }

    /** operator= copies everything, pending removals and cache included. */
    method Assign(o: ListIntervals)
      modifies this
      ensures intervals == old(o.intervals) && excluded == old(o.excluded)
      ensures indexCache == old(o.indexCache) && cacheEntrySize == old(o.cacheEntrySize)
    {
      intervals, excluded, indexCache, cacheEntrySize := o.intervals, o.excluded, o.indexCache, o.cacheEntrySize;
    }

    /** Only the intervals are saved, so only they come back. */
    method Load(saved: seq<Interval>)
      modifies this`intervals, this`excluded
      ensures intervals == saved && excluded == []
    {
      Clear();
      intervals := saved;
    }

    method RemoveAll(o: ListIntervals)
      modifies this`excluded
      ensures excluded == old(excluded) + o.intervals
    {
      excluded := excluded + o.intervals;
    }

    method Clear()
      modifies this`intervals, this`excluded
      ensures intervals == [] && excluded == []
    {
      intervals, excluded := [], [];
    }

    /** Afterwards the list denotes the additions without the removals, in aggregated form. With no
        additions at all the removals stay pending. Without removals the set is right for any intervals. */
    method Aggregate()
      requires intervals != [] && excluded != [] ==> AllOrdered(intervals) && AllOrdered(excluded)
      modifies this`intervals, this`excluded
      ensures Minus(intervals, old(intervals), old(excluded))
      ensures AllOrdered(old(intervals)) ==> AllOrdered(intervals)
      ensures excluded == if old(intervals) == [] then old(excluded) else []
      ensures old(intervals) == [] ==> intervals == []
      ensures old(excluded) == [] && AllOrdered(old(intervals)) ==> Separated(intervals)
      ensures old(excluded) == [] && Absorbed(multiset(old(intervals))) ==> Canonical(intervals)
      ensures old(excluded) != [] ==> Sorted(intervals)
      ensures (NoneEmpty(old(intervals)) && NoneEmpty(old(excluded))) ==>
                IsAggregate(intervals, old(intervals), old(excluded))
    {
      if |excluded| == 0 {
        intervals := AggregateContainer(intervals);
        return;
      }
      if |intervals| == 0 {
        return;
      }
      intervals := Subtract(intervals, excluded);
      excluded := [];
    }

    /** The sum of the widths on 32 bits; for a sorted list it is the number of elements. */
    method Size() returns (ret: uint32)
      requires AllOrdered(intervals)
      ensures ret == Wrap(|Elements(intervals)|)
      ensures Sorted(intervals) ==> ret == |Elements(intervals)|
    {
      ret := 0;
      for i := 0 to |intervals|
        invariant ret == Wrap(|Elements(intervals[..i])|)
      {
        SizeStep(intervals, i);
        WrapAdd(|Elements(intervals[..i])|, intervals[i].Width());
        ret := Wrap(ret + intervals[i].Width());
      }
      assert intervals[..|intervals|] == intervals;
      if Sorted(intervals) {
        SortedSizeFits(intervals);
        WrapFits(|Elements(intervals)|);
      }
    }

    /** The element of rank `r` counting from interval `start`, or the largest number when there is none. */
    method GetRthValue(r: uint32, start: nat) returns (v: uint32)
      requires AllOrdered(intervals) && start <= |intervals|
      ensures var e := Elements(intervals[start..]); v == if r < |e| then e[r] else Wrap(-1)
    {
      hide Elements;
      var cur: uint32 := r;
      ghost var e := Elements(intervals[start..]);
      for i := start to |intervals|
        invariant cur <= r
        invariant r - cur <= |e| && Elements(intervals[i..]) == e[r - cur..]
      {
        CountOn(intervals, i);
        var it := intervals[i];
        var width := it.Width();
        if cur < width {
          return it.upper - (width - cur);
        }
        cur := cur - width;
      }
      NothingLeft(intervals);
      return Wrap(-1);
    }

    method At(r: uint32) returns (v: uint32)
      requires AllOrdered(intervals) && r < |Elements(intervals)|
      ensures v == Elements(intervals)[r]
    {
      assert intervals[0..] == intervals;
      v := GetRthValue(r, 0);
    }

    /** One entry for each block of `entry` intervals. */
    method CreateIndexCache(entry: nat)
      requires AllOrdered(intervals) && entry > 0
      modifies this`indexCache, this`cacheEntrySize
      ensures cacheEntrySize == entry && CacheOf(intervals, entry, indexCache)
    {
      hide Elements;
      hide CacheEntry;
      hide Wrap;
      cacheEntrySize := entry;
      var n := |intervals|;
      var curSize: uint32 := 0;
      indexCache := [];
      var i := 0;
      FirstEntry(intervals, entry);
      WrapFits(0);
      while i < n
        invariant cacheEntrySize == entry
        invariant i == |indexCache| * entry
        invariant curSize == Wrap(|Elements(intervals[..BlockEnd(n, entry, |indexCache|)])|)
        invariant forall k :: 0 <= k < |indexCache| ==> CacheEntry(intervals, entry, indexCache, k)
        decreases n - i
      {
        ghost var was := indexCache;
        assert (|was| + 1) * entry == i + entry;
        var end := if n <= i + entry then n else i + entry;
        curSize := AddSizes(i, end, curSize);
        NextEntry(intervals, entry, was, curSize);
        indexCache := indexCache + [curSize];
        i := i + entry;
      }
    }

    /** The sizes of the intervals from `from` on, added up on 32 bits. */
    method AddSizes(from: nat, end: nat, sum: uint32) returns (ret: uint32)
      requires AllOrdered(intervals) && from <= end <= |intervals|
      requires sum == Wrap(|Elements(intervals[..from])|)
      ensures ret == Wrap(|Elements(intervals[..end])|)
    {
      ret := sum;
      for j := from to end
        invariant ret == Wrap(|Elements(intervals[..j])|)
      {
        SizeStep(intervals, j);
        WrapAdd(|Elements(intervals[..j])|, intervals[j].Width());
        ret := Wrap(ret + intervals[j].Width());
      }
    }

    /** Halving with an exact-hit exit, then a scan: locates element `r`. */
    method GetCachedIntervalIdx(r: uint32) returns (idx: nat, rem: nat)
      requires Sorted(intervals) && CacheOf(intervals, cacheEntrySize, indexCache)
      requires r < |Elements(intervals)|
      ensures Located(intervals, r, idx, rem)
    {
      var a, b := 0, |indexCache|;
      assert |intervals| > 0;
      assert b == 0 ==> b * cacheEntrySize == 0;
      while b - a > 4
        invariant 0 <= a < b <= |indexCache|
        invariant a == 0 || indexCache[a] < r
      {
        var mid := (b + a) / 2;
        var vmid := indexCache[mid];
        if vmid == r {
          LocateAfter(intervals, cacheEntrySize, indexCache, mid, r);
          return (mid + 1) * cacheEntrySize, 0;
        }
        if vmid < r {
          a := mid;
        } else {
          b := mid;
        }
      }
      ghost var from := a;
      while indexCache[a] < r
        invariant from <= a < |indexCache|
        invariant a > from ==> indexCache[a - 1] < r
        decreases |indexCache| - a
      {
        LocateAfter(intervals, cacheEntrySize, indexCache, a, r);
        a := a + 1;
      }
      if a > 0 {
        LocateAfter(intervals, cacheEntrySize, indexCache, a - 1, r);
        rem := r - indexCache[a - 1];
      } else {
        assert intervals[..0] == [];
        rem := r;
      }
      assert a * cacheEntrySize >= 0;
      idx := a * cacheEntrySize;
    }

    /** Agrees with `At` for every cache granularity. */
    method AtCached(r: uint32) returns (v: uint32)
      requires Sorted(intervals) && CacheOf(intervals, cacheEntrySize, indexCache)
      requires r < |Elements(intervals)|
      ensures v == Elements(intervals)[r]
    {
      hide Elements;
      var idx, cur := GetCachedIntervalIdx(r);
      LocatedElement(intervals, r, idx, cur);
      SortedSizeFits(intervals);
      if cur == 0 {
        return intervals[idx].lower;
      }
      v := GetRthValue(cur, idx);
    }

    /** operator==; on canonical lists it decides whether the denoted sets are equal. */
    method Equals(o: ListIntervals) returns (b: bool)
      ensures b <==> intervals == o.intervals
      ensures Canonical(intervals) && Canonical(o.intervals) ==> (b <==> SameSet(intervals, o.intervals))
    {
      if Canonical(intervals) && Canonical(o.intervals) {
        CanonicalUnique(intervals, o.intervals);
      }
      if |intervals| != |o.intervals| {
        return false;
      }
      for i := 0 to |intervals|
        invariant forall k :: 0 <= k < i ==> intervals[k] == o.intervals[k]
      {
        if intervals[i].lower != o.intervals[i].lower || intervals[i].upper != o.intervals[i].upper {
          return false;
        }
      }
      return true;
    }

    /** Membership by halving down to four intervals; the index sum never wraps around. */
    method Contains(v: uint32) returns (found: bool)
      requires Canonical(intervals)
      ensures found <==> Covers(intervals, v)
    {
      CanonicalIsSorted(intervals);
      CountFits(intervals);
      var a: uint32, b: uint32 := 0, |intervals|;
      while b - a > 4
        invariant a <= b <= |intervals|
        invariant forall i :: 0 <= i < |intervals| && intervals[i].Contains(v) ==> a <= i < b
        decreases b - a
      {
        WrapFits(b + a);
        var mid: uint32 := Wrap(b + a) / 2;
        var it := intervals[mid];
        if it.Contains(v) {
          return true;
        }
        forall i | 0 <= i < |intervals| && intervals[i].Contains(v)
          ensures if v < it.lower then i < mid else mid <= i
        {
          SortedSide(intervals, mid, i, v);
        }
        if v < it.lower {
          b := mid;
        } else {
          a := mid;
        }
      }
      for i := a to b
        invariant forall k :: a <= k < i ==> !intervals[k].Contains(v)
      {
        if intervals[i].Contains(v) {
          return true;
        }
      }
      return false;
    }
  }

  // ---------------------------------------------------------------- the value iterator

  class ValueIterator {
    const list: ListIntervals
    var iter: nat
    var offset: uint32

    /** Points at an element, or at the end. */
    ghost predicate Valid()
      reads this, list
    {
      && Sorted(list.intervals) && AllOrdered(list.intervals)
      && iter <= |list.intervals|
      && (if iter == |list.intervals| then offset == 0
          else list.intervals[iter].lower + offset < list.intervals[iter].upper)
    }

    /** The number of elements before the one pointed at. */
    ghost function Rank(): nat
      requires Valid()
      reads this, list
    {
      |Elements(list.intervals[..iter])| + offset
    }

    constructor Begin(list: ListIntervals)
      ensures this.list == list && iter == 0 && offset == 0
    {
      this.list := list;
      iter, offset := 0, 0;
    }

    constructor End(list: ListIntervals)
      ensures this.list == list && iter == |list.intervals| && offset == 0
    {
      this.list := list;
      iter, offset := |list.intervals|, 0;
    }

    /** Dereferencing at rank k gives the k-th smallest element. */
    method Value() returns (v: uint32)
      requires Valid() && iter < |list.intervals|
      ensures Rank() < |Elements(list.intervals)| && v == Elements(list.intervals)[Rank()]
    {
      ElementAt(list.intervals, iter, offset);
      v := list.intervals[iter].lower + offset;
    }

    /** operator++ */
    method Next()
      requires Valid() && iter < |list.intervals|
      modifies this
      ensures Valid() && Rank() == old(Rank()) + 1
    {
      SizeStep(list.intervals, iter);
      var it := list.intervals[iter];
      if it.lower + offset != it.upper - 1 {
        offset := offset + 1;
      } else {
        iter := iter + 1;
        offset := 0;
      }
    }

    method Equals(o: ValueIterator) returns (b: bool)
      ensures b <==> iter == o.iter && offset == o.offset
    {
      b := iter == o.iter && offset == o.offset;
    }
  }

  /** A valid iterator starts at rank 0, and it is the end iterator exactly when every element is behind it. */
  lemma IteratorSpan(it: ValueIterator)
    requires it.Valid()
    ensures it.iter == 0 && it.offset == 0 ==> it.Rank() == 0
    ensures it.Rank() == |Elements(it.list.intervals)| <==> it.iter == |it.list.intervals| && it.offset == 0
    ensures it.Rank() <= |Elements(it.list.intervals)|
  {
    var s := it.list.intervals;
    assert s[..|s|] == s && s[..0] == [];
    if it.iter < |s| {
      ElementAt(s, it.iter, it.offset);
    }
  }
}
