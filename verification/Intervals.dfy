/** interval.h and utility.h: half-open intervals, and what a list of them denotes. */
module Intervals {
  import opened Words
  import opened Permutations

  /** Intervals are copied by value, so they are a value here too. */
  datatype Interval = Interval(lower: uint32, upper: uint32) {
    predicate Contains(v: int) {
      lower <= v < upper
    }

    /** Computed on 32 bits: meaningless for an inverted interval. */
    function Width(): uint32 {
      Wrap(upper - lower)
    }

    predicate Ordered() {
      lower <= upper
    }
  }

  const EMPTY := Interval(0, 0)

  // ---------------------------------------------------------------- merging two intervals

  /** Touching counts as overlapping. */
  predicate Overlap(a: Interval, b: Interval) {
    || a.lower <= b.lower <= a.upper
    || b.lower <= a.lower <= b.upper
  }

  function Hull(a: Interval, b: Interval): Interval {
    Interval(if a.lower <= b.lower then a.lower else b.lower,
             if a.upper >= b.upper then a.upper else b.upper)
  }

  /** Overlapping is exactly what makes the hull of two intervals their union. */
  lemma HullIsUnion(a: Interval, b: Interval)
    requires a.Ordered() && b.Ordered()
    ensures (forall v :: Hull(a, b).Contains(v) <==> a.Contains(v) || b.Contains(v)) <==> Overlap(a, b)
  {
    if !Overlap(a, b) {
      var v := if a.upper < b.lower then a.upper else b.upper;
      assert Hull(a, b).Contains(v) && !a.Contains(v) && !b.Contains(v);
    }
  }

  // ---------------------------------------------------------------- lists of intervals

  ghost predicate AllOrdered(s: seq<Interval>) {
    forall i :: 0 <= i < |s| ==> s[i].Ordered()
  }

  ghost predicate NoneEmpty(s: seq<Interval>) {
    forall i :: 0 <= i < |s| ==> s[i].lower < s[i].upper
  }

  /** The set a list denotes: the union of its intervals. */
  ghost predicate Covers(s: seq<Interval>, v: int) {
    exists i :: 0 <= i < |s| && s[i].Contains(v)
  }

  ghost predicate SameSet(s: seq<Interval>, t: seq<Interval>) {
    forall v :: Covers(s, v) <==> Covers(t, v)
  }

  /** Non-empty, in order, and without overlap: what the searches need. */
  ghost predicate Sorted(s: seq<Interval>) {
    && NoneEmpty(s)
    && forall i, j :: 0 <= i < j < |s| ==> s[i].upper <= s[j].lower
  }

  /** In order and without overlap; empty intervals are allowed. */
  ghost predicate InOrder(s: seq<Interval>) {
    && AllOrdered(s)
    && forall i, j :: 0 <= i < j < |s| ==> s[i].upper <= s[j].lower
  }

  /** In order with a gap of at least one value between neighbours. */
  ghost predicate Separated(s: seq<Interval>) {
    && AllOrdered(s)
    && forall i, j :: 0 <= i < j < |s| ==> s[i].upper < s[j].lower
  }

  /** The aggregated form. */
  ghost predicate Canonical(s: seq<Interval>) {
    NoneEmpty(s) && Separated(s)
  }

  lemma CanonicalIsSorted(s: seq<Interval>)
    requires Canonical(s)
    ensures Sorted(s) && AllOrdered(s)
  {
  }

  lemma CoversConcat(s: seq<Interval>, t: seq<Interval>, v: int)
    ensures Covers(s + t, v) <==> Covers(s, v) || Covers(t, v)
  {
    if Covers(s, v) {
      var i :| 0 <= i < |s| && s[i].Contains(v);
      assert (s + t)[i].Contains(v);
    }
    if Covers(t, v) {
      var i :| 0 <= i < |t| && t[i].Contains(v);
      assert (s + t)[|s| + i].Contains(v);
    }
  }

  lemma CoversOne(i: Interval, v: int)
    ensures Covers([i], v) <==> i.Contains(v)
  {
    if i.Contains(v) {
      assert [i][0].Contains(v);
    }
  }

  /** Order and repetition do not matter for the denoted set. */
  lemma CoversSameMembers(s: seq<Interval>, t: seq<Interval>)
    requires forall x :: x in s <==> x in t
    ensures SameSet(s, t)
  {
    forall v
      ensures Covers(s, v) <==> Covers(t, v)
    {
      if Covers(s, v) {
        var i :| 0 <= i < |s| && s[i].Contains(v);
        assert s[i] in t;
        var j :| 0 <= j < |t| && t[j] == s[i];
        assert t[j].Contains(v);
      }
      if Covers(t, v) {
        var i :| 0 <= i < |t| && t[i].Contains(v);
        assert t[i] in s;
        var j :| 0 <= j < |s| && s[j] == t[i];
        assert s[j].Contains(v);
      }
    }
  }

  // ---------------------------------------------------------------- canonical forms are unique

  lemma FirstBlock(s: seq<Interval>, t: seq<Interval>)
    requires Canonical(s) && Canonical(t) && SameSet(s, t) && s != []
    ensures t != [] && t[0].lower <= s[0].lower
    ensures t[0].lower == s[0].lower ==> s[0].upper <= t[0].upper
  {
    assert s[0].Contains(s[0].lower);
    assert Covers(s, s[0].lower);
    var i :| 0 <= i < |t| && t[i].Contains(s[0].lower);
    if t[0].lower == s[0].lower && t[0].upper < s[0].upper {
      var v := t[0].upper;
      assert s[0].Contains(v);
      assert Covers(s, v);
    }
  }

  lemma TailSet(s: seq<Interval>, t: seq<Interval>)
    requires Canonical(s) && Canonical(t) && SameSet(s, t) && s != [] && t != [] && s[0] == t[0]
    ensures Canonical(s[1..]) && Canonical(t[1..]) && SameSet(s[1..], t[1..])
  {
    forall v
      ensures Covers(s[1..], v) <==> Covers(t[1..], v)
    {
      TailCovers(s, v);
      TailCovers(t, v);
    }
  }

  lemma TailCovers(s: seq<Interval>, v: int)
    requires Canonical(s) && s != []
    ensures Covers(s[1..], v) <==> Covers(s, v) && !s[0].Contains(v)
  {
    assert s == [s[0]] + s[1..];
    CoversConcat([s[0]], s[1..], v);
    CoversOne(s[0], v);
    if Covers(s[1..], v) {
      var i :| 0 <= i < |s[1..]| && s[1..][i].Contains(v);
      assert s[0].upper < s[i + 1].lower;
    }
  }

  /** Two canonical lists that denote the same set are the same list. */
  lemma {:induction false} CanonicalUnique(s: seq<Interval>, t: seq<Interval>)
    requires Canonical(s) && Canonical(t)
    ensures SameSet(s, t) <==> s == t
  {
    if SameSet(s, t) {
      if s != [] {
        FirstBlock(s, t);
        FirstBlock(t, s);
        TailSet(s, t);
        CanonicalUnique(s[1..], t[1..]);
        assert s == [s[0]] + s[1..] && t == [t[0]] + t[1..];
      } else if t != [] {
        FirstBlock(t, s);
      }
    }
  }

  // ---------------------------------------------------------------- the elements, in order

  ghost function Range(a: int, b: int): (s: seq<int>)
    requires a <= b
  {
    seq(b - a, i requires 0 <= i < b - a => a + i)
  }

  /** All values of the intervals, interval after interval. */
  ghost function Elements(s: seq<Interval>): (r: seq<int>)
    requires AllOrdered(s)
  {
    if s == [] then [] else Elements(s[..|s| - 1]) + Range(s[|s| - 1].lower, s[|s| - 1].upper)
  }

  lemma {:induction false} ElementsConcat(s: seq<Interval>, t: seq<Interval>)
    requires AllOrdered(s) && AllOrdered(t)
    ensures Elements(s + t) == Elements(s) + Elements(t)
  {
    if t == [] {
      assert s + t == s;
    } else {
      hide Range;
      var t', last := t[..|t| - 1], t[|t| - 1];
      ElementsConcat(s, t');
      var st := s + t;
      assert st[..|st| - 1] == s + t' && st[|st| - 1] == last;
      var e, f, r := Elements(s), Elements(t'), Range(last.lower, last.upper);
      assert (e + f) + r == e + (f + r);
    }
  }

  lemma ElementsOne(i: Interval)
    requires i.Ordered()
    ensures Elements([i]) == Range(i.lower, i.upper)
  {
    assert [i][..0] == [];
  }

  lemma {:induction false} ElementsCover(s: seq<Interval>, v: int)
    requires AllOrdered(s)
    ensures v in Elements(s) <==> Covers(s, v)
  {
    if s != [] {
      var n := |s| - 1;
      ElementsCover(s[..n], v);
      assert s == s[..n] + [s[n]];
      CoversConcat(s[..n], [s[n]], v);
      CoversOne(s[n], v);
      if s[n].Contains(v) {
        assert Range(s[n].lower, s[n].upper)[v - s[n].lower] == v;
      }
    }
  }

  ghost predicate Increasing(s: seq<int>) {
    forall i, j :: 0 <= i < j < |s| ==> s[i] < s[j]
  }

  /** For a sorted list, position r holds the r-th smallest element. */
  lemma {:induction false} ElementsIncrease(s: seq<Interval>)
    requires InOrder(s)
    ensures Increasing(Elements(s))
    ensures s != [] ==> forall i :: 0 <= i < |Elements(s)| ==> s[0].lower <= Elements(s)[i] < s[|s| - 1].upper
  {
    if s != [] {
      var n := |s| - 1;
      ElementsIncrease(s[..n]);
      var e, r := Elements(s[..n]), Range(s[n].lower, s[n].upper);
      assert Elements(s) == e + r;
      if n > 0 {
        assert s[..n][n - 1] == s[n - 1];
        assert forall i :: 0 <= i < |e| ==> e[i] < s[n].lower;
        assert s[0].lower <= s[n].lower;
      }
    }
  }

  lemma IncreasingIsDistinct(s: seq<int>)
    requires Increasing(s)
    ensures Distinct(s)
  {
  }

  /** The number of elements of a sorted list is a 32-bit number. */
  lemma SortedSizeFits(s: seq<Interval>)
    requires InOrder(s)
    ensures |Elements(s)| < WORD
  {
    ElementsIncrease(s);
    var e := Elements(s);
    forall i | 0 <= i < |e|
      ensures 0 <= e[i] < WORD - 1
    {
    }
    IncreasingIsDistinct(e);
    Pigeonhole(e, WORD - 1);
  }

  /** The list of elements of a sorted list counts the denoted set. */
  lemma SizeIsCardinality(s: seq<Interval>, members: set<int>)
    requires InOrder(s) && forall v :: v in members <==> Covers(s, v)
    ensures |Elements(s)| == |members|
  {
    ElementsIncrease(s);
    IncreasingIsDistinct(Elements(s));
    DistinctSize(Elements(s));
    forall v
      ensures v in SetOf(Elements(s)) <==> v in members
    {
      ElementsCover(s, v);
    }
    assert SetOf(Elements(s)) == members;
  }

  lemma {:induction false} ElementsPrefix(s: seq<Interval>, i: nat, j: nat)
    requires AllOrdered(s) && i <= j <= |s|
    ensures |Elements(s[..i])| <= |Elements(s[..j])| <= |Elements(s)|
    ensures Elements(s) == Elements(s[..i]) + Elements(s[i..])
    ensures Elements(s[..j]) == Elements(s[..i]) + Elements(s[i..j])
  {
    assert s == s[..i] + s[i..] && s == s[..j] + s[j..] && s[..j] == s[..i] + s[i..j];
    ElementsConcat(s[..i], s[i..]);
    ElementsConcat(s[..j], s[j..]);
    ElementsConcat(s[..i], s[i..j]);
  }

  lemma ElementsStep(s: seq<Interval>, i: nat)
    requires AllOrdered(s) && i < |s|
    ensures Elements(s[..i + 1]) == Elements(s[..i]) + Range(s[i].lower, s[i].upper)
    ensures Elements(s[i..]) == Range(s[i].lower, s[i].upper) + Elements(s[i + 1..])
    ensures s[i].Width() == s[i].upper - s[i].lower
  {
    assert s[..i + 1][..i] == s[..i];
    assert s[i..] == [s[i]] + s[i + 1..];
    ElementsConcat([s[i]], s[i + 1..]);
    ElementsOne(s[i]);
  }
}
