/** list_intervals_properties.h: a sweep line turns overlapping intervals with properties into a map that is
    constant from one bound to the next. */
module Properties {
  import opened Words
  import opened Permutations
  import opened Intervals
  import opened Sorting

  datatype Option<+T> = None | Some(value: T)

  /** A bound of the interval number `idx`: its property starts (push) or stops (pop) there. */
  datatype Event = Event(x: uint32, idx: nat, push: bool)

  datatype Slice<P> = Slice(interval: Interval, property: P)

  const BY_BOUND: Event -> int := (e: Event) => e.x

  // ---------------------------------------------------------------- events

  ghost function EventOf(added: seq<Interval>, k: nat, push: bool): Event
    requires k < |added|
  {
    Event(if push then added[k].lower else added[k].upper, k, push)
  }

  /** The events in the order of the additions, two for each. */
  ghost predicate EventsOf(ir: seq<Event>, added: seq<Interval>) {
    && |ir| == 2 * |added|
    && forall k :: 0 <= k < |added| ==>
                     ir[2 * k] == EventOf(added, k, true) && ir[2 * k + 1] == EventOf(added, k, false)
  }

  /** Some order of the events by bound; events at the same bound come in any order. */
  ghost predicate SweepOrder(order: seq<Event>, added: seq<Interval>) {
    && (forall i, j :: 0 <= i < j < |order| ==> order[i].x <= order[j].x)
    && Distinct(order)
    && forall e :: e in order <==> e.idx < |added| && e == EventOf(added, e.idx, e.push)
  }

  lemma EventsDistinct(ir: seq<Event>, added: seq<Interval>)
    requires EventsOf(ir, added)
    ensures Distinct(ir)
    ensures forall e :: e in ir <==> e.idx < |added| && e == EventOf(added, e.idx, e.push)
  {
    forall i | 0 <= i < |ir|
      ensures ir[i] == EventOf(added, i / 2, i % 2 == 0)
    {
      assert i == 2 * (i / 2) || i == 2 * (i / 2) + 1;
    }
    forall e: Event | e.idx < |added| && e == EventOf(added, e.idx, e.push)
      ensures e in ir
    {
      assert ir[if e.push then 2 * e.idx else 2 * e.idx + 1] == e;
    }
  }

  lemma {:induction false} SameCountsDistinct<T>(s: seq<T>, t: seq<T>)
    requires multiset(s) == multiset(t) && Distinct(s)
    ensures Distinct(t)
  {
    forall i, j | 0 <= i < j < |t|
      ensures t[i] != t[j]
    {
      DistinctCount(s, t[i]);
      assert t == t[..i] + [t[i]] + t[i + 1..j] + [t[j]] + t[j + 1..];
    }
  }

  /** Whatever an unstable sort returns is a sweep order. */
  lemma SortedIsSweepOrder(order: seq<Event>, ir: seq<Event>, added: seq<Interval>)
    requires EventsOf(ir, added) && multiset(order) == multiset(ir) && SortedBy(order, BY_BOUND)
    ensures SweepOrder(order, added)
  {
    EventsDistinct(ir, added);
    SameCountsDistinct(ir, order);
    SameMembers(order, ir);
    forall i, j | 0 <= i < j < |order|
      ensures order[i].x <= order[j].x
    {
      assert BY_BOUND(order[i]) <= BY_BOUND(order[j]);
    }
  }

  // ---------------------------------------------------------------- what is active

  /** Finding an entry and erasing it. */
  function Without(a: seq<nat>, k: nat): seq<nat> {
    if a == [] then [] else if a[0] == k then a[1..] else [a[0]] + Without(a[1..], k)
  }

  /** The intervals entered and not left, in the order they were entered. */
  ghost function Active(es: seq<Event>): (a: seq<nat>) {
    if es == [] then []
    else
      var e := es[|es| - 1];
      if e.push then Active(es[..|es| - 1]) + [e.idx] else Without(Active(es[..|es| - 1]), e.idx)
  }

  lemma {:induction false} WithoutMembers(a: seq<nat>, k: nat)
    requires Distinct(a)
    ensures Distinct(Without(a, k))
    ensures forall j :: j in Without(a, k) <==> j in a && j != k
  {
    if a != [] {
      var t := a[1..];
      assert a == [a[0]] + t;
      assert a[0] !in t;
      if a[0] != k {
        WithoutMembers(t, k);
        assert Without(a, k) == [a[0]] + Without(t, k);
      }
    }
  }

  lemma TakeMember(order: seq<Event>, j: nat, e: Event)
    requires j < |order|
    ensures e in order[..j + 1] <==> e in order[..j] || e == order[j]
  {
    assert order[..j + 1] == order[..j] + [order[j]];
  }

  /** Active are exactly the intervals whose push has come and whose pop has not. */
  lemma {:induction false} ActiveMembers(order: seq<Event>, added: seq<Interval>, j: nat)
    requires SweepOrder(order, added) && NoneEmpty(added) && j <= |order|
    ensures Distinct(Active(order[..j]))
    ensures forall k: nat :: k in Active(order[..j]) <==>
              k < |added| && EventOf(added, k, true) in order[..j] && EventOf(added, k, false) !in order[..j]
  {
    if j > 0 {
      ActiveMembers(order, added, j - 1);
      var e := order[j - 1];
      assert e in order;
      assert order[..j][..j - 1] == order[..j - 1];
      assert e !in order[..j - 1];
      var a := Active(order[..j - 1]);
      PopAfterPush(order, added, j - 1);
      forall f
        ensures f in order[..j] <==> f in order[..j - 1] || f == e
      {
        TakeMember(order, j - 1, f);
      }
      if !e.push {
        WithoutMembers(a, e.idx);
      } else {
        assert e.idx !in a;
      }
    }
  }

  /** Every pop comes after its own push, because no interval is empty. */
  lemma PopAfterPush(order: seq<Event>, added: seq<Interval>, j: nat)
    requires SweepOrder(order, added) && NoneEmpty(added) && j < |order|
    ensures order[j] in order && order[j].idx < |added|
    ensures order[j].push ==> EventOf(added, order[j].idx, false) !in order[..j]
    ensures !order[j].push ==> EventOf(added, order[j].idx, true) in order[..j]
  {
    var e := order[j];
    assert e in order;
    var other := EventOf(added, e.idx, !e.push);
    assert other in order;
    var i :| 0 <= i < |order| && order[i] == other;
    if e.push {
      assert forall l :: 0 <= l < j ==> order[..j][l].x <= e.x < other.x;
    } else {
      assert i < j;
      assert order[..j][i] == other;
    }
  }

  /** The pop's search in the active list always succeeds. */
  lemma PopFindsPush(order: seq<Event>, added: seq<Interval>, j: nat)
    requires SweepOrder(order, added) && NoneEmpty(added) && j < |order| && !order[j].push
    ensures order[j].idx in Active(order[..j])
  {
    ActiveMembers(order, added, j);
    PopAfterPush(order, added, j);
  }

  /** The sweep starts with a push. */
  lemma FirstIsPush(order: seq<Event>, added: seq<Interval>)
    requires SweepOrder(order, added) && NoneEmpty(added) && order != []
    ensures order[0].push
  {
    PopAfterPush(order, added, 0);
  }

  // ---------------------------------------------------------------- activation order

  /** The pushes of the intervals of `keep`, in sweep order. */
  ghost function PushOrder(es: seq<Event>, keep: set<nat>): (a: seq<nat>) {
    if es == [] then []
    else
      var e := es[|es| - 1];
      if e.push && e.idx in keep then PushOrder(es[..|es| - 1], keep) + [e.idx] else PushOrder(es[..|es| - 1], keep)
  }

  /** Activation order: what is listed earlier was pushed earlier. */
  lemma {:induction false} PushOrderByTime(es: seq<Event>, keep: set<nat>, i: nat, j: nat) returns (p: nat, q: nat)
    requires i < j < |PushOrder(es, keep)|
    ensures p < q < |es| && es[p].push && es[q].push
    ensures es[p].idx == PushOrder(es, keep)[i] && es[q].idx == PushOrder(es, keep)[j]
  {
    var n := |es| - 1;
    var a := PushOrder(es[..n], keep);
    if j < |a| {
      p, q := PushOrderByTime(es[..n], keep, i, j);
    } else {
      p := PushTime(es[..n], keep, i);
      q := n;
    }
  }

  lemma {:induction false} PushTime(es: seq<Event>, keep: set<nat>, i: nat) returns (p: nat)
    requires i < |PushOrder(es, keep)|
    ensures p < |es| && es[p].push && es[p].idx == PushOrder(es, keep)[i]
  {
    var n := |es| - 1;
    if i < |PushOrder(es[..n], keep)| {
      p := PushTime(es[..n], keep, i);
    } else {
      p := n;
    }
  }

  lemma {:induction false} PushOrderMembers(es: seq<Event>, keep: set<nat>)
    ensures forall k :: k in PushOrder(es, keep) ==>
                          k in keep && exists i :: 0 <= i < |es| && es[i].push && es[i].idx == k
    ensures forall i :: 0 <= i < |es| && es[i].push && es[i].idx in keep ==> es[i].idx in PushOrder(es, keep)
  {
    if es != [] {
      var n := |es| - 1;
      PushOrderMembers(es[..n], keep);
      forall k | k in PushOrder(es, keep)
        ensures k in keep && exists i :: 0 <= i < |es| && es[i].push && es[i].idx == k
      {
        if k in PushOrder(es[..n], keep) {
          var i :| 0 <= i < |es[..n]| && es[..n][i].push && es[..n][i].idx == k;
          assert es[i].push && es[i].idx == k;
        } else {
          assert es[n].push && es[n].idx == k;
        }
      }
      forall i | 0 <= i < |es| && es[i].push && es[i].idx in keep
        ensures es[i].idx in PushOrder(es, keep)
      {
        if i < n {
          assert es[..n][i] == es[i];
        }
      }
    }
  }

  ghost predicate PushedOnce(es: seq<Event>) {
    forall i, j :: 0 <= i < j < |es| && es[i].push && es[j].push ==> es[i].idx != es[j].idx
  }

  lemma {:induction false} PushOrderAgrees(es: seq<Event>, s: set<nat>, t: set<nat>)
    requires forall i :: 0 <= i < |es| && es[i].push ==> (es[i].idx in s <==> es[i].idx in t)
    ensures PushOrder(es, s) == PushOrder(es, t)
  {
    if es != [] {
      var n := |es| - 1;
      assert forall i :: 0 <= i < n ==> es[..n][i] == es[i];
      PushOrderAgrees(es[..n], s, t);
    }
  }

  lemma {:induction false} WithoutSnoc(a: seq<nat>, y: nat, k: nat)
    ensures Without(a + [y], k) == if k in a then Without(a, k) + [y] else if y == k then a else a + [y]
  {
    if a == [] {
      assert a + [y] == [y];
    } else {
      assert a == [a[0]] + a[1..];
      assert (a + [y])[1..] == a[1..] + [y];
      WithoutSnoc(a[1..], y, k);
      WithoutAbsent(a, k);
    }
  }

  lemma {:induction false} WithoutAbsent(a: seq<nat>, k: nat)
    ensures k !in a ==> Without(a, k) == a
  {
    if a != [] && k !in a {
      WithoutAbsent(a[1..], k);
    }
  }

  /** Erasing from the activation order is leaving the interval out of it. */
  lemma {:induction false} PushOrderWithout(es: seq<Event>, s: set<nat>, k: nat)
    requires PushedOnce(es)
    ensures PushOrder(es, s - {k}) == Without(PushOrder(es, s), k)
  {
    if es != [] {
      var n := |es| - 1;
      var e := es[n];
      assert forall i :: 0 <= i < n ==> es[..n][i] == es[i];
      PushOrderWithout(es[..n], s, k);
      PushOrderMembers(es[..n], s);
      var a := PushOrder(es[..n], s);
      if e.push && e.idx in s {
        WithoutSnoc(a, e.idx, k);
        assert e.idx !in a;
        WithoutAbsent(a, k);
      }
    }
  }

  lemma PrefixPushedOnce(order: seq<Event>, added: seq<Interval>, j: nat)
    requires SweepOrder(order, added) && j <= |order|
    ensures PushedOnce(order[..j])
  {
    forall i, l | 0 <= i < l < j && order[i].push && order[l].push
      ensures order[i].idx != order[l].idx
    {
      assert order[i] in order && order[l] in order;
    }
  }

  lemma EnterInOrder(before: seq<Event>, a: seq<nat>, e: Event)
    requires e.push && PushedOnce(before + [e]) && a == PushOrder(before, SetOf(a))
    ensures a + [e.idx] == PushOrder(before + [e], SetOf(a + [e.idx]))
  {
    var es := before + [e];
    assert es[..|before|] == before;
    forall i | 0 <= i < |before| && before[i].push
      ensures before[i].idx != e.idx
    {
      assert es[i] == before[i] && es[|before|] == e;
    }
    assert SetOf(a + [e.idx]) == SetOf(a) + {e.idx};
    PushOrderAgrees(before, SetOf(a), SetOf(a + [e.idx]));
  }

  lemma LeaveInOrder(before: seq<Event>, a: seq<nat>, e: Event)
    requires !e.push && PushedOnce(before) && Distinct(a) && a == PushOrder(before, SetOf(a))
    ensures Without(a, e.idx) == PushOrder(before + [e], SetOf(Without(a, e.idx)))
  {
    assert (before + [e])[..|before|] == before;
    WithoutMembers(a, e.idx);
    assert SetOf(Without(a, e.idx)) == SetOf(a) - {e.idx};
    PushOrderWithout(before, SetOf(a), e.idx);
  }

  /** The active list is always in activation order. */
  lemma {:induction false} ActiveInOrder(order: seq<Event>, added: seq<Interval>, j: nat)
    requires SweepOrder(order, added) && NoneEmpty(added) && j <= |order|
    ensures Active(order[..j]) == PushOrder(order[..j], SetOf(Active(order[..j])))
  {
    if j > 0 {
      var before := order[..j - 1];
      var e := order[j - 1];
      ActiveInOrder(order, added, j - 1);
      ActiveMembers(order, added, j - 1);
      PrefixPushedOnce(order, added, j);
      PrefixPushedOnce(order, added, j - 1);
      assert order[..j] == before + [e] && order[..j][..j - 1] == before;
      hide SweepOrder;
      hide PushOrder;
      hide PushedOnce;
      if e.push {
        EnterInOrder(before, Active(before), e);
      } else {
        LeaveInOrder(before, Active(before), e);
      }
    }
  }

  // ---------------------------------------------------------------- at one value

  ghost function Covering(added: seq<Interval>, v: int): set<nat> {
    set k: nat | k < |added| && added[k].Contains(v)
  }

  lemma PrefixByBound(order: seq<Event>, added: seq<Interval>, j: nat, v: int, e: Event)
    requires SweepOrder(order, added) && e in order
    requires 0 < j < |order| && order[j - 1].x <= v < order[j].x
    ensures e in order[..j] <==> e.x <= v
  {
    var i :| 0 <= i < |order| && order[i] == e;
    assert forall l :: 0 <= l < j ==> order[..j][l].x <= order[j - 1].x;
    if i < j {
      assert order[..j][i] == e;
    }
  }

  lemma CoveredIsActive(order: seq<Event>, added: seq<Interval>, j: nat, v: int)
    requires SweepOrder(order, added) && NoneEmpty(added)
    requires 0 < j < |order| && order[j - 1].x <= v < order[j].x
    ensures forall k: nat :: k in SetOf(Active(order[..j])) <==> k in Covering(added, v)
  {
    ActiveMembers(order, added, j);
    hide Active;
    hide Distinct;
    forall k: nat
      ensures k in SetOf(Active(order[..j])) <==> k in Covering(added, v)
    {
      assert k in SetOf(Active(order[..j])) <==> k in Active(order[..j]);
      if k < |added| {
        var push, pop := EventOf(added, k, true), EventOf(added, k, false);
        assert push in order && pop in order;
        PrefixByBound(order, added, j, v, push);
        PrefixByBound(order, added, j, v, pop);
      }
    }
  }

  /** Between two bounds, active are exactly the intervals that contain the value, in activation order. */
  lemma ActiveAt(order: seq<Event>, added: seq<Interval>, j: nat, v: int)
    requires SweepOrder(order, added) && NoneEmpty(added)
    requires 0 < j < |order| && order[j - 1].x <= v < order[j].x
    ensures Active(order[..j]) == PushOrder(order, Covering(added, v))
  {
    var a := Active(order[..j]);
    CoveredIsActive(order, added, j, v);
    assert SetOf(a) == Covering(added, v);
    ActiveInOrder(order, added, j);
    LaterPushesMiss(order, added, j, v, |order|);
    assert order[..|order|] == order;
  }

  lemma {:induction false} LaterPushesMiss(order: seq<Event>, added: seq<Interval>, j: nat, v: int, m: nat)
    requires SweepOrder(order, added)
    requires j <= m <= |order| && (j < |order| ==> v < order[j].x)
    ensures PushOrder(order[..m], Covering(added, v)) == PushOrder(order[..j], Covering(added, v))
  {
    if j < m {
      LaterPushesMiss(order, added, j, v, m - 1);
      assert order[..m][..m - 1] == order[..m - 1];
      var e := order[m - 1];
      assert e in order;
      assert e.x >= order[j].x > v;
    }
  }

  // ---------------------------------------------------------------- slices

  ghost function PropsOf<P>(props: seq<P>, idxs: seq<nat>): (s: seq<P>)
    requires forall i :: 0 <= i < |idxs| ==> idxs[i] < |props|
  {
    seq(|idxs|, i requires 0 <= i < |idxs| => props[idxs[i]])
  }

  lemma ActiveInRange(order: seq<Event>, added: seq<Interval>, j: nat)
    requires SweepOrder(order, added) && NoneEmpty(added) && j <= |order|
    ensures forall i :: 0 <= i < |Active(order[..j])| ==> Active(order[..j])[i] < |added|
  {
    ActiveMembers(order, added, j);
    var a := Active(order[..j]);
    forall i | 0 <= i < |a|
      ensures a[i] < |added|
    {
      assert a[i] in a;
    }
  }

  ghost function ActiveProps<P>(order: seq<Event>, added: seq<Interval>, props: seq<P>, j: nat): (s: seq<P>)
    requires SweepOrder(order, added) && NoneEmpty(added) && j <= |order| && |props| == |added|
  {
    ActiveInRange(order, added, j);
    PropsOf(props, Active(order[..j]))
  }

  /** The properties of the intervals containing `v`, in activation order. */
  ghost function PropsAt<P>(order: seq<Event>, added: seq<Interval>, props: seq<P>, v: int): (s: seq<P>)
    requires SweepOrder(order, added) && |props| == |added|
  {
    PushOrderMembers(order, Covering(added, v));
    var a := PushOrder(order, Covering(added, v));
    assert forall i :: 0 <= i < |a| ==> a[i] in a;
    PropsOf(props, a)
  }

  /** The properties at `v` are those of exactly the intervals that contain it, each once. */
  lemma PropsAtMeaning<P>(order: seq<Event>, added: seq<Interval>, props: seq<P>, v: int)
    requires SweepOrder(order, added) && |props| == |added|
    ensures var a := PushOrder(order, Covering(added, v));
      && Distinct(a) && (forall k: nat :: k in a <==> k < |added| && added[k].lower <= v < added[k].upper)
      && |PropsAt(order, added, props, v)| == |a|
      && forall i :: 0 <= i < |a| ==> a[i] < |props| && PropsAt(order, added, props, v)[i] == props[a[i]]
  {
    var a := PushOrder(order, Covering(added, v));
    CoveringPushed(order, added, v);
    assert forall i :: 0 <= i < |a| ==> a[i] in a;
  }

  /** One slice between each two consecutive events, holding the merged properties active there. */
  ghost predicate SlicesUpTo<P>(slices: seq<Slice<P>>, order: seq<Event>, added: seq<Interval>, props: seq<P>,
                                merge: seq<P> -> P, n: nat)
  {
    && SweepOrder(order, added) && NoneEmpty(added) && |props| == |added|
    && n <= |order|
    && |slices| == (if n == 0 then 0 else n - 1)
    && forall k :: 0 <= k < |slices| ==> SliceIs(slices[k], order, added, props, merge, k)
  }

  ghost predicate SliceIs<P>(slice: Slice<P>, order: seq<Event>, added: seq<Interval>, props: seq<P>,
                             merge: seq<P> -> P, k: nat)
    requires SweepOrder(order, added) && NoneEmpty(added) && |props| == |added| && k + 1 < |order|
  {
    && slice.interval == Interval(order[k].x, order[k + 1].x)
    && slice.property == merge(ActiveProps(order, added, props, k + 1))
  }

  ghost predicate Chain<P>(slices: seq<Slice<P>>) {
    && (forall k :: 0 <= k < |slices| ==> slices[k].interval.Ordered())
    && (forall k, l :: 0 <= k < l < |slices| ==> slices[k].interval.upper <= slices[l].interval.lower)
  }

  ghost predicate InSlice<P>(slices: seq<Slice<P>>, k: int, v: int) {
    0 <= k < |slices| && slices[k].interval.Contains(v)
  }

  lemma SlicesChain<P>(slices: seq<Slice<P>>, order: seq<Event>, added: seq<Interval>, props: seq<P>,
                       merge: seq<P> -> P)
    requires SlicesUpTo(slices, order, added, props, merge, |order|)
    ensures Chain(slices)
  {
    forall k | 0 <= k < |slices|
      ensures slices[k].interval == Interval(order[k].x, order[k + 1].x)
    {
      assert SliceIs(slices[k], order, added, props, merge, k);
    }
    forall k, l | 0 <= k < l < |slices|
      ensures slices[k].interval.upper <= slices[l].interval.lower
    {
      assert k + 1 == l || order[k + 1].x <= order[l].x;
    }
  }

  /** A value has a property when it lies between the first and the last bound; gaps in between have one too. */
  ghost predicate InHull(added: seq<Interval>, v: int) {
    exists a, b :: 0 <= a < |added| && 0 <= b < |added| && added[a].lower <= v < added[b].upper
  }

  lemma HullBounds(order: seq<Event>, added: seq<Interval>, v: int)
    requires SweepOrder(order, added) && NoneEmpty(added)
    ensures InHull(added, v) <==> order != [] && order[0].x <= v < order[|order| - 1].x
  {
    if InHull(added, v) {
      var a, b :| 0 <= a < |added| && 0 <= b < |added| && added[a].lower <= v < added[b].upper;
      assert EventOf(added, a, true) in order && EventOf(added, b, false) in order;
    }
    if order != [] && order[0].x <= v < order[|order| - 1].x {
      FirstIsPush(order, added);
      assert order[0] in order && order[|order| - 1] in order;
      LastIsPop(order, added);
      assert added[order[0].idx].lower <= v < added[order[|order| - 1].idx].upper;
    }
  }

  lemma LastIsPop(order: seq<Event>, added: seq<Interval>)
    requires SweepOrder(order, added) && NoneEmpty(added) && order != []
    ensures !order[|order| - 1].push
  {
    var e := order[|order| - 1];
    assert e in order;
    assert EventOf(added, e.idx, false) in order;
    assert forall i :: 0 <= i < |order| ==> order[i].x <= e.x;
  }

  lemma {:induction false} FindSlice(order: seq<Event>, v: int, n: nat) returns (k: nat)
    requires 1 < n <= |order| && order[0].x <= v < order[n - 1].x
    ensures k + 1 < n && order[k].x <= v < order[k + 1].x
  {
    if n == 2 || order[n - 2].x <= v {
      k := n - 2;
    } else {
      k := FindSlice(order, v, n - 1);
    }
  }

  /** What a look-up in the finished map answers, for whatever way of merging the sweep maintained. */
  ghost predicate LookUp<P>(slices: seq<Slice<P>>, v: int, r: Option<P>) {
    match r
    case None => forall k :: !InSlice(slices, k, v)
    case Some(p) => exists k :: InSlice(slices, k, v) && slices[k].property == p
  }

  lemma LookUpMeans<P>(slices: seq<Slice<P>>, order: seq<Event>, added: seq<Interval>, props: seq<P>,
                       merge: seq<P> -> P, v: int, r: Option<P>)
    requires SlicesUpTo(slices, order, added, props, merge, |order|) && LookUp(slices, v, r)
    ensures r == if InHull(added, v) then Some(merge(PropsAt(order, added, props, v))) else None
  {
    HullBounds(order, added, v);
    if InHull(added, v) {
      var k := FindSlice(order, v, |order|);
      assert SliceIs(slices[k], order, added, props, merge, k);
      assert InSlice(slices, k, v);
      var l :| InSlice(slices, l, v) && slices[l].property == r.value;
      assert SliceIs(slices[l], order, added, props, merge, l);
      SlicesChain(slices, order, added, props, merge);
      assert k == l;
      ActiveAt(order, added, k + 1, v);
    } else {
      forall k | 0 <= k < |slices|
        ensures !InSlice(slices, k, v)
      {
        assert SliceIs(slices[k], order, added, props, merge, k);
        assert k > 0 ==> order[0].x <= order[k].x;
        assert k + 2 < |order| ==> order[k + 1].x <= order[|order| - 1].x;
      }
    }
  }

  // ---------------------------------------------------------------- merging without removal

  /** The left fold of the merge operation; with nothing to merge, a default-made property. */
  ghost function Fold<P>(fadd: (P, P) -> P, default: P, ps: seq<P>): (r: P) {
    if ps == [] then default
    else if |ps| == 1 then ps[0]
    else fadd(Fold(fadd, default, ps[..|ps| - 1]), ps[|ps| - 1])
  }

  lemma FoldSnoc<P>(fadd: (P, P) -> P, default: P, ps: seq<P>, p: P)
    ensures Fold(fadd, default, ps + [p]) == if ps == [] then p else fadd(Fold(fadd, default, ps), p)
  {
    assert (ps + [p])[..|ps|] == ps;
  }

  // ---------------------------------------------------------------- merging with removal

  /** A removal that undoes an addition, additions in any order, and a property that adds nothing. */
  ghost predicate Laws<P(!new)>(fadd: (P, P) -> P, fremove: (P, P) -> P, zero: P) {
    && (forall x, p :: fremove(fadd(x, p), p) == x)
    && (forall x, p, q :: fadd(fadd(x, p), q) == fadd(fadd(x, q), p))
    && (forall p :: fadd(zero, p) == p)
  }

  lemma Undo<P(!new)>(fadd: (P, P) -> P, fremove: (P, P) -> P, zero: P, x: P, p: P)
    requires Laws(fadd, fremove, zero)
    ensures fremove(fadd(x, p), p) == x
  {
  }

  lemma Commute<P(!new)>(fadd: (P, P) -> P, fremove: (P, P) -> P, zero: P, x: P, p: P, q: P)
    requires Laws(fadd, fremove, zero)
    ensures fadd(fadd(x, p), q) == fadd(fadd(x, q), p)
  {
  }

  ghost function Sum<P>(fadd: (P, P) -> P, zero: P, ps: seq<P>): (r: P) {
    if ps == [] then zero else fadd(Sum(fadd, zero, ps[..|ps| - 1]), ps[|ps| - 1])
  }

  lemma SumSnoc<P>(fadd: (P, P) -> P, zero: P, ps: seq<P>, p: P)
    ensures Sum(fadd, zero, ps + [p]) == fadd(Sum(fadd, zero, ps), p)
  {
    assert (ps + [p])[..|ps|] == ps;
  }

  /** Any one property can be taken to be the last one added. */
  lemma {:induction false} SumTakeOut<P(!new)>(fadd: (P, P) -> P, fremove: (P, P) -> P, zero: P, ps: seq<P>, i: nat)
    requires Laws(fadd, fremove, zero) && i < |ps|
    ensures Sum(fadd, zero, ps) == fadd(Sum(fadd, zero, ps[..i] + ps[i + 1..]), ps[i])
  {
    hide Laws;
    var n := |ps| - 1;
    if i == n {
      assert ps[..i] + ps[i + 1..] == ps[..n];
    } else {
      var qs := ps[..n];
      SumTakeOut(fadd, fremove, zero, qs, i);
      var rest := ps[..i] + ps[i + 1..];
      var others := qs[..i] + qs[i + 1..];
      assert rest == others + [ps[n]];
      SumSnoc(fadd, zero, others, ps[n]);
      Commute(fadd, fremove, zero, Sum(fadd, zero, others), ps[i], ps[n]);
    }
  }

  lemma {:induction false} WithoutSplit(a: seq<nat>, k: nat) returns (i: nat)
    requires k in a
    ensures i < |a| && a[i] == k && Without(a, k) == a[..i] + a[i + 1..]
  {
    if a[0] == k {
      i := 0;
    } else {
      i := WithoutSplit(a[1..], k);
      i := i + 1;
      assert a[..i] + a[i + 1..] == [a[0]] + (a[1..][..i - 1] + a[1..][i..]);
    }
  }

  /** Removing the property of a popped interval leaves the sum of the others. */
  lemma SumWithout<P(!new)>(fadd: (P, P) -> P, fremove: (P, P) -> P, zero: P, props: seq<P>, a: seq<nat>, k: nat)
    requires Laws(fadd, fremove, zero) && k in a && forall i :: 0 <= i < |a| ==> a[i] < |props|
    ensures k < |props|
    ensures forall i :: 0 <= i < |Without(a, k)| ==> Without(a, k)[i] < |props|
    ensures fremove(Sum(fadd, zero, PropsOf(props, a)), props[k]) == Sum(fadd, zero, PropsOf(props, Without(a, k)))
  {
    hide Laws;
    hide Sum;
    var i := WithoutSplit(a, k);
    var ps := PropsOf(props, a);
    var others := ps[..i] + ps[i + 1..];
    SumTakeOut(fadd, fremove, zero, ps, i);
    assert PropsOf(props, Without(a, k)) == others;
    Undo(fadd, fremove, zero, Sum(fadd, zero, others), props[k]);
  }

  /** The two merges agree when the default property adds nothing. */
  lemma {:induction false} FoldIsSum<P(!new)>(fadd: (P, P) -> P, fremove: (P, P) -> P, zero: P, ps: seq<P>)
    requires Laws(fadd, fremove, zero)
    ensures Fold(fadd, zero, ps) == Sum(fadd, zero, ps)
  {
    if |ps| == 1 {
      assert ps[..0] == [];
      assert Sum(fadd, zero, ps[..0]) == zero;
    } else if ps != [] {
      FoldIsSum(fadd, fremove, zero, ps[..|ps| - 1]);
    }
  }

  lemma SameMembersEmpty(a: seq<nat>, b: seq<nat>)
    requires forall k :: k in a <==> k in b
    ensures a == [] <==> b == []
  {
    if a != [] {
      assert a[0] in a;
    }
    if b != [] {
      assert b[0] in b;
    }
  }

  /** The sum does not depend on the order of the intervals. */
  lemma {:induction false} SumOrderFree<P(!new)>(fadd: (P, P) -> P, fremove: (P, P) -> P, zero: P, props: seq<P>,
                                                 a: seq<nat>, b: seq<nat>)
    requires Laws(fadd, fremove, zero) && Distinct(a) && Distinct(b)
    requires (forall k :: k in a <==> k in b) && forall i :: 0 <= i < |a| ==> a[i] < |props|
    ensures forall i :: 0 <= i < |b| ==> b[i] < |props|
    ensures Sum(fadd, zero, PropsOf(props, a)) == Sum(fadd, zero, PropsOf(props, b))
    decreases |a|
  {
    hide Laws;
    hide Sum;
    forall i | 0 <= i < |b|
      ensures b[i] < |props|
    {
      assert b[i] in a;
    }
    SameMembersEmpty(a, b);
    if a != [] {
      var n := |a| - 1;
      var k := a[n];
      assert k in b;
      var i := WithoutSplit(b, k);
      WithoutMembers(b, k);
      assert a == a[..n] + [k];
      SumOrderFree(fadd, fremove, zero, props, a[..n], Without(b, k));
      var pa, pb := PropsOf(props, a), PropsOf(props, b);
      SumTakeOut(fadd, fremove, zero, pb, i);
      assert pa == pa[..n] + [pa[n]];
      SumSnoc(fadd, zero, pa[..n], pa[n]);
      assert pa[..n] == PropsOf(props, a[..n]);
      assert pb[..i] + pb[i + 1..] == PropsOf(props, Without(b, k));
    }
  }

  lemma {:induction false} PushOrderDistinct(es: seq<Event>, keep: set<nat>)
    requires PushedOnce(es)
    ensures Distinct(PushOrder(es, keep))
  {
    if es != [] {
      var n := |es| - 1;
      assert forall i :: 0 <= i < n ==> es[..n][i] == es[i];
      PushOrderDistinct(es[..n], keep);
      PushOrderMembers(es[..n], keep);
    }
  }

  /** Both aggregations give the same property at every value, even when their unstable sorts ordered tied
      bounds differently. */
  lemma AggregationsAgree<P(!new)>(o1: seq<Event>, o2: seq<Event>, added: seq<Interval>, props: seq<P>, v: int,
                                   fadd: (P, P) -> P, fremove: (P, P) -> P, zero: P)
    requires SweepOrder(o1, added) && SweepOrder(o2, added) && |props| == |added| && Laws(fadd, fremove, zero)
    ensures Fold(fadd, zero, PropsAt(o1, added, props, v)) == Sum(fadd, zero, PropsAt(o2, added, props, v))
  {
    var keep := Covering(added, v);
    var a, b := PushOrder(o1, keep), PushOrder(o2, keep);
    FoldIsSum(fadd, fremove, zero, PropsAt(o1, added, props, v));
    CoveringPushed(o1, added, v);
    CoveringPushed(o2, added, v);
    assert forall i :: 0 <= i < |a| ==> a[i] in a;
    SumOrderFree(fadd, fremove, zero, props, a, b);
  }

  /** The activation order at `v` lists each interval containing `v` once. */
  lemma CoveringPushed(order: seq<Event>, added: seq<Interval>, v: int)
    requires SweepOrder(order, added)
    ensures Distinct(PushOrder(order, Covering(added, v)))
    ensures forall k: nat :: k in PushOrder(order, Covering(added, v)) <==> k < |added| && added[k].Contains(v)
  {
    var keep := Covering(added, v);
    PrefixPushedOnce(order, added, |order|);
    assert order[..|order|] == order;
    PushOrderDistinct(order, keep);
    PushOrderMembers(order, keep);
    forall k: nat | k < |added| && added[k].Contains(v)
      ensures k in PushOrder(order, keep)
    {
      var e := EventOf(added, k, true);
      assert e in order;
      var i :| 0 <= i < |order| && order[i] == e;
    }
  }

  /** Multisets with union and difference obey the laws: properties kept as bags of values. */
  lemma MultisetLaws<T(!new)>()
    ensures Laws((x: multiset<T>, p: multiset<T>) => x + p, (x: multiset<T>, p: multiset<T>) => x - p, multiset{})
  {
    forall x: multiset<T>, p: multiset<T>
      ensures (x + p) - p == x
    {
    }
    forall x: multiset<T>, p: multiset<T>, q: multiset<T>
      ensures (x + p) + q == (x + q) + p
    {
    }
    forall p: multiset<T>
      ensures multiset{} + p == p
    {
    }
  }

  // ---------------------------------------------------------------- the container

  class ListIntervalsProperties<P(!new)> {
    var ir: seq<Event>
    var irProps: seq<P>
    var slices: seq<Slice<P>>
    ghost var added: seq<Interval>
    ghost var props: seq<P>
    ghost var order: seq<Event>

    /** Intervals with properties have been added and nothing was aggregated yet. */
    ghost predicate Pending()
      reads this
    {
      EventsOf(ir, added) && irProps == props && |props| == |added| && slices == []
    }

    /** The map holds, between any two bounds, the merged properties of the intervals active there. */
    ghost predicate Aggregated(merge: seq<P> -> P)
      reads this
    {
      SlicesUpTo(slices, order, added, props, merge, |order|)
    }

    constructor ()
      ensures Pending() && added == [] && props == []
    {
      ir, irProps, slices, added, props, order := [], [], [], [], [], [];
    }

    method AddProperty(i: Interval, p: P)
      requires Pending()
      modifies this
      ensures Pending() && added == old(added) + [i] && props == old(props) + [p]
    {
      var k := |irProps|;
      irProps := irProps + [p];
      ir := ir + [Event(i.lower, k, true)];
      ir := ir + [Event(i.upper, k, false)];
      added := added + [i];
      props := props + [p];
    }

    /** The state between two events of a sweep: slices up to the last event, and what is merged since. */
    ghost predicate Sweeping(merge: seq<P> -> P, i: nat, prev: uint32, cur: P)
      reads this
    {
      && ir == order && irProps == props && 0 < i <= |ir|
      && SlicesUpTo(slices, order, added, props, merge, i)
      && prev == ir[i - 1].x && cur == merge(ActiveProps(order, added, props, i))
    }

    /** Closes the slice that the event number `i` ends. */
    method Emit(i: nat, prev: uint32, cur: P, ghost merge: seq<P> -> P) returns (elt: Event)
      requires i < |ir| && Sweeping(merge, i, prev, cur)
      modifies this`slices
      ensures elt == ir[i] && SlicesUpTo(slices, order, added, props, merge, i + 1)
    {
      elt := ir[i];
      SliceAppend(slices, order, added, props, merge, i, cur);
      slices := slices + [Slice(Interval(prev, elt.x), cur)];
    }

    /** With removal of the property at each upper bound. */
    method AggregateProperties(fadd: (P, P) -> P, fremove: (P, P) -> P, ghost zero: P)
      requires Pending() && NoneEmpty(added) && Laws(fadd, fremove, zero)
      modifies this
      ensures added == old(added) && props == old(props) && ir == []
      ensures Aggregated(ps => Sum(fadd, zero, ps))
    {
      if |ir| == 0 {
        order, slices := [], [];
        return;
      }
      SortIr();
      SweepWithRemoval(fadd, fremove, zero);
      ir, irProps := [], [];
    }

    method SweepWithRemoval(fadd: (P, P) -> P, fremove: (P, P) -> P, ghost zero: P)
      requires ir == order && irProps == props && slices == [] && |props| == |added| && ir != []
      requires SweepOrder(order, added) && NoneEmpty(added) && Laws(fadd, fremove, zero)
      modifies this`slices
      ensures Aggregated(ps => Sum(fadd, zero, ps))
    {
      hide Laws;
      hide NoneEmpty;
      hide SweepOrder;
      hide SliceIs;
      hide Active;
      hide PropsOf;
      hide ActiveProps;
      hide Sum;
      ghost var merge := (ps: seq<P>) => Sum(fadd, zero, ps);
      StartsWithPush(order, added, props);
      var prev := ir[0].x;
      var cur := irProps[ir[0].idx];
      SumOne(fadd, fremove, zero, cur);
      for i := 1 to |ir|
        invariant Sweeping(merge, i, prev, cur)
      {
        SumStep(order, added, props, i, fadd, fremove, zero);
        var elt := Emit(i, prev, cur, merge);
        if elt.push {
          cur := fadd(cur, irProps[elt.idx]);
        } else {
          cur := fremove(cur, irProps[elt.idx]);
        }
        prev := elt.x;
      }
    }

    /** Without a removal operation: the active properties are kept in a list and merged again at each pop. */
    method AggregatePropertiesNoRem(fadd: (P, P) -> P, default: P)
      requires Pending() && NoneEmpty(added)
      modifies this
      ensures added == old(added) && props == old(props) && ir == []
      ensures Aggregated(ps => Fold(fadd, default, ps))
    {
      if |ir| == 0 {
        order, slices := [], [];
        return;
      }
      SortIr();
      SweepWithoutRemoval(fadd, default);
      ir, irProps := [], [];
    }

    method SweepWithoutRemoval(fadd: (P, P) -> P, default: P)
      requires ir == order && irProps == props && slices == [] && |props| == |added| && ir != []
      requires SweepOrder(order, added) && NoneEmpty(added)
      modifies this`slices
      ensures Aggregated(ps => Fold(fadd, default, ps))
    {
      hide NoneEmpty;
      hide SweepOrder;
      hide SliceIs;
      hide Active;
      hide PropsOf;
      hide ActiveProps;
      hide Fold;
      hide Without;
      ghost var merge := (ps: seq<P>) => Fold(fadd, default, ps);
      StartsWithPush(order, added, props);
      var prev := ir[0].x;
      var curs := [ir[0].idx];
      var cur := irProps[ir[0].idx];
      FoldOne(fadd, default, cur);
      for i := 1 to |ir|
        invariant Sweeping(merge, i, prev, cur)
        invariant curs == Active(order[..i])
      {
        FoldStep(order, added, props, i, fadd, default);
        var elt := Emit(i, prev, cur, merge);
        if elt.push {
          cur := if |curs| == 0 then irProps[elt.idx] else fadd(cur, irProps[elt.idx]);
          curs := curs + [elt.idx];
        } else {
          assert elt.idx in curs;
          curs := Without(curs, elt.idx);
          cur := MergeProperties(curs, fadd, default);
        }
        prev := elt.x;
      }
    }

    /** Merges the listed properties from left to right. */
    method MergeProperties(idxs: seq<nat>, fadd: (P, P) -> P, default: P) returns (r: P)
      requires forall i :: 0 <= i < |idxs| ==> idxs[i] < |irProps|
      ensures r == Fold(fadd, default, PropsOf(irProps, idxs))
    {
      r := default;
      if |idxs| == 0 {
        return;
      }
      r := irProps[idxs[0]];
      ghost var ps := PropsOf(irProps, idxs);
      for i := 1 to |idxs|
        invariant r == Fold(fadd, default, ps[..i])
      {
        FoldSnoc(fadd, default, ps[..i], ps[i]);
        assert ps[..i + 1] == ps[..i] + [ps[i]];
        r := fadd(r, irProps[idxs[i]]);
      }
      assert ps[..|idxs|] == ps;
    }

    method SortIr()
      requires Pending() && ir != []
      modifies this`ir, this`order
      ensures ir == order && SweepOrder(order, added) && ir != []
    {
      ghost var was := ir;
      ir := Sort(ir, BY_BOUND);
      SortedIsSweepOrder(ir, was, added);
      order := ir;
    }

    /** Answers with the merged properties of exactly the intervals that contain `v`, in activation order, for
        every value between the first and the last bound. Indices are summed on 32 bits. */
    method PropertyOf(v: uint32, ghost merge: seq<P> -> P) returns (r: Option<P>)
      requires Aggregated(merge) && 2 * |slices| <= WORD
      ensures r == if InHull(added, v) then Some(merge(PropsAt(order, added, props, v))) else None
      ensures r.Some? <==> exists a, b :: 0 <= a < |added| && 0 <= b < |added| && added[a].lower <= v < added[b].upper
    {
      SlicesChain(slices, order, added, props, merge);
      r := Search(v);
      LookUpMeans(slices, order, added, props, merge, v, r);
    }

    /** Halving down to four slices, empty ones included; finds the property of the slice holding `v`. */
    method Search(v: uint32) returns (r: Option<P>)
      requires Chain(slices) && 2 * |slices| <= WORD
      ensures LookUp(slices, v, r)
    {
      var a: uint32, b: uint32 := 0, |slices|;
      while b - a > 4
        invariant a <= b <= |slices|
        invariant forall i :: InSlice(slices, i, v) ==> a <= i < b
        decreases b - a
      {
        WrapFits(b + a);
        var mid: uint32 := Wrap(b + a) / 2;
        var it := slices[mid].interval;
        if it.Contains(v) {
          assert InSlice(slices, mid, v);
          return Some(slices[mid].property);
        }
        forall i | InSlice(slices, i, v)
          ensures if v < it.lower then i < mid else mid <= i
        {
          if i < mid {
            assert slices[i].interval.upper <= slices[mid].interval.lower;
          }
          if mid < i {
            assert slices[mid].interval.upper <= slices[i].interval.lower;
          }
        }
        if v < it.lower {
          b := mid;
        } else {
          a := mid;
        }
      }
      for i := a to b
        invariant forall k :: a <= k < i ==> !InSlice(slices, k, v)
      {
        if slices[i].interval.Contains(v) {
          assert InSlice(slices, i, v);
          return Some(slices[i].property);
        }
      }
      return None;
    }
  }

  lemma StartsWithPush<P>(order: seq<Event>, added: seq<Interval>, props: seq<P>)
    requires SweepOrder(order, added) && NoneEmpty(added) && |props| == |added| && order != []
    ensures order[0].idx < |props| && order[0].push
    ensures ActiveProps(order, added, props, 1) == [props[order[0].idx]] && Active(order[..1]) == [order[0].idx]
  {
    FirstIsPush(order, added);
    assert order[0] in order;
    assert order[..1] == [order[0]] && order[..1][..0] == [];
    assert Active([]) == [];
  }

  lemma ActiveStep<P>(order: seq<Event>, added: seq<Interval>, props: seq<P>, i: nat)
    requires SweepOrder(order, added) && NoneEmpty(added) && |props| == |added| && i < |order|
    ensures order[i].idx < |props|
    ensures var a := Active(order[..i + 1]); forall l :: 0 <= l < |a| ==> a[l] < |props|
    ensures ActiveProps(order, added, props, i + 1) == PropsOf(props, Active(order[..i + 1]))
    ensures order[i].push ==> Active(order[..i + 1]) == Active(order[..i]) + [order[i].idx]
    ensures order[i].push ==>
              ActiveProps(order, added, props, i + 1) == ActiveProps(order, added, props, i) + [props[order[i].idx]]
    ensures !order[i].push ==> Active(order[..i + 1]) == Without(Active(order[..i]), order[i].idx)
  {
    ActiveInRange(order, added, i + 1);
    assert order[i] in order;
    assert order[..i + 1][..i] == order[..i];
  }

  /** How the sum of the active properties changes at an event. */
  lemma SumStep<P(!new)>(order: seq<Event>, added: seq<Interval>, props: seq<P>, i: nat,
                         fadd: (P, P) -> P, fremove: (P, P) -> P, zero: P)
    requires SweepOrder(order, added) && NoneEmpty(added) && |props| == |added| && i < |order|
    requires Laws(fadd, fremove, zero)
    ensures order[i].idx < |props|
    ensures var was := Sum(fadd, zero, ActiveProps(order, added, props, i));
            Sum(fadd, zero, ActiveProps(order, added, props, i + 1))
            == (if order[i].push then fadd(was, props[order[i].idx]) else fremove(was, props[order[i].idx]))
  {
    hide Laws;
    hide SweepOrder;
    hide NoneEmpty;
    hide Sum;
    hide Active;
    ActiveStep(order, added, props, i);
    ActiveInRange(order, added, i);
    if order[i].push {
      SumSnoc(fadd, zero, ActiveProps(order, added, props, i), props[order[i].idx]);
    } else {
      PopFindsPush(order, added, i);
      SumWithout(fadd, fremove, zero, props, Active(order[..i]), order[i].idx);
    }
  }

  /** How the fold of the active properties changes at an event. */
  lemma FoldStep<P>(order: seq<Event>, added: seq<Interval>, props: seq<P>, i: nat, fadd: (P, P) -> P, default: P)
    requires SweepOrder(order, added) && NoneEmpty(added) && |props| == |added| && i < |order|
    ensures order[i].idx < |props|
    ensures var was, a := ActiveProps(order, added, props, i), Active(order[..i]);
      && (order[i].push ==>
            && Active(order[..i + 1]) == a + [order[i].idx]
            && Fold(fadd, default, ActiveProps(order, added, props, i + 1))
               == (if |a| == 0 then props[order[i].idx] else fadd(Fold(fadd, default, was), props[order[i].idx])))
      && (!order[i].push ==>
            && order[i].idx in a && Active(order[..i + 1]) == Without(a, order[i].idx)
            && (forall l :: 0 <= l < |Without(a, order[i].idx)| ==> Without(a, order[i].idx)[l] < |props|)
            && ActiveProps(order, added, props, i + 1) == PropsOf(props, Without(a, order[i].idx)))
  {
    hide SweepOrder;
    hide NoneEmpty;
    hide Fold;
    hide Active;
    ActiveStep(order, added, props, i);
    ActiveInRange(order, added, i);
    if order[i].push {
      FoldSnoc(fadd, default, ActiveProps(order, added, props, i), props[order[i].idx]);
    } else {
      PopFindsPush(order, added, i);
    }
  }

  lemma SliceAppend<P>(slices: seq<Slice<P>>, order: seq<Event>, added: seq<Interval>, props: seq<P>,
                       merge: seq<P> -> P, i: nat, cur: P)
    requires 0 < i < |order| && SlicesUpTo(slices, order, added, props, merge, i)
    requires cur == merge(ActiveProps(order, added, props, i))
    ensures SlicesUpTo(slices + [Slice(Interval(order[i - 1].x, order[i].x), cur)], order, added, props, merge, i + 1)
  {
    var more := slices + [Slice(Interval(order[i - 1].x, order[i].x), cur)];
    forall k | 0 <= k < |more|
      ensures SliceIs(more[k], order, added, props, merge, k)
    {
      if k < |slices| {
        assert SliceIs(slices[k], order, added, props, merge, k);
      }
    }
  }

  lemma FoldOne<P>(fadd: (P, P) -> P, default: P, p: P)
    ensures Fold(fadd, default, []) == default && Fold(fadd, default, [p]) == p
  {
  }

  lemma SumOne<P(!new)>(fadd: (P, P) -> P, fremove: (P, P) -> P, zero: P, p: P)
    requires Laws(fadd, fremove, zero)
    ensures Sum(fadd, zero, [p]) == p
  {
    SumSnoc(fadd, zero, [], p);
    assert [] + [p] == [p];
    assert Sum(fadd, zero, []) == zero;
  }
}
