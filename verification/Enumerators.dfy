/** list_intervals_random.h: the two enumerations of a list in random order, by position and by promise. */
module Enumerators {
  import opened Words
  import opened Permutations
  import opened Intervals
  import opened Sweep
  import opened ListIntervalsModel
  import opened RandEngine
  import opened UniModel
  import opened RandomSets
  import opened Runs

  // ---------------------------------------------------------------- the schedule of a seed

  /** The element of a step: it depends on the list and the seed's set-up, not on the calls made. */
  ghost function StepElement(elems: seq<int>, u: Params, pos: uint32, step: uint32): int
    requires ValidParams(u) && u.max == |elems| && pos < u.max
  {
    StepValueBelow(u, pos, step);
    elems[StepValue(u, pos, step)]
  }

  /** The element of a step is the one at the rank that the generator gives so many positions further. */
  lemma StepElementRank(elems: seq<int>, u: Params, pos: uint32, step: uint32)
    requires ValidParams(u) && u.max == |elems| && pos < u.max
    ensures RankGiven(elems, u, ((pos + step) % 0x1_0000_0000) % u.max, StepElement(elems, u, pos, step))
  {
    hide CallGives;
    StepValueBelow(u, pos, step);
    ValueIsCall(u, Wrap(pos + step) % u.max);
    assert CallGives(u, ((pos + step) % 0x1_0000_0000) % u.max, StepValue(u, pos, step));
  }

  lemma StepValueBelow(u: Params, pos: uint32, step: uint32)
    requires ValidParams(u) && pos < u.max
    ensures StepValue(u, pos, step) < u.max
  {
    ValueBelow(u, Wrap(pos + step) % u.max);
  }

  /** The elements of the given steps, in their order. */
  ghost function Visited(elems: seq<int>, u: Params, pos: uint32, steps: seq<int>): (s: seq<int>)
    requires ValidParams(u) && u.max == |elems| && pos < u.max && Below(steps, |elems|)
  {
    seq(|steps|, i requires 0 <= i < |steps| => StepElement(elems, u, pos, steps[i]))
  }

  lemma StepElementInjective(elems: seq<int>, u: Params, pos: uint32, i: uint32, j: uint32)
    requires ValidParams(u) && u.max == |elems| && pos < u.max && Distinct(elems) && SumsFit(u, pos)
    requires i < u.max && j < u.max && StepElement(elems, u, pos, i) == StepElement(elems, u, pos, j)
    ensures i == j
  {
    StepPermutation(u, pos);
    StepValueBelow(u, pos, i);
    StepValueBelow(u, pos, j);
    var s := StepValues(u, pos);
    assert s[i] == StepValue(u, pos, i) && s[j] == StepValue(u, pos, j);
    assert s[i] == s[j];
  }

  /** Visiting distinct steps visits distinct elements; visiting every step once visits every element once. */
  lemma VisitedEachOnce(elems: seq<int>, u: Params, pos: uint32, steps: seq<int>)
    requires ValidParams(u) && u.max == |elems| && pos < u.max && Distinct(elems) && SumsFit(u, pos)
    requires Below(steps, |elems|) && Distinct(steps)
    ensures Distinct(Visited(elems, u, pos, steps))
    ensures |steps| == |elems| ==> EachOnce(Visited(elems, u, pos, steps), elems)
  {
    var out := Visited(elems, u, pos, steps);
    forall i, j | 0 <= i < j < |out|
      ensures out[i] != out[j]
    {
      if out[i] == out[j] {
        StepElementInjective(elems, u, pos, steps[i], steps[j]);
      }
    }
    if |steps| == |elems| {
      var ranks := seq(|steps|, i requires 0 <= i < |steps| => StepValue(u, pos, steps[i]));
      forall i | 0 <= i < |ranks|
        ensures 0 <= ranks[i] < u.max
      {
        StepValueBelow(u, pos, steps[i]);
      }
      forall i, j | 0 <= i < j < |ranks|
        ensures ranks[i] != ranks[j]
      {
        assert out[i] != out[j];
      }
      Pigeonhole(ranks, u.max);
      PermutedIsDistinct(elems, ranks, out);
    }
  }

  /** Visiting all steps of a seed in order hands out every element exactly once precisely when no sum wraps. */
  lemma ScheduleEachOnce(elems: seq<int>, u: Params, pos: uint32)
    requires ValidParams(u) && u.max == |elems| && pos < u.max && Distinct(elems)
    ensures Below(Iota(|elems|), |elems|)
    ensures EachOnce(Visited(elems, u, pos, Iota(|elems|)), elems) <==> SumsFit(u, pos)
  {
    var steps := Iota(|elems|);
    var out := Visited(elems, u, pos, steps);
    if SumsFit(u, pos) {
      VisitedEachOnce(elems, u, pos, steps);
    } else if EachOnce(out, elems) {
      StepPermutation(u, pos);
      var s := StepValues(u, pos);
      forall i | 0 <= i < |s|
        ensures 0 <= s[i] < u.max && elems[s[i]] == out[i]
      {
        StepValueBelow(u, pos, i);
      }
      forall i, j | 0 <= i < j < |s|
        ensures s[i] != s[j]
      {
        assert out[i] != out[j];
      }
      Pigeonhole(s, u.max);
    }
  }

  /** Visiting the first `k` steps gives what `k` calls of the generator pick, in the same order. */
  lemma StepsAreCalls(elems: seq<int>, u: Params, pos: uint32, k: nat)
    requires ValidParams(u) && u.max == |elems| && pos < u.max && SumsFit(u, pos) && k <= |elems|
    ensures Below(Iota(k), |elems|)
    ensures Visited(elems, u, pos, Iota(k)) == Delivered(elems, u, pos, k)
  {
    StreamBelow(u, pos, k);
    forall i | 0 <= i < k
      ensures StepValue(u, pos, i) == Stream(u, pos, k)[i]
    {
      WrapFits(pos + i);
    }
  }

  /** Over every run of a careful client the values handed out are distinct elements, and once nothing is left
      to do they are the elements of the steps asked for, each exactly once, restarts included. */
  lemma DeliveredExactlyOnce(elems: seq<int>, u: Params, pos: uint32, from: nat, to: nat, acts: seq<Action>)
    requires ValidParams(u) && u.max == |elems| && pos < u.max && Distinct(elems) && SumsFit(u, pos)
    requires from <= to <= |elems| && Careful(|elems|, Fresh(|elems|, from, to), acts)
    ensures var handed := Handed(|elems|, Fresh(|elems|, from, to), acts);
      && Below(handed, |elems|)
      && Distinct(Visited(elems, u, pos, handed))
      && (Run(|elems|, Fresh(|elems|, from, to), acts).todo == [] ==>
            Distinct(handed) && forall v :: v in handed <==> from <= v < to)
      && (Run(|elems|, Fresh(|elems|, from, to), acts).todo == [] && from == 0 && to == |elems| ==>
            EachOnce(Visited(elems, u, pos, handed), elems))
  {
    var n := |elems|;
    var p := Fresh(n, from, to);
    var handed := Handed(n, p, acts);
    NothingLost(n, from, to, acts);
    forall i | 0 <= i < |handed|
      ensures 0 <= handed[i] < n
    {
      assert handed[i] in handed;
    }
    CarefulNeverTwice(n, from, to, acts);
    if Run(n, p, acts).todo == [] {
      CarefulExactlyOnce(n, from, to, acts);
      if from == 0 && to == n {
        AllListed(handed, n);
      }
    }
    VisitedEachOnce(elems, u, pos, handed);
  }

  lemma AllListed(s: seq<int>, n: nat)
    requires Distinct(s) && forall v :: v in s <==> 0 <= v < n
    ensures |s| == n
  {
    IotaElements(n);
    DistinctSize(s);
    DistinctSize(Iota(n));
    assert SetOf(s) == SetOf(Iota(n));
  }

  // ---------------------------------------------------------------- by position

  class ListIntervalsRandom {
    const uprng: Uni
    var curStep: uint32
    var seed: nat

    constructor ()
      ensures fresh(uprng) && fresh(uprng.remPerm)
    {
      uprng := new Uni();
      curStep, seed := 0, 0;
    }

    /** The enumeration of a seed, entered at any step. */
    method Init(li: ListIntervals, eng: Engine, seed: nat, step: uint32)
      requires Ready(li)
      modifies this, uprng, eng
      ensures this.seed == seed && curStep == step && uprng.Valid() && fresh(uprng.remPerm)
      ensures uprng.Setup() == InitParams(eng.source, seed, 0, |Elements(li.intervals)|)
      ensures uprng.curPos == InitPos(eng.source, seed, 0, |Elements(li.intervals)|)
    {
      this.seed := seed;
      eng.Seed(seed);
      var n := li.Size();
      uprng.Init(n, eng);
      curStep := step;
    }

    method Next(li: ListIntervals) returns (v: uint32)
      requires Ready(li) && uprng.Valid() && uprng.max == |Elements(li.intervals)|
      modifies this`curStep
      ensures v == StepElement(Elements(li.intervals), uprng.Setup(), uprng.curPos, old(curStep))
      ensures RankGiven(Elements(li.intervals), uprng.Setup(),
                        ((uprng.curPos + old(curStep)) % 0x1_0000_0000) % uprng.max, v)
      ensures curStep == Wrap(old(curStep) + 1)
    {
      hide CallGives;
      hide RankGiven;
      hide CacheEntry;
      hide Elements;
      hide ValidParams;
      StepElementRank(Elements(li.intervals), uprng.Setup(), uprng.curPos, curStep);
      var n := uprng.GetStep(curStep);
      StepValueBelow(uprng.Setup(), uprng.curPos, curStep);
      curStep := Wrap(curStep + 1);
      v := li.AtCached(n);
    }

    method End() returns (b: bool)
      ensures b <==> curStep == uprng.max
    {
      b := curStep == uprng.max;
    }

    /** The seed and the step are all that is saved; the set-up is drawn again. */
    method SaveState() returns (seed: nat, step: uint32)
      ensures seed == this.seed && step == curStep
    {
      seed, step := this.seed, curStep;
    }

    method RestoreState(seed: nat, step: uint32, li: ListIntervals, eng: Engine)
      requires Ready(li)
      modifies this, uprng, eng
      ensures this.seed == seed && curStep == step && uprng.Valid() && fresh(uprng.remPerm)
      ensures uprng.Setup() == InitParams(eng.source, seed, 0, |Elements(li.intervals)|)
      ensures uprng.curPos == InitPos(eng.source, seed, 0, |Elements(li.intervals)|)
    {
      this.seed := seed;
      curStep := step;
      eng.Seed(seed);
      var n := li.Size();
      uprng.Init(n, eng);
    }
  }

  // ---------------------------------------------------------------- by promise

  const COMPACT_AT: nat := 100

  ghost function Covered(s: seq<Interval>): set<int>
    requires AllOrdered(s)
  {
    SetOf(Elements(s))
  }

  lemma CoveredMeaning(s: seq<Interval>, v: int)
    requires AllOrdered(s)
    ensures v in Covered(s) <==> Covers(s, v)
  {
    ElementsCover(s, v);
  }

  lemma SameCovered(s: seq<Interval>, t: seq<Interval>)
    requires AllOrdered(s) && AllOrdered(t) && SameSet(s, t)
    ensures Covered(s) == Covered(t)
  {
    forall v
      ensures v in Covered(s) <==> v in Covered(t)
    {
      CoveredMeaning(s, v);
      CoveredMeaning(t, v);
    }
  }

  /** Recording one more step. */
  lemma CoveredAppend(s: seq<Interval>, step: uint32)
    requires AllOrdered(s) && step + 1 < WORD
    ensures Covered(s + [Interval(step, step + 1)]) == Covered(s) + {step}
  {
    var i := Interval(step, step + 1);
    forall v
      ensures v in Covered(s + [i]) <==> v in Covered(s) + {step}
    {
      CoveredMeaning(s + [i], v);
      CoveredMeaning(s, v);
      CoversAppend(s, i, v);
    }
  }

  /** A sorted list without the steps done is the list of the remaining steps. */
  lemma TodoIsRemaining(todo: seq<Interval>, max: uint32, done: seq<Interval>)
    requires AllOrdered(todo) && Sorted(todo) && AllOrdered(done)
    requires Minus(todo, [Interval(0, max)], done)
    ensures Elements(todo) == Remaining(max, Covered(done))
  {
    ElementsIncrease(todo);
    RemainingMeaning(max, Covered(done));
    forall v
      ensures v in Elements(todo) <==> v in Remaining(max, Covered(done))
    {
      ElementsCover(todo, v);
      CoversOne(Interval(0, max), v);
      CoveredMeaning(done, v);
    }
    IncreasingUnique(Elements(todo), Remaining(max, Covered(done)));
  }

  /** The widths of a list of steps add up to the number of steps. */
  ghost predicate CountRight(s: seq<Interval>)
    requires AllOrdered(s)
  {
    |Elements(s)| == |Covered(s)|
  }

  /** Recording a step keeps the count right exactly when the step was not done before; a wrong count stays
      wrong. */
  lemma CountAfterStep(s: seq<Interval>, step: uint32)
    requires AllOrdered(s) && step + 1 < WORD
    ensures CountRight(s + [Interval(step, step + 1)]) <==> CountRight(s) && step !in Covered(s)
  {
    var i := Interval(step, step + 1);
    CoveredAppend(s, step);
    ElementsConcat(s, [i]);
    ElementsOne(i);
    SetOfSize(Elements(s));
    if step in Covered(s) {
      assert Covered(s) + {step} == Covered(s);
    }
  }

  /** An aggregated list has the right count. */
  lemma CountOfSeparated(s: seq<Interval>)
    requires Separated(s)
    ensures CountRight(s)
  {
    ElementsIncrease(s);
    IncreasingIsDistinct(Elements(s));
    DistinctSize(Elements(s));
  }

  /** A right count fits in 32 bits. */
  lemma RightCountFits(s: seq<Interval>)
    requires AllOrdered(s) && CountRight(s)
    ensures |Elements(s)| < WORD
  {
    var e := Elements(s);
    DistinctExactly(e);
    forall i | 0 <= i < |e|
      ensures 0 <= e[i] < WORD - 1
    {
      ElementsCover(s, e[i]);
    }
    Pigeonhole(e, WORD - 1);
  }

  /** A step confirmed twice is counted twice: here one step done gives a count of two. */
  lemma ConfirmedTwice()
    ensures var s := [Interval(5, 6)] + [Interval(5, 6)];
            AllOrdered(s) && Covered(s) == {5} && |Elements(s)| == 2 && !CountRight(s)
  {
    var i := Interval(5, 6);
    ElementsOne(i);
    ElementsConcat([i], [i]);
    CoveredAppend([i], 5);
    assert Range(5, 6) == [5];
    assert Covered([i]) == {5};
  }

  class ListIntervalsRandomPromise {
    const uprng: Uni
    const stepsTodo: ListIntervals
    const doneSteps: ListIntervals
    var itSteps: ValueIterator
    var seed: nat

    /** The parts that every operation keeps in order; the iterator may be unusable. */
    ghost predicate Whole()
      reads this, uprng, uprng.remPerm, stepsTodo, doneSteps, itSteps
    {
      && stepsTodo != doneSteps
      && uprng.Valid()
      && itSteps.list == stepsTodo
      && stepsTodo.excluded == []
      && AllOrdered(doneSteps.intervals) && doneSteps.excluded == []
    }

    ghost predicate Valid()
      reads this, uprng, uprng.remPerm, stepsTodo, doneSteps, itSteps
    {
      Whole() && itSteps.Valid()
    }

    ghost function State(): Progress
      requires Valid()
      reads this, uprng, uprng.remPerm, stepsTodo, doneSteps, itSteps
    {
      IteratorSpan(itSteps);
      Progress(Elements(stepsTodo.intervals)[itSteps.Rank()..], Covered(doneSteps.intervals))
    }

    constructor ()
      ensures fresh(uprng) && fresh(uprng.remPerm) && fresh(stepsTodo) && fresh(doneSteps) && fresh(itSteps)
      ensures stepsTodo != doneSteps && itSteps.list == stepsTodo
    {
      uprng := new Uni();
      var todo := new ListIntervals();
      stepsTodo := todo;
      doneSteps := new ListIntervals();
      itSteps := new ValueIterator.Begin(todo);
      seed := 0;
    }

    /** Clamps the bounds and swaps them when they come in the wrong order. An empty interval of steps leaves
        an iterator that is neither usable nor at the end; any other is a fresh enumeration. */
    method Init(li: ListIntervals, eng: Engine, seed: nat, stepStart: uint32, stepEnd: uint32)
      requires Ready(li) && stepsTodo != doneSteps && li != stepsTodo && li != doneSteps
      modifies this, uprng, stepsTodo, doneSteps, eng
      ensures fresh(itSteps) && fresh(uprng.remPerm) && Whole() && this.seed == seed
      ensures uprng.Setup() == InitParams(eng.source, seed, 0, |Elements(li.intervals)|)
      ensures uprng.curPos == InitPos(eng.source, seed, 0, |Elements(li.intervals)|)
      ensures var n := |Elements(li.intervals)|;
              var s, e := Least(stepStart, n), Least(stepEnd, n);
              && (Valid() <==> s != e)
              && (s == e ==> itSteps.iter != |stepsTodo.intervals|)
              && (s < e ==> State() == Fresh(n, s, e))
              && (e < s ==> State() == Fresh(n, e, s))
      ensures var n := |Elements(li.intervals)|;
              var s: nat := if stepStart >= n then n else stepStart;
              var e: nat := if stepEnd >= n then n else stepEnd;
              && (Valid() <==> s != e)
              && (s < e ==> State().todo == Range(s, e))
              && (e < s ==> State().todo == Range(e, s))
      ensures CountRight(doneSteps.intervals)
    {
      this.seed := seed;
      eng.Seed(seed);
      var n := li.Size();
      uprng.Init(n, eng);
      var end: uint32 := Least(stepEnd, n);
      var start: uint32 := Least(stepStart, n);
      if start > end {
        start, end := end, start;
      }
      ResetSteps(start, end);
    }

    method ResetSteps(start: uint32, end: uint32)
      requires stepsTodo != doneSteps && uprng.Valid() && start <= end <= uprng.max
      modifies this`itSteps, stepsTodo, doneSteps
      ensures fresh(itSteps) && Whole()
      ensures Valid() <==> start != end
      ensures start == end ==> itSteps.iter != |stepsTodo.intervals|
      ensures start < end ==> State() == Fresh(uprng.max, start, end)
      ensures CountRight(doneSteps.intervals)
    {
      stepsTodo.Clear();
      stepsTodo.Add(Interval(start, end));
      MarkOutside(start, end);
      itSteps := new ValueIterator.Begin(stepsTodo);
      ElementsOne(Interval(start, end));
      if start < end {
        IteratorAtBegin(itSteps);
      }
    }

    /** The steps outside [start, end) count as done. */
    method MarkOutside(start: uint32, end: uint32)
      requires start <= end <= uprng.max
      modifies doneSteps
      ensures AllOrdered(doneSteps.intervals) && doneSteps.excluded == []
      ensures CountRight(doneSteps.intervals)
      ensures Covered(doneSteps.intervals) == Outside(uprng.max, start, end)
    {
      hide Absorbed;
      hide Elements;
      hide Covered;
      hide Outside;
      doneSteps.Clear();
      doneSteps.Add(Interval(0, start));
      doneSteps.Add(Interval(end, uprng.max));
      ghost var twoSides := doneSteps.intervals;
      assert twoSides == [Interval(0, start)] + [Interval(end, uprng.max)];
      TwoSides(start, end, uprng.max);
      doneSteps.Aggregate();
      CountOfSeparated(doneSteps.intervals);
      SameCovered(doneSteps.intervals, twoSides);
    }

    static lemma TwoSides(start: uint32, end: uint32, n: uint32)
      requires start <= end <= n
      ensures AllOrdered([Interval(0, start)] + [Interval(end, n)])
      ensures Covered([Interval(0, start)] + [Interval(end, n)]) == Outside(n, start, end)
    {
      ElementsOne(Interval(0, start));
      ElementsOne(Interval(end, n));
      ElementsConcat([Interval(0, start)], [Interval(end, n)]);
    }

    static lemma IteratorAtBegin(it: ValueIterator)
      requires it.Valid() && it.iter == 0 && it.offset == 0
      ensures it.Rank() == 0
    {
      IteratorSpan(it);
    }

    method AtEnd() returns (b: bool)
      requires Whole()
      ensures b <==> itSteps.iter == |stepsTodo.intervals| && itSteps.offset == 0
      ensures Valid() ==> (b <==> State().todo == [])
    {
      var e := new ValueIterator.End(stepsTodo);
      b := itSteps.Equals(e);
      if Valid() {
        IteratorSpan(itSteps);
      }
    }

    method GetCurrentStep() returns (step: uint32)
      requires Valid() && State().todo != []
      ensures step == State().todo[0]
    {
      IteratorSpan(itSteps);
      step := itSteps.Value();
    }

    method GetCurrent(li: ListIntervals) returns (v: uint32)
      requires Valid() && State().todo != []
      requires Ready(li) && uprng.max == |Elements(li.intervals)|
      ensures 0 <= State().todo[0] < WORD
      ensures v == StepElement(Elements(li.intervals), uprng.Setup(), uprng.curPos, State().todo[0])
      ensures RankGiven(Elements(li.intervals), uprng.Setup(),
                        ((uprng.curPos + State().todo[0]) % 0x1_0000_0000) % uprng.max, v)
    {
      hide CallGives;
      hide RankGiven;
      hide ValidParams;
      hide CacheEntry;
      hide Elements;
      hide Covered;
      var step := GetCurrentStep();
      var r := uprng.GetStep(step);
      StepValueBelow(uprng.Setup(), uprng.curPos, step);
      StepElementRank(Elements(li.intervals), uprng.Setup(), uprng.curPos, step);
      v := li.AtCached(r);
    }

    method Advance()
      requires Valid() && State().todo != []
      modifies itSteps
      ensures Valid() && State() == After(uprng.max, old(State()), Hand)
    {
      hide ValidParams;
      hide Elements;
      hide Covered;
      hide AllOrdered;
      IteratorSpan(itSteps);
      itSteps.Next();
      IteratorSpan(itSteps);
    }

    /** operator(): hands out the element of the current step and moves on. */
    method Next(li: ListIntervals) returns (v: uint32)
      requires Valid() && State().todo != []
      requires Ready(li) && uprng.max == |Elements(li.intervals)|
      modifies itSteps
      ensures Valid() && State() == After(uprng.max, old(State()), Hand)
      ensures 0 <= old(State().todo[0]) < WORD
      ensures v == StepElement(Elements(li.intervals), uprng.Setup(), uprng.curPos, old(State().todo[0]))
      ensures RankGiven(Elements(li.intervals), uprng.Setup(),
                        ((uprng.curPos + old(State().todo[0])) % 0x1_0000_0000) % uprng.max, v)
    {
      hide CallGives;
      hide RankGiven;
      hide StepElement;
      hide ValidParams;
      hide CacheEntry;
      hide Elements;
      hide Covered;
      v := GetCurrent(li);
      Advance();
    }

    /** Records a step. The compaction at a hundred intervals does not show in the state; it does in the
        count, which is right afterwards exactly when it compacted, or was right and the step is new. */
    method StepDone(step: uint32)
      requires Valid() && step + 1 < WORD
      modifies doneSteps`intervals, doneSteps`excluded
      ensures Valid() && State() == After(uprng.max, old(State()), Confirm(step))
      ensures CountRight(doneSteps.intervals) <==>
                old(|doneSteps.intervals|) >= 99 ||
                (old(CountRight(doneSteps.intervals)) && step !in old(State().done))
    {
      CoveredAppend(doneSteps.intervals, step);
      CountAfterStep(doneSteps.intervals, step);
      doneSteps.Add(Interval(step, step + 1));
      if |doneSteps.intervals| >= COMPACT_AT {
        AggregateDoneSteps();
      }
    }

    method AggregateDoneSteps()
      requires Valid()
      modifies doneSteps`intervals, doneSteps`excluded
      ensures Valid() && State() == old(State())
      ensures Separated(doneSteps.intervals) && CountRight(doneSteps.intervals)
    {
      hide Absorbed;
      hide Elements;
      hide ValidParams;
      ghost var was := doneSteps.intervals;
      doneSteps.Aggregate();
      SameCovered(doneSteps.intervals, was);
      CountOfSeparated(doneSteps.intervals);
    }

    /** The widths are summed without looking for repeats. */
    method SizeDone() returns (r: uint32)
      requires Valid()
      ensures r == Wrap(|Elements(doneSteps.intervals)|)
      ensures CountRight(doneSteps.intervals) ==> r == |State().done|
      ensures |Elements(doneSteps.intervals)| < WORD ==> (r == |State().done| <==> CountRight(doneSteps.intervals))
    {
      r := doneSteps.Size();
      if CountRight(doneSteps.intervals) {
        RightCountFits(doneSteps.intervals);
      }
      if |Elements(doneSteps.intervals)| < WORD {
        WrapFits(|Elements(doneSteps.intervals)|);
      }
    }

    /** Starts over on all the steps that `done` does not hold; it may be this enumeration's own list. */
    method SetDoneSteps(done: ListIntervals)
      requires stepsTodo != doneSteps && done != stepsTodo && uprng.Valid()
      requires AllOrdered(done.intervals) && done.excluded == []
      modifies this`itSteps, stepsTodo, doneSteps
      ensures Valid() && fresh(itSteps)
      ensures State() == Progress(Remaining(uprng.max, old(Covered(done.intervals))), old(Covered(done.intervals)))
      ensures CountRight(doneSteps.intervals)
    {
      hide Absorbed;
      ghost var steps := done.intervals;
      doneSteps.Assign(done);
      doneSteps.Aggregate();
      CountOfSeparated(doneSteps.intervals);
      SameCovered(doneSteps.intervals, steps);
      TodoWithoutDone();
      itSteps := new ValueIterator.Begin(stepsTodo);
      IteratorAtBegin(itSteps);
    }

    method TodoWithoutDone()
      requires stepsTodo != doneSteps && uprng.max > 0 && AllOrdered(doneSteps.intervals)
      modifies stepsTodo
      ensures stepsTodo.excluded == [] && Sorted(stepsTodo.intervals) && AllOrdered(stepsTodo.intervals)
      ensures Elements(stepsTodo.intervals) == Remaining(uprng.max, Covered(doneSteps.intervals))
    {
      stepsTodo.Clear();
      stepsTodo.Add(Interval(0, uprng.max));
      for i := 0 to |doneSteps.intervals|
        invariant stepsTodo.intervals == [Interval(0, uprng.max)]
        invariant stepsTodo.excluded == doneSteps.intervals[..i]
      {
        stepsTodo.Remove(doneSteps.intervals[i]);
      }
      stepsTodo.Aggregate();
      TodoIsRemaining(stepsTodo.intervals, uprng.max, doneSteps.intervals);
    }

    /** What is saved: the seed and the compacted steps done. */
    method SaveState() returns (seed: nat, steps: seq<Interval>)
      requires Valid()
      modifies doneSteps`intervals, doneSteps`excluded
      ensures Valid() && State() == old(State())
      ensures seed == this.seed && AllOrdered(steps) && Covered(steps) == State().done && CountRight(steps)
    {
      AggregateDoneSteps();
      seed, steps := this.seed, doneSteps.intervals;
    }

    /** Restoring what was saved is the restart of the same enumeration. */
    method RestoreState(seed: nat, steps: seq<Interval>, li: ListIntervals, eng: Engine)
      requires Ready(li) && stepsTodo != doneSteps && li != stepsTodo && li != doneSteps && AllOrdered(steps)
      modifies this, uprng, stepsTodo, doneSteps, eng
      ensures Valid() && fresh(itSteps) && fresh(uprng.remPerm) && this.seed == seed
      ensures uprng.Setup() == InitParams(eng.source, seed, 0, |Elements(li.intervals)|)
      ensures uprng.curPos == InitPos(eng.source, seed, 0, |Elements(li.intervals)|)
      ensures forall todo :: State() == After(uprng.max, Progress(todo, Covered(steps)), Restart)
      ensures CountRight(doneSteps.intervals)
    {
      this.seed := seed;
      eng.Seed(seed);
      var n := li.Size();
      uprng.Init(n, eng);
      doneSteps.Load(steps);
      SetDoneSteps(doneSteps);
      eng.Seed(seed);
    }
  }
}
