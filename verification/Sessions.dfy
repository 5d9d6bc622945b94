/** A client of the enumeration by promise: it is handed some steps, confirms those it chooses, is interrupted,
    and a new object goes on from what was saved. */
module Sessions {
  import opened Words
  import opened Permutations
  import opened Intervals
  import opened ListIntervalsModel
  import opened RandEngine
  import opened UniModel
  import opened RandomSets
  import opened Runs
  import opened Enumerators

  // ---------------------------------------------------------------- values of a run

  /** The values that belong to steps, for the set-up that a seed makes for a list. */
  ghost function Values(elems: seq<int>, source: Source, seed: nat, steps: seq<int>): (s: seq<int>)
    requires 1 <= |elems| < WORD && Below(steps, |elems|)
  {
    InitParamsValid(source, seed, 0, |elems|);
    Visited(elems, InitParams(source, seed, 0, |elems|), InitPos(source, seed, 0, |elems|), steps)
  }

  lemma ValuesConcat(elems: seq<int>, source: Source, seed: nat, s: seq<int>, t: seq<int>)
    requires 1 <= |elems| < WORD && Below(s, |elems|) && Below(t, |elems|)
    ensures Below(s + t, |elems|)
    ensures Values(elems, source, seed, s + t) == Values(elems, source, seed, s) + Values(elems, source, seed, t)
  {
  }

  /** The sums of the seed's set-up fit. */
  ghost predicate SeedFits(source: Source, seed: nat, n: uint32)
    requires n >= 1
  {
    SumsFit(InitParams(source, seed, 0, n), InitPos(source, seed, 0, n))
  }

  lemma ValuesEachOnce(elems: seq<int>, source: Source, seed: nat, steps: seq<int>)
    requires 1 <= |elems| < WORD && Distinct(elems) && SeedFits(source, seed, |elems|)
    requires Below(steps, |elems|) && Distinct(steps)
    ensures Distinct(Values(elems, source, seed, steps))
    ensures |steps| == |elems| ==> EachOnce(Values(elems, source, seed, steps), elems)
  {
    InitParamsValid(source, seed, 0, |elems|);
    VisitedEachOnce(elems, InitParams(source, seed, 0, |elems|), InitPos(source, seed, 0, |elems|), steps);
  }

  // ---------------------------------------------------------------- an object and its run

  /** The enumerator `e` of `li` has gone through the run `acts` from a fresh enumeration of [from, to), and
      `vals` is all that was handed out. */
  ghost predicate InSession(e: ListIntervalsRandomPromise, li: ListIntervals, source: Source, from: nat, to: nat,
                            acts: seq<Action>, vals: seq<int>)
    requires Ready(li)
    reads e, e.uprng, e.uprng.remPerm, e.stepsTodo, e.doneSteps, e.itSteps, li
  {
    var n := |Elements(li.intervals)|;
    && e.Valid() && li != e.stepsTodo && li != e.doneSteps
    && from <= to <= n
    && e.uprng.Setup() == InitParams(source, e.seed, 0, n) && e.uprng.curPos == InitPos(source, e.seed, 0, n)
    && e.State() == Run(n, Fresh(n, from, to), acts)
    && Below(Handed(n, Fresh(n, from, to), acts), n)
    && vals == Values(Elements(li.intervals), source, e.seed, Handed(n, Fresh(n, from, to), acts))
  }

  /** What a session has handed out. */
  lemma SessionValues(e: ListIntervalsRandomPromise, li: ListIntervals, source: Source, from: nat, to: nat,
                      acts: seq<Action>, vals: seq<int>)
    requires Ready(li) && InSession(e, li, source, from, to, acts, vals)
    ensures var elems := Elements(li.intervals); var n := |elems|;
      && from <= to <= n
      && Below(Handed(n, Fresh(n, from, to), acts), n)
      && vals == Values(elems, source, e.seed, Handed(n, Fresh(n, from, to), acts))
  {
  }

  lemma RunSnoc(n: nat, p: Progress, acts: seq<Action>, a: Action)
    ensures Run(n, p, acts + [a]) == After(n, Run(n, p, acts), a)
    ensures Handed(n, p, acts + [a]) == Handed(n, p, acts) + Output(Run(n, p, acts), a)
    ensures !a.Hand? ==> Handed(n, p, acts + [a]) == Handed(n, p, acts)
    ensures Confirmed(acts + [a]) == Confirmed(acts) + if a.Confirm? then {a.step} else {}
  {
    assert (acts + [a])[..|acts|] == acts;
  }

  method Open(li: ListIntervals, eng: Engine, seed: nat, from: uint32, to: uint32)
    returns (e: ListIntervalsRandomPromise)
    requires Ready(li) && from < to <= |Elements(li.intervals)|
    modifies eng
    ensures fresh(e) && fresh(e.uprng) && fresh(e.uprng.remPerm) && fresh(e.stepsTodo) && fresh(e.doneSteps)
    ensures fresh(e.itSteps) && e.seed == seed
    ensures InSession(e, li, eng.source, from, to, [], [])
  {
    e := new ListIntervalsRandomPromise();
    e.Init(li, eng, seed, from, to);
  }

  /** Whether all steps to do are handed out. */
  method AtEnd(e: ListIntervalsRandomPromise, li: ListIntervals, ghost source: Source, ghost from: nat,
               ghost to: nat, ghost acts: seq<Action>, ghost vals: seq<int>) returns (b: bool)
    requires Ready(li) && from <= to <= |Elements(li.intervals)|
    requires InSession(e, li, source, from, to, acts, vals)
    ensures b <==> Run(|Elements(li.intervals)|, Fresh(|Elements(li.intervals)|, from, to), acts).todo == []
  {
    b := e.AtEnd();
  }

  /** One more value is handed out. */
  method HandOne(e: ListIntervalsRandomPromise, li: ListIntervals, ghost source: Source, ghost from: nat,
                 ghost to: nat, ghost acts: seq<Action>, ghost vals: seq<int>) returns (v: uint32)
    requires Ready(li) && from <= to <= |Elements(li.intervals)|
    requires InSession(e, li, source, from, to, acts, vals)
    requires Run(|Elements(li.intervals)|, Fresh(|Elements(li.intervals)|, from, to), acts).todo != []
    modifies e.itSteps
    ensures InSession(e, li, source, from, to, acts + [Hand], vals + [v])
  {
    hide CacheEntry;
    hide Elements;
    hide ValidParams;
    hide Run;
    hide Handed;
    hide Covered;
    ghost var n := |Elements(li.intervals)|;
    NothingLost(n, from, to, acts);
    ghost var step := e.State().todo[0];
    assert step in e.State().todo;
    v := e.Next(li);
    RunSnoc(n, Fresh(n, from, to), acts, Hand);
    ValuesConcat(Elements(li.intervals), source, e.seed, Handed(n, Fresh(n, from, to), acts), [step]);
  }

  method ConfirmOne(e: ListIntervalsRandomPromise, li: ListIntervals, ghost source: Source, ghost from: nat,
                    ghost to: nat, ghost acts: seq<Action>, ghost vals: seq<int>, step: uint32)
    requires Ready(li) && InSession(e, li, source, from, to, acts, vals) && step + 1 < WORD
    modifies e.doneSteps`intervals, e.doneSteps`excluded
    ensures InSession(e, li, source, from, to, acts + [Confirm(step)], vals)
  {
    hide CacheEntry;
    hide Elements;
    hide ValidParams;
    hide Run;
    hide Handed;
    hide Covered;
    ghost var n := |Elements(li.intervals)|;
    e.StepDone(step);
    RunSnoc(n, Fresh(n, from, to), acts, Confirm(step));
  }

  /** What one object saves, a new one restores: for the run that is a restart. */
  method Resume(e: ListIntervalsRandomPromise, li: ListIntervals, eng: Engine, ghost from: nat, ghost to: nat,
                ghost acts: seq<Action>, ghost vals: seq<int>) returns (f: ListIntervalsRandomPromise)
    requires Ready(li) && InSession(e, li, eng.source, from, to, acts, vals)
    modifies e.doneSteps`intervals, e.doneSteps`excluded, eng
    ensures fresh(f) && fresh(f.uprng) && fresh(f.uprng.remPerm) && fresh(f.stepsTodo) && fresh(f.doneSteps)
    ensures fresh(f.itSteps) && f.seed == e.seed
    ensures InSession(f, li, eng.source, from, to, acts + [Restart], vals)
  {
    hide CacheEntry;
    hide Elements;
    hide ValidParams;
    hide Run;
    hide Handed;
    hide Covered;
    hide CountRight;
    hide Fresh;
    hide Values;
    ghost var n := |Elements(li.intervals)|;
    ghost var was := e.State();
    var seed, steps := e.SaveState();
    f := new ListIntervalsRandomPromise();
    f.RestoreState(seed, steps, li, eng);
    assert f.State() == After(n, Progress(was.todo, Covered(steps)), Restart);
    RunSnoc(n, Fresh(n, from, to), acts, Restart);
    assert f.State() == After(n, was, Restart);
  }

  // ---------------------------------------------------------------- an interrupted enumeration

  /** The steps of [from, to) in order, without those before `stop` that were chosen. */
  ghost function Unconfirmed(from: nat, to: nat, stop: nat, chosen: nat -> bool): (s: seq<int>) {
    if to <= from then []
    else if to - 1 < stop && chosen(to - 1) then Unconfirmed(from, to - 1, stop, chosen)
    else Unconfirmed(from, to - 1, stop, chosen) + [to - 1]
  }

  lemma {:induction false} UnconfirmedMeaning(from: nat, to: nat, stop: nat, chosen: nat -> bool)
    ensures Increasing(Unconfirmed(from, to, stop, chosen))
    ensures forall v :: v in Unconfirmed(from, to, stop, chosen) <==> from <= v < to && !(v < stop && chosen(v))
  {
    if to > from {
      UnconfirmedMeaning(from, to - 1, stop, chosen);
      var s := Unconfirmed(from, to - 1, stop, chosen);
      forall i | 0 <= i < |s|
        ensures s[i] < to - 1
      {
        assert s[i] in s;
      }
    }
  }

  /** Before the interruption: the steps up to `i` are handed out, those chosen among them are confirmed. */
  ghost predicate FirstPart(n: nat, from: nat, to: nat, i: nat, acts: seq<Action>, chosen: nat -> bool) {
    && from <= i <= to <= n
    && Run(n, Fresh(n, from, to), acts).todo == Range(i, to)
    && Handed(n, Fresh(n, from, to), acts) == Range(from, i)
    && forall v :: v in Confirmed(acts) <==> from <= v < i && chosen(v)
  }

  lemma FirstStart(n: nat, from: nat, to: nat, chosen: nat -> bool)
    requires from <= to <= n
    ensures FirstPart(n, from, to, from, [], chosen)
  {
  }

  lemma FirstStep(n: nat, from: nat, to: nat, i: nat, acts: seq<Action>, chosen: nat -> bool)
    requires FirstPart(n, from, to, i, acts, chosen) && i < to
    ensures Range(i, to) != [] && Range(i, to)[0] == i
    ensures chosen(i) ==> FirstPart(n, from, to, i + 1, acts + [Hand] + [Confirm(i)], chosen)
    ensures !chosen(i) ==> FirstPart(n, from, to, i + 1, acts + [Hand], chosen)
  {
    hide Run;
    hide Handed;
    hide Confirmed;
    hide Fresh;
    var p := Fresh(n, from, to);
    RunSnoc(n, p, acts, Hand);
    RunSnoc(n, p, acts + [Hand], Confirm(i));
    assert Range(i, to) == [i] + Range(i + 1, to);
    assert Range(from, i + 1) == Range(from, i) + [i];
  }

  /** The interruption leaves the steps that were not confirmed. */
  lemma Interruption(n: nat, from: nat, to: nat, i: nat, acts: seq<Action>, chosen: nat -> bool)
    requires FirstPart(n, from, to, i, acts, chosen)
    ensures Run(n, Fresh(n, from, to), acts + [Restart]).todo == Unconfirmed(from, to, i, chosen)
    ensures Handed(n, Fresh(n, from, to), acts + [Restart]) == Range(from, i)
  {
    RunSnoc(n, Fresh(n, from, to), acts, Restart);
    RestartResumes(n, from, to, acts);
    UnconfirmedMeaning(from, to, i, chosen);
    IncreasingUnique(Run(n, Fresh(n, from, to), acts + [Restart]).todo, Unconfirmed(from, to, i, chosen));
  }

  /** After it: `j` of the remaining steps are handed out. */
  ghost predicate SecondPart(n: nat, p: Progress, acts: seq<Action>, head: seq<int>, rest: seq<int>, j: nat) {
    j <= |rest| && Run(n, p, acts).todo == rest[j..] && Handed(n, p, acts) == head + rest[..j]
  }

  lemma SecondStep(n: nat, p: Progress, acts: seq<Action>, head: seq<int>, rest: seq<int>, j: nat)
    requires SecondPart(n, p, acts, head, rest, j) && j < |rest|
    ensures SecondPart(n, p, acts + [Hand], head, rest, j + 1)
  {
    RunSnoc(n, p, acts, Hand);
    assert rest[..j + 1] == rest[..j] + [rest[j]];
  }

  lemma SecondStart(n: nat, p: Progress, acts: seq<Action>)
    ensures SecondPart(n, p, acts, Handed(n, p, acts), Run(n, p, acts).todo, 0)
  {
  }

  lemma SecondLeft(n: nat, p: Progress, acts: seq<Action>, head: seq<int>, rest: seq<int>, j: nat)
    requires SecondPart(n, p, acts, head, rest, j)
    ensures j <= |rest| && (Run(n, p, acts).todo == [] <==> j == |rest|)
    ensures j == |rest| ==> Handed(n, p, acts) == head + rest
  {
    assert j == |rest| ==> rest[..j] == rest;
  }

  lemma ReadyOrdered(li: ListIntervals)
    requires Ready(li)
    ensures AllOrdered(li.intervals)
  {
  }

  lemma AppendLast(vals: seq<int>, more: seq<uint32>, v: uint32)
    ensures vals + more + [v] == vals + (more + [v])
  {
  }

  /** Hands out everything that is left. */
  method Drain(e: ListIntervalsRandomPromise, li: ListIntervals, ghost source: Source, ghost from: nat,
               ghost to: nat, ghost acts: seq<Action>, ghost vals: seq<int>)
    returns (more: seq<uint32>, ghost acts': seq<Action>)
    requires Ready(li) && from <= to <= |Elements(li.intervals)|
    requires InSession(e, li, source, from, to, acts, vals)
    modifies e.itSteps
    ensures InSession(e, li, source, from, to, acts', vals + more)
    ensures var n := |Elements(li.intervals)|; var p := Fresh(n, from, to);
      && Run(n, p, acts').todo == []
      && Handed(n, p, acts') == Handed(n, p, acts) + Run(n, p, acts).todo
  {
    hide *;
    ReadyOrdered(li);
    ghost var n := |Elements(li.intervals)|;
    ghost var p := Fresh(n, from, to);
    ghost var head, rest := Handed(n, p, acts), Run(n, p, acts).todo;
    SecondStart(n, p, acts);
    more := [];
    acts' := acts;
    ghost var j := 0;
    assert vals + more == vals;
    var done := AtEnd(e, li, source, from, to, acts', vals + more);
    while !done
      invariant InSession(e, li, source, from, to, acts', vals + more)
      invariant SecondPart(n, p, acts', head, rest, j)
      invariant done <==> Run(n, p, acts').todo == []
      decreases |rest| - j
    {
      SecondLeft(n, p, acts', head, rest, j);
      SecondStep(n, p, acts', head, rest, j);
      var v := HandOne(e, li, source, from, to, acts', vals + more);
      AppendLast(vals, more, v);
      more, acts', j := more + [v], acts' + [Hand], j + 1;
      done := AtEnd(e, li, source, from, to, acts', vals + more);
    }
    SecondLeft(n, p, acts', head, rest, j);
  }

  lemma RangeMembers(a: int, b: int)
    requires a <= b
    ensures forall v :: v in Range(a, b) <==> a <= v < b
  {
    forall v | a <= v < b
      ensures v in Range(a, b)
    {
      assert Range(a, b)[v - a] == v;
    }
  }

  /** The steps before `stop` and those not confirmed make up all of [from, to), each once, exactly when all
      before `stop` were chosen. */
  lemma StepsOnce(from: nat, to: nat, stop: nat, chosen: nat -> bool)
    requires from <= stop <= to
    ensures var steps := Range(from, stop) + Unconfirmed(from, to, stop, chosen);
      && (forall v :: v in steps <==> from <= v < to)
      && (Distinct(steps) <==> forall v :: from <= v < stop ==> chosen(v))
  {
    var head, rest := Range(from, stop), Unconfirmed(from, to, stop, chosen);
    var steps := head + rest;
    UnconfirmedMeaning(from, to, stop, chosen);
    RangeMembers(from, stop);
    assert forall v :: v in steps <==> v in head || v in rest;
    if v :| from <= v < stop && !chosen(v) {
      assert v in rest;
      var i :| 0 <= i < |rest| && rest[i] == v;
      assert head[v - from] == v;
      assert steps[v - from] == steps[stop - from + i];
    } else {
      forall i, j | 0 <= i < j < |steps|
        ensures steps[i] != steps[j]
      {
        if i < |head| <= j {
          assert rest[j - |head|] in rest;
        }
      }
    }
  }

  /** Over the whole set the values handed out before and after the interruption are all the elements, each
      once, exactly when everything handed out before was confirmed. */
  lemma ValuesOnce(elems: seq<int>, source: Source, seed: nat, stop: nat, chosen: nat -> bool)
    requires 1 <= |elems| < WORD && Distinct(elems) && SeedFits(source, seed, |elems|) && stop <= |elems|
    ensures var steps := Range(0, stop) + Unconfirmed(0, |elems|, stop, chosen);
      && Below(steps, |elems|)
      && (EachOnce(Values(elems, source, seed, steps), elems) <==> forall v :: 0 <= v < stop ==> chosen(v))
  {
    var steps := Range(0, stop) + Unconfirmed(0, |elems|, stop, chosen);
    StepsOnce(0, |elems|, stop, chosen);
    assert forall i :: 0 <= i < |steps| ==> steps[i] in steps;
    if Distinct(steps) {
      AllListed(steps, |elems|);
      ValuesEachOnce(elems, source, seed, steps);
    } else {
      var i, j :| 0 <= i < j < |steps| && steps[i] == steps[j];
      var out := Values(elems, source, seed, steps);
      assert out[i] == out[j];
    }
  }

  /** Hands out the steps before `stop`, confirming the chosen ones. */
  method HandOutUntil(e: ListIntervalsRandomPromise, li: ListIntervals, ghost source: Source, from: uint32,
                      ghost to: nat, stop: uint32, chosen: nat -> bool)
    returns (before: seq<uint32>, ghost acts: seq<Action>)
    requires Ready(li) && from <= stop <= to <= |Elements(li.intervals)| && li != e.doneSteps
    requires InSession(e, li, source, from, to, [], [])
    modifies e.itSteps, e.doneSteps`intervals, e.doneSteps`excluded
    ensures InSession(e, li, source, from, to, acts, before) && |before| == stop - from
    ensures FirstPart(|Elements(li.intervals)|, from, to, stop, acts, chosen)
  {
    hide CacheEntry;
    hide Elements;
    hide ValidParams;
    hide Run;
    hide Handed;
    hide Covered;
    hide Fresh;
    hide Values;
    hide FirstPart;
    hide InSession;
    ghost var n := |Elements(li.intervals)|;
    before, acts := [], [];
    FirstStart(n, from, to, chosen);
    for i := from to stop
      invariant e.seed == old(e.seed) && |before| == i - from
      invariant InSession(e, li, source, from, to, acts, before)
      invariant FirstPart(n, from, to, i, acts, chosen)
    {
      FirstStep(n, from, to, i, acts, chosen);
      FirstLeft(n, from, to, i, acts, chosen);
      var v := HandOne(e, li, source, from, to, acts, before);
      before, acts := before + [v], acts + [Hand];
      if chosen(i) {
        ConfirmOne(e, li, source, from, to, acts, before, i);
        acts := acts + [Confirm(i)];
      }
    }
  }

  /** Hands out the steps before `stop`, confirming the chosen ones; then the state is saved, restored by
      another object, and that one is drained. */
  method Interrupted(li: ListIntervals, eng: Engine, seed: nat, from: uint32, to: uint32, stop: uint32,
                     chosen: nat -> bool) returns (before: seq<uint32>, after: seq<uint32>, ghost acts: seq<Action>)
    requires Ready(li) && from < to <= |Elements(li.intervals)| && from <= stop <= to
    modifies eng
    ensures var elems := Elements(li.intervals); var n := |elems|; var p := Fresh(n, from, to);
      && Run(n, p, acts).todo == [] && |before| == stop - from
      && Below(Handed(n, p, acts), n) && before + after == Values(elems, eng.source, seed, Handed(n, p, acts))
      && Handed(n, p, acts) == Range(from, stop) + Unconfirmed(from, to, stop, chosen)
    ensures SeedFits(eng.source, seed, |Elements(li.intervals)|) && from == 0 && to == |Elements(li.intervals)| ==>
              (EachOnce(before + after, Elements(li.intervals)) <==> forall v :: 0 <= v < stop ==> chosen(v))
  {
    hide CacheEntry;
    hide Elements;
    hide ValidParams;
    hide Run;
    hide Handed;
    hide Covered;
    hide EachOnce;
    hide Fresh;
    hide Unconfirmed;
    hide Values;
    hide FirstPart;
    hide InSession;
    ghost var n := |Elements(li.intervals)|;
    var e := Open(li, eng, seed, from, to);
    before, acts := HandOutUntil(e, li, eng.source, from, to, stop, chosen);
    Interruption(n, from, to, stop, acts, chosen);
    var f := Resume(e, li, eng, from, to, acts, before);
    after, acts := Drain(f, li, eng.source, from, to, acts + [Restart], before);
    SessionValues(f, li, eng.source, from, to, acts, before + after);
    if SeedFits(eng.source, seed, n) && from == 0 && to == n {
      ReadyDistinct(li);
      ValuesOnce(Elements(li.intervals), eng.source, seed, stop, chosen);
    }
  }

  lemma FirstLeft(n: nat, from: nat, to: nat, i: nat, acts: seq<Action>, chosen: nat -> bool)
    requires FirstPart(n, from, to, i, acts, chosen)
    ensures Run(n, Fresh(n, from, to), acts).todo == Range(i, to)
  {
  }

  lemma ReadyDistinct(li: ListIntervals)
    requires Ready(li)
    ensures Distinct(Elements(li.intervals))
  {
    ElementsIncrease(li.intervals);
    IncreasingIsDistinct(Elements(li.intervals));
  }
}
