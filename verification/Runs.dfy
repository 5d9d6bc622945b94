/** The enumeration that confirms its steps, seen as a machine: what is still to do, what is done, and every
    run of its operations, restarts included. */
module Runs {
  import opened Permutations
  import opened Intervals

  datatype Progress = Progress(todo: seq<int>, done: set<int>)

  datatype Action = Hand | Confirm(step: int) | Restart

  /** The numbers of [0, n) outside `done`, in increasing order. */
  ghost function Remaining(n: nat, done: set<int>): (s: seq<int>) {
    if n == 0 then []
    else if n - 1 in done then Remaining(n - 1, done)
    else Remaining(n - 1, done) + [n - 1]
  }

  lemma {:induction false} RemainingMeaning(n: nat, done: set<int>)
    ensures Increasing(Remaining(n, done))
    ensures forall v :: v in Remaining(n, done) <==> 0 <= v < n && v !in done
  {
    if n > 0 {
      RemainingMeaning(n - 1, done);
      var s := Remaining(n - 1, done);
      forall i | 0 <= i < |s|
        ensures s[i] < n - 1
      {
        assert s[i] in s;
      }
    }
  }

  /** An increasing sequence is determined by its members. */
  lemma {:induction false} IncreasingUnique(s: seq<int>, t: seq<int>)
    requires Increasing(s) && Increasing(t)
    requires forall v :: v in s <==> v in t
    ensures s == t
    decreases |s|
  {
    if s == [] {
      assert forall i :: 0 <= i < |t| ==> t[i] in s;
    } else {
      assert s[0] in t && t != [];
      assert t[0] in s;
      assert s[0] == t[0];
      assert s == [s[0]] + s[1..] && t == [t[0]] + t[1..];
      forall v
        ensures v in s[1..] <==> v in t[1..]
      {
        if v in s[1..] {
          assert v in t && v != s[0];
        }
        if v in t[1..] {
          assert v in s && v != t[0];
        }
      }
      IncreasingUnique(s[1..], t[1..]);
    }
  }

  // ---------------------------------------------------------------- one operation

  ghost function Outside(n: nat, from: nat, to: nat): set<int>
    requires from <= to <= n
  {
    SetOf(Range(0, from) + Range(to, n))
  }

  lemma OutsideMeaning(n: nat, from: nat, to: nat)
    requires from <= to <= n
    ensures forall v :: v in Outside(n, from, to) <==> 0 <= v < n && !(from <= v < to)
  {
    forall v | 0 <= v < n && !(from <= v < to)
      ensures v in Outside(n, from, to)
    {
      var s := Range(0, from) + Range(to, n);
      assert s[if v < from then v else from + v - to] == v;
    }
  }

  /** A fresh enumeration of the steps of [from, to) among [0, n). */
  ghost function Fresh(n: nat, from: nat, to: nat): Progress
    requires from <= to <= n
  {
    Progress(Range(from, to), Outside(n, from, to))
  }

  /** Handing a step out moves on; confirming records; a restart keeps only what is recorded as done. */
  ghost function After(n: nat, p: Progress, a: Action): Progress {
    match a
    case Hand => if p.todo == [] then p else p.(todo := p.todo[1..])
    case Confirm(step) => p.(done := p.done + {step})
    case Restart => p.(todo := Remaining(n, p.done))
  }

  ghost function Output(p: Progress, a: Action): (s: seq<int>) {
    if a.Hand? && p.todo != [] then [p.todo[0]] else []
  }

  // ---------------------------------------------------------------- runs

  ghost function Run(n: nat, p: Progress, acts: seq<Action>): Progress {
    if acts == [] then p else After(n, Run(n, p, acts[..|acts| - 1]), acts[|acts| - 1])
  }

  /** The steps handed out during a run, in order, over all restarts. */
  ghost function Handed(n: nat, p: Progress, acts: seq<Action>): (s: seq<int>) {
    if acts == [] then []
    else Handed(n, p, acts[..|acts| - 1]) + Output(Run(n, p, acts[..|acts| - 1]), acts[|acts| - 1])
  }

  ghost function Confirmed(acts: seq<Action>): set<int> {
    if acts == [] then {}
    else if acts[|acts| - 1].Confirm? then Confirmed(acts[..|acts| - 1]) + {acts[|acts| - 1].step}
    else Confirmed(acts[..|acts| - 1])
  }

  /** Done is exactly what was done at the start plus what was confirmed; restarts lose nothing of it. */
  lemma {:induction false} DoneIsConfirmed(n: nat, p: Progress, acts: seq<Action>)
    ensures Run(n, p, acts).done == p.done + Confirmed(acts)
  {
    if acts != [] {
      DoneIsConfirmed(n, p, acts[..|acts| - 1]);
    }
  }

  /** After a restart the enumeration visits exactly the steps of [from, to) that were not confirmed, each
      once and in increasing order. */
  lemma RestartResumes(n: nat, from: nat, to: nat, acts: seq<Action>)
    requires from <= to <= n
    ensures var todo := Run(n, Fresh(n, from, to), acts + [Restart]).todo;
      && Increasing(todo)
      && forall v :: v in todo <==> from <= v < to && v !in Confirmed(acts)
  {
    var p := Fresh(n, from, to);
    assert (acts + [Restart])[..|acts|] == acts;
    DoneIsConfirmed(n, p, acts);
    RemainingMeaning(n, Run(n, p, acts).done);
    OutsideMeaning(n, from, to);
  }

  /** What every run keeps: the todo list is an increasing part of [from, to), and no step of it is lost. */
  ghost predicate Sound(from: int, to: int, p: Progress, handed: seq<int>) {
    && Increasing(p.todo)
    && (forall v :: v in p.todo || v in handed ==> from <= v < to)
    && (forall v :: from <= v < to ==> v in p.todo || v in handed || v in p.done)
  }

  lemma StepSound(n: nat, from: nat, to: nat, p: Progress, handed: seq<int>, a: Action)
    requires from <= to <= n && Outside(n, from, to) <= p.done
    requires Sound(from, to, p, handed)
    ensures Sound(from, to, After(n, p, a), handed + Output(p, a))
    ensures Outside(n, from, to) <= After(n, p, a).done
  {
    match a
    case Hand =>
      if p.todo != [] {
        assert p.todo[0] in p.todo;
        assert p.todo == [p.todo[0]] + p.todo[1..];
        assert forall v :: v in p.todo <==> v == p.todo[0] || v in p.todo[1..];
        assert forall v :: v in handed + [p.todo[0]] <==> v == p.todo[0] || v in handed;
      }
    case Confirm(step) =>
    case Restart =>
      RemainingMeaning(n, p.done);
      OutsideMeaning(n, from, to);
  }

  /** No run loses a step: each one is still to do, or was handed out, or was confirmed. */
  lemma {:induction false} NothingLost(n: nat, from: nat, to: nat, acts: seq<Action>)
    requires from <= to <= n
    ensures var p := Fresh(n, from, to);
            Sound(from, to, Run(n, p, acts), Handed(n, p, acts)) && Outside(n, from, to) <= Run(n, p, acts).done
  {
    var p := Fresh(n, from, to);
    if acts == [] {
      forall v | from <= v < to
        ensures v in p.todo
      {
        assert Range(from, to)[v - from] == v;
      }
    } else {
      var before := acts[..|acts| - 1];
      NothingLost(n, from, to, before);
      StepSound(n, from, to, Run(n, p, before), Handed(n, p, before), acts[|acts| - 1]);
    }
  }

  ghost predicate NotAgain(p: Progress, handed: seq<int>) {
    Distinct(handed) && forall v :: v in p.todo ==> v !in handed
  }

  lemma StepNotAgain(n: nat, p: Progress, handed: seq<int>, a: Action)
    requires Increasing(p.todo) && NotAgain(p, handed)
    requires a.Restart? ==> forall v :: v in handed ==> v in p.done
    ensures NotAgain(After(n, p, a), handed + Output(p, a))
  {
    match a
    case Hand =>
      if p.todo != [] {
        assert p.todo[0] in p.todo;
        forall v | v in p.todo[1..]
          ensures v in p.todo && v != p.todo[0]
        {
        }
      }
    case Confirm(step) =>
    case Restart =>
      RemainingMeaning(n, p.done);
  }

  /** A step that was handed out but is not done comes back with a restart. */
  lemma RestartHandsAgain(n: nat, p: Progress, handed: seq<int>, v: int)
    requires v in handed && 0 <= v < n && v !in p.done
    ensures !NotAgain(After(n, p, Restart), handed)
  {
    RemainingMeaning(n, p.done);
    assert v in After(n, p, Restart).todo;
  }

  /** All restarts of a run find all the steps handed out until then done. */
  ghost predicate RestartsWhenDone(n: nat, p: Progress, acts: seq<Action>) {
    acts == [] ||
      var before := acts[..|acts| - 1];
      && RestartsWhenDone(n, p, before)
      && (acts[|acts| - 1].Restart? ==> forall v :: v in Handed(n, p, before) ==> v in Run(n, p, before).done)
  }

  /** At no moment of a run was a step handed out twice, or is one to be handed out again. */
  ghost predicate NeverAgain(n: nat, p: Progress, acts: seq<Action>) {
    && NotAgain(Run(n, p, acts), Handed(n, p, acts))
    && (acts == [] || NeverAgain(n, p, acts[..|acts| - 1]))
  }

  /** That is so exactly when every restart finds what was handed out done, whatever else is confirmed. */
  lemma {:induction false} NeverAgainExactly(n: nat, from: nat, to: nat, acts: seq<Action>)
    requires from <= to <= n
    ensures NeverAgain(n, Fresh(n, from, to), acts) <==> RestartsWhenDone(n, Fresh(n, from, to), acts)
  {
    var p := Fresh(n, from, to);
    if acts != [] {
      var before := acts[..|acts| - 1];
      var a := acts[|acts| - 1];
      NeverAgainExactly(n, from, to, before);
      if NeverAgain(n, p, before) {
        NothingLost(n, from, to, before);
        var q, handed := Run(n, p, before), Handed(n, p, before);
        if a.Restart? && exists v :: v in handed && v !in q.done {
          var v :| v in handed && v !in q.done;
          RestartHandsAgain(n, q, handed, v);
          assert handed + Output(q, a) == handed;
        } else {
          StepNotAgain(n, q, handed, a);
        }
      }
    }
  }

  /** A client that restarts only when all it was handed is confirmed, and confirms only what it was handed. */
  ghost predicate Careful(n: nat, p: Progress, acts: seq<Action>) {
    acts == [] ||
      var before := acts[..|acts| - 1];
      var a := acts[|acts| - 1];
      && Careful(n, p, before)
      && (a.Restart? ==> forall v :: v in Handed(n, p, before) ==> v in Confirmed(before))
      && (a.Confirm? ==> a.step in Handed(n, p, before))
  }

  /** A careful client is never handed a step twice, over any number of restarts. */
  lemma {:induction false} CarefulNeverTwice(n: nat, from: nat, to: nat, acts: seq<Action>)
    requires from <= to <= n && Careful(n, Fresh(n, from, to), acts)
    ensures RestartsWhenDone(n, Fresh(n, from, to), acts)
    ensures NotAgain(Run(n, Fresh(n, from, to), acts), Handed(n, Fresh(n, from, to), acts))
  {
    var p := Fresh(n, from, to);
    if acts != [] {
      var before := acts[..|acts| - 1];
      CarefulNeverTwice(n, from, to, before);
      DoneIsConfirmed(n, p, before);
    }
    NeverAgainExactly(n, from, to, acts);
  }

  lemma {:induction false} CarefulConfirmsHanded(n: nat, p: Progress, acts: seq<Action>)
    requires Careful(n, p, acts)
    ensures forall v :: v in Confirmed(acts) ==> v in Handed(n, p, acts)
  {
    if acts != [] {
      CarefulConfirmsHanded(n, p, acts[..|acts| - 1]);
    }
  }

  /** When a careful client's run has nothing left to do, every step of [from, to) was handed out exactly once
      and nothing else was. */
  lemma CarefulExactlyOnce(n: nat, from: nat, to: nat, acts: seq<Action>)
    requires from <= to <= n && Careful(n, Fresh(n, from, to), acts)
    requires Run(n, Fresh(n, from, to), acts).todo == []
    ensures var handed := Handed(n, Fresh(n, from, to), acts);
            Distinct(handed) && forall v :: v in handed <==> from <= v < to
  {
    var p := Fresh(n, from, to);
    NothingLost(n, from, to, acts);
    CarefulNeverTwice(n, from, to, acts);
    CarefulConfirmsHanded(n, p, acts);
    DoneIsConfirmed(n, p, acts);
  }

  /** Without that care a restart hands a lost step out again: here step 0, handed out twice. */
  lemma CarelessHandsAgain()
    ensures Handed(1, Fresh(1, 0, 1), [Hand, Restart, Hand]) == [0, 0]
    ensures !Careful(1, Fresh(1, 0, 1), [Hand, Restart, Hand])
  {
    var p := Fresh(1, 0, 1);
    var acts := [Hand, Restart, Hand];
    assert p.todo == [0] && p.done == {};
    assert acts[..2] == [Hand, Restart] && [Hand, Restart][..1] == [Hand] && [Hand][..0] == [];
    assert Run(1, p, [Hand]) == Progress([], {});
    assert Handed(1, p, [Hand]) == [0];
    assert Confirmed([Hand]) == {};
    assert Remaining(1, {}) == [0];
    assert Run(1, p, [Hand, Restart]) == Progress([0], {});
    assert Handed(1, p, [Hand, Restart]) == [0];
    assert 0 in Handed(1, p, [Hand]);
  }
}
