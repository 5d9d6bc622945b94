/** Sequences without repetition, and the pigeonhole principle. */
module Permutations {

  ghost predicate Distinct<T>(s: seq<T>) {
    forall i, j :: 0 <= i < j < |s| ==> s[i] != s[j]
  }

  ghost predicate Below(s: seq<int>, n: int) {
    forall i :: 0 <= i < |s| ==> 0 <= s[i] < n
  }

  /** `s` lists every number of [0, n) exactly once. */
  ghost predicate IsPermutation(s: seq<int>, n: int) {
    && |s| == n
    && Distinct(s)
    && Below(s, n)
    && forall v :: 0 <= v < n ==> v in s
  }

  ghost function Iota(n: nat): (s: seq<int>) {
    seq(n, i => i)
  }

  lemma IotaElements(n: nat)
    ensures forall v :: v in SetOf(Iota(n)) <==> 0 <= v < n
  {
    forall v | 0 <= v < n
      ensures v in SetOf(Iota(n))
    {
      assert Iota(n)[v] == v;
    }
  }

  ghost function SetOf<T>(s: seq<T>): set<T> {
    set x | x in s
  }

  lemma {:induction false} DistinctSize<T>(s: seq<T>)
    requires Distinct(s)
    ensures |SetOf(s)| == |s|
  {
    if s == [] {
      assert SetOf(s) == {};
    } else {
      var t := s[..|s| - 1];
      DistinctSize(t);
      assert s == t + [s[|s| - 1]];
      assert SetOf(s) == SetOf(t) + {s[|s| - 1]};
      assert s[|s| - 1] !in SetOf(t);
    }
  }

  lemma {:induction false} SubsetSize<T>(a: set<T>, b: set<T>)
    requires a <= b
    ensures |a| <= |b|
    ensures |a| == |b| ==> a == b
  {
    if a == {} {
      if |b| == 0 {
        assert b == {};
      }
    } else {
      var x :| x in a;
      SubsetSize(a - {x}, b - {x});
      if |a| == |b| {
        assert a == (a - {x}) + {x} == (b - {x}) + {x} == b;
      }
    }
  }

  /** A sequence without repetition over [0, n) has at most n entries, and with n entries it has them all. */
  lemma Pigeonhole(s: seq<int>, n: nat)
    requires Distinct(s) && Below(s, n)
    ensures |s| <= n
    ensures |s| == n ==> IsPermutation(s, n)
  {
    DistinctSize(s);
    DistinctSize(Iota(n));
    IotaElements(n);
    assert SetOf(s) <= SetOf(Iota(n)) by {
      forall v | v in SetOf(s)
        ensures v in SetOf(Iota(n))
      {
        var k :| 0 <= k < |s| && s[k] == v;
      }
    }
    SubsetSize(SetOf(s), SetOf(Iota(n)));
    if |s| == n {
      forall v | 0 <= v < n
        ensures v in s
      {
        assert v in SetOf(Iota(n));
      }
    }
  }

  lemma {:induction false} SetOfSize<T>(s: seq<T>)
    ensures |SetOf(s)| <= |s|
  {
    if s == [] {
      assert SetOf(s) == {};
    } else {
      var t := s[..|s| - 1];
      SetOfSize(t);
      assert s == t + [s[|s| - 1]];
      assert SetOf(s) == SetOf(t) + {s[|s| - 1]};
    }
  }

  /** Counting the different entries finds them all exactly when none is repeated. */
  lemma DistinctExactly<T>(s: seq<T>)
    ensures |SetOf(s)| == |s| <==> Distinct(s)
  {
    if Distinct(s) {
      DistinctSize(s);
    } else {
      var i, j :| 0 <= i < j < |s| && s[i] == s[j];
      var t := s[..j] + s[j + 1..];
      forall x | x in SetOf(s)
        ensures x in SetOf(t)
      {
        var k :| 0 <= k < |s| && s[k] == x;
        assert x == if k < j then t[k] else if k == j then t[i] else t[k - 1];
      }
      SubsetSize(SetOf(s), SetOf(t));
      SetOfSize(t);
    }
  }

  lemma PermutationMultiset(s: seq<int>, n: nat)
    requires IsPermutation(s, n)
    ensures multiset(s) == multiset(Iota(n))
  {
    forall v
      ensures multiset(s)[v] == multiset(Iota(n))[v]
    {
      DistinctCount(s, v);
      DistinctCount(Iota(n), v);
      if 0 <= v < n {
        assert v in s;
        assert Iota(n)[v] == v;
      }
    }
  }

  lemma {:induction false} DistinctCount<T>(s: seq<T>, v: T)
    requires Distinct(s)
    ensures multiset(s)[v] == if v in s then 1 else 0
  {
    if s != [] {
      var t := s[..|s| - 1];
      assert s == t + [s[|s| - 1]];
      DistinctCount(t, v);
      assert s[|s| - 1] !in t;
    }
  }

  /** Reading one duplicate-free sequence through a permutation gives the same elements, each once. */
  lemma PermutedIsDistinct<T>(elems: seq<T>, order: seq<int>, out: seq<T>)
    requires IsPermutation(order, |elems|) && Distinct(elems)
    requires |out| == |order| && forall i :: 0 <= i < |out| ==> out[i] == elems[order[i]]
    ensures Distinct(out)
    ensures forall x :: x in out <==> x in elems
  {
    forall x
      ensures x in out <==> x in elems
    {
      if x in elems {
        var k :| 0 <= k < |elems| && elems[k] == x;
        assert k in order;
        var i :| 0 <= i < |order| && order[i] == k;
        assert out[i] == x;
      }
    }
  }
}
