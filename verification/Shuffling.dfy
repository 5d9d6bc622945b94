/** The library shuffle that uni.h calls: one drawn swap for each entry after the first. */
module Shuffling {
  import opened Words
  import opened Permutations
  import opened RandEngine

  function Swap(s: seq<uint32>, i: nat, j: nat): (t: seq<uint32>)
    requires i < |s| && j < |s|
    ensures |t| == |s| && multiset(t) == multiset(s)
    ensures t[i] == s[j] && t[j] == s[i] && forall p :: 0 <= p < |s| && p != i && p != j ==> t[p] == s[p]
  {
    s[i := s[j]][j := s[i]]
  }

  /** The draw that entry `i` is swapped by. */
  function SwapDraw(source: Source, seed: nat, k: nat, i: nat): (j: nat)
    requires 1 <= i < WORD
    ensures j <= i
  {
    Draw(source, seed, k + i - 1, 0, i)
  }

  /** The first `m` entries shuffled: entry i, from the second on, is swapped with one drawn among those not
      after it. The draws start at the k-th. */
  ghost function Shuffled(source: Source, seed: nat, k: nat, s: seq<uint32>, m: nat): (t: seq<uint32>)
    requires m <= |s| < WORD
    ensures |t| == |s|
  {
    if m <= 1 then s
    else Swap(Shuffled(source, seed, k, s, m - 1), m - 1, SwapDraw(source, seed, k, m - 1))
  }

  lemma ShuffledStep(source: Source, seed: nat, k: nat, s: seq<uint32>, i: nat)
    requires 1 <= i < |s| < WORD
    ensures Shuffled(source, seed, k, s, i + 1)
         == Swap(Shuffled(source, seed, k, s, i), i, SwapDraw(source, seed, k, i))
  {
  }

  lemma ShuffledNothing(source: Source, seed: nat, k: nat, s: seq<uint32>, i: nat)
    requires i <= 1 && i <= |s| < WORD
    ensures Shuffled(source, seed, k, s, i) == s
  {
  }

  /** A shuffle reorders the entries, and leaves those it has not come to. */
  lemma {:induction false} ShuffledReorders(source: Source, seed: nat, k: nat, s: seq<uint32>, m: nat)
    requires m <= |s| < WORD
    ensures var t := Shuffled(source, seed, k, s, m);
            multiset(t) == multiset(s) && forall p :: m <= p < |s| ==> t[p] == s[p]
  {
    if m > 1 {
      ShuffledReorders(source, seed, k, s, m - 1);
    }
  }

  // ---------------------------------------------------------------- every arrangement, each in one way

  /** Different draws give different arrangements. */
  lemma {:induction false} DrawsDetermined(one: Source, other: Source, seed: nat, k: nat, s: seq<uint32>, m: nat)
    requires m <= |s| < WORD && Distinct(s)
    requires Shuffled(one, seed, k, s, m) == Shuffled(other, seed, k, s, m)
    ensures forall i :: 1 <= i < m ==> SwapDraw(one, seed, k, i) == SwapDraw(other, seed, k, i)
  {
    hide *;
    if m > 1 {
      var n := m - 1;
      var u, v := Shuffled(one, seed, k, s, n), Shuffled(other, seed, k, s, n);
      var i, j := SwapDraw(one, seed, k, n), SwapDraw(other, seed, k, n);
      ShuffledReorders(one, seed, k, s, n);
      ShuffledReorders(other, seed, k, s, n);
      ShuffledStep(one, seed, k, s, n);
      ShuffledStep(other, seed, k, s, n);
      LastSwapDetermined(s, u, v, n, i, j);
      DrawsDetermined(one, other, seed, k, s, n);
      forall x | 1 <= x < m
        ensures SwapDraw(one, seed, k, x) == SwapDraw(other, seed, k, x)
      {
        if x == n {
          assert SwapDraw(one, seed, k, x) == i;
        }
      }
    }
  }

  lemma LastSwapDetermined(s: seq<uint32>, u: seq<uint32>, v: seq<uint32>, n: nat, i: nat, j: nat)
    requires n < |s| && i <= n && j <= n && Distinct(s)
    requires |u| == |s| && |v| == |s| && multiset(u) == multiset(s) && u[n] == s[n] == v[n]
    requires Swap(u, n, i) == Swap(v, n, j)
    ensures i == j && u == v
  {
    var t := Swap(u, n, i);
    DistinctReordered(s, t);
    assert t[i] == s[n] && t[j] == s[n];
    assert Swap(t, n, i) == u && Swap(t, n, j) == v;
  }

  /** Every arrangement comes out for some draws. */
  lemma {:induction false} ArrangementReached(seed: nat, k: nat, s: seq<uint32>, t: seq<uint32>, m: nat)
    returns (source: Source)
    requires m <= |s| < WORD && multiset(t) == multiset(s) && |t| == |s|
    requires forall p :: m <= p < |s| ==> t[p] == s[p]
    ensures Shuffled(source, seed, k, s, m) == t
    decreases m
  {
    hide *;
    if m <= 1 {
      source := (x, y) => 0;
      ShuffledNothing(source, seed, k, s, m);
      OneEntry(s, t, m);
    } else {
      var n := m - 1;
      var j := EarlierPlace(s, t, n);
      var u := Swap(t, n, j);
      var rest := ArrangementReached(seed, k, s, u, n);
      source := (x, y) => if y == k + n - 1 then j else rest(x, y);
      OnlyOwnDraws(rest, source, seed, k, s, n);
      SwapDrawReaches(source, seed, k, n, j);
      ShuffledStep(source, seed, k, s, n);
      SwapBack(t, n, j);
    }
  }

  lemma SwapBack(t: seq<uint32>, n: nat, j: nat)
    requires n < |t| && j < |t|
    ensures Swap(Swap(t, n, j), n, j) == t
  {
  }

  lemma SwapDrawReaches(source: Source, seed: nat, k: nat, i: nat, j: nat)
    requires 1 <= i < WORD && j <= i && source(seed, k + i - 1) == j
    ensures SwapDraw(source, seed, k, i) == j
  {
    DrawReaches(source, seed, k + i - 1, 0, i, j);
  }

  lemma OneEntry(s: seq<uint32>, t: seq<uint32>, m: nat)
    requires m <= 1 && m <= |s| == |t| && multiset(t) == multiset(s) && forall p :: m <= p < |s| ==> t[p] == s[p]
    ensures s == t
  {
    if m == 1 {
      SameRest(s, t, 1);
      assert s[..1] == [s[0]] && t[..1] == [t[0]];
      assert t[0] in multiset(s[..1]);
    }
  }

  /** A shuffle depends on its own draws only. */
  lemma {:induction false} OnlyOwnDraws(one: Source, other: Source, seed: nat, k: nat, s: seq<uint32>, m: nat)
    requires m <= |s| < WORD
    requires forall x :: k <= x < k + m - 1 ==> one(seed, x) == other(seed, x)
    ensures Shuffled(one, seed, k, s, m) == Shuffled(other, seed, k, s, m)
  {
    if m > 1 {
      OnlyOwnDraws(one, other, seed, k, s, m - 1);
      assert one(seed, k + m - 2) == other(seed, k + m - 2);
    }
  }

  lemma SameRest(s: seq<uint32>, t: seq<uint32>, m: nat)
    requires m <= |s| == |t| && multiset(t) == multiset(s) && forall p :: m <= p < |s| ==> t[p] == s[p]
    ensures multiset(t[..m]) == multiset(s[..m])
  {
    assert s == s[..m] + s[m..] && t == t[..m] + t[m..];
    assert s[m..] == t[m..];
    assert multiset(t[..m]) == multiset(t) - multiset(t[m..]);
    assert multiset(s[..m]) == multiset(s) - multiset(s[m..]);
  }

  /** Where the entry that a swap brings to place `n` has gone. */
  lemma EarlierPlace(s: seq<uint32>, t: seq<uint32>, n: nat) returns (j: nat)
    requires n < |s| == |t| && multiset(t) == multiset(s) && forall p :: n < p < |s| ==> t[p] == s[p]
    ensures j <= n && t[j] == s[n]
  {
    SameRest(s, t, n + 1);
    assert s[..n + 1][n] in multiset(s[..n + 1]);
    assert s[n] in t[..n + 1];
    j :| 0 <= j < n + 1 && t[..n + 1][j] == s[n];
  }

  lemma DistinctReordered<T>(s: seq<T>, t: seq<T>)
    requires Distinct(s) && multiset(t) == multiset(s) && |t| == |s|
    ensures Distinct(t)
  {
    forall i, j | 0 <= i < j < |t|
      ensures t[i] != t[j]
    {
      DistinctCount(s, t[i]);
      assert t == t[..i] + [t[i]] + t[i + 1..j] + [t[j]] + t[j + 1..];
    }
  }

  // ---------------------------------------------------------------- the loop

  lemma SwapInPlace(source: Source, seed: nat, k: nat, s: seq<uint32>, i: nat, j: nat, was: seq<uint32>)
    requires 1 <= i < |s| < WORD && j == SwapDraw(source, seed, k, i) && was == Shuffled(source, seed, k, s, i)
    ensures was[i := was[j]][j := was[i]] == Shuffled(source, seed, k, s, i + 1)
  {
    ShuffledStep(source, seed, k, s, i);
  }

  /** Takes exactly one draw for each entry after the first. */
  method RandomShuffle(a: array<uint32>, eng: Engine)
    requires a.Length < WORD
    modifies a, eng`drawn
    ensures a[..] == Shuffled(eng.source, eng.seed, old(eng.drawn), old(a[..]), a.Length)
    ensures multiset(a[..]) == multiset(old(a[..]))
    ensures eng.drawn == old(eng.drawn) + if a.Length == 0 then 0 else a.Length - 1
  {
    hide Draw;
    hide Shuffled;
    ghost var s, k := a[..], eng.drawn;
    ShuffledReorders(eng.source, eng.seed, k, s, a.Length);
    if a.Length == 0 {
      ShuffledNothing(eng.source, eng.seed, k, s, 0);
      return;
    }
    ShuffledNothing(eng.source, eng.seed, k, s, 1);
    var i := 1;
    while i < a.Length
      invariant 1 <= i <= a.Length
      invariant eng.drawn == k + i - 1
      invariant a[..] == Shuffled(eng.source, eng.seed, k, s, i)
    {
      ghost var was := a[..];
      var j := eng.Between(0, i);
      SwapInPlace(eng.source, eng.seed, k, s, i, j, was);
      a[i], a[j] := a[j], a[i];
      assert a[..] == was[i := was[j]][j := was[i]];
      i := i + 1;
    }
  }
}
