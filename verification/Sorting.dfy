/** The sorts of the library are taken as any reordering by a key; equal keys come in any order. */
module Sorting {
  ghost predicate SortedBy<T>(s: seq<T>, key: T -> int) {
    forall i, j :: 0 <= i < j < |s| ==> key(s[i]) <= key(s[j])
  }

  lemma InsertSorted<T>(r: seq<T>, x: T, k: nat, key: T -> int)
    requires SortedBy(r, key) && k <= |r|
    requires k > 0 ==> key(r[k - 1]) <= key(x)
    requires k < |r| ==> key(x) < key(r[k])
    ensures SortedBy(r[..k] + [x] + r[k..], key)
  {
    var t := r[..k] + [x] + r[k..];
    forall i, j | 0 <= i < j < |t|
      ensures key(t[i]) <= key(t[j])
    {
      if i < k && k > 0 {
        assert key(r[i]) <= key(r[k - 1]);
      }
      if j > k {
        assert t[j] == r[j - 1] && key(r[k]) <= key(r[j - 1]);
      }
    }
  }

  method Insert<T>(r: seq<T>, x: T, key: T -> int) returns (t: seq<T>)
    requires SortedBy(r, key)
    ensures SortedBy(t, key)
    ensures multiset(t) == multiset(r) + multiset{x}
    ensures |t| == |r| + 1
  {
    var k := |r|;
    while k > 0 && key(x) < key(r[k - 1])
      invariant 0 <= k <= |r|
      invariant k < |r| ==> key(x) < key(r[k])
    {
      k := k - 1;
    }
    InsertSorted(r, x, k, key);
    t := r[..k] + [x] + r[k..];
    assert r == r[..k] + r[k..];
  }

  /** Callers learn only that the result is a reordering that `key` puts in order. */
  method Sort<T>(s: seq<T>, key: T -> int) returns (r: seq<T>)
    ensures multiset(r) == multiset(s)
    ensures |r| == |s|
    ensures SortedBy(r, key)
  {
    r := [];
    for i := 0 to |s|
      invariant |r| == i
      invariant multiset(r) == multiset(s[..i])
      invariant SortedBy(r, key)
    {
      assert s[..i + 1] == s[..i] + [s[i]];
      r := Insert(r, s[i], key);
    }
    assert s[..|s|] == s;
  }

  lemma SameMembers<T>(r: seq<T>, s: seq<T>)
    requires multiset(r) == multiset(s)
    ensures forall x :: x in r <==> x in s
  {
    forall x
      ensures x in r <==> x in s
    {
      assert x in r <==> x in multiset(r);
      assert x in s <==> x in multiset(s);
    }
  }
}
