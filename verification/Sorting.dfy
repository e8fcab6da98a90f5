/** Sorting by a total preorder, and permutations given by index lists. */
module Sorting {
  ghost predicate TotalPreorder<T(!new)>(le: (T, T) -> bool) {
    && (forall x, y :: le(x, y) || le(y, x))
    && (forall x, y, z :: le(x, y) && le(y, z) ==> le(x, z))
  }

  ghost predicate SortedBy<T>(s: seq<T>, le: (T, T) -> bool) {
    forall i, j :: 0 <= i < j < |s| ==> le(s[i], s[j])
  }

  function Insert<T>(x: T, s: seq<T>, le: (T, T) -> bool): seq<T> {
    if s == [] then [x]
    else if le(x, s[0]) then [x] + s
    else [s[0]] + Insert(x, s[1..], le)
  }

  function Sort<T>(s: seq<T>, le: (T, T) -> bool): seq<T> {
    if s == [] then [] else Insert(s[0], Sort(s[1..], le), le)
  }

  lemma {:induction false} InsertPermutes<T>(x: T, s: seq<T>, le: (T, T) -> bool)
    ensures multiset(Insert(x, s, le)) == multiset{x} + multiset(s)
  {
    if s != [] {
      assert s == [s[0]] + s[1..];
      if !le(x, s[0]) {
        InsertPermutes(x, s[1..], le);
      }
    }
  }

  lemma {:induction false} SortPermutes<T>(s: seq<T>, le: (T, T) -> bool)
    ensures multiset(Sort(s, le)) == multiset(s)
  {
    if s != [] {
      SortPermutes(s[1..], le);
      InsertPermutes(s[0], Sort(s[1..], le), le);
      assert s == [s[0]] + s[1..];
    }
  }

  lemma SortMembers<T>(s: seq<T>, le: (T, T) -> bool)
    ensures forall x :: x in Sort(s, le) <==> x in s
    ensures |Sort(s, le)| == |s|
  {
    SortPermutes(s, le);
    forall x
      ensures x in Sort(s, le) <==> x in s
    {
      assert x in multiset(Sort(s, le)) <==> x in multiset(s);
    }
    assert |multiset(Sort(s, le))| == |multiset(s)|;
  }

  lemma {:induction false} InsertSorts<T(!new)>(x: T, s: seq<T>, le: (T, T) -> bool)
    requires TotalPreorder(le) && SortedBy(s, le)
    ensures SortedBy(Insert(x, s, le), le)
  {
    if s != [] && !le(x, s[0]) {
      var rest := Insert(x, s[1..], le);
      InsertSorts(x, s[1..], le);
      InsertPermutes(x, s[1..], le);
      forall y | y in rest
        ensures le(s[0], y)
      {
        assert y in multiset(rest);
        assert y == x || y in s[1..];
      }
    }
  }

  lemma {:induction false} SortSorts<T(!new)>(s: seq<T>, le: (T, T) -> bool)
    requires TotalPreorder(le)
    ensures SortedBy(Sort(s, le), le)
  {
    if s != [] {
      SortSorts(s[1..], le);
      InsertSorts(s[0], Sort(s[1..], le), le);
    }
  }

  // ----- index lists

  ghost predicate Distinct<T>(s: seq<T>) {
    forall i, j :: 0 <= i < j < |s| ==> s[i] != s[j]
  }

  /** Every index below `n`, each once. */
  ghost predicate IsPermutation(p: seq<nat>, n: nat) {
    Distinct(p) && forall i: nat :: i in p <==> i < n
  }

  ghost predicate InRange(p: seq<nat>, n: nat) {
    forall k :: 0 <= k < |p| ==> p[k] < n
  }

  lemma PermutationInRange(p: seq<nat>, n: nat)
    requires IsPermutation(p, n)
    ensures InRange(p, n)
  {
    forall k | 0 <= k < |p|
      ensures p[k] < n
    {
      assert p[k] in p;
    }
  }

  function Pick<T>(s: seq<T>, p: seq<nat>): (r: seq<T>)
    requires InRange(p, |s|)
    ensures |r| == |p|
  {
    seq(|p|, k requires 0 <= k < |p| => s[p[k]])
  }

  /** Taking the largest index out of a permutation leaves a shorter one. */
  lemma WithoutLargest(p: seq<nat>, n: nat, k: nat)
    requires IsPermutation(p, n + 1) && k < |p| && p[k] == n
    ensures IsPermutation(p[..k] + p[k + 1..], n)
  {
    var q := p[..k] + p[k + 1..];
    forall i: nat
      ensures i in q <==> i < n
    {
      if i in p && i != n {
        var m :| 0 <= m < |p| && p[m] == i;
        assert q[if m < k then m else m - 1] == i;
      }
      if i in q {
        var m :| 0 <= m < |q| && q[m] == i;
        assert p[if m < k then m else m + 1] == i;
        assert i in p;
      }
    }
  }

  lemma PickSplit<T>(s: seq<T>, p: seq<nat>, k: nat)
    requires InRange(p, |s|) && k < |p|
    ensures InRange(p[..k] + p[k + 1..], |s|)
    ensures Pick(s, p) == Pick(s, p)[..k] + [s[p[k]]] + Pick(s, p)[k + 1..]
    ensures Pick(s, p[..k] + p[k + 1..]) == Pick(s, p)[..k] + Pick(s, p)[k + 1..]
  {
  }

  lemma PickPrefix<T>(s: seq<T>, n: nat, p: seq<nat>)
    requires n <= |s| && InRange(p, n)
    ensures Pick(s[..n], p) == Pick(s, p)
  {
  }

  /** Picking by a permutation keeps every element, as often as it was there. */
  lemma {:induction false} PickPermutes<T>(s: seq<T>, p: seq<nat>)
    requires IsPermutation(p, |s|) && InRange(p, |s|)
    ensures multiset(Pick(s, p)) == multiset(s)
  {
    if p == [] {
      assert |s| > 0 ==> 0 in p;
    } else {
      assert p[0] < |s|;
      var n := |s| - 1;
      assert n in p;
      var k :| 0 <= k < |p| && p[k] == n;
      var q := p[..k] + p[k + 1..];
      WithoutLargest(p, n, k);
      PermutationInRange(q, n);
      PickSplit(s, p, k);
      PickPrefix(s, n, q);
      PickPermutes(s[..n], q);
      MovedElement(Pick(s, p)[..k], Pick(s, p)[k + 1..], s, n);
    }
  }

  lemma MovedElement<T>(before: seq<T>, after: seq<T>, s: seq<T>, n: nat)
    requires |s| == n + 1 && multiset(before + after) == multiset(s[..n])
    ensures multiset(before + [s[n]] + after) == multiset(s)
  {
    assert s == s[..n] + [s[n]];
  }

  function Upto(n: nat): (p: seq<nat>)
    ensures |p| == n && forall i :: 0 <= i < n ==> p[i] == i
  {
    seq(n, i => i)
  }

  function Filter<T(!new)>(s: seq<T>, keep: T -> bool): (r: seq<T>)
    ensures forall x :: x in r <==> x in s && keep(x)
  {
    if s == [] then []
    else
      var rest := Filter(s[1..], keep);
      if keep(s[0]) then [s[0]] + rest else rest
  }

  lemma {:induction false} FilterDistinct<T(!new)>(s: seq<T>, keep: T -> bool)
    requires Distinct(s)
    ensures Distinct(Filter(s, keep))
  {
    if s != [] {
      FilterDistinct(s[1..], keep);
    }
  }

  lemma ConsDistinct<T>(x: T, s: seq<T>)
    requires x !in s && Distinct(s)
    ensures Distinct([x] + s)
  {
  }

  lemma {:induction false} InsertDistinct<T>(x: T, s: seq<T>, le: (T, T) -> bool)
    requires Distinct(s) && x !in s
    ensures Distinct(Insert(x, s, le))
  {
    if s != [] && !le(x, s[0]) {
      InsertDistinct(x, s[1..], le);
      InsertPermutes(x, s[1..], le);
      assert s[0] !in multiset(Insert(x, s[1..], le));
      ConsDistinct(s[0], Insert(x, s[1..], le));
    } else {
      ConsDistinct(x, s);
    }
  }

  lemma {:induction false} SortDistinct<T>(s: seq<T>, le: (T, T) -> bool)
    requires Distinct(s)
    ensures Distinct(Sort(s, le))
  {
    if s != [] {
      SortDistinct(s[1..], le);
      SortPermutes(s[1..], le);
      assert s[0] !in multiset(Sort(s[1..], le));
      InsertDistinct(s[0], Sort(s[1..], le), le);
    }
  }
}
