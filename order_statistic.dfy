/** Order statistics over lists of observation times: the helpers the selection
    loop of NthTimeDiff.get_nth uses (Python's max and list.remove), a rank
    characterisation of "the k-th smallest element, counting duplicates", and
    a sorted copy standing in for Python's sorted(), with the lemmas that tie
    the two together. */
module OrderStatistic {

  /** Largest element of a non-empty list (Python's built-in max). */
  function Max(s: seq<real>): (m: real)
    requires |s| > 0
    ensures m in s
    ensures forall i :: 0 <= i < |s| ==> s[i] <= m
  {
    if |s| == 1 then s[0]
    else
      var rest := Max(s[1..]);
      assert s == [s[0]] + s[1..];
      if s[0] >= rest then s[0] else rest
  }

  /** list.remove(x): the list without the first occurrence of x. */
  function RemoveFirst(s: seq<real>, x: real): (r: seq<real>)
    requires x in s
    ensures |r| == |s| - 1
    ensures multiset(r) == multiset(s) - multiset{x}
  {
    assert s == [s[0]] + s[1..];
    if s[0] == x then s[1..] else [s[0]] + RemoveFirst(s[1..], x)
  }

  /** Number of elements of s strictly below r. */
  function CountLess(s: seq<real>, r: real): (n: nat)
    ensures n <= |s|
  {
    if s == [] then 0 else (if s[0] < r then 1 else 0) + CountLess(s[1..], r)
  }

  /** Number of elements of s at most r. */
  function CountAtMost(s: seq<real>, r: real): (n: nat)
    ensures n <= |s|
  {
    if s == [] then 0 else (if s[0] <= r then 1 else 0) + CountAtMost(s[1..], r)
  }

  /** r is the k-th smallest element of s, duplicates counted with their
      multiplicity: fewer than k elements lie strictly below r, and at least k
      lie at or below it. */
  predicate IsNthSmallest(s: seq<real>, k: int, r: real)
  {
    r in s && CountLess(s, r) < k <= CountAtMost(s, r)
  }

  predicate Sorted(s: seq<real>)
  {
    forall i, j :: 0 <= i < j < |s| ==> s[i] <= s[j]
  }

  /** Insert x into a sorted list, keeping it sorted. */
  function Insert(x: real, s: seq<real>): (r: seq<real>)
    requires Sorted(s)
    ensures Sorted(r)
    ensures multiset(r) == multiset(s) + multiset{x}
    ensures |r| == |s| + 1
    ensures r[0] == x || (s != [] && r[0] == s[0])
  {
    if s == [] || x <= s[0] then [x] + s
    else
      assert s == [s[0]] + s[1..];
      [s[0]] + Insert(x, s[1..])
  }

  /** The ascending sort of s (the reference definition of Python's sorted()). */
  function SortedCopy(s: seq<real>): (r: seq<real>)
    ensures Sorted(r)
    ensures multiset(r) == multiset(s)
    ensures |r| == |s|
  {
    if s == [] then []
    else
      assert s == [s[0]] + s[1..];
      Insert(s[0], SortedCopy(s[1..]))
  }

  /** The k-th smallest element of s: position k-1 of its ascending sort. */
  function NthSmallest(s: seq<real>, k: int): (r: real)
    requires 1 <= k <= |s|
    ensures IsNthSmallest(s, k, r)
  {
    var t := SortedCopy(s);
    SortedRank(t, k);
    CountPermutation(t, s, t[k - 1]);
    assert t[k - 1] in multiset(s);
    t[k - 1]
  }

  lemma {:induction false} CountAppend(a: seq<real>, b: seq<real>, r: real)
    ensures CountLess(a + b, r) == CountLess(a, r) + CountLess(b, r)
    ensures CountAtMost(a + b, r) == CountAtMost(a, r) + CountAtMost(b, r)
  {
    if a == [] {
      assert a + b == b;
    } else {
      assert (a + b)[1..] == a[1..] + b;
      CountAppend(a[1..], b, r);
    }
  }

  /** Dropping position j removes one occurrence of b[j] from the multiset. */
  lemma RemoveAtMultiset(b: seq<real>, j: int)
    requires 0 <= j < |b|
    ensures multiset(b[..j] + b[j + 1..]) == multiset(b) - multiset{b[j]}
  {
    assert b == b[..j] + [b[j]] + b[j + 1..];
  }

  /** Dropping position j removes b[j]'s contribution from the counts. */
  lemma CountRemoveAt(b: seq<real>, j: int, r: real)
    requires 0 <= j < |b|
    ensures CountLess(b, r) == (if b[j] < r then 1 else 0) + CountLess(b[..j] + b[j + 1..], r)
    ensures CountAtMost(b, r) == (if b[j] <= r then 1 else 0) + CountAtMost(b[..j] + b[j + 1..], r)
  {
    assert b == b[..j] + ([b[j]] + b[j + 1..]);
    CountAppend(b[..j], [b[j]] + b[j + 1..], r);
    CountAppend([b[j]], b[j + 1..], r);
    CountAppend(b[..j], b[j + 1..], r);
  }

  /** The counts depend only on the multiset of elements. */
  lemma {:induction false} CountPermutation(a: seq<real>, b: seq<real>, r: real)
    requires multiset(a) == multiset(b)
    ensures CountLess(a, r) == CountLess(b, r)
    ensures CountAtMost(a, r) == CountAtMost(b, r)
    decreases |a|
  {
    if a == [] {
      assert |b| == |multiset(b)| == 0;
    } else {
      assert a[0] in multiset(b);
      var j :| 0 <= j < |b| && b[j] == a[0];
      RemoveAtMultiset(a, 0);
      assert a[..0] + a[1..] == a[1..];
      RemoveAtMultiset(b, j);
      CountPermutation(a[1..], b[..j] + b[j + 1..], r);
      CountRemoveAt(b, j, r);
    }
  }

  /** When every element is at most r, all of them are counted. */
  lemma {:induction false} CountAllAtMost(s: seq<real>, r: real)
    requires forall i :: 0 <= i < |s| ==> s[i] <= r
    ensures CountAtMost(s, r) == |s|
  {
    if s != [] {
      CountAllAtMost(s[1..], r);
    }
  }

  /** When every element is at least r, none lies strictly below it. */
  lemma {:induction false} CountNoneLess(s: seq<real>, r: real)
    requires forall i :: 0 <= i < |s| ==> r <= s[i]
    ensures CountLess(s, r) == 0
  {
    if s != [] {
      CountNoneLess(s[1..], r);
    }
  }

  /** One element x of s is enough to move the counts away from their bounds. */
  lemma {:induction false} CountWitness(s: seq<real>, x: real, r: real)
    requires x in s
    ensures x < r ==> CountLess(s, r) > 0
    ensures r <= x ==> CountLess(s, r) < |s|
    ensures r < x ==> CountAtMost(s, r) < |s|
  {
    if s[0] != x {
      assert s == [s[0]] + s[1..];
      CountWitness(s[1..], x, r);
    }
  }

  /** For a < b, everything at most a is strictly below b. */
  lemma {:induction false} CountMonotone(s: seq<real>, a: real, b: real)
    requires a < b
    ensures CountAtMost(s, a) <= CountLess(s, b)
  {
    if s != [] {
      CountMonotone(s[1..], a, b);
    }
  }

  /** In a sorted list the element at position k-1 is the k-th smallest. */
  lemma SortedRank(t: seq<real>, k: int)
    requires Sorted(t)
    requires 1 <= k <= |t|
    ensures IsNthSmallest(t, k, t[k - 1])
  {
    var r := t[k - 1];
    assert t == t[..k - 1] + t[k - 1..];
    CountAppend(t[..k - 1], t[k - 1..], r);
    CountNoneLess(t[k - 1..], r);
    assert t == t[..k] + t[k..];
    CountAppend(t[..k], t[k..], r);
    CountAllAtMost(t[..k], r);
  }

  /** The k-th smallest element is unique. */
  lemma NthSmallestUnique(s: seq<real>, k: int, r1: real, r2: real)
    requires IsNthSmallest(s, k, r1)
    requires IsNthSmallest(s, k, r2)
    ensures r1 == r2
  {
    if r1 < r2 {
      CountMonotone(s, r1, r2);
    } else if r2 < r1 {
      CountMonotone(s, r2, r1);
    }
  }

  /** Any value with the k-th smallest rank is sorted(s)[k-1]. */
  lemma NthSmallestIsSortedAt(s: seq<real>, k: int, r: real)
    requires IsNthSmallest(s, k, r)
    ensures 1 <= k <= |s|
    ensures r == SortedCopy(s)[k - 1]
  {
    NthSmallestUnique(s, k, r, NthSmallest(s, k));
  }

  /** The k-th smallest element does not depend on the order of the list. */
  lemma NthSmallestPermutation(s: seq<real>, u: seq<real>, k: int)
    requires multiset(s) == multiset(u)
    requires 1 <= k <= |s|
    ensures |u| == |s|
    ensures NthSmallest(s, k) == NthSmallest(u, k)
  {
    assert |u| == |multiset(u)| == |multiset(s)| == |s|;
    var r := NthSmallest(s, k);
    CountPermutation(s, u, r);
    assert r in multiset(u);
    NthSmallestUnique(u, k, r, NthSmallest(u, k));
  }

  /** Rank 1 selects the minimum. */
  lemma FirstIsMinimum(s: seq<real>)
    requires |s| > 0
    ensures forall x :: x in s ==> NthSmallest(s, 1) <= x
  {
    var r := NthSmallest(s, 1);
    forall x | x in s
      ensures r <= x
    {
      CountWitness(s, x, r);
    }
  }

  /** Rank |s| selects the maximum. */
  lemma LastIsMaximum(s: seq<real>)
    requires |s| > 0
    ensures forall x :: x in s ==> x <= NthSmallest(s, |s|)
  {
    var r := NthSmallest(s, |s|);
    forall x | x in s
      ensures x <= r
    {
      CountWitness(s, x, r);
    }
  }
}
