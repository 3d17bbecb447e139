/**
 `intersections.sort()` on the scanline's list of `isize` crossings. The model
 sorts by insertion; since a sorted permutation of a list of integers is unique,
 any sorting algorithm (the standard library's included) gives the same list.
 */
module Sorting {

  predicate Sorted(s: seq<int>) {
    forall i, j :: 0 <= i < j < |s| ==> s[i] <= s[j]
  }

  /** Insert `x` in front of the first element not smaller than it. */
  function Insert(x: int, s: seq<int>): (r: seq<int>)
    requires Sorted(s)
    ensures Sorted(r)
    ensures multiset(r) == multiset(s) + multiset{x}
    ensures |r| == |s| + 1
  {
    if |s| == 0 then [x]
    else if x <= s[0] then [x] + s
    else
      var rest := Insert(x, s[1..]);
      InsertBehindHead(x, s, rest);
      [s[0]] + rest
  }

  /** When `x` goes behind the head, the head still bounds every element and keeps its place in front. */
  lemma InsertBehindHead(x: int, s: seq<int>, rest: seq<int>)
    requires Sorted(s) && |s| > 0 && s[0] < x
    requires Sorted(rest) && multiset(rest) == multiset(s[1..]) + multiset{x}
    ensures Sorted([s[0]] + rest)
    ensures multiset([s[0]] + rest) == multiset(s) + multiset{x}
  {
    assert s == [s[0]] + s[1..];
    forall k | 0 <= k < |rest|
      ensures s[0] <= rest[k]
    {
      assert rest[k] in multiset(rest);
    }
  }

  function Sort(s: seq<int>): (r: seq<int>)
    ensures Sorted(r)
    ensures multiset(r) == multiset(s)
  {
    if |s| == 0 then []
    else
      assert s == s[..|s| - 1] + [s[|s| - 1]];
      Insert(s[|s| - 1], Sort(s[..|s| - 1]))
  }

  /** The first element of a non-empty sorted list is its least element. */
  lemma {:induction false} HeadIsLeast(s: seq<int>, v: int)
    requires Sorted(s) && v in multiset(s)
    ensures |s| > 0 && s[0] <= v
  {
    var k :| 0 <= k < |s| && s[k] == v;
  }

  /** Two sorted lists with the same elements are the same list. */
  lemma {:induction false} SortedUnique(a: seq<int>, b: seq<int>)
    requires Sorted(a) && Sorted(b) && multiset(a) == multiset(b)
    ensures a == b
    decreases |a|
  {
    if |a| > 0 {
      assert |b| == |a| by {
        assert |multiset(a)| == |a| && |multiset(b)| == |b|;
      }
      assert a[0] in multiset(b) && b[0] in multiset(a) by {
        assert a[0] in multiset(a) && b[0] in multiset(b);
      }
      HeadIsLeast(a, b[0]);
      HeadIsLeast(b, a[0]);
      assert a[0] == b[0];
      SameTails(a, b);
      SortedUnique(a[1..], b[1..]);
      assert a == [a[0]] + a[1..] && b == [b[0]] + b[1..];
    } else {
      assert |b| == 0 by {
        assert |multiset(b)| == |b|;
      }
    }
  }

  /** Removing the same head from two lists with the same elements leaves tails with the same elements. */
  lemma SameTails(a: seq<int>, b: seq<int>)
    requires |a| > 0 && |b| > 0 && a[0] == b[0] && multiset(a) == multiset(b)
    ensures multiset(a[1..]) == multiset(b[1..])
  {
    assert a == [a[0]] + a[1..] && b == [b[0]] + b[1..];
    assert multiset(a[1..]) == multiset(a) - multiset{a[0]};
    assert multiset(b[1..]) == multiset(b) - multiset{a[0]};
  }

  /** `Sort` agrees with every other sort: the result depends only on the elements. */
  lemma SortIsTheSort(s: seq<int>, t: seq<int>)
    requires Sorted(t) && multiset(t) == multiset(s)
    ensures Sort(s) == t
  {
    SortedUnique(Sort(s), t);
  }
}
