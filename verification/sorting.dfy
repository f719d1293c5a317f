/** A stable sort by a comparator, as List.sort and Stream.sorted perform it.
    `before(a, b)` means that `a` may stay ahead of `b`, the way a Java
    Comparator answers compare(a, b) <= 0. */
module Sorting {

  /** The comparator is total and transitive, as the Comparator contract asks. */
  ghost predicate TotalPreorder<T(!new)>(before: (T, T) -> bool) {
    && (forall a, b :: before(a, b) || before(b, a))
    && (forall a, b, c :: before(a, b) && before(b, c) ==> before(a, c))
  }

  /** Every element may stay ahead of every later one. */
  predicate SortedBy<T>(xs: seq<T>, before: (T, T) -> bool) {
    forall i, j :: 0 <= i < j < |xs| ==> before(xs[i], xs[j])
  }

  /** Inserts `x` into `xs` behind every element that may stay ahead of it. */
  function Insert<T>(x: T, xs: seq<T>, before: (T, T) -> bool): (r: seq<T>)
    ensures multiset(r) == multiset(xs) + multiset{x}
    decreases |xs|
  {
    if xs == [] then [x]
    else if before(xs[0], x) then
      assert xs == [xs[0]] + xs[1..];
      [xs[0]] + Insert(x, xs[1..], before)
    else [x] + xs
  }

  /** Insertion sort: the result is a permutation of the input. */
  function Sort<T>(xs: seq<T>, before: (T, T) -> bool): (r: seq<T>)
    ensures multiset(r) == multiset(xs)
    ensures |r| == |xs|
    decreases |xs|
  {
    if xs == [] then []
    else
      assert xs == xs[..|xs| - 1] + [xs[|xs| - 1]];
      var r := Insert(xs[|xs| - 1], Sort(xs[..|xs| - 1], before), before);
      assert |r| == |multiset(r)|;
      r
  }

  /** Sorting keeps exactly the elements it was given. */
  lemma SortKeepsMembers<T(!new)>(xs: seq<T>, before: (T, T) -> bool)
    ensures forall x :: x in Sort(xs, before) <==> x in xs
  {
    var r := Sort(xs, before);
    forall x ensures x in r <==> x in xs {
      assert x in r <==> x in multiset(r);
      assert x in xs <==> x in multiset(xs);
    }
  }

  /** An element that may stay ahead of every element of a sorted sequence,
      put in front of it, keeps it sorted. */
  lemma SortedCons<T>(h: T, tail: seq<T>, before: (T, T) -> bool)
    requires SortedBy(tail, before)
    requires forall k :: 0 <= k < |tail| ==> before(h, tail[k])
    ensures SortedBy([h] + tail, before)
  {
    var r := [h] + tail;
    forall i, j | 0 <= i < j < |r| ensures before(r[i], r[j]) {
      assert r[j] == tail[j - 1];
      if i > 0 {
        assert r[i] == tail[i - 1];
      }
    }
  }

  /** Every element of an insertion is the inserted one or an old one. */
  lemma InsertMembers<T>(x: T, xs: seq<T>, before: (T, T) -> bool)
    ensures forall y :: y in Insert(x, xs, before) ==> y == x || y in xs
  {
    forall y | y in Insert(x, xs, before) ensures y == x || y in xs {
      assert y in multiset(Insert(x, xs, before));
    }
  }

  lemma {:induction false} InsertSorted<T(!new)>(x: T, xs: seq<T>, before: (T, T) -> bool)
    requires TotalPreorder(before)
    requires SortedBy(xs, before)
    ensures SortedBy(Insert(x, xs, before), before)
    decreases |xs|
  {
    if xs == [] {
    } else if before(xs[0], x) {
      var tail := Insert(x, xs[1..], before);
      assert SortedBy(xs[1..], before);
      InsertSorted(x, xs[1..], before);
      InsertMembers(x, xs[1..], before);
      forall k | 0 <= k < |tail| ensures before(xs[0], tail[k]) {
        assert tail[k] in tail;
        if tail[k] != x {
          var j :| 0 <= j < |xs[1..]| && xs[1..][j] == tail[k];
          assert xs[j + 1] == tail[k];
        }
      }
      SortedCons(xs[0], tail, before);
    } else {
      assert before(x, xs[0]);
      forall k | 0 <= k < |xs| ensures before(x, xs[k]) {
        if k > 0 {
          assert before(xs[0], xs[k]);
        }
      }
      SortedCons(x, xs, before);
    }
  }

  /** Sort orders its result by the comparator. */
  lemma {:induction false} SortSorted<T(!new)>(xs: seq<T>, before: (T, T) -> bool)
    requires TotalPreorder(before)
    ensures SortedBy(Sort(xs, before), before)
    decreases |xs|
  {
    if xs != [] {
      SortSorted(xs[..|xs| - 1], before);
      InsertSorted(xs[|xs| - 1], Sort(xs[..|xs| - 1], before), before);
    }
  }

  /** The first `k` elements of a sorted sequence are some of its elements,
      still sorted. */
  lemma PrefixIsSortedPart<T>(xs: seq<T>, k: nat, before: (T, T) -> bool)
    requires SortedBy(xs, before)
    requires k <= |xs|
    ensures multiset(xs[..k]) <= multiset(xs)
    ensures forall x :: x in xs[..k] ==> x in xs
    ensures SortedBy(xs[..k], before)
  {
    assert xs == xs[..k] + xs[k..];
  }

  /** The first `k` elements of a sorted sequence may stay ahead of every
      element left out of them. */
  lemma PrefixIsTop<T(!new)>(xs: seq<T>, k: nat, before: (T, T) -> bool)
    requires SortedBy(xs, before)
    requires k <= |xs|
    ensures forall x, y :: x in multiset(xs) - multiset(xs[..k]) && y in xs[..k] ==> before(y, x)
  {
    assert xs == xs[..k] + xs[k..];
    assert multiset(xs) - multiset(xs[..k]) == multiset(xs[k..]);
    forall x, y | x in multiset(xs) - multiset(xs[..k]) && y in xs[..k] ensures before(y, x) {
      assert x in xs[k..];
      var j :| 0 <= j < |xs[k..]| && xs[k..][j] == x;
      var i :| 0 <= i < k && xs[..k][i] == y;
      assert xs[i] == y && xs[k + j] == x;
    }
  }
}
