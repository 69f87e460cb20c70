/** Guava's `Ordering.isOrdered` and `Ordering.immutableSortedCopy` for a
    comparator given as a function. */
module Ordering {
  import opened Comparators

  /** Every adjacent pair is in order: what `isOrdered` tests. */
  predicate Sorted<T>(cmp: (T, T) -> int, xs: seq<T>) {
    forall i :: 0 < i < |xs| ==> cmp(xs[i - 1], xs[i]) <= 0
  }

  /** `isOrdered`: scans adjacent pairs and stops at the first one out of order. */
  method IsOrdered<T>(cmp: (T, T) -> int, xs: seq<T>) returns (ordered: bool)
    ensures ordered <==> Sorted(cmp, xs)
  {
    var i := 1;
    while i < |xs|
      invariant 1 <= i
      invariant forall k :: 0 < k < i && k < |xs| ==> cmp(xs[k - 1], xs[k]) <= 0
    {
      if cmp(xs[i - 1], xs[i]) > 0 {
        return false;
      }
      i := i + 1;
    }
    return true;
  }

  /** Under a transitive comparator, adjacent order gives order between any
      two positions. */
  lemma {:induction false} SortedPairwise<T(!new)>(cmp: (T, T) -> int, xs: seq<T>, i: int, j: int)
    requires Transitive(cmp)
    requires Sorted(cmp, xs)
    requires 0 <= i < j < |xs|
    ensures cmp(xs[i], xs[j]) <= 0
    decreases j - i
  {
    if i + 1 < j {
      SortedPairwise(cmp, xs, i + 1, j);
    }
  }

  /** Inserts `x` into `ys` after every element that sorts strictly before it
      and before the first element it does not sort after. */
  function Insert<T>(cmp: (T, T) -> int, x: T, ys: seq<T>): (r: seq<T>)
    ensures |r| == |ys| + 1
    ensures multiset(r) == multiset(ys) + multiset{x}
    ensures r[0] == x || (|ys| > 0 && r[0] == ys[0])
  {
    if |ys| == 0 then [x]
    else if cmp(x, ys[0]) <= 0 then [x] + ys
    else
      assert ys == [ys[0]] + ys[1..];
      [ys[0]] + Insert(cmp, x, ys[1..])
  }

  /** `immutableSortedCopy`: a stable insertion sort. */
  function SortedCopy<T>(cmp: (T, T) -> int, xs: seq<T>): (r: seq<T>)
    ensures |r| == |xs|
    ensures multiset(r) == multiset(xs)
  {
    if |xs| == 0 then []
    else
      assert xs == [xs[0]] + xs[1..];
      Insert(cmp, xs[0], SortedCopy(cmp, xs[1..]))
  }

  lemma {:induction false} InsertSorted<T(!new)>(cmp: (T, T) -> int, x: T, ys: seq<T>)
    requires Antisymmetric(cmp)
    requires Sorted(cmp, ys)
    ensures Sorted(cmp, Insert(cmp, x, ys))
    decreases |ys|
  {
    if |ys| > 0 && cmp(x, ys[0]) > 0 {
      assert cmp(ys[0], x) < 0;
      InsertSorted(cmp, x, ys[1..]);
    }
  }

  /** The sorted copy is in order. */
  lemma {:induction false} SortedCopyIsSorted<T(!new)>(cmp: (T, T) -> int, xs: seq<T>)
    requires Antisymmetric(cmp)
    ensures Sorted(cmp, SortedCopy(cmp, xs))
    decreases |xs|
  {
    if |xs| > 0 {
      SortedCopyIsSorted(cmp, xs[1..]);
      InsertSorted(cmp, xs[0], SortedCopy(cmp, xs[1..]));
    }
  }

  /** A sequence already in order is its own sorted copy: the sort moves
      nothing it need not move. */
  lemma {:induction false} SortedCopyOfSorted<T>(cmp: (T, T) -> int, xs: seq<T>)
    requires Sorted(cmp, xs)
    ensures SortedCopy(cmp, xs) == xs
    decreases |xs|
  {
    if |xs| > 0 {
      assert Sorted(cmp, xs[1..]);
      SortedCopyOfSorted(cmp, xs[1..]);
    }
  }

  /** Sorting twice is sorting once. */
  lemma SortedCopyIdempotent<T(!new)>(cmp: (T, T) -> int, xs: seq<T>)
    requires Antisymmetric(cmp)
    ensures SortedCopy(cmp, SortedCopy(cmp, xs)) == SortedCopy(cmp, xs)
  {
    SortedCopyIsSorted(cmp, xs);
    SortedCopyOfSorted(cmp, SortedCopy(cmp, xs));
  }

  /** Two sorted permutations of each other under a total order start with
      the same element. */
  lemma SortedPermutationHeads<T(!new)>(cmp: (T, T) -> int, xs: seq<T>, ys: seq<T>)
    requires TotalOrder(cmp)
    requires Sorted(cmp, xs) && Sorted(cmp, ys)
    requires multiset(xs) == multiset(ys)
    requires |xs| > 0
    ensures |ys| > 0 && xs[0] == ys[0]
  {
    assert xs[0] in multiset(ys);
    var i :| 0 <= i < |ys| && ys[i] == xs[0];
    assert ys[0] in multiset(xs);
    var j :| 0 <= j < |xs| && xs[j] == ys[0];
    if i > 0 { SortedPairwise(cmp, ys, 0, i); }
    if j > 0 { SortedPairwise(cmp, xs, 0, j); }
    assert cmp(ys[0], xs[0]) <= 0 && cmp(xs[0], ys[0]) <= 0;
    assert cmp(xs[0], ys[0]) == -cmp(ys[0], xs[0]);
  }

  /** Removing equal heads from equal multisets leaves equal multisets. */
  lemma TailsSameMultiset<T>(xs: seq<T>, ys: seq<T>)
    requires |xs| > 0 && |ys| > 0 && xs[0] == ys[0]
    requires multiset(xs) == multiset(ys)
    ensures multiset(xs[1..]) == multiset(ys[1..])
  {
    assert xs == [xs[0]] + xs[1..] && ys == [ys[0]] + ys[1..];
    assert multiset(xs[1..]) == multiset(xs) - multiset{xs[0]};
    assert multiset(ys[1..]) == multiset(ys) - multiset{ys[0]};
  }

  /** Under a total order, a sequence has exactly one sorted permutation. */
  lemma {:induction false} SortedPermutationUnique<T(!new)>(cmp: (T, T) -> int, xs: seq<T>, ys: seq<T>)
    requires TotalOrder(cmp)
    requires Sorted(cmp, xs) && Sorted(cmp, ys)
    requires multiset(xs) == multiset(ys)
    ensures xs == ys
    decreases |xs|
  {
    if |xs| == 0 {
      assert |ys| == |multiset(ys)| == 0;
    } else {
      SortedPermutationHeads(cmp, xs, ys);
      TailsSameMultiset(xs, ys);
      assert Sorted(cmp, xs[1..]) && Sorted(cmp, ys[1..]);
      SortedPermutationUnique(cmp, xs[1..], ys[1..]);
      assert xs == [xs[0]] + xs[1..] && ys == [ys[0]] + ys[1..];
    }
  }
}
