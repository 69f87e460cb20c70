/** The laws a `java.util.Comparator` must obey, for comparators modelled as
    functions returning -1, 0 or 1. */
module Comparators {

  /** Three-way comparison of integers: the sign of `a - b`. */
  function IntCompare(a: int, b: int): (r: int)
    ensures r < 0 <==> a < b
    ensures r == 0 <==> a == b
    ensures r > 0 <==> a > b
    ensures -1 <= r <= 1
  {
    if a < b then -1 else if a > b then 1 else 0
  }

  /** Swapping the arguments negates the result; in particular `cmp(a, a) == 0`. */
  ghost predicate Antisymmetric<T(!new)>(cmp: (T, T) -> int) {
    forall a, b :: cmp(a, b) == -cmp(b, a)
  }

  /** "Sorts no later than" is transitive. */
  ghost predicate Transitive<T(!new)>(cmp: (T, T) -> int) {
    forall a, b, c :: cmp(a, b) <= 0 && cmp(b, c) <= 0 ==> cmp(a, c) <= 0
  }

  /** A comparator that induces a total preorder: the contract of `Comparator.compare`. */
  ghost predicate TotalPreorder<T(!new)>(cmp: (T, T) -> int) {
    Antisymmetric(cmp) && Transitive(cmp)
  }

  /** A total preorder that only ties identical values: a total order. */
  ghost predicate TotalOrder<T(!new)>(cmp: (T, T) -> int) {
    TotalPreorder(cmp) && forall a, b :: cmp(a, b) == 0 ==> a == b
  }
}
