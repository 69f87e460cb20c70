/** Natural order and the substring relations on strings.
    Java's `String.compareTo` compares UTF-16 code units; here a string is a
    sequence of `char` and characters compare by code point. */
module Strings {
  import opened Comparators

  /** Lexicographic comparison, character by character; a proper prefix sorts
      first. Returns -1, 0 or 1. */
  function Compare(a: string, b: string): (r: int)
    ensures -1 <= r <= 1
    ensures r == 0 <==> a == b
  {
    if |a| == 0 && |b| == 0 then 0
    else if |a| == 0 then -1
    else if |b| == 0 then 1
    else if a[0] < b[0] then -1
    else if a[0] > b[0] then 1
    else
      assert a == [a[0]] + a[1..] && b == [b[0]] + b[1..];
      Compare(a[1..], b[1..])
  }

  /** `a` sorts no later than `b` in natural order. */
  predicate LessEq(a: string, b: string) {
    Compare(a, b) <= 0
  }

  lemma {:induction false} CompareFlip(a: string, b: string)
    ensures Compare(a, b) == -Compare(b, a)
    decreases |a|
  {
    if |a| > 0 && |b| > 0 && a[0] == b[0] {
      CompareFlip(a[1..], b[1..]);
    }
  }

  lemma {:induction false} CompareChain(a: string, b: string, c: string)
    requires Compare(a, b) <= 0 && Compare(b, c) <= 0
    ensures Compare(a, c) <= 0
    decreases |a|
  {
    if |a| > 0 && |b| > 0 && |c| > 0 && a[0] == b[0] && b[0] == c[0] {
      CompareChain(a[1..], b[1..], c[1..]);
    }
  }

  /** Natural string order is a total order, as `Comparable<String>` promises. */
  lemma CompareIsTotalOrder()
    ensures TotalOrder(Compare)
  {
    forall a, b ensures Compare(a, b) == -Compare(b, a) {
      CompareFlip(a, b);
    }
    forall a, b, c | Compare(a, b) <= 0 && Compare(b, c) <= 0
      ensures Compare(a, c) <= 0
    {
      CompareChain(a, b, c);
    }
  }

  /** `String.startsWith`: `prefix` is an initial segment of `s`. */
  predicate StartsWith(s: string, prefix: string) {
    |prefix| <= |s| && s[..|prefix|] == prefix
  }

  /** `String.endsWith`: `suffix` is a final segment of `s`. */
  predicate EndsWith(s: string, suffix: string) {
    |suffix| <= |s| && s[|s| - |suffix|..] == suffix
  }

  /** `part` occurs in `s` starting at index `i`. */
  predicate OccursAt(s: string, part: string, i: int) {
    0 <= i <= |s| - |part| && s[i..i + |part|] == part
  }

  /** `String.contains`: `part` occurs in `s` at some position. */
  predicate Contains(s: string, part: string) {
    exists i | 0 <= i <= |s| :: OccursAt(s, part, i)
  }

  /** Every string contains each of its own slices. */
  lemma ContainsSlice(s: string, i: nat, j: nat)
    requires i <= j <= |s|
    ensures Contains(s, s[i..j])
  {
    assert OccursAt(s, s[i..j], i);
  }
}
