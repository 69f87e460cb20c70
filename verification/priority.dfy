/** The priority comparator behind every ordering rule: keys matched by a
    priority token sort first, in token order; all other keys sort after them,
    in their natural order.

    The token relation `equiv` is a parameter, applied as `equiv(token, key)`:
    `Exact` for the default matcher, a starts-with relation for group and
    artifact ids. How two distinct keys first matched by the same token
    compare is not fixed by anything the model follows, so that order is the
    parameter `tie`. */
module Priority {
  import opened Comparators
  import Seqs
  import Strings

  /** The default token relation: a token matches only an equal key. */
  predicate Exact<K(==)>(token: K, key: K) {
    token == key
  }

  /** Some priority token is related to `key`. */
  predicate Matched<K>(priorities: seq<K>, equiv: (K, K) -> bool, key: K) {
    exists i :: 0 <= i < |priorities| && equiv(priorities[i], key)
  }

  /** The rank of `key`: the position of the first priority token related to
      it, or -1 when no token is (the key is unranked). */
  function Rank<K>(priorities: seq<K>, equiv: (K, K) -> bool, key: K): (r: int)
    ensures -1 <= r < |priorities|
    ensures r >= 0 ==> equiv(priorities[r], key)
    ensures r >= 0 ==> forall j :: 0 <= j < r ==> !equiv(priorities[j], key)
    ensures r < 0 <==> !Matched(priorities, equiv, key)
  {
    Seqs.FirstIndex(priorities, t => equiv(t, key))
  }

  /** The priority comparison of two keys: `natural` orders two unmatched
      keys, `tie` two keys of the same rank. */
  function Compare<K>(priorities: seq<K>, equiv: (K, K) -> bool, natural: (K, K) -> int, tie: (K, K) -> int,
                      a: K, b: K): (r: int)
    ensures Matched(priorities, equiv, a) && !Matched(priorities, equiv, b) ==> r == -1
    ensures !Matched(priorities, equiv, a) && Matched(priorities, equiv, b) ==> r == 1
    ensures !Matched(priorities, equiv, a) && !Matched(priorities, equiv, b) ==> r == natural(a, b)
    ensures a == b && natural(a, a) == 0 && tie(a, a) == 0 ==> r == 0
  {
    var ra := Rank(priorities, equiv, a);
    var rb := Rank(priorities, equiv, b);
    if ra >= 0 && rb >= 0 then
      if ra != rb then IntCompare(ra, rb) else tie(a, b)
    else if ra >= 0 then -1
    else if rb >= 0 then 1
    else natural(a, b)
  }

  /** Under exact matching, a key first listed at position `i` has rank `i`,
      and two keys first listed at different positions compare as those
      positions. */
  lemma ExactRankedByPosition<K>(priorities: seq<K>, natural: (K, K) -> int, tie: (K, K) -> int,
                                     a: K, b: K, i: int, j: int)
    requires 0 <= i < |priorities| && priorities[i] == a && a !in priorities[..i]
    requires 0 <= j < |priorities| && priorities[j] == b && b !in priorities[..j]
    requires i != j
    ensures Compare(priorities, Exact, natural, tie, a, b) == IntCompare(i, j)
  {
    assert forall k :: 0 <= k < i ==> priorities[k] in priorities[..i];
    assert forall k :: 0 <= k < j ==> priorities[k] in priorities[..j];
    RankedByPosition(priorities, Exact, natural, tie, a, b, i, j);
  }

  /** Two matched keys compare as the positions of the first tokens matching
      them: an earlier token sorts first, and keys first matched by the same
      token are ordered by `tie`. */
  lemma RankedByPosition<K>(priorities: seq<K>, equiv: (K, K) -> bool, natural: (K, K) -> int, tie: (K, K) -> int,
                            a: K, b: K, i: int, j: int)
    requires 0 <= i < |priorities| && equiv(priorities[i], a)
    requires forall k :: 0 <= k < i ==> !equiv(priorities[k], a)
    requires 0 <= j < |priorities| && equiv(priorities[j], b)
    requires forall k :: 0 <= k < j ==> !equiv(priorities[k], b)
    ensures i != j ==> Compare(priorities, equiv, natural, tie, a, b) == IntCompare(i, j)
    ensures i == j ==> Compare(priorities, equiv, natural, tie, a, b) == tie(a, b)
  {
    assert Rank(priorities, equiv, a) == i;
    assert Rank(priorities, equiv, b) == j;
  }

  /** With exact matching only equal keys share a rank, so the choice of `tie`
      makes no difference as long as it ties equal keys. */
  lemma ExactTieImmaterial<K(!new)>(priorities: seq<K>, natural: (K, K) -> int, tie: (K, K) -> int, tie': (K, K) -> int,
                                    a: K, b: K)
    requires Antisymmetric(tie) && Antisymmetric(tie')
    ensures Compare(priorities, Exact, natural, tie, a, b) == Compare(priorities, Exact, natural, tie', a, b)
  {
    var ra, rb := Rank(priorities, Exact, a), Rank(priorities, Exact, b);
    if ra >= 0 && ra == rb {
      assert a == priorities[ra] == b;
      assert tie(a, a) == -tie(a, a) && tie'(a, a) == -tie'(a, a);
    }
  }

  /** Without priorities the comparator is the natural order. */
  lemma EmptyPrioritiesIsNatural<K>(equiv: (K, K) -> bool, natural: (K, K) -> int, tie: (K, K) -> int, a: K, b: K)
    ensures Compare([], equiv, natural, tie, a, b) == natural(a, b)
  {
  }

  /** Swapping the arguments negates the result, whenever the natural order
      and the tie order do the same. */
  lemma CompareFlip<K>(priorities: seq<K>, equiv: (K, K) -> bool, natural: (K, K) -> int, tie: (K, K) -> int, a: K, b: K)
    requires natural(a, b) == -natural(b, a)
    requires tie(a, b) == -tie(b, a)
    ensures Compare(priorities, equiv, natural, tie, a, b) == -Compare(priorities, equiv, natural, tie, b, a)
  {
  }

  /** The priority comparator is a lawful `Comparator` whenever the natural
      order and the tie order are: a total preorder overall. */
  lemma CompareIsTotalPreorder<K(!new)>(priorities: seq<K>, equiv: (K, K) -> bool, natural: (K, K) -> int, tie: (K, K) -> int)
    requires TotalPreorder(natural)
    requires TotalPreorder(tie)
    ensures TotalPreorder((a, b) => Compare(priorities, equiv, natural, tie, a, b))
  {
    var cmp := (a, b) => Compare(priorities, equiv, natural, tie, a, b);
    forall a, b ensures cmp(a, b) == -cmp(b, a) {
      CompareFlip(priorities, equiv, natural, tie, a, b);
    }
    forall a, b, c | cmp(a, b) <= 0 && cmp(b, c) <= 0
      ensures cmp(a, c) <= 0
    {
      var ra, rb, rc := Rank(priorities, equiv, a), Rank(priorities, equiv, b), Rank(priorities, equiv, c);
      if ra < 0 {
        assert rb < 0 && rc < 0;
        assert natural(a, b) <= 0 && natural(b, c) <= 0;
      } else if ra == rc {
        assert rb == ra;
        assert tie(a, b) <= 0 && tie(b, c) <= 0;
      }
    }
  }

  /** The asserted behaviour of a string comparator over the identity
      projection with the priority list `[z, y, x]`, and with no priorities,
      for every tie order that ties equal keys. */
  lemma {:induction false} PriorityOrderingScenario(tie: (string, string) -> int)
    requires Antisymmetric(tie)
    ensures var p := ["z", "y", "x"];
      && Compare(p, Exact, Strings.Compare, tie, "a", "x") > 0
      && Compare(p, Exact, Strings.Compare, tie, "x", "y") > 0
      && Compare(p, Exact, Strings.Compare, tie, "y", "x") < 0
      && Compare(p, Exact, Strings.Compare, tie, "x", "x") == 0
      && Compare(p, Exact, Strings.Compare, tie, "b", "c") < 0
      && Compare(p, Exact, Strings.Compare, tie, "b", "b") == 0
      && Compare(p, Exact, Strings.Compare, tie, "c", "b") > 0
    ensures Compare([], Exact, Strings.Compare, tie, "a", "b") < 0
    ensures Compare([], Exact, Strings.Compare, tie, "a", "a") == 0
    ensures Compare([], Exact, Strings.Compare, tie, "b", "a") > 0
  {
    var p := ["z", "y", "x"];
    assert tie("x", "x") == -tie("x", "x");
    assert Rank(p, Exact, "x") == 2 && Rank(p, Exact, "y") == 1;
    assert Rank(p, Exact, "a") < 0 && Rank(p, Exact, "b") < 0 && Rank(p, Exact, "c") < 0;
  }
}
