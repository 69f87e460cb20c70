/** Guava's `Splitter.on(sep)` with default settings: every separator ends a
    segment, and empty segments are kept (no trimming, no omission). */
module Splitter {
  import Seqs

  /** The position of the first `sep` in `s`, or -1 when there is none. */
  function IndexOf(s: string, sep: char): (i: int)
    ensures -1 <= i < |s|
    ensures i >= 0 ==> s[i] == sep && sep !in s[..i]
    ensures i < 0 <==> sep !in s
  {
    Seqs.FirstIndex(s, c => c == sep)
  }

  /** Concatenates `parts` with `sep` between neighbours; the inverse of `Split`. */
  function Join(parts: seq<string>, sep: char): string {
    if |parts| == 0 then ""
    else if |parts| == 1 then parts[0]
    else parts[0] + [sep] + Join(parts[1..], sep)
  }

  /** The segments of `s` between separators, left to right. */
  function Split(s: string, sep: char): (parts: seq<string>)
    ensures |parts| == multiset(s)[sep] + 1
    ensures Join(parts, sep) == s
    decreases |s|
  {
    var i := IndexOf(s, sep);
    if i < 0 then
      assert multiset(s)[sep] == 0;
      [s]
    else
      CutAtSeparator(s, sep, i);
      var tail := Split(s[i + 1..], sep);
      JoinCons(s[..i], tail, sep);
      [s[..i]] + tail
  }

  /** Joining a first part onto a non-empty rest puts one separator between. */
  lemma JoinCons(head: string, tail: seq<string>, sep: char)
    requires |tail| > 0
    ensures Join([head] + tail, sep) == head + [sep] + Join(tail, sep)
  {
    assert ([head] + tail)[1..] == tail;
  }

  /** No segment contains the separator. */
  lemma {:induction false} SplitSegmentsSeparatorFree(s: string, sep: char)
    ensures forall k :: 0 <= k < |Split(s, sep)| ==> sep !in Split(s, sep)[k]
    decreases |s|
  {
    var i := IndexOf(s, sep);
    if i >= 0 {
      SplitSegmentsSeparatorFree(s[i + 1..], sep);
      var tail := Split(s[i + 1..], sep);
      assert Split(s, sep) == [s[..i]] + tail;
      assert forall k :: 1 <= k < |Split(s, sep)| ==> Split(s, sep)[k] == tail[k - 1];
    }
  }

  /** Cutting `s` at a separator: the pieces rejoin to `s` and hold one
      separator fewer. */
  lemma CutAtSeparator(s: string, sep: char, i: int)
    requires 0 <= i < |s| && s[i] == sep
    ensures s == s[..i] + [sep] + s[i + 1..]
    ensures multiset(s)[sep] == multiset(s[..i])[sep] + 1 + multiset(s[i + 1..])[sep]
  {
    assert s == s[..i] + [sep] + s[i + 1..];
    assert multiset(s) == multiset(s[..i]) + multiset{sep} + multiset(s[i + 1..]);
  }

  /** The first separator is the only one not preceded by another. */
  lemma IndexOfUnique(s: string, sep: char, k: int)
    requires 0 <= k < |s| && s[k] == sep && sep !in s[..k]
    ensures IndexOf(s, sep) == k
  {
    assert s[k] == sep;
  }

  /** The first separator of a join sits right after the first part. */
  lemma IndexOfJoin(parts: seq<string>, sep: char)
    requires |parts| > 1 && sep !in parts[0]
    ensures IndexOf(Join(parts, sep), sep) == |parts[0]|
  {
    var s := Join(parts, sep);
    JoinCons(parts[0], parts[1..], sep);
    assert parts == [parts[0]] + parts[1..];
    assert s == parts[0] + [sep] + Join(parts[1..], sep);
    assert s[..|parts[0]|] == parts[0];
    IndexOfUnique(s, sep, |parts[0]|);
  }

  /** Splitting joined separator-free segments gives the segments back. */
  lemma {:induction false} SplitJoin(parts: seq<string>, sep: char)
    requires |parts| > 0
    requires forall i :: 0 <= i < |parts| ==> sep !in parts[i]
    ensures Split(Join(parts, sep), sep) == parts
    decreases |parts|
  {
    if |parts| > 1 {
      var s := Join(parts, sep);
      var rest := Join(parts[1..], sep);
      IndexOfJoin(parts, sep);
      JoinCons(parts[0], parts[1..], sep);
      assert parts == [parts[0]] + parts[1..];
      assert s == parts[0] + [sep] + rest;
      assert s[..|parts[0]|] == parts[0];
      assert s[|parts[0]| + 1..] == rest;
      SplitJoin(parts[1..], sep);
    }
  }
}
