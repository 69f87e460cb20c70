/** Linear search over sequences, shared by the priority ranks and the matchers. */
module Seqs {

  /** The index of the first element of `xs` satisfying `p`, or -1 when none does. */
  function FirstIndex<T>(xs: seq<T>, p: T -> bool): (r: int)
    ensures -1 <= r < |xs|
    ensures r >= 0 ==> p(xs[r])
    ensures r >= 0 ==> forall j :: 0 <= j < r ==> !p(xs[j])
    ensures r == -1 <==> forall j :: 0 <= j < |xs| ==> !p(xs[j])
  {
    if |xs| == 0 then -1
    else if p(xs[0]) then 0
    else
      var t := FirstIndex(xs[1..], p);
      if t < 0 then -1 else t + 1
  }
}
