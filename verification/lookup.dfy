/** The static name-to-constant tables of the enum types: a map filled by
    putting every constant under its name, in declaration order, and a lookup
    that rejects a null or unknown name. */
module Lookup {
  import opened Results

  /** The names of all `values`. */
  ghost function Names<E>(values: seq<E>, name: E -> string): set<string> {
    set v | v in values :: name(v)
  }

  /** The table after `map.put(name(v), v)` for each `v` of `values` in order. */
  function BuildMap<E>(values: seq<E>, name: E -> string): (m: map<string, E>)
    ensures m.Keys == Names(values, name)
    ensures forall k :: k in m ==> m[k] in values && name(m[k]) == k
  {
    if |values| == 0 then map[]
    else
      var last := values[|values| - 1];
      assert values == values[..|values| - 1] + [last];
      BuildMap(values[..|values| - 1], name)[name(last) := last]
  }

  /** No two distinct constants share a name. */
  ghost predicate NamesDistinct<E>(values: seq<E>, name: E -> string) {
    forall i, j :: 0 <= i < |values| && 0 <= j < |values| && name(values[i]) == name(values[j]) ==> values[i] == values[j]
  }

  /** With distinct names no put overwrites another constant's entry, so every
      constant is found under its own name. */
  lemma {:induction false} BuildMapFindsEach<E>(values: seq<E>, name: E -> string, v: E)
    requires NamesDistinct(values, name)
    requires v in values
    ensures name(v) in BuildMap(values, name) && BuildMap(values, name)[name(v)] == v
    decreases |values|
  {
    var m := BuildMap(values, name);
    var k :| 0 <= k < |values| && values[k] == v;
    var j :| 0 <= j < |values| && m[name(v)] == values[j];
    assert name(values[j]) == name(values[k]);
  }

  /** `getBy...Name`: a null name throws `NullPointerException`, a name no
      constant carries throws `IllegalArgumentException`, any other name yields
      the constant carrying it. */
  function Get<E>(values: seq<E>, name: E -> string, key: Option<string>): (r: Result<E>)
    ensures key.None? ==> r == Err(NullPointer)
    ensures r == Err(IllegalArgument) <==> key.Some? && key.value !in Names(values, name)
    ensures r.Ok? ==> key == Some(name(r.value)) && r.value in values
  {
    match key
    case None => Err(NullPointer)
    case Some(k) =>
      var m := BuildMap(values, name);
      if k in m then Ok(m[k]) else Err(IllegalArgument)
  }

  /** Looking up a constant's own name yields that constant. */
  lemma GetOwnName<E>(values: seq<E>, name: E -> string, v: E)
    requires NamesDistinct(values, name)
    requires v in values
    ensures Get(values, name, Some(name(v))) == Ok(v)
  {
    BuildMapFindsEach(values, name, v);
  }
}
