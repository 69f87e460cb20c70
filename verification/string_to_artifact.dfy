/** `StringToArtifactTransformer`: reads a configured `group:artifact`
    string into an `ArtifactModel`. */
module StringToArtifact {
  import opened Results
  import opened ArtifactModels
  import Splitter

  /** `apply`: splits at every colon, keeping empty segments, and demands
      exactly two segments; the segments go through the validating
      constructor as group and artifact, with no version. */
  function Apply(input: string): (r: Result<ArtifactModel>)
    ensures multiset(input)[':'] != 1 ==> r == Err(IllegalArgument)
    ensures r.Err? ==> r.error == IllegalArgument
    ensures r.Ok? ==> && r.value.groupId.Some? && r.value.version.None?
                      && input == r.value.groupId.value + ":" + r.value.artifactId
                      && Valid(r.value)
  {
    var parts := Splitter.Split(input, ':');
    if |parts| != 2 then Err(IllegalArgument)
    else
      assert parts[1..] == [parts[1]];
      NewArtifactModel(Some(parts[0]), parts[1], None)
  }

  /** Joining a colon-free group and artifact with a colon and reading the
      result back yields exactly what the constructor makes of them: the
      round trip when both are valid patterns, and the constructor's
      rejection when one is not. */
  lemma ApplyJoined(g: string, a: string)
    requires ':' !in g && ':' !in a
    ensures Apply(g + ":" + a) == NewArtifactModel(Some(g), a, None)
  {
    var parts := [g, a];
    assert parts[1..] == [a];
    assert Splitter.Join(parts, ':') == g + ":" + a;
    Splitter.SplitJoin(parts, ':');
  }

  /** Empty segments are kept: a leading or trailing colon yields an empty
      group or artifact. */
  lemma EmptySegmentScenarios()
    ensures Apply(":a") == Ok(ArtifactModel(Some(""), "a", None))
    ensures Apply("g:") == Ok(ArtifactModel(Some("g"), "", None))
  {
    assert ":a" == "" + ":" + "a" && "g:" == "g" + ":" + "";
    assert ParseField("") == Some(Literal("")) && ParseField("a") == Some(Literal("a"));
    assert ParseField("g") == Some(Literal("g"));
    ApplyJoined("", "a");
    ApplyJoined("g", "");
  }

  /** A bad wildcard after the colon is rejected by the constructor. */
  lemma InvalidArtifactScenario()
    ensures Apply("group:invalid*wildcard*positions") == Err(IllegalArgument)
  {
    var a := "invalid*wildcard*positions";
    assert ':' !in a by {
      forall k | 0 <= k < |a| ensures a[k] != ':' { }
    }
    assert "group:invalid*wildcard*positions" == "group" + ":" + a by {
      assert |"group:invalid*wildcard*positions"| == |"group" + ":" + a|;
      forall k | 0 <= k < |"group" + ":" + a|
        ensures "group:invalid*wildcard*positions"[k] == ("group" + ":" + a)[k]
      {
      }
    }
    ApplyJoined("group", a);
    InvalidWildcardScenario();
  }
}
