/** `ArtifactModel`: a `group:artifact[:version]` identity whose group and
    artifact may be wildcard patterns, its validating constructor, `matches`
    and `toString`.

    A field value is either a literal (no `*`), the full wildcard `*`, a
    suffix pattern `*x`, a prefix pattern `x*` or an infix pattern `*x*`, where
    `x` is non-empty and holds no `*`. Every other placement of `*` is
    rejected by the constructor. */
module ArtifactModels {
  import opened Results
  import Strings
  import Splitter

  /** The meaning of one field value of a pattern. */
  datatype FieldPattern =
    | Literal(text: string)
    | AnyValue
    | Suffix(suffix: string)
    | Prefix(prefix: string)
    | Infix(part: string)

  /** The fixed text of a pattern holds no wildcard, and is non-empty beside one. */
  predicate WellFormed(p: FieldPattern) {
    match p
    case Literal(t) => '*' !in t
    case AnyValue => true
    case Suffix(x) => |x| > 0 && '*' !in x
    case Prefix(x) => |x| > 0 && '*' !in x
    case Infix(x) => |x| > 0 && '*' !in x
  }

  /** The field value that denotes a pattern. */
  function Render(p: FieldPattern): string {
    match p
    case Literal(t) => t
    case AnyValue => "*"
    case Suffix(x) => "*" + x
    case Prefix(x) => x + "*"
    case Infix(x) => "*" + x + "*"
  }

  /** Reads the wildcard form of a field value, or `None` for a placement of
      `*` that the constructor rejects. */
  function ParseField(s: string): (r: Option<FieldPattern>)
    ensures r.Some? ==> WellFormed(r.value) && Render(r.value) == s
  {
    if '*' !in s then Some(Literal(s))
    else if s == "*" then Some(AnyValue)
    else if |s| >= 3 && s[0] == '*' && s[|s| - 1] == '*' && '*' !in s[1..|s| - 1] then
      assert s == "*" + s[1..|s| - 1] + "*";
      Some(Infix(s[1..|s| - 1]))
    else if s[0] == '*' && '*' !in s[1..] then
      assert s == "*" + s[1..];
      Some(Suffix(s[1..]))
    else if s[|s| - 1] == '*' && '*' !in s[..|s| - 1] then
      assert s == s[..|s| - 1] + "*";
      Some(Prefix(s[..|s| - 1]))
    else None
  }

  /** Every well-formed pattern is read back from its rendering, so the
      accepted field values are exactly the renderings of well-formed patterns. */
  lemma ParseRender(p: FieldPattern)
    requires WellFormed(p)
    ensures ParseField(Render(p)) == Some(p)
  {
    var s := Render(p);
    match p
    case Literal(t) =>
    case AnyValue =>
    case Suffix(x) =>
      assert s[0] == '*' && s[1..] == x;
      assert s[|s| - 1] != '*' by { assert s[|s| - 1] == x[|x| - 1]; }
    case Prefix(x) =>
      assert s[..|s| - 1] == x && s[|s| - 1] == '*';
      assert s[0] != '*' by { assert s[0] == x[0]; }
    case Infix(x) =>
      assert s[0] == '*' && s[|s| - 1] == '*' && s[1..|s| - 1] == x;
  }

  /** Whether a candidate value satisfies a field pattern. */
  predicate FieldMatches(p: FieldPattern, value: string) {
    match p
    case Literal(t) => value == t
    case AnyValue => true
    case Suffix(x) => Strings.EndsWith(value, x)
    case Prefix(x) => Strings.StartsWith(value, x)
    case Infix(x) => Strings.Contains(value, x)
  }

  /** Whether `value` satisfies the pattern written as `pattern`; a rejected
      pattern matches nothing (the constructor never lets one through). */
  predicate ValueMatches(pattern: string, value: string) {
    match ParseField(pattern)
    case None => false
    case Some(p) => FieldMatches(p, value)
  }

  /** The group position also admits `null`, which only an absent pattern
      group matches. */
  predicate GroupMatches(pattern: Option<string>, value: Option<string>) {
    match pattern
    case None => value.None?
    case Some(pt) => value.Some? && ValueMatches(pt, value.value)
  }

  datatype ArtifactModel = ArtifactModel(groupId: Option<string>, artifactId: string, version: Option<string>)

  /** Both identity fields hold accepted wildcard placements. */
  predicate Valid(m: ArtifactModel) {
    && (m.groupId.Some? ==> ParseField(m.groupId.value).Some?)
    && ParseField(m.artifactId).Some?
  }

  /** The constructor: keeps the fields as given and throws
      `IllegalArgumentException` for a rejected wildcard placement. */
  function NewArtifactModel(groupId: Option<string>, artifactId: string, version: Option<string>): (r: Result<ArtifactModel>)
    ensures r.Ok? <==> Valid(ArtifactModel(groupId, artifactId, version))
    ensures r.Ok? ==> r.value == ArtifactModel(groupId, artifactId, version)
    ensures r.Err? ==> r.error == IllegalArgument
  {
    var m := ArtifactModel(groupId, artifactId, version);
    if Valid(m) then Ok(m) else Err(IllegalArgument)
  }

  /** `m.matches(pattern)`: false for `null`; otherwise the group and the
      artifact of `m` must each satisfy the pattern's field. Wildcards in `m`
      itself are plain characters. */
  function Matches(m: ArtifactModel, pattern: Option<ArtifactModel>): (r: bool)
    ensures pattern.None? ==> !r
    ensures r && '*' !in pattern.value.artifactId ==> m.artifactId == pattern.value.artifactId
    ensures r && pattern.value.groupId.Some? && '*' !in pattern.value.groupId.value ==> m.groupId == pattern.value.groupId
  {
    && pattern.Some?
    && GroupMatches(pattern.value.groupId, m.groupId)
    && ValueMatches(pattern.value.artifactId, m.artifactId)
  }

  /** The three parts `toString` joins, an absent part as the empty string. */
  function Parts(m: ArtifactModel): seq<string> {
    [m.groupId.GetOr(""), m.artifactId, m.version.GetOr("")]
  }

  /** `toString`: `group:artifact:version`, an absent part rendered empty:
      the colon join of the parts. */
  function ToString(m: ArtifactModel): (r: string)
    ensures Splitter.Join(Parts(m), ':') == r
  {
    var parts := Parts(m);
    var r := m.groupId.GetOr("") + ":" + m.artifactId + ":" + m.version.GetOr("");
    assert Splitter.Join(parts[2..], ':') == parts[2];
    assert Splitter.Join(parts[1..], ':') == parts[1] + ":" + parts[2] by {
      assert parts[1..][1..] == parts[2..];
    }
    r
  }

  /** For colon-free parts, `toString` splits back into them. */
  lemma ToStringSplits(m: ArtifactModel)
    requires forall i :: 0 <= i < |Parts(m)| ==> ':' !in Parts(m)[i]
    ensures Splitter.Split(ToString(m), ':') == Parts(m)
  {
    Splitter.SplitJoin(Parts(m), ':');
  }

  /** The full wildcard accepts every value. */
  lemma FullWildcard(value: string)
    ensures ValueMatches("*", value)
  {
    assert ParseField("*") == Some(AnyValue);
  }

  /** A leading wildcard tests for a suffix. */
  lemma LeadingWildcard(x: string, value: string)
    requires |x| > 0 && '*' !in x
    ensures ValueMatches("*" + x, value) <==> Strings.EndsWith(value, x)
  {
    ParseRender(Suffix(x));
  }

  /** A trailing wildcard tests for a prefix. */
  lemma TrailingWildcard(x: string, value: string)
    requires |x| > 0 && '*' !in x
    ensures ValueMatches(x + "*", value) <==> Strings.StartsWith(value, x)
  {
    ParseRender(Prefix(x));
  }

  /** Wildcards at both ends test for a substring. */
  lemma SurroundingWildcards(x: string, value: string)
    requires |x| > 0 && '*' !in x
    ensures ValueMatches("*" + x + "*", value) <==> Strings.Contains(value, x)
  {
    ParseRender(Infix(x));
  }

  /** A pattern without wildcards matches its own text only. */
  lemma LiteralPattern(t: string, value: string)
    requires '*' !in t
    ensures ValueMatches(t, value) <==> value == t
  {
  }

  /** Each field must match on its own: a wildcard in one field never makes
      up for a mismatch in the other. */
  lemma FieldsMatchIndependently(m: ArtifactModel, p: ArtifactModel)
    ensures Matches(m, Some(p)) <==> GroupMatches(p.groupId, m.groupId) && ValueMatches(p.artifactId, m.artifactId)
    ensures !ValueMatches(p.artifactId, m.artifactId) ==> !Matches(m, Some(p))
    ensures !GroupMatches(p.groupId, m.groupId) ==> !Matches(m, Some(p))
  {
  }

  /** Every accepted field value matches itself. */
  lemma ValueMatchesItself(s: string)
    requires ParseField(s).Some?
    ensures ValueMatches(s, s)
  {
    match ParseField(s).value
    case Literal(t) =>
    case AnyValue =>
    case Suffix(x) =>
      assert s[|s| - |x|..] == x;
    case Prefix(x) =>
      assert s[..|x|] == x;
    case Infix(x) =>
      assert s[1..|s| - 1] == x;
      Strings.ContainsSlice(s, 1, |s| - 1);
  }

  /** Matching is reflexive, wildcard patterns included. */
  lemma MatchesReflexive(m: ArtifactModel)
    requires Valid(m)
    ensures Matches(m, Some(m))
  {
    if m.groupId.Some? {
      ValueMatchesItself(m.groupId.value);
    }
    ValueMatchesItself(m.artifactId);
  }

  /** Matching `value` against `pattern` in the artifact position and, with
      the other field fixed, in the group position. */
  predicate MatchesInBothPositions(value: string, pattern: string) {
    && Matches(ArtifactModel(Some("group"), value, None), Some(ArtifactModel(Some("group"), pattern, None)))
    && Matches(ArtifactModel(Some(value), "artifact", None), Some(ArtifactModel(Some(pattern), "artifact", None)))
  }

  /** The full wildcard, in either field. */
  lemma FullWildcardScenario()
    ensures MatchesInBothPositions("something", "*")
  {
    FullWildcard("something");
    LiteralPattern("group", "group");
    LiteralPattern("artifact", "artifact");
  }

  /** A leading wildcard, in either field. */
  lemma LeadingWildcardScenario()
    ensures MatchesInBothPositions("prefix-foo", "*-foo")
  {
    LiteralPattern("group", "group");
    LiteralPattern("artifact", "artifact");
    assert "*-foo" == "*" + "-foo";
    assert "prefix-foo"[6..] == "-foo";
    LeadingWildcard("-foo", "prefix-foo");
  }

  /** A trailing wildcard, in either field. */
  lemma TrailingWildcardScenario()
    ensures MatchesInBothPositions("foo-suffix", "foo-*")
  {
    LiteralPattern("group", "group");
    LiteralPattern("artifact", "artifact");
    assert "foo-*" == "foo-" + "*";
    assert "foo-suffix"[..4] == "foo-";
    TrailingWildcard("foo-", "foo-suffix");
  }

  /** Surrounding wildcards, in either field: a value containing the text
      matches, one without it does not. */
  lemma ContainsWildcardScenario()
    ensures MatchesInBothPositions("foo-contains-bar", "*contains*")
    ensures !Matches(ArtifactModel(Some("group"), "foo-something-bar", None), Some(ArtifactModel(Some("group"), "*contains*", None)))
    ensures !Matches(ArtifactModel(Some("foo-something-bar"), "artifact", None), Some(ArtifactModel(Some("*contains*"), "artifact", None)))
  {
    LiteralPattern("group", "group");
    LiteralPattern("artifact", "artifact");
    assert "*contains*" == "*" + "contains" + "*";
    assert Strings.OccursAt("foo-contains-bar", "contains", 4);
    SurroundingWildcards("contains", "foo-contains-bar");
    NoContains();
    SurroundingWildcards("contains", "foo-something-bar");
  }

  /** `contains` does not occur in `foo-something-bar`. */
  lemma NoContains()
    ensures !Strings.Contains("foo-something-bar", "contains")
  {
    var v := "foo-something-bar";
    forall i | 0 <= i <= |v| ensures !Strings.OccursAt(v, "contains", i) {
      if i <= |v| - 8 {
        assert v[i..i + 8][0] == v[i];
        assert v[i..i + 8][1] == v[i + 1];
      }
    }
  }

  /** Wildcards inside the text are rejected by the constructor. */
  lemma InvalidWildcardScenario()
    ensures NewArtifactModel(Some("group"), "invalid*wildcard*positions", None) == Err(IllegalArgument)
  {
    var s := "invalid*wildcard*positions";
    assert s[7] == '*';
    assert s[0] == 'i' && s[|s| - 1] == 's';
    LiteralPattern("group", "group");
  }

  /** `toString` renders absent parts as empty strings. */
  lemma ToStringScenarios()
    ensures ToString(ArtifactModel(None, "artifact", Some("1.0.0"))) == ":artifact:1.0.0"
    ensures ToString(ArtifactModel(Some("group"), "artifact", None)) == "group:artifact:"
    ensures ToString(ArtifactModel(None, "artifact", None)) == ":artifact:"
  {
    ToStringWithoutGroup();
    ToStringWithoutVersion();
    ToStringArtifactOnly();
  }

  /** The three renderings one at a time: proved together, the string
      equalities cost the solver far more than apart. */
  lemma ToStringWithoutGroup()
    ensures ToString(ArtifactModel(None, "artifact", Some("1.0.0"))) == ":artifact:1.0.0"
  {
  }

  lemma ToStringWithoutVersion()
    ensures ToString(ArtifactModel(Some("group"), "artifact", None)) == "group:artifact:"
  {
  }

  lemma ToStringArtifactOnly()
    ensures ToString(ArtifactModel(None, "artifact", None)) == ":artifact:"
  {
  }

  /** A wildcard in one field does not rescue the other, and wildcards in the
      candidate are not interpreted. */
  lemma PatternScenarios()
    ensures !Matches(ArtifactModel(Some("group"), "artifact", None), Some(ArtifactModel(Some("*"), "different-artifact", None)))
    ensures !Matches(ArtifactModel(Some("group"), "artifact", None), Some(ArtifactModel(Some("different-group"), "*", None)))
    ensures !Matches(ArtifactModel(Some("*"), "artifact", None), Some(ArtifactModel(Some("group"), "*", None)))
    ensures Matches(ArtifactModel(Some("*"), "artifact", None), Some(ArtifactModel(Some("*"), "artifact", None)))
  {
    LiteralPattern("different-artifact", "artifact");
    LiteralPattern("different-group", "group");
    LiteralPattern("group", "*");
    MatchesReflexive(ArtifactModel(Some("*"), "artifact", None));
  }
}
