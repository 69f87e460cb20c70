/** `DependencyElement`: the three dependency elements a dependency ordering
    can be keyed on, each with its element name and its priority comparator. */
module DependencyElements {
  import opened Results
  import opened Comparators
  import opened DependencyInfos
  import Lookup
  import Priority
  import Strings

  datatype DependencyElement = GroupId | ArtifactId | Scope

  /** `values()`, in declaration order. */
  const AllElements: seq<DependencyElement> := [GroupId, ArtifactId, Scope]

  /** `getElementName`. */
  function ElementName(e: DependencyElement): (r: string)
    ensures r in ["groupId", "artifactId", "scope"]
  {
    match e
    case GroupId => "groupId"
    case ArtifactId => "artifactId"
    case Scope => "scope"
  }

  /** `getByElementName`: a null name throws `NullPointerException`, a name
      other than `groupId`, `artifactId` and `scope` throws
      `IllegalArgumentException`, and each of those three yields its element. */
  function GetByElementName(name: Option<string>): (r: Result<DependencyElement>)
    ensures name.None? ==> r == Err(NullPointer)
    ensures r == Err(IllegalArgument) <==> name.Some? && name.value !in {"groupId", "artifactId", "scope"}
    ensures r.Ok? ==> name == Some(ElementName(r.value))
  {
    assert Lookup.Names(AllElements, ElementName) == {"groupId", "artifactId", "scope"} by {
      assert ElementName(AllElements[0]) == "groupId";
      assert ElementName(AllElements[1]) == "artifactId";
      assert ElementName(AllElements[2]) == "scope";
    }
    Lookup.Get(AllElements, ElementName, name)
  }

  /** Every element is found under its own name. */
  lemma ElementNameRoundTrip(e: DependencyElement)
    ensures GetByElementName(Some(ElementName(e))) == Ok(e)
  {
    assert AllElements[0] == GroupId && AllElements[1] == ArtifactId && AllElements[2] == Scope;
    Lookup.GetOwnName(AllElements, ElementName, e);
  }

  /** The field of a dependency an element's comparator orders by. */
  function Project(e: DependencyElement, d: DependencyInfo): string {
    match e
    case GroupId => d.groupId
    case ArtifactId => d.artifactId
    case Scope => d.scope
  }

  /** How an element's priority tokens match keys: group and artifact ids use
      the starts-with relation `startsWith`, the scope the default exact match. */
  function TokenRelation(e: DependencyElement, startsWith: (string, string) -> bool): (string, string) -> bool {
    if e == Scope then Priority.Exact else startsWith
  }

  /** Some priority token matches the element's field of `d`. */
  predicate FieldMatched(e: DependencyElement, priorities: seq<string>, startsWith: (string, string) -> bool, d: DependencyInfo) {
    Priority.Matched(priorities, TokenRelation(e, startsWith), Project(e, d))
  }

  /** `createPriorityComparator` of each element, applied to two dependencies:
      the priority comparison of the element's field, with natural string
      order for unmatched fields and `tie` for fields first matched by the
      same token. */
  function ElementCompare(e: DependencyElement, priorities: seq<string>, startsWith: (string, string) -> bool,
                          tie: (string, string) -> int, a: DependencyInfo, b: DependencyInfo): (r: int)
    ensures FieldMatched(e, priorities, startsWith, a) && !FieldMatched(e, priorities, startsWith, b) ==> r == -1
    ensures !FieldMatched(e, priorities, startsWith, a) && !FieldMatched(e, priorities, startsWith, b) ==>
      r == Strings.Compare(Project(e, a), Project(e, b))
    ensures Project(e, a) == Project(e, b) && tie(Project(e, a), Project(e, a)) == 0 ==> r == 0
  {
    Priority.Compare(priorities, TokenRelation(e, startsWith), Strings.Compare, tie, Project(e, a), Project(e, b))
  }

  /** What each element's comparator compares: the group id or the artifact
      id under the starts-with relation, or the scope under exact matching,
      falling back to natural string order. */
  lemma ElementCompareKeys(priorities: seq<string>, startsWith: (string, string) -> bool, tie: (string, string) -> int,
                           a: DependencyInfo, b: DependencyInfo)
    ensures ElementCompare(GroupId, priorities, startsWith, tie, a, b)
      == Priority.Compare(priorities, startsWith, Strings.Compare, tie, a.groupId, b.groupId)
    ensures ElementCompare(ArtifactId, priorities, startsWith, tie, a, b)
      == Priority.Compare(priorities, startsWith, Strings.Compare, tie, a.artifactId, b.artifactId)
    ensures ElementCompare(Scope, priorities, startsWith, tie, a, b)
      == Priority.Compare(priorities, Priority.Exact, Strings.Compare, tie, a.scope, b.scope)
  {
  }

  /** An element's comparator looks at its field only: dependencies equal in
      that field are interchangeable and compare 0. */
  lemma ElementCompareFieldOnly(e: DependencyElement, priorities: seq<string>, startsWith: (string, string) -> bool,
                                tie: (string, string) -> int, a: DependencyInfo, a': DependencyInfo, b: DependencyInfo)
    requires Antisymmetric(tie)
    requires Project(e, a) == Project(e, a')
    ensures ElementCompare(e, priorities, startsWith, tie, a, b) == ElementCompare(e, priorities, startsWith, tie, a', b)
    ensures ElementCompare(e, priorities, startsWith, tie, a, a') == 0
  {
    assert tie(Project(e, a), Project(e, a)) == -tie(Project(e, a), Project(e, a));
  }

  /** Each element's comparator is a lawful comparator whenever the tie order
      is. */
  lemma ElementCompareIsTotalPreorder(e: DependencyElement, priorities: seq<string>, startsWith: (string, string) -> bool,
                                      tie: (string, string) -> int)
    requires TotalPreorder(tie)
    ensures TotalPreorder((a, b) => ElementCompare(e, priorities, startsWith, tie, a, b))
  {
    var rel := TokenRelation(e, startsWith);
    Strings.CompareIsTotalOrder();
    Priority.CompareIsTotalPreorder(priorities, rel, Strings.Compare, tie);
    var keyCmp := (x, y) => Priority.Compare(priorities, rel, Strings.Compare, tie, x, y);
    assert TotalPreorder(keyCmp);
    forall a, b
      ensures ElementCompare(e, priorities, startsWith, tie, a, b) == -ElementCompare(e, priorities, startsWith, tie, b, a)
    {
      assert keyCmp(Project(e, a), Project(e, b)) == -keyCmp(Project(e, b), Project(e, a));
    }
    forall a, b, c | ElementCompare(e, priorities, startsWith, tie, a, b) <= 0 && ElementCompare(e, priorities, startsWith, tie, b, c) <= 0
      ensures ElementCompare(e, priorities, startsWith, tie, a, c) <= 0
    {
      assert keyCmp(Project(e, a), Project(e, b)) <= 0 && keyCmp(Project(e, b), Project(e, c)) <= 0;
    }
  }
}
