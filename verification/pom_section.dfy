/** `PomSection`: the thirty top-level sections of a POM in their canonical
    order, each with its XML element name, the name lookup, and the section
    priority comparator. */
module PomSections {
  import opened Results
  import opened Comparators
  import Lookup
  import Priority

  datatype PomSection =
    | ModelVersion | Prerequisites | Parent | GroupId | ArtifactId | Version
    | Packaging | Name | Description | Url | Licenses | Organization
    | InceptionYear | CiManagement | MailingLists | IssueManagement | Developers
    | Contributors | Scm | Repositories | PluginRepositories
    | DistributionManagement | Modules | Properties | DependencyManagement
    | Dependencies | Build | Profiles | Reporting | Reports

  /** `values()`: every constant, in declaration order. */
  const AllSections: seq<PomSection> := [
    ModelVersion, Prerequisites, Parent, GroupId, ArtifactId, Version,
    Packaging, Name, Description, Url, Licenses, Organization,
    InceptionYear, CiManagement, MailingLists, IssueManagement, Developers,
    Contributors, Scm, Repositories, PluginRepositories,
    DistributionManagement, Modules, Properties, DependencyManagement,
    Dependencies, Build, Profiles, Reporting, Reports]

  /** `getSectionName`: the XML element name of a section. */
  function SectionName(s: PomSection): (r: string)
    ensures |r| > 0 && 'a' <= r[0] <= 'z'
  {
    match s
    case ModelVersion => "modelVersion"
    case Prerequisites => "prerequisites"
    case Parent => "parent"
    case GroupId => "groupId"
    case ArtifactId => "artifactId"
    case Version => "version"
    case Packaging => "packaging"
    case Name => "name"
    case Description => "description"
    case Url => "url"
    case Licenses => "licenses"
    case Organization => "organization"
    case InceptionYear => "inceptionYear"
    case CiManagement => "ciManagement"
    case MailingLists => "mailingLists"
    case IssueManagement => "issueManagement"
    case Developers => "developers"
    case Contributors => "contributors"
    case Scm => "scm"
    case Repositories => "repositories"
    case PluginRepositories => "pluginRepositories"
    case DistributionManagement => "distributionManagement"
    case Modules => "modules"
    case Properties => "properties"
    case DependencyManagement => "dependencyManagement"
    case Dependencies => "dependencies"
    case Build => "build"
    case Profiles => "profiles"
    case Reporting => "reporting"
    case Reports => "reports"
  }

  /** `ordinal()`: the declaration index, which is the enum's natural order. */
  function Ordinal(s: PomSection): (i: nat)
    ensures i < |AllSections| && AllSections[i] == s
  {
    match s
    case ModelVersion => 0
    case Prerequisites => 1
    case Parent => 2
    case GroupId => 3
    case ArtifactId => 4
    case Version => 5
    case Packaging => 6
    case Name => 7
    case Description => 8
    case Url => 9
    case Licenses => 10
    case Organization => 11
    case InceptionYear => 12
    case CiManagement => 13
    case MailingLists => 14
    case IssueManagement => 15
    case Developers => 16
    case Contributors => 17
    case Scm => 18
    case Repositories => 19
    case PluginRepositories => 20
    case DistributionManagement => 21
    case Modules => 22
    case Properties => 23
    case DependencyManagement => 24
    case Dependencies => 25
    case Build => 26
    case Profiles => 27
    case Reporting => 28
    case Reports => 29
  }

  /** The section whose name has the given length, first and last
      character; these three already tell the thirty names apart. */
  function SectionByShape(length: int, first: char, last: char): PomSection {
    match first
    case 'a' => ArtifactId
    case 'b' => Build
    case 'c' => if last == 't' then CiManagement else Contributors
    case 'd' =>
      if length == 11 then Description
      else if length == 10 then Developers
      else if length == 22 then DistributionManagement
      else if length == 20 then DependencyManagement
      else Dependencies
    case 'g' => GroupId
    case 'i' => if length == 13 then InceptionYear else IssueManagement
    case 'l' => Licenses
    case 'm' => if length == 7 then Modules else if last == 'n' then ModelVersion else MailingLists
    case 'n' => Name
    case 'o' => Organization
    case 'p' =>
      if length == 13 then Prerequisites
      else if length == 6 then Parent
      else if length == 9 then Packaging
      else if length == 18 then PluginRepositories
      else if length == 10 then Properties
      else Profiles
    case 'r' => if length == 12 then Repositories else if length == 9 then Reporting else Reports
    case 's' => Scm
    case 'u' => Url
    case _ => Version
  }

  /** `s` is recovered from the shape of its name. */
  ghost predicate RecoveredByShape(s: PomSection) {
    var name := SectionName(s);
    |name| > 0 && SectionByShape(|name|, name[0], name[|name| - 1]) == s
  }

  /** Each section is recovered from the shape of its name; the proof goes
      over the declaration in three parts, keeping each part small. */
  lemma SectionByShapeOfName(s: PomSection)
    ensures |SectionName(s)| > 0
    ensures SectionByShape(|SectionName(s)|, SectionName(s)[0], SectionName(s)[|SectionName(s)| - 1]) == s
  {
    if Ordinal(s) < 10 {
      EarlySectionsByShape(s);
    } else if Ordinal(s) < 20 {
      MiddleSectionsByShape(s);
    } else {
      LateSectionsByShape(s);
    }
  }

  lemma EarlySectionsByShape(s: PomSection)
    requires Ordinal(s) < 10
    ensures RecoveredByShape(s)
  {
  }

  lemma MiddleSectionsByShape(s: PomSection)
    requires 10 <= Ordinal(s) < 20
    ensures RecoveredByShape(s)
  {
  }

  lemma LateSectionsByShape(s: PomSection)
    requires 20 <= Ordinal(s)
    ensures RecoveredByShape(s)
  {
  }

  /** The thirty section names are pairwise distinct. */
  lemma SectionNamesDistinct(a: PomSection, b: PomSection)
    ensures SectionName(a) == SectionName(b) ==> a == b
  {
    SectionByShapeOfName(a);
    SectionByShapeOfName(b);
  }

  /** `getBySectionName`: a null name throws `NullPointerException`, a name
      no section carries throws `IllegalArgumentException`, and a successful
      lookup returns the section carrying exactly that name. */
  function GetBySectionName(name: Option<string>): (r: Result<PomSection>)
    ensures name.None? ==> r == Err(NullPointer)
    ensures r == Err(IllegalArgument) <==> name.Some? && forall s: PomSection :: SectionName(s) != name.value
    ensures r.Ok? ==> name == Some(SectionName(r.value))
  {
    var r := Lookup.Get(AllSections, SectionName, name);
    assert name.Some? && name.value !in Lookup.Names(AllSections, SectionName) ==>
      forall s: PomSection :: SectionName(s) != name.value by {
      forall s: PomSection ensures s in AllSections {
        assert AllSections[Ordinal(s)] == s;
      }
    }
    r
  }

  /** Every section is found under its own name: the table built at class
      initialisation loses no entry. */
  lemma SectionNameRoundTrip(s: PomSection)
    ensures GetBySectionName(Some(SectionName(s))) == Ok(s)
  {
    forall a, b | a in AllSections && b in AllSections && SectionName(a) == SectionName(b)
      ensures a == b
    {
      SectionNamesDistinct(a, b);
    }
    assert AllSections[Ordinal(s)] == s;
    Lookup.GetOwnName(AllSections, SectionName, s);
  }

  /** The natural order of sections: declaration order. */
  function OrdinalCompare(a: PomSection, b: PomSection): (r: int)
    ensures r == 0 <==> a == b
  {
    assert Ordinal(a) == Ordinal(b) ==> a == b by {
      assert AllSections[Ordinal(a)] == a && AllSections[Ordinal(b)] == b;
    }
    IntCompare(Ordinal(a), Ordinal(b))
  }

  /** Declaration order is a total order on sections. */
  lemma OrdinalCompareIsTotalOrder()
    ensures TotalOrder(OrdinalCompare)
  {
  }

  /** `createPriorityComparator`: the priority comparator over the identity
      projection, matching sections exactly. With exact matching only equal
      sections share a rank, so the tie order chosen here is immaterial
      (`Priority.ExactTieImmaterial`). */
  function SectionCompare(priorities: seq<PomSection>, a: PomSection, b: PomSection): (r: int)
    ensures a in priorities && b !in priorities ==> r == -1
    ensures a !in priorities && b in priorities ==> r == 1
    ensures r == 0 <==> a == b
  {
    var r := Priority.Compare(priorities, Priority.Exact, OrdinalCompare, OrdinalCompare, a, b);
    assert a in priorities <==> Priority.Matched(priorities, Priority.Exact, a);
    assert b in priorities <==> Priority.Matched(priorities, Priority.Exact, b);
    assert r == 0 ==> a == b by {
      var ra := Priority.Rank(priorities, Priority.Exact, a);
      var rb := Priority.Rank(priorities, Priority.Exact, b);
      if ra >= 0 && rb >= 0 && ra != rb {
        assert IntCompare(ra, rb) != 0;
      }
    }
    r
  }

  /** Listed sections follow the order of their first occurrence in the
      priority collection. */
  lemma ListedSectionsByPosition(priorities: seq<PomSection>, a: PomSection, b: PomSection, i: nat, j: nat)
    requires i < |priorities| && priorities[i] == a && a !in priorities[..i]
    requires j < |priorities| && priorities[j] == b && b !in priorities[..j]
    ensures SectionCompare(priorities, a, b) == IntCompare(i, j)
  {
    if i == j {
      assert a == b;
    } else {
      Priority.ExactRankedByPosition(priorities, OrdinalCompare, OrdinalCompare, a, b, i, j);
    }
  }

  /** Unlisted sections follow declaration order. */
  lemma UnlistedSectionsByDeclaration(priorities: seq<PomSection>, a: PomSection, b: PomSection)
    requires a !in priorities && b !in priorities
    ensures SectionCompare(priorities, a, b) == IntCompare(Ordinal(a), Ordinal(b))
  {
    assert !Priority.Matched(priorities, Priority.Exact, a);
    assert !Priority.Matched(priorities, Priority.Exact, b);
  }

  /** The section comparator is a lawful comparator, in fact a total order. */
  lemma SectionCompareIsTotalOrder(priorities: seq<PomSection>)
    ensures TotalOrder((a, b) => SectionCompare(priorities, a, b))
  {
    OrdinalCompareIsTotalOrder();
    Priority.CompareIsTotalPreorder(priorities, Priority.Exact, OrdinalCompare, OrdinalCompare);
    var cmp := (a, b) => Priority.Compare(priorities, Priority.Exact, OrdinalCompare, OrdinalCompare, a, b);
    forall a, b ensures SectionCompare(priorities, a, b) == cmp(a, b) { }
  }
}
