# Pedantic POM enforcers: ordering and matching core

A Dafny model of the ordering and matching engine behind the pedantic POM
enforcer rules for Maven:

- the **priority comparator**. Keys matched by a priority token sort first, in
  token order. All other keys sort after them, in natural order. The token
  relation is a parameter: exact equality, or a starts-with relation for group
  and artifact ids;
- the **name lookup tables** of `PomSection` (thirty sections) and
  `DependencyElement` (`groupId`, `artifactId`, `scope`), and the comparators
  they build;
- **wildcard artifact patterns** (`ArtifactModel`): `*`, `*x`, `x*`, `*x*` and
  literal text. The constructor validates them, and the model provides
  `matches` and `toString`;
- the **`group:artifact` reader** (`StringToArtifactTransformer`), built on a
  colon splitter that keeps empty segments;
- the **dependency and plugin matchers**. Each maps every subset element to
  the first superset element with the same resolved identity, and fails with
  an illegal-state error when there is none;
- the **module-order check**, in its current and its legacy form. It drops
  the ignored modules, demands natural order of the rest, and reports the
  sorted copy.

Java exceptions become `Results.Result` errors (`NullPointer`,
`IllegalArgument`, `IllegalState`). Java `null` becomes `Results.Option`
where the code or its tests handle it. Comparators are functions whose sign
is the answer.

Modules, one per file: `Results`, `Comparators` (comparator laws), `Seqs`,
`Strings` (natural order and the substring relations), `Priority`,
`Ordering` (`isOrdered` and `immutableSortedCopy`), `Lookup`, `PomSections`,
`DependencyInfos`, `DependencyElements`, `Splitter`, `ArtifactModels`,
`StringToArtifact`, `Matchers` and `ModuleOrder`.

The sources of `PriorityComparator`/`PriorityOrdering`, `ArtifactModel` and
`StringStartsWithEquivalence` are not part of this model. Their behaviour is
modelled only as far as the tests and the call sites fix it:

- The rank of a key is the position of the first priority token related to
  it. How two distinct keys of equal rank compare is not fixed by the tests
  or the call sites, so that order is a parameter (`tie`) of
  `Priority.Compare`. With exact matching only equal keys share a rank, and
  the choice makes no difference (`Priority.ExactTieImmaterial`).
- The accepted wildcard placements are literal text, `*`, `*x`, `x*` and
  `*x*`, with `x` non-empty and free of `*`. Every other placement is
  rejected.
- Every wildcard form is accepted in both the group and the artifact
  position, because the tests (ArtifactModelTest.java lines 113-121) apply
  each form in both positions.
- A null group is not decided by any test. The model's choice: a pattern
  with a null group matches only a model with a null group, and a pattern
  with a group (even `*`) never matches a model with a null group.

## Model

| member | source | states |
|---|---|---|
| Seqs.FirstIndex | src/main/java/com/github/ferstl/maven/pomenforcers/artifact/DependencyMatcher.java:56-67 | the result is the first position whose element satisfies the test, and -1 exactly when no element does: the first-match-in-iteration-order rule of the matchers and of priority ranks |
| Strings.Compare | src/test/java/com/github/ferstl/maven/pomenforcers/priority/PriorityOrderingTest.java:52-55 | natural string order answers -1, 0 or 1, and 0 exactly for equal strings |
| Strings.CompareIsTotalOrder | src/test/java/com/github/ferstl/maven/pomenforcers/priority/PriorityOrderingTest.java:52-55 | natural string order is antisymmetric, transitive and total, with only equal strings tying |
| Priority.Rank | src/test/java/com/github/ferstl/maven/pomenforcers/priority/PriorityOrderingTest.java:40-49 | a key's rank is the position of the first priority token related to it; a related token exists exactly when the rank is non-negative |
| Priority.Compare | src/test/java/com/github/ferstl/maven/pomenforcers/priority/PriorityOrderingTest.java:40-66 | a key some token matches sorts before a key none matches, and after it with the arguments swapped; two unmatched keys compare by the natural order; a key compares equal to itself when the natural and tie orders tie it |
| Priority.RankedByPosition | src/test/java/com/github/ferstl/maven/pomenforcers/priority/PriorityOrderingTest.java:46-51 | two matched keys first matched at different positions compare as those positions, earlier first; keys first matched by the same token are ordered by the tie order, which the source does not fix |
| Priority.ExactTieImmaterial | src/main/java/com/github/ferstl/maven/pomenforcers/PomSection.java:91-93 | under exact matching, as the section comparator uses, the tie order makes no difference: only equal keys share a rank |
| Priority.EmptyPrioritiesIsNatural | src/test/java/com/github/ferstl/maven/pomenforcers/priority/PriorityOrderingTest.java:59-66 | with an empty priority list the comparator is the natural order |
| Priority.CompareFlip | src/test/java/com/github/ferstl/maven/pomenforcers/priority/PriorityOrderingTest.java:46-55 | swapping the arguments negates the result whenever the natural order and the tie order do the same |
| Priority.CompareIsTotalPreorder | src/test/java/com/github/ferstl/maven/pomenforcers/priority/PriorityOrderingTest.java:40-55 | the priority comparator is antisymmetric and transitive whenever the natural and tie orders are |
| Priority.PriorityOrderingScenario | src/test/java/com/github/ferstl/maven/pomenforcers/priority/PriorityOrderingTest.java:38-67 | the ten asserted signs for the list `[z, y, x]` and for the empty list, for every tie order that ties equal keys |
| Ordering.IsOrdered | src/main/java/com/github/ferstl/maven/pomenforcers/PedanticModuleOrderEnforcer.java:87-88 | `isOrdered` answers true exactly when every adjacent pair is in order |
| Ordering.SortedPairwise | src/main/java/com/github/ferstl/maven/pomenforcers/PedanticModuleOrderEnforcer.java:87-88 | under a transitive comparator, adjacent order gives order between any two positions |
| Ordering.Insert | src/main/java/com/github/ferstl/maven/pomenforcers/PedanticModuleOrderEnforcer.java:89 | insertion adds exactly one element and loses none |
| Ordering.SortedCopy | src/main/java/com/github/ferstl/maven/pomenforcers/PedanticModuleOrderEnforcer.java:89 | the sorted copy is a permutation of its input |
| Ordering.InsertSorted | src/main/java/com/github/ferstl/maven/pomenforcers/PedanticModuleOrderEnforcer.java:89 | inserting into an ordered list keeps it ordered |
| Ordering.SortedCopyIsSorted | src/main/java/com/github/ferstl/maven/pomenforcers/PedanticModuleOrderEnforcer.java:89 | the sorted copy is in order under any antisymmetric comparator |
| Ordering.SortedCopyOfSorted | src/main/java/com/github/ferstl/maven/pomenforcers/PedanticModuleOrderEnforcer.java:87-89 | an ordered list is its own sorted copy |
| Ordering.SortedCopyIdempotent | src/main/java/com/github/ferstl/maven/pomenforcers/PedanticModuleOrderEnforcer.java:89 | sorting a sorted copy again changes nothing |
| Ordering.SortedPermutationUnique | src/main/java/com/github/ferstl/maven/pomenforcers/PedanticModuleOrderEnforcer.java:89 | under a total order two sorted permutations of each other are equal, so the sorted copy is the only sorted arrangement |
| Lookup.BuildMap | src/main/java/com/github/ferstl/maven/pomenforcers/PomSection.java:62-67 | the table's keys are exactly the constants' names and each entry is a constant carrying its key |
| Lookup.BuildMapFindsEach | src/main/java/com/github/ferstl/maven/pomenforcers/PomSection.java:62-67 | with distinct names no put overwrites another constant, so each constant is stored under its name |
| Lookup.Get | src/main/java/com/github/ferstl/maven/pomenforcers/PomSection.java:69-79 | a null name fails with NullPointerException, a name no constant carries fails with IllegalArgumentException (both directions), and success returns a constant carrying that name |
| Lookup.GetOwnName | src/main/java/com/github/ferstl/maven/pomenforcers/PomSection.java:62-78 | looking up a constant's own name yields that constant |
| PomSections.SectionName | src/main/java/com/github/ferstl/maven/pomenforcers/PomSection.java:29-58 | each section's XML element name is a non-empty, lower-case-initial name; the thirty names are those declared |
| PomSections.Ordinal | src/main/java/com/github/ferstl/maven/pomenforcers/PomSection.java:29-58 | the declaration index of a section locates it in the list of all thirty constants |
| PomSections.SectionNamesDistinct | src/main/java/com/github/ferstl/maven/pomenforcers/PomSection.java:29-58 | no two sections share an element name |
| PomSections.GetBySectionName | src/main/java/com/github/ferstl/maven/pomenforcers/PomSection.java:69-79 | null name gives NullPointerException; IllegalArgumentException exactly when no section has the name; a found section's name is the name asked for |
| PomSections.SectionNameRoundTrip | src/main/java/com/github/ferstl/maven/pomenforcers/PomSection.java:62-78 | every section is found under its own name |
| PomSections.OrdinalCompare | src/main/java/com/github/ferstl/maven/pomenforcers/PomSection.java:29-58 | the natural order of sections ties exactly equal sections |
| PomSections.OrdinalCompareIsTotalOrder | src/main/java/com/github/ferstl/maven/pomenforcers/PomSection.java:29-58 | declaration order is a total order on sections |
| PomSections.SectionCompare | src/main/java/com/github/ferstl/maven/pomenforcers/PomSection.java:91-93 | a listed section precedes an unlisted one in both argument orders, and two sections tie exactly when they are equal |
| PomSections.ListedSectionsByPosition | src/main/java/com/github/ferstl/maven/pomenforcers/PomSection.java:91-93 | listed sections follow the positions of their first occurrences in the priority collection |
| PomSections.UnlistedSectionsByDeclaration | src/main/java/com/github/ferstl/maven/pomenforcers/PomSection.java:91-93 | unlisted sections follow declaration order |
| PomSections.SectionCompareIsTotalOrder | src/main/java/com/github/ferstl/maven/pomenforcers/PomSection.java:91-93 | the section comparator is a total order: lawful, and only equal sections tie |
| DependencyElements.ElementName | src/main/java/com/github/ferstl/maven/pomenforcers/artifact/DependencyElement.java:29-69 | each element's name is one of `groupId`, `artifactId`, `scope` |
| DependencyElements.GetByElementName | src/main/java/com/github/ferstl/maven/pomenforcers/artifact/DependencyElement.java:80-91 | null name gives NullPointerException; IllegalArgumentException exactly for names other than `groupId`, `artifactId`, `scope`; a found element carries the name asked for |
| DependencyElements.ElementNameRoundTrip | src/main/java/com/github/ferstl/maven/pomenforcers/artifact/DependencyElement.java:71-91 | every element is found under its own name |
| DependencyElements.ElementCompare | src/main/java/com/github/ferstl/maven/pomenforcers/artifact/DependencyElement.java:29-69 | a dependency whose element field some token matches precedes one whose field none matches; two unmatched fields compare in natural string order; equal fields tie |
| DependencyElements.ElementCompareKeys | src/main/java/com/github/ferstl/maven/pomenforcers/artifact/DependencyElement.java:29-69 | GROUP_ID and ARTIFACT_ID compare the group and artifact ids under the starts-with relation, SCOPE compares the scope under exact matching |
| DependencyElements.ElementCompareFieldOnly | src/main/java/com/github/ferstl/maven/pomenforcers/artifact/DependencyElement.java:29-69 | each element's comparator depends only on its field; records equal in it tie |
| DependencyElements.ElementCompareIsTotalPreorder | src/main/java/com/github/ferstl/maven/pomenforcers/artifact/DependencyElement.java:29-69 | each element's comparator is antisymmetric and transitive, whatever the starts-with relation, given a lawful tie order |
| ArtifactModels.ParseField | src/test/java/com/github/ferstl/maven/pomenforcers/model/ArtifactModelTest.java:26-29 | an accepted field value is well formed and is exactly the rendering of the pattern read from it |
| ArtifactModels.ParseRender | src/test/java/com/github/ferstl/maven/pomenforcers/model/ArtifactModelTest.java:26-29 | every well-formed pattern is accepted and read back from its rendering |
| ArtifactModels.NewArtifactModel | src/test/java/com/github/ferstl/maven/pomenforcers/model/ArtifactModelTest.java:26-29 | the constructor succeeds exactly for valid wildcard placements, keeps the fields, and otherwise throws IllegalArgumentException |
| ArtifactModels.Matches | src/test/java/com/github/ferstl/maven/pomenforcers/model/ArtifactModelTest.java:73-111 | nothing matches `null`; a wildcard-free artifact or group in the pattern is matched only by that exact text |
| ArtifactModels.FullWildcard | src/test/java/com/github/ferstl/maven/pomenforcers/model/ArtifactModelTest.java:52-55 | `*` matches every value |
| ArtifactModels.LeadingWildcard | src/test/java/com/github/ferstl/maven/pomenforcers/model/ArtifactModelTest.java:57-60 | `*x` matches exactly the values ending in `x` |
| ArtifactModels.TrailingWildcard | src/test/java/com/github/ferstl/maven/pomenforcers/model/ArtifactModelTest.java:62-65 | `x*` matches exactly the values starting with `x` |
| ArtifactModels.SurroundingWildcards | src/test/java/com/github/ferstl/maven/pomenforcers/model/ArtifactModelTest.java:67-71 | `*x*` matches exactly the values containing `x` |
| ArtifactModels.LiteralPattern | src/test/java/com/github/ferstl/maven/pomenforcers/model/ArtifactModelTest.java:73-87 | a field without wildcards matches only its own text |
| ArtifactModels.FieldsMatchIndependently | src/test/java/com/github/ferstl/maven/pomenforcers/model/ArtifactModelTest.java:73-87 | a model matches exactly when both fields match; a mismatch in either field is not rescued by the other |
| ArtifactModels.ValueMatchesItself | src/test/java/com/github/ferstl/maven/pomenforcers/model/ArtifactModelTest.java:99-104 | every accepted field value matches itself, wildcards included |
| ArtifactModels.MatchesReflexive | src/test/java/com/github/ferstl/maven/pomenforcers/model/ArtifactModelTest.java:89-104 | every valid model matches itself |
| ArtifactModels.ToString | src/test/java/com/github/ferstl/maven/pomenforcers/model/ArtifactModelTest.java:31-50 | `toString` is the colon join of group, artifact and version, an absent part as the empty string |
| ArtifactModels.ToStringSplits | src/test/java/com/github/ferstl/maven/pomenforcers/model/ArtifactModelTest.java:31-50 | for colon-free parts, the rendering of `toString` splits back into group, artifact and version |
| ArtifactModels.FullWildcardScenario | src/test/java/com/github/ferstl/maven/pomenforcers/model/ArtifactModelTest.java:52-55 | `something` matches `*` in both the group and the artifact position |
| ArtifactModels.LeadingWildcardScenario | src/test/java/com/github/ferstl/maven/pomenforcers/model/ArtifactModelTest.java:57-60 | `prefix-foo` matches `*-foo` in both positions |
| ArtifactModels.TrailingWildcardScenario | src/test/java/com/github/ferstl/maven/pomenforcers/model/ArtifactModelTest.java:62-65 | `foo-suffix` matches `foo-*` in both positions |
| ArtifactModels.ContainsWildcardScenario | src/test/java/com/github/ferstl/maven/pomenforcers/model/ArtifactModelTest.java:67-71 | `foo-contains-bar` matches `*contains*` in both positions and `foo-something-bar` in neither |
| ArtifactModels.InvalidWildcardScenario | src/test/java/com/github/ferstl/maven/pomenforcers/model/ArtifactModelTest.java:26-29 | `invalid*wildcard*positions` is rejected with IllegalArgumentException |
| ArtifactModels.ToStringScenarios | src/test/java/com/github/ferstl/maven/pomenforcers/model/ArtifactModelTest.java:31-50 | the three asserted renderings with absent group and version |
| ArtifactModels.PatternScenarios | src/test/java/com/github/ferstl/maven/pomenforcers/model/ArtifactModelTest.java:73-97 | the asserted mismatches and the match of a pattern with its copy |
| Splitter.Split | src/main/java/com/github/ferstl/maven/pomenforcers/model/functions/StringToArtifactTransformer.java:27 | splitting yields one more segment than there are separators, and the segments rejoin to the input |
| Splitter.SplitSegmentsSeparatorFree | src/main/java/com/github/ferstl/maven/pomenforcers/model/functions/StringToArtifactTransformer.java:27 | no segment contains the separator |
| Splitter.SplitJoin | src/main/java/com/github/ferstl/maven/pomenforcers/model/functions/StringToArtifactTransformer.java:27 | splitting a join of separator-free segments gives the segments back |
| StringToArtifact.Apply | src/main/java/com/github/ferstl/maven/pomenforcers/model/functions/StringToArtifactTransformer.java:34-43 | any colon count other than one fails with IllegalArgumentException; a result has a group, no version, is valid, and rejoins to the input as group, colon, artifact |
| StringToArtifact.ApplyJoined | src/main/java/com/github/ferstl/maven/pomenforcers/model/functions/StringToArtifactTransformer.java:36-42 | for colon-free `g` and `a`, reading `g:a` is exactly constructing the model from `g` and `a` |
| StringToArtifact.EmptySegmentScenarios | src/main/java/com/github/ferstl/maven/pomenforcers/model/functions/StringToArtifactTransformer.java:27-42 | `:a` gives an empty group and `g:` an empty artifact |
| StringToArtifact.InvalidArtifactScenario | src/main/java/com/github/ferstl/maven/pomenforcers/model/functions/StringToArtifactTransformer.java:42 | a bad wildcard after the colon is rejected by the constructor |
| Matchers.MapAll | src/main/java/com/github/ferstl/maven/pomenforcers/artifact/DependencyMatcher.java:37-38 | the mapping succeeds exactly when every element does, element-wise in subset order, and a failure is some element's failure |
| Matchers.MatchDependency | src/main/java/com/github/ferstl/maven/pomenforcers/artifact/DependencyMatcher.java:51-70 | success exactly when some superset record carries the resolved group, artifact and classifier; the result is the first such record, version and scope included; otherwise IllegalStateException |
| Matchers.MatchDependencies | src/main/java/com/github/ferstl/maven/pomenforcers/artifact/DependencyMatcher.java:37-38 | same length and order as the subset, each entry the match of its subset record; IllegalStateException exactly when some record has no match |
| Matchers.DependencyVersionAndScopeIgnored | src/main/java/com/github/ferstl/maven/pomenforcers/artifact/DependencyMatcher.java:53-59 | subset records that resolve to the same group, artifact and classifier get the same match, whatever their version and scope |
| Matchers.DependencyMatchScenario | src/main/java/com/github/ferstl/maven/pomenforcers/artifact/DependencyMatcher.java:52-70 | a present record maps to its superset counterpart; a missing one fails |
| Matchers.MatchPlugin | src/main/java/com/github/ferstl/maven/pomenforcers/artifact/PluginMatcher.java:52-64 | success exactly when some superset plugin carries the resolved group and artifact; the result is the first such plugin itself; otherwise IllegalStateException |
| Matchers.MatchPlugins | src/main/java/com/github/ferstl/maven/pomenforcers/artifact/PluginMatcher.java:37-38 | same length and order as the subset, each entry the match of its subset plugin; IllegalStateException exactly when some plugin has no match |
| Matchers.PluginVersionIgnored | src/main/java/com/github/ferstl/maven/pomenforcers/artifact/PluginMatcher.java:53-58 | subset plugins that resolve to the same group and artifact get the same match, whatever their version |
| ModuleOrder.AddAll | src/main/java/com/github/ferstl/maven/pomenforcers/PedanticModuleOrderEnforcer.java:57 | adding to an insertion-ordered set keeps it duplicate-free, keeps the earlier entries in front and adds exactly the new items |
| ModuleOrder.AddAllAppend | src/main/java/com/github/ferstl/maven/pomenforcers/PedanticModuleOrderEnforcer.java:57 | adding one more item appends it exactly when it is new, so the set keeps first-insertion order |
| ModuleOrder.IgnoredModules | src/main/java/com/github/ferstl/maven/pomenforcers/PedanticModuleOrderEnforcer.java:66-67 | the ignored set holds exactly the configured modules, each once |
| ModuleOrder.IgnoredModulesAppend | src/main/java/com/github/ferstl/maven/pomenforcers/PedanticModuleOrderEnforcer.java:66-67 | the ignored modules are listed in the order of their first configuration |
| ModuleOrder.IgnoredModulesScenario | src/main/java/com/github/ferstl/maven/pomenforcers/PedanticModuleOrderEnforcer.java:57 | `b, a, b` gives the ignored list `b, a` |
| ModuleOrder.RemoveAll | src/main/java/com/github/ferstl/maven/pomenforcers/PedanticModuleOrderEnforcer.java:84 | removal never lengthens the list and leaves no ignored module in it |
| ModuleOrder.RemoveAllContents | src/main/java/com/github/ferstl/maven/pomenforcers/PedanticModuleOrderEnforcer.java:82-84 | every occurrence of an ignored module is removed and every other module keeps its count |
| ModuleOrder.RemoveAllAppend | src/main/java/com/github/ferstl/maven/pomenforcers/PedanticModuleOrderEnforcer.java:84 | removal distributes over concatenation, so the kept modules keep their relative order |
| ModuleOrder.RemoveAllNone | src/main/java/com/github/ferstl/maven/pomenforcers/PedanticModuleOrderEnforcer.java:84 | removing modules that do not occur changes nothing |
| ModuleOrder.IsPomProject | src/main/java/com/github/ferstl/maven/pomenforcers/PedanticModuleOrderEnforcer.java:99-101 | only the packaging `pom` makes a pom project; a null packaging does not |
| ModuleOrder.CreateErrorReport | src/main/java/com/github/ferstl/maven/pomenforcers/PedanticModuleOrderEnforcer.java:103-113 | the report carries the ordered modules, and the ignored modules exactly when some are configured |
| ModuleOrder.DoEnforce | src/main/java/com/github/ferstl/maven/pomenforcers/PedanticModuleOrderEnforcer.java:71-92 | a non-pom project passes; a pom project passes exactly when the filtered modules are in natural order; a failure reports a sorted permutation of the filtered modules with no ignored module and the ignored section only when the set is non-empty |
| ModuleOrder.ReportIsSorted | src/main/java/com/github/ferstl/maven/pomenforcers/PedanticModuleOrderEnforcer.java:86-90 | the sorted copy of the filtered modules is in order, is a permutation of them, and holds no ignored module |
| ModuleOrder.ReportedListIsUnique | src/main/java/com/github/ferstl/maven/pomenforcers/PedanticModuleOrderEnforcer.java:87-89 | the reported list is the only sorted permutation of the filtered modules |
| ModuleOrder.RemoveIgnored | src/main/java/ch/sferstl/maven/pomenforcer/PedanticModuleOrderEnforcer.java:49 | `removeAll`, which both enforcers call, written as a loop over the list, computes the same list as removal of all ignored modules |
| ModuleOrder.LegacyExecute | src/main/java/ch/sferstl/maven/pomenforcer/PedanticModuleOrderEnforcer.java:32-62 | the legacy enforcer passes non-pom projects and, with the same `removeAll`, `isOrdered` and sorted copy, reaches the same verdict and the same sorted list as the current one |
| ModuleOrder.NonPomScenario | src/main/java/com/github/ferstl/maven/pomenforcers/PedanticModuleOrderEnforcer.java:73-76 | a jar project and one without packaging pass, even with unsorted modules |
| ModuleOrder.UnsortedScenario | src/main/java/com/github/ferstl/maven/pomenforcers/PedanticModuleOrderEnforcer.java:86-90 | `b, a, c` fails with `a, b, c` reported and no ignored section |
| ModuleOrder.IgnoredScenario | src/main/java/com/github/ferstl/maven/pomenforcers/PedanticModuleOrderEnforcer.java:82-88 | one example: `a, dist-deb, b` with `dist-deb` ignored passes |
| ModuleOrder.IgnoredAnywhere | src/main/java/com/github/ferstl/maven/pomenforcers/PedanticModuleOrderEnforcer.java:59-62 | an ignored module may occur at any place: inserting it anywhere into the declared list never changes the outcome |

## Left out

- Maven and enforcer plumbing (`MavenProject`, `EnforcerRuleHelper`, logging, the `accept` visitor): host-framework I/O. The packaging is an input, `None` standing for a null packaging.
- Reading the POM and its declared modules (`XmlParser`, `DeclaredModulesReader`, `getProjectModel().getModules()`): I/O. The declared modules are an input sequence.
- `evaluateProperties`: its source is not part of this model. It is the resolver parameter `resolve` of the matchers, applied to the subset element's fields only.
- `CommaSeparatorUtils` and `splitAndAddToCollection`: their source is not part of this model. The ignored modules arrive as already-split tokens (`ModuleOrder.IgnoredModules`), and priority lists are given as sequences.
- Guava's lazy `Collections2.transform`: the matchers map eagerly, so a missing match is a failure result rather than an exception thrown on iteration.
- Report and exception wording, and `ErrorReport` formatting: the report records only which lists appear. The legacy message is modelled with the same report, since it carries the same two lists under the same condition.
- Strings.Compare: compares characters by code point. It does not model UTF-16 code-unit order, and returns only the sign that `compareTo` promises, not its magnitude.
- Priority.Compare: returns only the sign, not the magnitude. The order of two distinct keys first matched by the same token is left open as the parameter `tie`.
- Ordering.SortedCopy: stability is not stated. Under natural string order, which is total, the sorted copy is unique anyway (`Ordering.SortedPermutationUnique`).
- ArtifactModels.Matches: the null-group rules (a null pattern group matches only a null group; a pattern group, even `*`, never matches a null group) are the model's choice, since no test decides them.
- `StringStartsWithEquivalence`: its source is not part of this model. The relation is a parameter, and which side is the prefix is left open.
- Matchers.MatchDependency: the identity fields are plain strings, so `Objects.equal` on null fields is not modelled.
- Matchers.MatchPlugin: the same holds for plugins. The plugin record carries only group, artifact and version, since nothing else takes part in matching.
- StringToArtifact.Apply: a null input (Guava's splitter throws `NullPointerException`) is not modelled.
