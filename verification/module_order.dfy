/** `PedanticModuleOrderEnforcer`, current and legacy: in a `pom` project the
    declared modules, minus the ignored ones, must be in natural string order;
    a violation reports the sorted list and, when any module is ignored, the
    ignored modules. */
module ModuleOrder {
  import opened Results
  import opened Comparators
  import Strings
  import Ordering

  /** The elements of a sequence. */
  ghost function Elements(s: seq<string>): set<string> {
    set x | x in s
  }

  /** No value occurs twice. */
  predicate NoDuplicates(s: seq<string>) {
    forall i, j :: 0 <= i < j < |s| ==> s[i] != s[j]
  }

  /** `LinkedHashSet.add` of each item in turn: an item already present is
      skipped, a new one goes to the end. */
  function AddAll(ignored: seq<string>, items: seq<string>): (r: seq<string>)
    requires NoDuplicates(ignored)
    ensures NoDuplicates(r)
    ensures Elements(r) == Elements(ignored) + Elements(items)
    ensures |ignored| <= |r| && r[..|ignored|] == ignored
    decreases |items|
  {
    if |items| == 0 then ignored
    else
      var next := if items[0] in ignored then ignored else ignored + [items[0]];
      assert Elements(items) == {items[0]} + Elements(items[1..]) by {
        assert items == [items[0]] + items[1..];
      }
      var r := AddAll(next, items[1..]);
      assert r[..|ignored|] == r[..|next|][..|ignored|];
      r
  }

  /** `List.removeAll`: drops every occurrence of an ignored module and keeps
      the others in order. */
  function RemoveAll(modules: seq<string>, ignored: seq<string>): (r: seq<string>)
    ensures |r| <= |modules|
    ensures forall k :: 0 <= k < |r| ==> r[k] !in ignored
  {
    if |modules| == 0 then []
    else (if modules[0] in ignored then [] else [modules[0]]) + RemoveAll(modules[1..], ignored)
  }

  /** Adding one more item to an insertion-ordered set appends it exactly
      when it is new, so the set lists the items in the order of their first
      addition. */
  lemma {:induction false} AddAllAppend(ignored: seq<string>, items: seq<string>, x: string)
    requires NoDuplicates(ignored)
    ensures AddAll(ignored, items + [x])
      == if x in AddAll(ignored, items) then AddAll(ignored, items) else AddAll(ignored, items) + [x]
    decreases |items|
  {
    if |items| == 0 {
      assert items + [x] == [x];
    } else {
      assert (items + [x])[0] == items[0];
      assert (items + [x])[1..] == items[1..] + [x];
      var next := if items[0] in ignored then ignored else ignored + [items[0]];
      AddAllAppend(next, items[1..], x);
    }
  }

  /** Every occurrence of an ignored module is gone, and every other module
      occurs as often as before. */
  lemma {:induction false} RemoveAllContents(modules: seq<string>, ignored: seq<string>, m: string)
    ensures m in ignored ==> multiset(RemoveAll(modules, ignored))[m] == 0
    ensures m !in ignored ==> multiset(RemoveAll(modules, ignored))[m] == multiset(modules)[m]
    decreases |modules|
  {
    if |modules| > 0 {
      RemoveAllContents(modules[1..], ignored, m);
      assert modules == [modules[0]] + modules[1..];
    }
  }

  /** Removal distributes over concatenation, so the kept modules keep their
      relative order. */
  lemma {:induction false} RemoveAllAppend(xs: seq<string>, ys: seq<string>, ignored: seq<string>)
    ensures RemoveAll(xs + ys, ignored) == RemoveAll(xs, ignored) + RemoveAll(ys, ignored)
    decreases |xs|
  {
    if |xs| == 0 {
      assert xs + ys == ys;
    } else {
      assert (xs + ys)[0] == xs[0];
      assert (xs + ys)[1..] == xs[1..] + ys;
      RemoveAllAppend(xs[1..], ys, ignored);
    }
  }

  /** Removing nothing that occurs leaves the list unchanged. */
  lemma {:induction false} RemoveAllNone(modules: seq<string>, ignored: seq<string>)
    requires forall m :: m in modules ==> m !in ignored
    ensures RemoveAll(modules, ignored) == modules
    decreases |modules|
  {
    if |modules| > 0 {
      RemoveAllNone(modules[1..], ignored);
      assert modules == [modules[0]] + modules[1..];
    }
  }

  /** The report of a violation: the modules in the order they should have,
      and the ignored modules when there are any. */
  datatype ErrorReport = ErrorReport(orderedModules: seq<string>, ignoredModules: Option<seq<string>>)

  datatype Outcome = Passed | Failed(report: ErrorReport)

  /** `isPomProject`: `"pom".equals(packaging)`, false for a null packaging. */
  function IsPomProject(packaging: Option<string>): (r: bool)
    ensures packaging.None? ==> !r
    ensures r <==> packaging.Some? && packaging.value == "pom"
  {
    packaging == Some("pom")
  }

  /** The modules the check looks at. */
  function CheckedModules(declaredModules: seq<string>, ignoredModules: seq<string>): seq<string> {
    RemoveAll(declaredModules, ignoredModules)
  }

  /** `createErrorReport`: the ignored section appears only when some module
      is ignored. */
  function CreateErrorReport(orderedModules: seq<string>, ignoredModules: seq<string>): (r: ErrorReport)
    ensures r.orderedModules == orderedModules
    ensures r.ignoredModules.Some? <==> |ignoredModules| > 0
    ensures r.ignoredModules.Some? ==> r.ignoredModules.value == ignoredModules
  {
    ErrorReport(orderedModules, if |ignoredModules| == 0 then None else Some(ignoredModules))
  }

  /** `doEnforce` of the current enforcer. */
  function DoEnforce(packaging: Option<string>, declaredModules: seq<string>, ignoredModules: seq<string>): (r: Outcome)
    ensures !IsPomProject(packaging) ==> r == Passed
    ensures IsPomProject(packaging) ==>
      (r == Passed <==> Ordering.Sorted(Strings.Compare, CheckedModules(declaredModules, ignoredModules)))
    ensures r.Failed? ==> ReportsSortedCheckedModules(r.report, declaredModules, ignoredModules)
  {
    if !IsPomProject(packaging) then Passed
    else
      var modules := CheckedModules(declaredModules, ignoredModules);
      if Ordering.Sorted(Strings.Compare, modules) then Passed
      else
        ReportIsSorted(declaredModules, ignoredModules);
        Failed(CreateErrorReport(Ordering.SortedCopy(Strings.Compare, modules), ignoredModules))
  }

  /** What a violation report carries: the checked modules in natural order,
      with every occurrence kept and no ignored module, and the ignored
      modules exactly when some are configured. */
  ghost predicate ReportsSortedCheckedModules(report: ErrorReport, declaredModules: seq<string>, ignoredModules: seq<string>) {
    && Ordering.Sorted(Strings.Compare, report.orderedModules)
    && multiset(report.orderedModules) == multiset(CheckedModules(declaredModules, ignoredModules))
    && (forall m :: m in ignoredModules ==> m !in report.orderedModules)
    && (report.ignoredModules.Some? <==> |ignoredModules| > 0)
    && (report.ignoredModules.Some? ==> report.ignoredModules.value == ignoredModules)
  }

  /** The sorted copy of the checked modules is what a violation report must carry. */
  lemma ReportIsSorted(declaredModules: seq<string>, ignoredModules: seq<string>)
    ensures ReportsSortedCheckedModules(
      CreateErrorReport(Ordering.SortedCopy(Strings.Compare, CheckedModules(declaredModules, ignoredModules)), ignoredModules),
      declaredModules, ignoredModules)
  {
    var modules := CheckedModules(declaredModules, ignoredModules);
    var sorted := Ordering.SortedCopy(Strings.Compare, modules);
    Strings.CompareIsTotalOrder();
    Ordering.SortedCopyIsSorted(Strings.Compare, modules);
    forall m | m in ignoredModules ensures m !in sorted {
      RemoveAllContents(declaredModules, ignoredModules, m);
      assert multiset(sorted)[m] == 0;
    }
  }

  /** The reported list is the one sorted arrangement of the checked modules:
      any sorted permutation of them equals it. */
  lemma ReportedListIsUnique(packaging: Option<string>, declaredModules: seq<string>, ignoredModules: seq<string>, candidate: seq<string>)
    requires DoEnforce(packaging, declaredModules, ignoredModules).Failed?
    requires Ordering.Sorted(Strings.Compare, candidate)
    requires multiset(candidate) == multiset(CheckedModules(declaredModules, ignoredModules))
    ensures DoEnforce(packaging, declaredModules, ignoredModules).report.orderedModules == candidate
  {
    Strings.CompareIsTotalOrder();
    var reported := DoEnforce(packaging, declaredModules, ignoredModules).report.orderedModules;
    Ordering.SortedPermutationUnique(Strings.Compare, reported, candidate);
  }

  /** `ArrayList.removeAll`, which both enforcers call on the declared
      modules, written as the loop over the list that it performs. */
  method RemoveIgnored(declaredModules: seq<string>, ignoredModules: seq<string>) returns (modules: seq<string>)
    ensures modules == RemoveAll(declaredModules, ignoredModules)
  {
    modules := [];
    var i := 0;
    while i < |declaredModules|
      invariant 0 <= i <= |declaredModules|
      invariant modules == RemoveAll(declaredModules[..i], ignoredModules)
    {
      assert declaredModules[..i + 1] == declaredModules[..i] + [declaredModules[i]];
      RemoveAllAppend(declaredModules[..i], [declaredModules[i]], ignoredModules);
      if declaredModules[i] !in ignoredModules {
        modules := modules + [declaredModules[i]];
      }
      i := i + 1;
    }
    assert declaredModules[..i] == declaredModules;
  }

  /** `execute` of the legacy enforcer. Like `doEnforce` of the current one it
      calls `removeAll` (here `RemoveIgnored`), `isOrdered` (`IsOrdered`) and
      `immutableSortedCopy`; it reaches the same verdict and the same sorted
      list as the current enforcer. */
  method LegacyExecute(packaging: Option<string>, declaredModules: seq<string>, ignoredModules: seq<string>) returns (r: Outcome)
    ensures !IsPomProject(packaging) ==> r == Passed
    ensures r.Failed? ==> ReportsSortedCheckedModules(r.report, declaredModules, ignoredModules)
    ensures r == DoEnforce(packaging, declaredModules, ignoredModules)
  {
    if !IsPomProject(packaging) {
      return Passed;
    }
    var modules := RemoveIgnored(declaredModules, ignoredModules);
    var ordered := Ordering.IsOrdered(Strings.Compare, modules);
    if ordered {
      return Passed;
    }
    var orderedModules := Ordering.SortedCopy(Strings.Compare, modules);
    ReportIsSorted(declaredModules, ignoredModules);
    r := Failed(CreateErrorReport(orderedModules, ignoredModules));
  }

  /** The configured ignored modules, in the order first given, without
      duplicates. */
  function IgnoredModules(tokens: seq<string>): (r: seq<string>)
    ensures NoDuplicates(r)
    ensures Elements(r) == Elements(tokens)
  {
    AddAll([], tokens)
  }

  /** The ignored modules keep the order in which they were first configured. */
  lemma IgnoredModulesAppend(tokens: seq<string>, x: string)
    ensures IgnoredModules(tokens + [x])
      == if x in IgnoredModules(tokens) then IgnoredModules(tokens) else IgnoredModules(tokens) + [x]
  {
    AddAllAppend([], tokens, x);
  }

  /** Repeated tokens collapse onto their first occurrence. */
  lemma IgnoredModulesScenario()
    ensures IgnoredModules(["b", "a", "b"]) == ["b", "a"]
  {
    assert ["b", "a", "b"][1..] == ["a", "b"];
    assert ["a", "b"][1..] == ["b"];
  }

  /** A project whose packaging is not `pom` passes unchecked. */
  lemma NonPomScenario()
    ensures DoEnforce(Some("jar"), ["b", "a", "c"], []) == Passed
    ensures DoEnforce(None, ["b", "a", "c"], []) == Passed
  {
  }

  /** An unsorted module list is reported in sorted order, without an
      ignored section when nothing is ignored. */
  lemma UnsortedScenario()
    ensures DoEnforce(Some("pom"), ["b", "a", "c"], []) == Failed(ErrorReport(["a", "b", "c"], None))
  {
    var modules := ["b", "a", "c"];
    RemoveAllNone(modules, []);
    assert CheckedModules(modules, []) == modules;
    assert !Ordering.Sorted(Strings.Compare, modules) by {
      assert Strings.Compare(modules[0], modules[1]) > 0;
    }
    assert Ordering.SortedCopy(Strings.Compare, ["c"]) == ["c"];
    assert modules[1..][1..] == ["c"];
    assert Strings.Compare("a", "c") < 0;
    assert Ordering.SortedCopy(Strings.Compare, ["a", "c"]) == ["a", "c"];
    assert Ordering.Insert(Strings.Compare, "b", ["c"]) == ["b", "c"];
    assert Ordering.Insert(Strings.Compare, "b", ["a", "c"]) == ["a", "b", "c"];
  }

  /** An ignored module may sit anywhere. */
  lemma IgnoredScenario()
    ensures DoEnforce(Some("pom"), ["a", "dist-deb", "b"], ["dist-deb"]) == Passed
  {
    var declared := ["a", "dist-deb", "b"];
    assert declared[1..][1..] == ["b"];
    assert RemoveAll(declared, ["dist-deb"]) == ["a", "b"];
    assert Strings.Compare("a", "b") < 0;
  }

  /** An ignored module may occur at any place: inserting it anywhere into
      the declared list never changes the outcome. */
  lemma IgnoredAnywhere(packaging: Option<string>, xs: seq<string>, ys: seq<string>, m: string, ignoredModules: seq<string>)
    requires m in ignoredModules
    ensures DoEnforce(packaging, xs + [m] + ys, ignoredModules) == DoEnforce(packaging, xs + ys, ignoredModules)
  {
    RemoveAllAppend(xs + [m], ys, ignoredModules);
    RemoveAllAppend(xs, [m], ignoredModules);
    RemoveAllAppend(xs, ys, ignoredModules);
    assert RemoveAll([m], ignoredModules) == [];
    assert RemoveAll(xs + [m], ignoredModules) == RemoveAll(xs, ignoredModules);
    assert CheckedModules(xs + [m] + ys, ignoredModules) == CheckedModules(xs + ys, ignoredModules);
  }
}
