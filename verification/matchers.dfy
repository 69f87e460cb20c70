/** `DependencyMatcher` and `PluginMatcher`: map every element of a subset
    collection to the first element of a superset collection with the same
    identity, after resolving the subset element's property placeholders.

    The resolver (`evaluateProperties`) is a parameter. `Collections2.transform`
    produces a lazy view whose matching happens, and throws, on iteration; here
    the mapping is eager and a missing match is an `IllegalState` result. */
module Matchers {
  import opened Results
  import opened DependencyInfos
  import Seqs

  /** The plugin coordinates the plugin matcher reads. */
  datatype PluginInfo = PluginInfo(groupId: string, artifactId: string, version: string)

  /** Applies `f` to every element in order; the first failure is the result. */
  function MapAll<T>(xs: seq<T>, f: T -> Result<T>): (r: Result<seq<T>>)
    ensures r.Ok? <==> forall i :: 0 <= i < |xs| ==> f(xs[i]).Ok?
    ensures r.Ok? ==> |r.value| == |xs|
    ensures r.Ok? ==> forall i :: 0 <= i < |xs| ==> f(xs[i]) == Ok(r.value[i])
    ensures r.Err? ==> exists i :: 0 <= i < |xs| && f(xs[i]) == Err(r.error)
  {
    if |xs| == 0 then Ok([])
    else
      match f(xs[0])
      case Err(e) => Err(e)
      case Ok(v) =>
        match MapAll(xs[1..], f)
        case Err(e) =>
          assert exists i :: 0 <= i < |xs[1..]| && f(xs[1..][i]) == Err(e);
          Err(e)
        case Ok(vs) =>
          assert forall i :: 1 <= i < |xs| ==> xs[i] == xs[1..][i - 1];
          Ok([v] + vs)
  }

  /** The identity the dependency matcher compares. */
  predicate SameDependency(d: DependencyInfo, groupId: string, artifactId: string, classifier: string) {
    d.groupId == groupId && d.artifactId == artifactId && d.classifier == classifier
  }

  /** `superset[j]` carries the identity of `dependency` once its group,
      artifact and classifier are resolved. */
  predicate DependencyMatchAt(superset: seq<DependencyInfo>, resolve: string -> string, dependency: DependencyInfo, j: int)
    requires 0 <= j < |superset|
  {
    SameDependency(superset[j], resolve(dependency.groupId), resolve(dependency.artifactId), resolve(dependency.classifier))
  }

  /** Some superset dependency carries the resolved identity of `dependency`. */
  predicate HasDependencyMatch(superset: seq<DependencyInfo>, resolve: string -> string, dependency: DependencyInfo) {
    exists j :: 0 <= j < |superset| && DependencyMatchAt(superset, resolve, dependency, j)
  }

  /** `DependencyMatcher.MatchFunction.apply`: the first superset dependency
      with the resolved identity, copied field by field; `IllegalStateException`
      when there is none. */
  function MatchDependency(superset: seq<DependencyInfo>, resolve: string -> string, dependency: DependencyInfo): (r: Result<DependencyInfo>)
    ensures r.Ok? <==> HasDependencyMatch(superset, resolve, dependency)
    ensures r.Err? ==> r.error == IllegalState
    ensures r.Ok? ==> exists j :: (
      && 0 <= j < |superset| && r.value == superset[j]
      && DependencyMatchAt(superset, resolve, dependency, j)
      && forall k :: 0 <= k < j ==> !DependencyMatchAt(superset, resolve, dependency, k))
  {
    var groupId := resolve(dependency.groupId);
    var artifactId := resolve(dependency.artifactId);
    var classifier := resolve(dependency.classifier);
    var i := Seqs.FirstIndex(superset, d => SameDependency(d, groupId, artifactId, classifier));
    if i < 0 then Err(IllegalState)
    else
      var s := superset[i];
      assert DependencyMatchAt(superset, resolve, dependency, i);
      Ok(DependencyInfo(s.groupId, s.artifactId, s.version, s.scope, s.classifier))
  }

  /** `DependencyMatcher.match`: the matched superset dependency for every
      subset dependency, in subset order; `IllegalStateException` as soon as
      one has no match. */
  function MatchDependencies(superset: seq<DependencyInfo>, resolve: string -> string, subset: seq<DependencyInfo>): (r: Result<seq<DependencyInfo>>)
    ensures r.Ok? <==> forall i :: 0 <= i < |subset| ==> HasDependencyMatch(superset, resolve, subset[i])
    ensures r.Err? ==> r.error == IllegalState
    ensures r.Ok? ==> |r.value| == |subset|
    ensures r.Ok? ==> forall i :: 0 <= i < |subset| ==> MatchDependency(superset, resolve, subset[i]) == Ok(r.value[i])
  {
    var r := MapAll(subset, d => MatchDependency(superset, resolve, d));
    assert r.Ok? <==> forall i :: 0 <= i < |subset| ==> MatchDependency(superset, resolve, subset[i]).Ok?;
    r
  }

  /** Only the resolved group, artifact and classifier of a subset dependency
      take part in matching: its version and scope do not. */
  lemma DependencyVersionAndScopeIgnored(superset: seq<DependencyInfo>, resolve: string -> string,
                                         d: DependencyInfo, d': DependencyInfo)
    requires resolve(d.groupId) == resolve(d'.groupId)
    requires resolve(d.artifactId) == resolve(d'.artifactId)
    requires resolve(d.classifier) == resolve(d'.classifier)
    ensures MatchDependency(superset, resolve, d) == MatchDependency(superset, resolve, d')
  {
    var r, r' := MatchDependency(superset, resolve, d), MatchDependency(superset, resolve, d');
    if r.Ok? {
      var j :| 0 <= j < |superset| && r.value == superset[j] && DependencyMatchAt(superset, resolve, d, j)
        && forall k :: 0 <= k < j ==> !DependencyMatchAt(superset, resolve, d, k);
      var j' :| 0 <= j' < |superset| && r'.value == superset[j'] && DependencyMatchAt(superset, resolve, d', j')
        && forall k :: 0 <= k < j' ==> !DependencyMatchAt(superset, resolve, d', k);
      assert j == j' by {
        if j < j' { assert DependencyMatchAt(superset, resolve, d', j); }
        if j' < j { assert DependencyMatchAt(superset, resolve, d, j'); }
      }
    }
  }

  /** A resolver for text without placeholders. */
  function NoPlaceholders(s: string): string {
    s
  }

  /** A subset dependency resolving to a superset record yields that record,
      version and scope included; one without a counterpart fails. */
  lemma DependencyMatchScenario()
    ensures var superset := [DependencyInfo("g0", "a0", "1.0", "test", ""), DependencyInfo("g1", "a1", "2.0", "compile", "")];
      && MatchDependencies(superset, NoPlaceholders, [DependencyInfo("g1", "a1", "", "", "")]) == Ok([superset[1]])
      && MatchDependencies(superset, NoPlaceholders, [DependencyInfo("g2", "a1", "", "", "")]) == Err(IllegalState)
  {
    var superset := [DependencyInfo("g0", "a0", "1.0", "test", ""), DependencyInfo("g1", "a1", "2.0", "compile", "")];
    var present := DependencyInfo("g1", "a1", "", "", "");
    assert DependencyMatchAt(superset, NoPlaceholders, present, 1);
    assert !DependencyMatchAt(superset, NoPlaceholders, present, 0);
    assert MatchDependency(superset, NoPlaceholders, present) == Ok(superset[1]);
    var r := MatchDependencies(superset, NoPlaceholders, [present]);
    assert r.Ok? && |r.value| == 1 && r.value[0] == superset[1];
    assert r.value == [superset[1]];
    var missing := DependencyInfo("g2", "a1", "", "", "");
    assert !DependencyMatchAt(superset, NoPlaceholders, missing, 0);
    assert !DependencyMatchAt(superset, NoPlaceholders, missing, 1);
    assert !HasDependencyMatch(superset, NoPlaceholders, missing);
  }

  /** The identity the plugin matcher compares. */
  predicate SamePlugin(p: PluginInfo, groupId: string, artifactId: string) {
    p.groupId == groupId && p.artifactId == artifactId
  }

  /** `superset[j]` carries the resolved group and artifact of `plugin`. */
  predicate PluginMatchAt(superset: seq<PluginInfo>, resolve: string -> string, plugin: PluginInfo, j: int)
    requires 0 <= j < |superset|
  {
    SamePlugin(superset[j], resolve(plugin.groupId), resolve(plugin.artifactId))
  }

  /** Some superset plugin carries the resolved identity of `plugin`. */
  predicate HasPluginMatch(superset: seq<PluginInfo>, resolve: string -> string, plugin: PluginInfo) {
    exists j :: 0 <= j < |superset| && PluginMatchAt(superset, resolve, plugin, j)
  }

  /** `PluginMatcher.MatchFunction.apply`: the first superset plugin with the
      resolved group and artifact, itself; `IllegalStateException` when there
      is none. */
  function MatchPlugin(superset: seq<PluginInfo>, resolve: string -> string, plugin: PluginInfo): (r: Result<PluginInfo>)
    ensures r.Ok? <==> HasPluginMatch(superset, resolve, plugin)
    ensures r.Err? ==> r.error == IllegalState
    ensures r.Ok? ==> exists j :: (
      && 0 <= j < |superset| && r.value == superset[j]
      && PluginMatchAt(superset, resolve, plugin, j)
      && forall k :: 0 <= k < j ==> !PluginMatchAt(superset, resolve, plugin, k))
  {
    var groupId := resolve(plugin.groupId);
    var artifactId := resolve(plugin.artifactId);
    var i := Seqs.FirstIndex(superset, p => SamePlugin(p, groupId, artifactId));
    if i < 0 then Err(IllegalState)
    else
      assert PluginMatchAt(superset, resolve, plugin, i);
      Ok(superset[i])
  }

  /** `PluginMatcher.match`: the matched superset plugin for every subset
      plugin, in subset order; `IllegalStateException` as soon as one has no
      match. */
  function MatchPlugins(superset: seq<PluginInfo>, resolve: string -> string, subset: seq<PluginInfo>): (r: Result<seq<PluginInfo>>)
    ensures r.Ok? <==> forall i :: 0 <= i < |subset| ==> HasPluginMatch(superset, resolve, subset[i])
    ensures r.Err? ==> r.error == IllegalState
    ensures r.Ok? ==> |r.value| == |subset|
    ensures r.Ok? ==> forall i :: 0 <= i < |subset| ==> MatchPlugin(superset, resolve, subset[i]) == Ok(r.value[i])
  {
    var r := MapAll(subset, p => MatchPlugin(superset, resolve, p));
    assert r.Ok? <==> forall i :: 0 <= i < |subset| ==> MatchPlugin(superset, resolve, subset[i]).Ok?;
    r
  }

  /** Only the resolved group and artifact of a subset plugin take part in
      matching: its version does not. */
  lemma PluginVersionIgnored(superset: seq<PluginInfo>, resolve: string -> string, p: PluginInfo, p': PluginInfo)
    requires resolve(p.groupId) == resolve(p'.groupId)
    requires resolve(p.artifactId) == resolve(p'.artifactId)
    ensures MatchPlugin(superset, resolve, p) == MatchPlugin(superset, resolve, p')
  {
    var r, r' := MatchPlugin(superset, resolve, p), MatchPlugin(superset, resolve, p');
    if r.Ok? {
      var j :| 0 <= j < |superset| && r.value == superset[j] && PluginMatchAt(superset, resolve, p, j)
        && forall k :: 0 <= k < j ==> !PluginMatchAt(superset, resolve, p, k);
      var j' :| 0 <= j' < |superset| && r'.value == superset[j'] && PluginMatchAt(superset, resolve, p', j')
        && forall k :: 0 <= k < j' ==> !PluginMatchAt(superset, resolve, p', k);
      assert j == j' by {
        if j < j' { assert PluginMatchAt(superset, resolve, p', j); }
        if j' < j { assert PluginMatchAt(superset, resolve, p, j'); }
      }
    }
  }
}
