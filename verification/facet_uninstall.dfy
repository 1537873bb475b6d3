/**
 The removal rules the App Engine facet applies when it is uninstalled from a
 Maven project. Only their unit tests are known, so they are modelled as plain
 filters: App Engine dependencies and App Engine property keys are dropped,
 everything else is kept. Which dependencies and keys count as App Engine
 ones is a parameter.
 */
module FacetUninstall {
  import opened Wrappers
  import opened MavenModel
  import FacetInstall

  /** The dependencies left after removing the App Engine ones; `null` gives the empty list. */
  function UpdateMavenProjectDependencies(initial: Option<seq<Dependency>>, isAppEngine: Dependency -> bool)
    : (r: seq<Dependency>)
    ensures forall d :: d in r <==> initial.Some? && d in initial.value && !isAppEngine(d)
    ensures initial.Some? ==> |r| <= |initial.value|
  {
    match initial
    case None => []
    case Some(list) => Keep(list, isAppEngine)
  }

  /** The entries of `list` that are not App Engine ones, in their original order. */
  function Keep(list: seq<Dependency>, isAppEngine: Dependency -> bool): (r: seq<Dependency>)
    ensures forall d :: d in r <==> d in list && !isAppEngine(d)
    ensures |r| <= |list|
  {
    if list == [] then []
    else (if isAppEngine(list[0]) then [] else [list[0]]) + Keep(list[1..], isAppEngine)
  }

  /** The properties left after removing the App Engine keys. */
  function UpdatePomProperties(props: Properties, appEngineKeys: set<string>): (r: Properties)
    ensures r.Keys == props.Keys - appEngineKeys
    ensures forall k :: k in r ==> r[k] == props[k]
  {
    map k | k in props && k !in appEngineKeys :: props[k]
  }

  // ---------------------------------------------------------------------------
  // The assertions of the unit tests, one lemma per test
  // ---------------------------------------------------------------------------

  const NonAppEngineDependency := Dependency("groupId", "artifactId", "version", "scope")
  const AppEngineApiStubs := Dependency("com.google.appengine", "appengine-api-stubs", "${appengine.version}", "test")

  /** A list holding one non-App Engine dependency keeps its single entry. */
  lemma KeepsNonAppEngineDependency(isAppEngine: Dependency -> bool)
    requires !isAppEngine(NonAppEngineDependency)
    ensures |UpdateMavenProjectDependencies(Some([NonAppEngineDependency]), isAppEngine)| == 1
  {
    assert Keep([NonAppEngineDependency][1..], isAppEngine) == [];
  }

  /** A list holding only the App Engine API stubs becomes empty. */
  lemma DropsApiStubs(isAppEngine: Dependency -> bool)
    requires isAppEngine(AppEngineApiStubs)
    ensures UpdateMavenProjectDependencies(Some([AppEngineApiStubs]), isAppEngine) == []
  {
    assert Keep([AppEngineApiStubs][1..], isAppEngine) == [];
  }

  /** Both the empty list and `null` give the empty list (installation gives the catalog instead). */
  lemma EmptyAndNullGiveEmpty(isAppEngine: Dependency -> bool)
    ensures UpdateMavenProjectDependencies(Some([]), isAppEngine) == []
    ensures UpdateMavenProjectDependencies(None, isAppEngine) == []
  {
  }

  /** The non-App Engine key `a` survives and the size stays one. */
  lemma KeepsNonAppEngineProperty(appEngineKeys: set<string>)
    requires "a" !in appEngineKeys
    ensures var r := UpdatePomProperties(map["a" := "b"], appEngineKeys);
            |r| == 1 && "a" in r
  {
    assert UpdatePomProperties(map["a" := "b"], appEngineKeys).Keys == {"a"};
  }

  /** The App Engine key `app.version` is removed, leaving nothing. */
  lemma DropsAppVersionProperty(appEngineKeys: set<string>)
    requires "app.version" in appEngineKeys
    ensures UpdatePomProperties(map["app.version" := "1"], appEngineKeys) == map[]
  {
    assert UpdatePomProperties(map["app.version" := "1"], appEngineKeys).Keys == {};
  }

  /** Empty properties stay empty. */
  lemma EmptyPropertiesStayEmpty(appEngineKeys: set<string>)
    ensures UpdatePomProperties(map[], appEngineKeys) == map[]
  {
  }

  // ---------------------------------------------------------------------------
  // Uninstall undoes install on a project that had no App Engine dependency
  // ---------------------------------------------------------------------------

  lemma KeepNone(list: seq<Dependency>, isAppEngine: Dependency -> bool)
    requires forall d :: d in list ==> isAppEngine(d)
    ensures Keep(list, isAppEngine) == []
  {
  }

  lemma {:induction false} KeepAppended(list: seq<Dependency>, added: seq<Dependency>, isAppEngine: Dependency -> bool)
    requires forall d :: d in added ==> isAppEngine(d)
    ensures Keep(list + added, isAppEngine) == Keep(list, isAppEngine)
    decreases |list|
  {
    if list == [] {
      assert [] + added == added;
      KeepNone(added, isAppEngine);
    } else {
      assert (list + added)[1..] == list[1..] + added;
      KeepAppended(list[1..], added, isAppEngine);
    }
  }

  lemma {:induction false} KeepAll(list: seq<Dependency>, isAppEngine: Dependency -> bool)
    requires forall d :: d in list ==> !isAppEngine(d)
    ensures Keep(list, isAppEngine) == list
    decreases |list|
  {
    if list != [] {
      KeepAll(list[1..], isAppEngine);
      assert [list[0]] + list[1..] == list;
    }
  }

  /** An installed non-empty list is the original list followed by catalog entries. */
  lemma InstalledSplits(list: seq<Dependency>, catalog: seq<Dependency>, matches: Matcher, isAppEngine: Dependency -> bool)
    requires list != []
    requires forall c :: c in catalog ==> isAppEngine(c)
    ensures var installed := FacetInstall.UpdateMavenProjectDependencies(Some(list), catalog, matches);
            && installed == list + installed[|list|..]
            && forall d :: d in installed[|list|..] ==> isAppEngine(d)
  {
    var installed := FacetInstall.UpdateMavenProjectDependencies(Some(list), catalog, matches);
    var added := installed[|list|..];
    assert installed == list + added;
    forall d | d in added
      ensures isAppEngine(d)
    {
      var i :| 0 <= i < |added| && added[i] == d;
      assert installed[|list| + i] == d;
    }
  }

  /**
   When every catalog dependency is an App Engine one and the project had
   none, installing the facet and then uninstalling it gives back the
   original list (`null` comes back as the empty list).
   */
  lemma UninstallUndoesInstall(initial: Option<seq<Dependency>>, catalog: seq<Dependency>,
                               matches: Matcher, isAppEngine: Dependency -> bool)
    requires forall c :: c in catalog ==> isAppEngine(c)
    requires initial.Some? ==> forall d :: d in initial.value ==> !isAppEngine(d)
    ensures var installed := FacetInstall.UpdateMavenProjectDependencies(initial, catalog, matches);
            UpdateMavenProjectDependencies(Some(installed), isAppEngine)
            == (if initial.Some? then initial.value else [])
  {
    var installed := FacetInstall.UpdateMavenProjectDependencies(initial, catalog, matches);
    if initial.None? || initial.value == [] {
      KeepNone(installed, isAppEngine);
    } else {
      var list := initial.value;
      InstalledSplits(list, catalog, matches, isAppEngine);
      KeepAppended(list, installed[|list|..], isAppEngine);
      KeepAll(list, isAppEngine);
    }
  }
}
