/**
 The merge rules the App Engine facet applies when it is installed on a
 project: App Engine dependencies and POM properties are merged into a
 Maven project, and the App Engine SDK container is put on the raw classpath
 of a plain Java project. The catalogs of App Engine dependencies and
 properties come from a utility that is not part of this model, so they are
 parameters here.
 */
module FacetInstall {
  import opened Wrappers
  import opened Exceptions
  import opened MavenModel

  /** Message of the exception thrown for a missing properties table. */
  const NullPropertiesMessage := "project properties is null"

  // ---------------------------------------------------------------------------
  // Dependencies
  // ---------------------------------------------------------------------------

  /**
   The loop over the catalog: each catalog entry, in catalog order, is appended
   when the list built so far (which includes the entries appended by earlier
   rounds) does not already contain a match for it.
   */
  function AppendMissing(list: seq<Dependency>, catalog: seq<Dependency>, matches: Matcher): (r: seq<Dependency>)
    ensures |list| <= |r| <= |list| + |catalog|
    ensures r[..|list|] == list
    ensures forall i :: |list| <= i < |r| ==> r[i] in catalog
    ensures (forall c :: c in catalog ==> ListContains(list, c, matches)) ==> r == list
    ensures forall i :: |list| <= i < |r| ==> !ListContains(list, r[i], matches)
    ensures forall i :: |list| <= i < |r| ==> !ListContains(r[..i], r[i], matches)
    decreases |catalog|
  {
    if catalog == [] then list
    else
      var next := if ListContains(list, catalog[0], matches) then list else list + [catalog[0]];
      var r := AppendMissing(next, catalog[1..], matches);
      assert next[..|list|] == list;
      assert r[..|list|] == r[..|next|][..|list|];
      NotContainedInPrefix(list, next, matches);
      assert |next| > |list| ==> r[|list|] == next[|list|] == catalog[0];
      r
  }

  /**
   `updateMavenProjectDependencies`: `null` (None) and the empty list are both
   replaced by the whole catalog; any other list keeps its entries, in order,
   and gets the missing catalog entries appended.
   */
  function UpdateMavenProjectDependencies(initial: Option<seq<Dependency>>, catalog: seq<Dependency>, matches: Matcher)
    : (r: seq<Dependency>)
    ensures initial.None? ==> r == catalog
    ensures initial == Some([]) ==> r == catalog
    ensures initial.Some? && initial.value != [] ==>
              && |initial.value| <= |r| <= |initial.value| + |catalog|
              && r[..|initial.value|] == initial.value
              && (forall i :: |initial.value| <= i < |r| ==> r[i] in catalog)
              && (forall i :: |initial.value| <= i < |r| ==> !ListContains(initial.value, r[i], matches))
              && (forall i :: |initial.value| <= i < |r| ==> !ListContains(r[..i], r[i], matches))
  {
    match initial
    case None => catalog
    case Some(list) => if |list| == 0 then catalog else AppendMissing(list, catalog, matches)
  }

  /** After the catalog loop, every catalog entry is provided by some entry of the list. */
  lemma {:induction false} AppendMissingCoversCatalog(list: seq<Dependency>, catalog: seq<Dependency>, matches: Matcher)
    requires Reflexive(matches)
    ensures forall c :: c in catalog ==> ListContains(AppendMissing(list, catalog, matches), c, matches)
    decreases |catalog|
  {
    if catalog != [] {
      var c0 := catalog[0];
      var next := if ListContains(list, c0, matches) then list else list + [c0];
      var r := AppendMissing(next, catalog[1..], matches);
      assert r == AppendMissing(list, catalog, matches);
      AppendMissingCoversCatalog(next, catalog[1..], matches);
      if !ListContains(list, c0, matches) {
        ContainsAfterAppend(list, c0, c0, matches);
      }
      ContainsInExtension(next, r, c0, matches);
      forall c | c in catalog
        ensures ListContains(r, c, matches)
      {
        if c != c0 {
          assert c in catalog[1..];
        }
      }
    }
  }

  /**
   One more round of the catalog loop: extending the catalog by `c` appends
   `c` to the merged list exactly when the list built so far does not contain
   a match for it. With `AppendMissing(list, []) == list` this determines the
   loop's result for every catalog, in catalog order.
   */
  lemma {:induction false} AppendMissingStep(list: seq<Dependency>, catalog: seq<Dependency>, c: Dependency, matches: Matcher)
    ensures var r := AppendMissing(list, catalog, matches);
            AppendMissing(list, catalog + [c], matches) == (if ListContains(r, c, matches) then r else r + [c])
    decreases |catalog|
  {
    if catalog == [] {
      assert [] + [c] == [c];
      assert [c][1..] == [];
    } else {
      var c0 := catalog[0];
      var next := if ListContains(list, c0, matches) then list else list + [c0];
      assert (catalog + [c])[0] == c0;
      assert (catalog + [c])[1..] == catalog[1..] + [c];
      AppendMissingStep(next, catalog[1..], c, matches);
    }
  }

  /**
   The same round seen through `updateMavenProjectDependencies`: for a
   non-empty list, one more catalog entry is appended exactly when the merged
   list does not already contain a match for it.
   */
  lemma UpdateStep(list: seq<Dependency>, catalog: seq<Dependency>, c: Dependency, matches: Matcher)
    requires list != []
    ensures var r := UpdateMavenProjectDependencies(Some(list), catalog, matches);
            UpdateMavenProjectDependencies(Some(list), catalog + [c], matches)
            == (if ListContains(r, c, matches) then r else r + [c])
  {
    AppendMissingStep(list, catalog, c, matches);
  }

  /** Whatever the input, every catalog dependency is matched in the merged list. */
  lemma UpdateCoversCatalog(initial: Option<seq<Dependency>>, catalog: seq<Dependency>, matches: Matcher)
    requires Reflexive(matches)
    ensures forall c :: c in catalog ==> ListContains(UpdateMavenProjectDependencies(initial, catalog, matches), c, matches)
  {
    if initial.None? || initial.value == [] {
      // the result is the catalog itself, and each entry matches itself
      forall c | c in catalog
        ensures ListContains(catalog, c, matches)
      {
        var i :| 0 <= i < |catalog| && catalog[i] == c;
        assert matches(catalog[i], c);
      }
    } else {
      AppendMissingCoversCatalog(initial.value, catalog, matches);
    }
  }

  /** A non-empty list that already provides every catalog dependency comes back unchanged. */
  lemma UpdateKeepsCompleteList(list: seq<Dependency>, catalog: seq<Dependency>, matches: Matcher)
    requires list != []
    requires forall c :: c in catalog ==> ListContains(list, c, matches)
    ensures UpdateMavenProjectDependencies(Some(list), catalog, matches) == list
  {
  }

  /** Merging an already merged list changes nothing. */
  lemma UpdateIdempotent(initial: Option<seq<Dependency>>, catalog: seq<Dependency>, matches: Matcher)
    requires Reflexive(matches)
    ensures var once := UpdateMavenProjectDependencies(initial, catalog, matches);
            UpdateMavenProjectDependencies(Some(once), catalog, matches) == once
  {
    var once := UpdateMavenProjectDependencies(initial, catalog, matches);
    UpdateCoversCatalog(initial, catalog, matches);
    if once != [] {
      assert AppendMissing(once, catalog, matches) == once;
    }
  }

  /** The catalog entries that `list` does not provide, in catalog order. */
  function Missing(list: seq<Dependency>, catalog: seq<Dependency>, matches: Matcher): (r: seq<Dependency>)
    ensures forall c :: c in r <==> c in catalog && !ListContains(list, c, matches)
    decreases |catalog|
  {
    if catalog == [] then []
    else
      (if ListContains(list, catalog[0], matches) then [] else [catalog[0]])
      + Missing(list, catalog[1..], matches)
  }

  /** No catalog entry provides a later one. */
  ghost predicate IndependentCatalog(catalog: seq<Dependency>, matches: Matcher) {
    forall i, j :: 0 <= i < j < |catalog| ==> !matches(catalog[i], catalog[j])
  }

  /** Entries that provide nothing in question do not change containment. */
  lemma ContainsIgnoresUnrelated(base: seq<Dependency>, extra: seq<Dependency>, wanted: Dependency, matches: Matcher)
    requires forall x :: x in extra ==> !matches(x, wanted)
    ensures ListContains(base + extra, wanted, matches) <==> ListContains(base, wanted, matches)
  {
    if ListContains(base + extra, wanted, matches) {
      var i :| 0 <= i < |base + extra| && matches((base + extra)[i], wanted);
      if i >= |base| {
        assert false;
      }
      assert (base + extra)[i] == base[i];
    }
    if ListContains(base, wanted, matches) {
      ContainsInExtension(base, base + extra, wanted, matches);
    }
  }

  /** Independence is inherited by the tail of the catalog. */
  lemma IndependentTail(catalog: seq<Dependency>, matches: Matcher)
    requires catalog != [] && IndependentCatalog(catalog, matches)
    ensures IndependentCatalog(catalog[1..], matches)
    ensures forall c :: c in catalog[1..] ==> !matches(catalog[0], c)
  {
    var rest := catalog[1..];
    forall i, j | 0 <= i < j < |rest|
      ensures !matches(rest[i], rest[j])
    {
      assert rest[i] == catalog[i + 1] && rest[j] == catalog[j + 1];
    }
    forall c | c in rest
      ensures !matches(catalog[0], c)
    {
      var j :| 0 <= j < |rest| && rest[j] == c;
      assert catalog[j + 1] == c;
    }
  }

  /** Appending the head of an independent catalog keeps the appended entries unrelated to the tail. */
  lemma UnrelatedAfterAppend(extra: seq<Dependency>, catalog: seq<Dependency>, matches: Matcher)
    requires catalog != []
    requires forall x, c :: x in extra && c in catalog ==> !matches(x, c)
    requires forall c :: c in catalog[1..] ==> !matches(catalog[0], c)
    ensures forall x, c :: x in extra + [catalog[0]] && c in catalog[1..] ==> !matches(x, c)
  {
    forall x, c | x in extra + [catalog[0]] && c in catalog[1..]
      ensures !matches(x, c)
    {
      if x != catalog[0] {
        assert x in extra;
        assert c in catalog;
      }
    }
  }

  /** One round of the catalog loop when the head is already provided. */
  lemma SkipStep(base: seq<Dependency>, extra: seq<Dependency>, catalog: seq<Dependency>, matches: Matcher)
    requires catalog != [] && ListContains(base, catalog[0], matches)
    requires ListContains(base + extra, catalog[0], matches)
    requires AppendMissing(base + extra, catalog[1..], matches) == base + extra + Missing(base, catalog[1..], matches)
    ensures AppendMissing(base + extra, catalog, matches) == base + extra + Missing(base, catalog, matches)
  {
  }

  /** One round of the catalog loop when the head is missing and gets appended. */
  lemma AppendStep(list: seq<Dependency>, base: seq<Dependency>, catalog: seq<Dependency>, matches: Matcher)
    requires catalog != [] && !ListContains(base, catalog[0], matches)
    requires !ListContains(list, catalog[0], matches)
    requires AppendMissing(list + [catalog[0]], catalog[1..], matches)
             == (list + [catalog[0]]) + Missing(base, catalog[1..], matches)
    ensures AppendMissing(list, catalog, matches) == list + Missing(base, catalog, matches)
  {
    var tail := Missing(base, catalog[1..], matches);
    assert Missing(base, catalog, matches) == [catalog[0]] + tail;
    ConcatAssoc(list, [catalog[0]], tail);
  }

  lemma ConcatAssoc<T>(a: seq<T>, b: seq<T>, c: seq<T>)
    ensures (a + b) + c == a + (b + c)
  {
  }

  lemma {:induction false} AppendMissingIsMissing(base: seq<Dependency>, extra: seq<Dependency>,
                                                  catalog: seq<Dependency>, matches: Matcher)
    requires IndependentCatalog(catalog, matches)
    requires forall x, c :: x in extra && c in catalog ==> !matches(x, c)
    ensures AppendMissing(base + extra, catalog, matches) == base + extra + Missing(base, catalog, matches)
    decreases |catalog|
  {
    if catalog == [] {
      assert Missing(base, catalog, matches) == [];
    } else {
      IndependentTail(catalog, matches);
      ContainsIgnoresUnrelated(base, extra, catalog[0], matches);
      if ListContains(base, catalog[0], matches) {
        AppendMissingIsMissing(base, extra, catalog[1..], matches);
        SkipStep(base, extra, catalog, matches);
      } else {
        UnrelatedAfterAppend(extra, catalog, matches);
        AppendMissingIsMissing(base, extra + [catalog[0]], catalog[1..], matches);
        ConcatAssoc(base, extra, [catalog[0]]);
        AppendStep(base + extra, base, catalog, matches);
      }
    }
  }

  /**
   When no catalog entry provides a later one, a non-empty list receives
   exactly the catalog entries it was missing, in catalog order.
   */
  lemma UpdateAppendsExactlyMissing(list: seq<Dependency>, catalog: seq<Dependency>, matches: Matcher)
    requires list != []
    requires IndependentCatalog(catalog, matches)
    ensures UpdateMavenProjectDependencies(Some(list), catalog, matches) == list + Missing(list, catalog, matches)
  {
    AppendMissingIsMissing(list, [], catalog, matches);
    assert list + [] == list;
  }

  // ---------------------------------------------------------------------------
  // POM properties
  // ---------------------------------------------------------------------------

  /** The properties after every absent catalog key has been added with its catalog value. */
  function MergeProperties(props: Properties, catalog: Properties): (r: Properties)
    ensures r.Keys == props.Keys + catalog.Keys
    ensures forall k :: k in props ==> r[k] == props[k]
    ensures forall k :: k in catalog && k !in props ==> r[k] == catalog[k]
  {
    map k | k in props.Keys + catalog.Keys :: if k in props then props[k] else catalog[k]
  }

  /** The merge is the map union in which the project's own values win. */
  lemma MergePropertiesIsUnion(props: Properties, catalog: Properties)
    ensures MergeProperties(props, catalog) == catalog + props
  {
  }

  /** Merging a second time changes nothing. */
  lemma MergePropertiesIdempotent(props: Properties, catalog: Properties)
    ensures MergeProperties(MergeProperties(props, catalog), catalog) == MergeProperties(props, catalog)
  {
  }

  /**
   `updatePomProperties`: a missing table is rejected; otherwise the catalog
   is walked entry by entry and a key is set only when the table lacks it.
   */
  method UpdatePomProperties(projectProperties: Option<Properties>, catalog: Properties)
    returns (r: Result<Properties, Exception>)
    ensures projectProperties.None? ==> r == Failure(NullPointer(NullPropertiesMessage))
    ensures projectProperties.Some? ==> r.Success?
    ensures projectProperties.Some? ==> r.value.Keys == projectProperties.value.Keys + catalog.Keys
    ensures projectProperties.Some? ==>
              forall k :: k in projectProperties.value ==> r.value[k] == projectProperties.value[k]
    ensures projectProperties.Some? ==>
              forall k :: k in catalog && k !in projectProperties.value ==> r.value[k] == catalog[k]
    ensures projectProperties.Some? ==> r.value == MergeProperties(projectProperties.value, catalog)
  {
    if projectProperties.None? {
      return Failure(NullPointer(NullPropertiesMessage));
    }
    var initial := projectProperties.value;
    var props := initial;
    var remaining := catalog.Keys;
    while remaining != {}
      invariant remaining <= catalog.Keys
      invariant props.Keys == initial.Keys + (catalog.Keys - remaining)
      invariant forall k :: k in initial ==> props[k] == initial[k]
      invariant forall k :: k in props && k !in initial ==> props[k] == catalog[k]
      decreases remaining
    {
      var key :| key in remaining;
      if key !in props {
        props := props[key := catalog[key]];
      }
      remaining := remaining - {key};
    }
    assert props == MergeProperties(initial, catalog);
    return Success(props);
  }

  // ---------------------------------------------------------------------------
  // Raw classpath of a plain Java project
  // ---------------------------------------------------------------------------

  /**
   `addAppEngineJarsToClasspath`: scan the raw classpath for an entry equal to
   the App Engine container; if none is found, append the container once.
   `changed` tells whether a new classpath is written back.
   */
  method AddAppEngineJarsToClasspath<Entry(==)>(rawClasspath: seq<Entry>, container: Entry)
    returns (updated: seq<Entry>, changed: bool)
    ensures changed <==> container !in rawClasspath
    ensures !changed ==> updated == rawClasspath
    ensures changed ==> updated == rawClasspath + [container]
    ensures container in updated
  {
    var i := 0;
    while i < |rawClasspath|
      invariant 0 <= i <= |rawClasspath|
      invariant forall j :: 0 <= j < i ==> rawClasspath[j] != container
    {
      if rawClasspath[i] == container {
        return rawClasspath, false;
      }
      i := i + 1;
    }
    updated := rawClasspath + [container];
    changed := true;
  }
}
