/**
 The parts of a Maven project model (a POM) that the facet delegates touch:
 the dependency list and the properties table.
 */
module MavenModel {

  /** A `<dependency>` of a POM, by its coordinates and scope. */
  datatype Dependency = Dependency(groupId: string, artifactId: string, version: string, scope: string)

  /** The `<properties>` table of a POM. */
  type Properties = map<string, string>

  /**
   The rule by which a dependency list is said to "contain" a dependency:
   `matches(entry, wanted)` holds when `entry` already provides `wanted`.
   The rule itself lives in a utility class that is not part of this model,
   so every operation that needs it takes it as a parameter.
   */
  type Matcher = (Dependency, Dependency) -> bool

  /** Every dependency provides itself. */
  ghost predicate Reflexive(matches: Matcher) {
    forall d :: matches(d, d)
  }

  /** Some entry of `list` provides `wanted`. */
  predicate ListContains(list: seq<Dependency>, wanted: Dependency, matches: Matcher) {
    exists i :: 0 <= i < |list| && matches(list[i], wanted)
  }

  /** Containment survives extending the list at its end. */
  lemma ContainsInExtension(list: seq<Dependency>, longer: seq<Dependency>, wanted: Dependency, matches: Matcher)
    requires |list| <= |longer| && longer[..|list|] == list
    requires ListContains(list, wanted, matches)
    ensures ListContains(longer, wanted, matches)
  {
    var i :| 0 <= i < |list| && matches(list[i], wanted);
    assert longer[i] == list[i];
  }

  /** A dependency the longer list does not contain is not contained in any of its prefixes. */
  lemma NotContainedInPrefix(list: seq<Dependency>, longer: seq<Dependency>, matches: Matcher)
    requires |list| <= |longer| && longer[..|list|] == list
    ensures forall d :: !ListContains(longer, d, matches) ==> !ListContains(list, d, matches)
  {
    forall d | ListContains(list, d, matches)
      ensures ListContains(longer, d, matches)
    {
      ContainsInExtension(list, longer, d, matches);
    }
  }

  /** Appending one entry adds exactly that entry's matches. */
  lemma ContainsAfterAppend(list: seq<Dependency>, extra: Dependency, wanted: Dependency, matches: Matcher)
    ensures ListContains(list + [extra], wanted, matches)
            <==> ListContains(list, wanted, matches) || matches(extra, wanted)
  {
    var longer := list + [extra];
    if ListContains(longer, wanted, matches) {
      var i :| 0 <= i < |longer| && matches(longer[i], wanted);
      if i < |list| {
        assert longer[i] == list[i];
      }
    }
    if ListContains(list, wanted, matches) {
      ContainsInExtension(list, longer, wanted, matches);
    }
    if matches(extra, wanted) {
      assert longer[|list|] == extra;
    }
  }
}
