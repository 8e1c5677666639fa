/**
 The test registry, and the registration of a validated suite
 (src/testing/TestRegistry.cpp, registerSpecSuite in src/testing/SpecTestCase.cpp).
 */
module SpecRegistry {
  import opened Text
  import opened SpecJson
  import opened SpecGate
  import opened SpecValidate
  import U = Url
  import UJ = UrlJoin
  import UP = UrlPolicy
  import UR = UrlRoundTrip

  // ---- the second validation -------------------------------------------------------------

  /** A base URL under which generated tests can be registered. */
  predicate UsableBase(base: string) {
    var b := U.Parse(base);
    b.Some? && (b.value.scheme == "http" || b.value.scheme == "https") && UR.HostPrintable(b.value)
  }

  /** Under the policy made from the base URL, safe endpoints are permitted all or none. */
  lemma PermittedExactly(base: string, endpoint: string)
    requires SafeEndpoint(endpoint)
    ensures Permitted(UP.RestrictedTo(base), base, endpoint) <==> UsableBase(base)
  {
    assert !UJ.IsAbsolute(endpoint) && !Contains(endpoint, "..");
    hide SafeEndpoint, Contains, U.Parse, UJ.IsAbsolute, UP.Accepts, UP.RestrictedTo, UJ.JoinOnto, U.ToString,
         UR.HostPrintable;
    var b := U.Parse(base);
    if b.Some? {
      assert UJ.Join(base, endpoint).Some?;
      var text := UJ.Join(base, endpoint).value;
      hide UJ.Join;
      UJ.JoinStaysPut(base, endpoint);
      var p := U.Parse(text);
      if p.Some? {
        UP.RestrictedExactly(base, p.value);
        U.ParsedIsWellFormed(text);
        assert Lower(p.value.host) == p.value.host;
      }
    }
  }

  function Registering(g: Gate): Gate { g.(policy := UP.RestrictedTo(g.base)) }

  /** A test that passed under any policy passes again under the narrower one exactly when the base is usable. */
  lemma AcceptableAgain(spec: TestSpec, g: Gate)
    requires Acceptable(spec, g)
    ensures Acceptable(spec, Registering(g)) <==> UsableBase(g.base)
  {
    hide MeetsRules, SafeEndpoint, UsableBase, Permitted;
    AcceptableEndpoint(spec, g);
    PermittedExactly(g.base, spec.endpoint);
  }

  lemma SurvivorsFit(s: Suite, g: Gate)
    ensures var out := Validated(s, g);
      Considered(out, g) == out.tests && DistinctNames(out.tests)
      && forall k :: 0 <= k < |out.tests| ==> Acceptable(out.tests[k], g)
  {
    hide SafeName, Acceptable, Survivors;
    SurvivorsCount(Considered(s, g), g);
    SurvivorsAreGood(Considered(s, g), g);
  }

  /**
   Validating the survivors again, under the policy used at registration, rejects
   none of them if the base URL is usable, and all of them otherwise.
   */
  lemma Revalidated(s: Suite, g: Gate)
    requires SafeName(s.suite)
    ensures var out := Validated(s, g);
      var again := Registering(g);
      if UsableBase(g.base) then Validated(out, again) == out && ReportOf(out, again).rejected == 0
      else Validated(out, again).tests == []
  {
    SurvivorsFit(s, g);
    assert Validated(s, g).suite == s.suite;
    hide *;
    ValidatedAgain(Validated(s, g), g);
  }

  lemma ValidatedAgain(out: Suite, g: Gate)
    requires SafeName(out.suite) && Considered(out, g) == out.tests && DistinctNames(out.tests)
    requires forall k :: 0 <= k < |out.tests| ==> Acceptable(out.tests[k], g)
    ensures var again := Registering(g);
      if UsableBase(g.base) then Validated(out, again) == out && ReportOf(out, again).rejected == 0
      else Validated(out, again).tests == []
  {
    var again := Registering(g);
    assert Considered(out, again) == out.tests;
    hide *;
    SurvivorsAgain(out.tests, g);
    ValidatedWhole(out, again);
  }

  lemma SurvivorsAgain(tests: seq<TestSpec>, g: Gate)
    requires DistinctNames(tests) && forall k :: 0 <= k < |tests| ==> Acceptable(tests[k], g)
    ensures Survivors(tests, Registering(g)) == if UsableBase(g.base) then tests else []
  {
    hide *;
    var again := Registering(g);
    forall k | 0 <= k < |tests|
      ensures Acceptable(tests[k], again) <==> UsableBase(g.base)
    {
      AcceptableAgain(tests[k], g);
    }
    SurviveAll(tests, again);
    if !UsableBase(g.base) {
      NoneSurvive(tests, again);
    }
  }

  /** The two extremes of validation: everything stays, or nothing does. */
  lemma ValidatedWhole(s: Suite, g: Gate)
    requires SafeName(s.suite) && Considered(s, g) == s.tests
    ensures Survivors(s.tests, g) == s.tests ==> Validated(s, g) == s && ReportOf(s, g).rejected == 0
    ensures Survivors(s.tests, g) == [] ==> Validated(s, g).tests == []
  {
    hide SafeName, Survivors, Considered, Findings;
  }

  lemma {:induction false} NoneSurvive(tests: seq<TestSpec>, g: Gate)
    requires forall k :: 0 <= k < |tests| ==> !Acceptable(tests[k], g)
    ensures Survivors(tests, g) == []
  {
    hide Acceptable, Lower, Seen;
    if tests != [] {
      NoneSurvive(tests[..|tests| - 1], g);
    }
  }

  /** A policy that allows only http and https lets nothing through for any other base. */
  lemma SchemeOfSurvivors(s: Suite, g: Gate)
    requires g.policy.allowedSchemes == UP.DEFAULT.allowedSchemes && Validated(s, g).tests != []
    ensures U.Parse(g.base).Some?
    ensures UsableBase(g.base) <==> UR.HostPrintable(U.Parse(g.base).value)
  {
    SurvivorsFit(s, g);
    var spec := Validated(s, g).tests[0];
    assert Acceptable(spec, g);
    hide Validated, Acceptable, UP.IsIpv4, UP.Octet;
    assert SafeEndpoint(spec.endpoint) && Permitted(g.policy, g.base, spec.endpoint) by {
      AcceptableEndpoint(spec, g);
    }
    hide U.Parse, U.ToString, UJ.JoinOnto, UR.HostPrintable, METHODS;
    assert !UJ.IsAbsolute(spec.endpoint);
    var resolved := UJ.Join(g.base, spec.endpoint);
    assert U.Parse(g.base).Some?;
    UJ.JoinStaysPut(g.base, spec.endpoint);
    assert U.Parse(resolved.value).value.scheme in ["http", "https"];
  }

  lemma AcceptableEndpoint(spec: TestSpec, g: Gate)
    requires Acceptable(spec, g)
    ensures SafeEndpoint(spec.endpoint) && Permitted(g.policy, g.base, spec.endpoint)
  {
  }

  // ---- the registry ---------------------------------------------------------------------------

  datatype Metadata = Metadata(
    suite: string, name: string, description: string, tags: seq<string>, owner: string, sourceFile: string)

  /** How a test is made: from a specification, or by some other code. */
  datatype Factory = FromSpec(spec: TestSpec) | FromCode(id: nat)

  datatype Entry = Entry(metadata: Metadata, factory: Factory)

  type Entries = map<string, Entry>

  function Key(m: Metadata): string { QualifiedName(m.suite, m.name) }

  function WithTag(tags: seq<string>, tag: string): seq<string> { if tag in tags then tags else tags + [tag] }

  function MetadataOf(s: Suite, spec: TestSpec): Metadata {
    var tags := WithTag(WithTag(spec.tags, "generated"), s.suite);
    Metadata(s.suite, spec.name, spec.description, tags, s.source, s.source)
  }

  function EntryOf(s: Suite, spec: TestSpec): Entry { Entry(MetadataOf(s, spec), FromSpec(spec)) }

  /** Everything but one suite. */
  function Without(entries: Entries, suite: string): Entries {
    map k | k in entries && entries[k].metadata.suite != suite :: entries[k]
  }

  function Put(entries: Entries, s: Suite, tests: seq<TestSpec>): Entries {
    if tests == [] then entries
    else
      var last := tests[|tests| - 1];
      Put(entries, s, tests[..|tests| - 1])[QualifiedName(s.suite, last.name) := EntryOf(s, last)]
  }

  class TestRegistry {
    var entries: Entries

    constructor ()
      ensures entries == map[]
    {
      entries := map[];
    }

    method RegisterTest(metadata: Metadata, factory: Factory) returns (added: bool)
      modifies this
      ensures added <==> Key(metadata) !in old(entries)
      ensures entries == if added then old(entries)[Key(metadata) := Entry(metadata, factory)] else old(entries)
    {
      added := Key(metadata) !in entries;
      if added {
        entries := entries[Key(metadata) := Entry(metadata, factory)];
      }
    }

    method RegisterOrReplace(metadata: Metadata, factory: Factory)
      modifies this
      ensures entries == old(entries)[Key(metadata) := Entry(metadata, factory)]
    {
      entries := entries[Key(metadata) := Entry(metadata, factory)];
    }

    /** Erases while it iterates; the keys not yet visited are the ones still to come. */
    method RemoveSuite(suite: string) returns (removed: nat)
      modifies this
      ensures entries == Without(old(entries), suite)
      ensures removed == |old(entries)| - |entries|
    {
      removed := 0;
      var ahead := entries.Keys;
      while ahead != {}
        invariant ahead <= entries.Keys <= old(entries).Keys
        invariant forall k :: k in entries ==> entries[k] == old(entries)[k]
        invariant forall k :: k in entries && k !in ahead ==> entries[k].metadata.suite != suite
        invariant forall k :: k in old(entries) && k !in entries ==> old(entries)[k].metadata.suite == suite
        invariant removed == |old(entries)| - |entries|
        decreases |ahead|
      {
        var k :| k in ahead;
        if entries[k].metadata.suite == suite {
          ghost var before := entries;
          entries := entries - {k};
          assert before.Keys == entries.Keys + {k} && |before.Keys| == |entries.Keys| + 1;
          assert |before| == |before.Keys| && |entries| == |entries.Keys|;
          removed := removed + 1;
        }
        ahead := ahead - {k};
      }
      assert entries.Keys == Without(old(entries), suite).Keys;
    }

    /** registerSpecSuite; no result stands for the refusal. */
    method RegisterSpecSuite(suite: Suite, g: Gate) returns (registered: Option<nat>)
      modifies this
      ensures var out := Validated(suite, Registering(g));
        if out.tests == [] then registered == None && entries == old(entries)
        else
          && registered == Some(|out.tests|)
          && entries == Put(Without(old(entries), out.suite), out, out.tests)
    {
      hide Validated, ReportOf, UP.RestrictedTo;
      var copy, report := Validate(suite, Registering(g));
      Conservation(suite, Registering(g));
      if !report.valid {
        return None;
      }
      var _ := RemoveSuite(copy.suite);
      ghost var cleared := entries;
      for i := 0 to |copy.tests|
        invariant entries == Put(cleared, copy, copy.tests[..i])
      {
        var spec := copy.tests[i];
        assert copy.tests[..i + 1][..i] == copy.tests[..i];
        var tags := spec.tags;
        if "generated" !in tags {
          tags := tags + ["generated"];
        }
        if copy.suite !in tags {
          tags := tags + [copy.suite];
        }
        RegisterOrReplace(Metadata(copy.suite, spec.name, spec.description, tags, copy.source, copy.source),
          FromSpec(spec));
      }
      assert copy.tests[..|copy.tests|] == copy.tests;
      return Some(|copy.tests|);
    }
  }

  // ---- what registration leaves ----------------------------------------------------------------------

  lemma {:induction false} PutFinds(entries: Entries, s: Suite, tests: seq<TestSpec>, key: string)
    ensures (forall i :: 0 <= i < |tests| ==> QualifiedName(s.suite, tests[i].name) != key) ==>
      (key in Put(entries, s, tests) <==> key in entries)
      && (key in entries ==> Put(entries, s, tests)[key] == entries[key])
    ensures (exists i :: 0 <= i < |tests| && QualifiedName(s.suite, tests[i].name) == key) ==>
      key in Put(entries, s, tests)
      && exists i ::
           0 <= i < |tests| && QualifiedName(s.suite, tests[i].name) == key
           && Put(entries, s, tests)[key] == EntryOf(s, tests[i])
  {
    hide EntryOf, QualifiedName;
    if tests != [] {
      var front, last := tests[..|tests| - 1], tests[|tests| - 1];
      PutFinds(entries, s, front, key);
      assert forall i :: 0 <= i < |front| ==> tests[i] == front[i];
    }
  }

  /** Within one suite, different names have different keys. */
  lemma KeysDiffer(s: Suite, a: string, b: string)
    requires QualifiedName(s.suite, a) == QualifiedName(s.suite, b)
    ensures a == b
  {
    if s.suite != "" {
      var p := s.suite + ".";
      assert a == (p + a)[|p|..] && b == (p + b)[|p|..];
    }
  }

  predicate TakesKey(s: Suite, key: string) {
    exists i :: 0 <= i < |s.tests| && QualifiedName(s.suite, s.tests[i].name) == key
  }

  /**
   The suite holds exactly its tests, each under its own key, and every other entry
   is as it was, unless a test of the suite took its key.
   */
  ghost predicate HoldsExactly(before: Entries, after: Entries, s: Suite) {
    && (forall i :: 0 <= i < |s.tests| ==>
          var key := QualifiedName(s.suite, s.tests[i].name); key in after && after[key] == EntryOf(s, s.tests[i]))
    && (forall key :: key in after && after[key].metadata.suite == s.suite ==> TakesKey(s, key))
    && (forall key :: key in before && before[key].metadata.suite != s.suite && !TakesKey(s, key) ==>
          key in after && after[key] == before[key])
    && (forall key :: key in after && !TakesKey(s, key) ==> key in before && before[key] == after[key])
  }

  /** What registration leaves. */
  lemma RegisteredExactly(before: Entries, s: Suite)
    requires DistinctNames(s.tests)
    ensures HoldsExactly(before, Put(Without(before, s.suite), s, s.tests), s)
  {
    var kept := Without(before, s.suite);
    var after := Put(kept, s, s.tests);
    hide Put, EntryOf, QualifiedName;
    forall key: string
      ensures !TakesKey(s, key) ==> (key in after <==> key in kept) && (key in kept ==> after[key] == kept[key])
    {
      PutFinds(kept, s, s.tests, key);
    }
    forall i | 0 <= i < |s.tests|
      ensures var key := QualifiedName(s.suite, s.tests[i].name); key in after && after[key] == EntryOf(s, s.tests[i])
    {
      var key := QualifiedName(s.suite, s.tests[i].name);
      PutFinds(kept, s, s.tests, key);
      var j :| 0 <= j < |s.tests| && QualifiedName(s.suite, s.tests[j].name) == key
        && after[key] == EntryOf(s, s.tests[j]);
      KeysDiffer(s, s.tests[i].name, s.tests[j].name);
    }
  }

  /** Every generated test carries the tags by which it can be selected. */
  lemma RegisteredTags(s: Suite, spec: TestSpec)
    ensures var tags := MetadataOf(s, spec).tags;
      "generated" in tags && s.suite in tags && spec.tags <= tags
  {
    var once := WithTag(spec.tags, "generated");
    assert "generated" in once;
    assert WithTag(once, s.suite)[|WithTag(once, s.suite)| - 1] == s.suite || s.suite in once;
  }

  /**
   From the first validation to the registry: under any base that can be used, what
   the gate let through is what the suite holds afterwards, each test under its own
   key, and every other entry is as it was unless its key was taken; under any other
   base registration is refused.
   */
  lemma SurvivorsAreRegistered(suite: Suite, g: Gate, before: Entries)
    requires SafeName(suite.suite)
    ensures var s := Validated(suite, g);
      var out := Validated(s, Registering(g));
      if UsableBase(g.base) then out == s && HoldsExactly(before, Put(Without(before, out.suite), out, out.tests), s)
      else out.tests == []
  {
    var s := Validated(suite, g);
    hide Validated, SafeName, UsableBase, ReportOf, HoldsExactly, Put, Without;
    Revalidated(suite, g);
    SurvivorsFit(suite, g);
    RegisteredExactly(before, s);
  }

  /** Not every base that can be parsed can be used: none of the tests for this one is registered. */
  lemma BracketedBaseIsUnusable()
    ensures U.Parse("http://[::1]/").Some? && !UsableBase("http://[::1]/")
  {
    UR.BracketedHostIsLost();
    hide U.Parse;
  }
}
