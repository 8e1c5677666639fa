/**
 Validating a whole suite (SpecValidator::validate): which tests survive, and what
 a second validation finds.
 */
module SpecValidate {
  import opened Text
  import JV = JsonValue
  import JsonPrint
  import opened SpecJson
  import opened SpecGate
  import U = Url
  import UJ = UrlJoin
  import UP = UrlPolicy
  import UR = UrlRoundTrip

  // ---- one test, as it is written -------------------------------------------------------

  method IsSafeName(name: string) returns (ok: bool)
    ensures ok == SafeName(name)
  {
    if name == "" || |name| > MAX_NAME_LENGTH {
      return false;
    }
    for i := 0 to |name|
      invariant forall j :: 0 <= j < i ==> NameChar(name[j])
    {
      if !NameChar(name[i]) {
        return false;
      }
    }
    var traversal := Contains(name, "..");
    return !(name[0] == '.' || traversal);
  }

  method IsSafeEndpoint(endpoint: string) returns (ok: bool)
    ensures ok == SafeEndpoint(endpoint)
  {
    hide Contains, Lower;
    if endpoint == "" || |endpoint| > MAX_ENDPOINT_LENGTH || HasControl(endpoint) {
      return false;
    }
    if endpoint[0] != '/' || "//" <= endpoint || Contains(endpoint, "..") {
      return false;
    }
    var lowered := Lower(endpoint);
    for i := 0 to |SCHEMES|
      invariant forall j :: 0 <= j < i ==> !Contains(lowered, SCHEMES[j])
    {
      if Contains(lowered, SCHEMES[i]) {
        return false;
      }
    }
    return !Contains(endpoint, "@");
  }

  lemma FrontOf<T>(s: seq<T>, i: nat)
    requires i < |s|
    ensures s[..i + 1][..i] == s[..i] && s[..i + 1][i] == s[i]
  {
  }

  method ValidateOne(spec: TestSpec, g: Gate) returns (issues: seq<Problem>)
    ensures issues == Problems(spec, g)
  {
    hide IdentityProblems, NumberProblems, AllAssertionProblems, AllHeaderProblems, BodyProblems;
    issues := CheckIdentity(spec, g);
    var numbers := CheckNumbers(spec);
    var headers := CheckHeaders(spec.headers);
    var checks := CheckAssertions(spec.assertions, g.cast);
    issues := issues + numbers + headers + BodyProblems(spec) + checks;
  }

  method CheckHeaders(headers: seq<JV.Member>) returns (issues: seq<Problem>)
    ensures issues == Finding(|headers| > MAX_HEADER_COUNT, TooManyHeaders) + AllHeaderProblems(headers)
  {
    hide HeaderProblems;
    issues := Finding(|headers| > MAX_HEADER_COUNT, TooManyHeaders);
    ghost var first := issues;
    for i := 0 to |headers|
      invariant issues == first + AllHeaderProblems(headers[..i])
    {
      NextHeader(headers, i);
      issues := issues + HeaderProblems(headers[i]);
    }
    assert headers[..|headers|] == headers;
  }

  method CheckAssertions(assertions: seq<Assertion>, cast: Cast) returns (issues: seq<Problem>)
    ensures issues == Finding(|assertions| > MAX_ASSERTIONS, TooManyAssertions) + AllAssertionProblems(assertions, cast)
  {
    hide AssertionProblems;
    issues := Finding(|assertions| > MAX_ASSERTIONS, TooManyAssertions);
    ghost var first := issues;
    for i := 0 to |assertions|
      invariant issues == first + AllAssertionProblems(assertions[..i], cast)
    {
      NextAssertion(assertions, i, cast);
      issues := issues + AssertionProblems(assertions[i], cast);
    }
    assert assertions[..|assertions|] == assertions;
  }

  lemma NextHeader(hs: seq<JV.Member>, i: nat)
    requires i < |hs|
    ensures AllHeaderProblems(hs[..i + 1]) == AllHeaderProblems(hs[..i]) + HeaderProblems(hs[i])
  {
    hide HeaderProblems;
    FrontOf(hs, i);
  }

  lemma NextAssertion(s: seq<Assertion>, i: nat, cast: Cast)
    requires i < |s|
    ensures AllAssertionProblems(s[..i + 1], cast) == AllAssertionProblems(s[..i], cast) + AssertionProblems(s[i], cast)
  {
    hide AssertionProblems;
    FrontOf(s, i);
  }

  method CheckIdentity(spec: TestSpec, g: Gate) returns (issues: seq<Problem>)
    ensures issues == IdentityProblems(spec, g)
  {
    hide SafeName, SafeEndpoint, UJ.Join, U.Parse, UP.Accepts, METHODS;
    var safe := IsSafeName(spec.name);
    issues := Finding(!safe, BadName) + Finding(spec.verb !in METHODS, BadMethod);
    safe := IsSafeEndpoint(spec.endpoint);
    if !safe {
      issues := issues + [BadEndpoint];
    } else {
      var resolved := UJ.JoinUrl(g.base, spec.endpoint);
      if resolved.None? {
        issues := issues + [NotPermitted];
      } else {
        var url := U.ParseUrl(resolved.value);
        if url.None? || !UP.Accepts(g.policy, url.value) {
          issues := issues + [NotPermitted];
        }
      }
    }
  }

  method CheckNumbers(spec: TestSpec) returns (issues: seq<Problem>)
    ensures issues == NumberProblems(spec)
  {
    issues := Finding(!StatusOk(spec.expectedStatus), BadStatus);
    ghost var first := issues;
    hide StatusOk;
    for i := 0 to |spec.acceptableStatuses|
      invariant issues == first + StatusProblems(spec.acceptableStatuses[..i])
    {
      FrontOf(spec.acceptableStatuses, i);
      if !StatusOk(spec.acceptableStatuses[i]) {
        issues := issues + [BadStatus];
      }
    }
    assert spec.acceptableStatuses[..|spec.acceptableStatuses|] == spec.acceptableStatuses;
    if spec.maxResponseTimeMs < 0 || spec.maxResponseTimeMs > 600_000 {
      issues := issues + [BadBudget];
    }
  }

  // ---- the suite -----------------------------------------------------------------------------

  datatype Report = Report(valid: bool, accepted: nat, rejected: nat, issues: seq<Problem>)

  /** Names are compared in lower case. */
  function Seen(tests: seq<TestSpec>): set<string> {
    if tests == [] then {} else Seen(tests[..|tests| - 1]) + {Lower(tests[|tests| - 1].name)}
  }

  /** The test at `i` has no fatal finding and no earlier namesake, kept or not. */
  predicate Keeps(tests: seq<TestSpec>, i: nat, g: Gate)
    requires i < |tests|
  {
    Acceptable(tests[i], g) && Lower(tests[i].name) !in Seen(tests[..i])
  }

  function Survivors(tests: seq<TestSpec>, g: Gate): seq<TestSpec> {
    if tests == [] then []
    else
      var last := |tests| - 1;
      Survivors(tests[..last], g) + if Keeps(tests, last, g) then [tests[last]] else []
  }

  function Findings(tests: seq<TestSpec>, g: Gate): seq<Problem> {
    if tests == [] then []
    else
      var front, last := tests[..|tests| - 1], tests[|tests| - 1];
      Findings(front, g) + Problems(last, g) + Finding(Lower(last.name) in Seen(front), DuplicateName)
  }

  function Limit(g: Gate): (r: nat)
    ensures r >= 1
  {
    if g.limit < 1 then 1 else g.limit
  }

  function Considered(s: Suite, g: Gate): seq<TestSpec> {
    if |s.tests| > Limit(g) then s.tests[..Limit(g)] else s.tests
  }

  /** The suite that validation leaves. */
  function Validated(s: Suite, g: Gate): Suite {
    s.(tests := if SafeName(s.suite) then Survivors(Considered(s, g), g) else [])
  }

  function ReportOf(s: Suite, g: Gate): Report {
    if !SafeName(s.suite) then Report(false, 0, |s.tests|, [BadSuiteName])
    else
      var tests := Considered(s, g);
      var kept := Survivors(tests, g);
      SurvivorsCount(tests, g);
      var found := Finding(|s.tests| > Limit(g), TooManyTests) + Findings(tests, g);
      Report(kept != [], |kept|, |s.tests| - |kept|, if kept == [] && found == [] then [NoTests] else found)
  }

  lemma {:induction false} SurvivorsCount(tests: seq<TestSpec>, g: Gate)
    ensures |Survivors(tests, g)| <= |tests|
  {
    hide Keeps;
    if tests != [] {
      SurvivorsCount(tests[..|tests| - 1], g);
    }
  }

  lemma NextTest(tests: seq<TestSpec>, i: nat, g: Gate)
    requires i < |tests|
    ensures Seen(tests[..i + 1]) == Seen(tests[..i]) + {Lower(tests[i].name)}
    ensures Survivors(tests[..i + 1], g) == Survivors(tests[..i], g) + if Keeps(tests, i, g) then [tests[i]] else []
    ensures Findings(tests[..i + 1], g)
            == Findings(tests[..i], g) + Problems(tests[i], g)
               + Finding(Lower(tests[i].name) in Seen(tests[..i]), DuplicateName)
  {
    hide Acceptable, Problems, Lower;
    FrontOf(tests, i);
    KeepsInPrefix(tests, i, i + 1, g);
  }

  lemma KeepsInPrefix(tests: seq<TestSpec>, i: nat, n: nat, g: Gate)
    requires i < n <= |tests|
    ensures Keeps(tests[..n], i, g) == Keeps(tests, i, g)
  {
    hide Acceptable, Seen, Lower;
    assert tests[..n][..i] == tests[..i];
  }

  /** The findings on a test, with the one on its name, are fatal exactly when it is dropped. */
  lemma DroppedExactly(tests: seq<TestSpec>, i: nat, g: Gate)
    requires i < |tests|
    ensures AnyFatal(Problems(tests[i], g) + Finding(Lower(tests[i].name) in Seen(tests[..i]), DuplicateName))
            <==> !Keeps(tests, i, g)
  {
    hide Acceptable, Problems, Lower, Seen, AnyFatal, Finding;
    var duplicate := Lower(tests[i].name) in Seen(tests[..i]);
    ProblemsExact(tests[i], g);
    FatalInEither(Problems(tests[i], g), Finding(duplicate, DuplicateName));
    FatalWhen(duplicate, DuplicateName);
  }

  /** The loop over the tests. */
  method Sift(tests: seq<TestSpec>, g: Gate) returns (accepted: seq<TestSpec>, rejected: nat, issues: seq<Problem>)
    ensures accepted == Survivors(tests, g) && rejected == |tests| - |accepted| && issues == Findings(tests, g)
  {
    hide Problems, Lower, Keeps, Survivors, Findings, Seen, AnyFatal;
    accepted, rejected, issues := [], 0, [];
    var seenNames: set<string> := {};
    NothingYet(tests, g);
    for i := 0 to |tests|
      invariant seenNames == Seen(tests[..i])
      invariant accepted == Survivors(tests[..i], g)
      invariant issues == Findings(tests[..i], g)
      invariant rejected == i - |accepted|
    {
      NextTest(tests, i, g);
      DroppedExactly(tests, i, g);
      var found := ValidateOne(tests[i], g);
      found := found + if Lower(tests[i].name) in seenNames then [DuplicateName] else [];
      seenNames := seenNames + {Lower(tests[i].name)};
      issues := issues + found;
      var fatal := HasFatal(found);
      if fatal {
        rejected := rejected + 1;
      } else {
        accepted := accepted + [tests[i]];
      }
    }
    assert tests[..|tests|] == tests;
  }

  method Validate(suite: Suite, g: Gate) returns (out: Suite, report: Report)
    ensures out == Validated(suite, g) && report == ReportOf(suite, g)
  {
    hide SafeName, Survivors, Findings;
    var usable := IsSafeName(suite.suite);
    if !usable {
      return suite.(tests := []), Report(false, 0, |suite.tests|, [BadSuiteName]);
    }
    var tests, issues: seq<Problem>, cut: nat := suite.tests, [], 0;
    var maxTests := if g.limit < 1 then 1 else g.limit;
    if |tests| > maxTests {
      issues := [TooManyTests];
      cut := |tests| - maxTests;
      tests := tests[..maxTests];
    }
    var accepted, rejected, found := Sift(tests, g);
    issues := issues + found;
    out := suite.(tests := accepted);
    if accepted == [] && issues == [] {
      issues := [NoTests];
    }
    report := Report(accepted != [], |accepted|, cut + rejected, issues);
  }

  lemma NothingYet(tests: seq<TestSpec>, g: Gate)
    ensures Seen(tests[..0]) == {} && Survivors(tests[..0], g) == [] && Findings(tests[..0], g) == []
  {
  }

  method HasFatal(issues: seq<Problem>) returns (fatal: bool)
    ensures fatal == AnyFatal(issues)
  {
    for i := 0 to |issues|
      invariant !AnyFatal(issues[..i])
    {
      if Fatal(issues[i]) {
        return true;
      }
      assert forall j :: 0 <= j < i ==> issues[..i + 1][j] == issues[..i][j];
    }
    assert issues[..|issues|] == issues;
    return false;
  }

  // ---- what survives ----------------------------------------------------------------------------

  /** Every test given is counted once, as accepted or as rejected. */
  lemma Conservation(s: Suite, g: Gate)
    ensures var r, out := ReportOf(s, g), Validated(s, g);
      && r.accepted + r.rejected == |s.tests| && r.accepted == |out.tests|
      && (r.valid <==> out.tests != []) && (!r.valid ==> r.issues != [])
      && out.(tests := s.tests) == s
  {
    hide SafeName, Survivors, Findings;
  }

  /** The positions of the survivors, in order. */
  function Picks(tests: seq<TestSpec>, g: Gate): seq<nat> {
    if tests == [] then []
    else
      var last := |tests| - 1;
      Picks(tests[..last], g) + if Keeps(tests, last, g) then [last] else []
  }

  lemma {:induction false} PicksAreKept(tests: seq<TestSpec>, g: Gate)
    ensures |Picks(tests, g)| == |Survivors(tests, g)|
    ensures forall k :: 0 <= k < |Picks(tests, g)| ==>
      Picks(tests, g)[k] < |tests| && Survivors(tests, g)[k] == tests[Picks(tests, g)[k]]
    ensures forall j, k :: 0 <= j < k < |Picks(tests, g)| ==> Picks(tests, g)[j] < Picks(tests, g)[k]
  {
    hide Keeps;
    if tests != [] {
      PicksAreKept(tests[..|tests| - 1], g);
    }
  }

  lemma {:induction false} PickedExactly(tests: seq<TestSpec>, i: nat, g: Gate)
    ensures i in Picks(tests, g) <==> i < |tests| && Keeps(tests, i, g)
  {
    hide Keeps;
    if tests != [] {
      var last := |tests| - 1;
      PickedExactly(tests[..last], i, g);
      if i < last {
        KeepsInPrefix(tests, i, last, g);
      }
      assert Picks(tests, g) == Picks(tests[..last], g) + if Keeps(tests, last, g) then [last] else [];
      hide Picks;
    }
  }

  /** The survivors are exactly the tests that keep their place, in their old order. */
  lemma SurvivorsArePicked(tests: seq<TestSpec>, g: Gate)
    ensures |Picks(tests, g)| == |Survivors(tests, g)|
    ensures forall k :: 0 <= k < |Picks(tests, g)| ==>
      && Picks(tests, g)[k] < |tests| && Survivors(tests, g)[k] == tests[Picks(tests, g)[k]]
      && Keeps(tests, Picks(tests, g)[k], g)
    ensures forall j, k :: 0 <= j < k < |Picks(tests, g)| ==> Picks(tests, g)[j] < Picks(tests, g)[k]
    ensures forall i: nat :: i < |tests| && Keeps(tests, i, g) ==> i in Picks(tests, g)
  {
    hide Keeps, Picks, Survivors;
    PicksAreKept(tests, g);
    forall i: nat
      ensures i in Picks(tests, g) <==> i < |tests| && Keeps(tests, i, g)
    {
      PickedExactly(tests, i, g);
    }
    assert forall k :: 0 <= k < |Picks(tests, g)| ==> Picks(tests, g)[k] in Picks(tests, g);
  }

  lemma {:induction false} SeenNames(tests: seq<TestSpec>, i: nat)
    requires i < |tests|
    ensures Lower(tests[i].name) in Seen(tests)
  {
    hide Lower;
    if i < |tests| - 1 {
      SeenNames(tests[..|tests| - 1], i);
    }
  }

  lemma {:induction false} SeenOnlyNames(tests: seq<TestSpec>, name: string)
    requires name in Seen(tests)
    ensures exists i :: 0 <= i < |tests| && Lower(tests[i].name) == name
  {
    hide Lower;
    var front, last := tests[..|tests| - 1], tests[|tests| - 1];
    if name in Seen(front) {
      SeenOnlyNames(front, name);
      var i :| 0 <= i < |front| && Lower(front[i].name) == name;
      assert tests[i] == front[i];
    }
  }

  ghost predicate DistinctNames(tests: seq<TestSpec>) {
    forall i, j :: 0 <= i < j < |tests| ==> Lower(tests[i].name) != Lower(tests[j].name)
  }

  /** Survivors meet every rule, and their names differ even in lower case. */
  lemma SurvivorsAreGood(tests: seq<TestSpec>, g: Gate)
    ensures forall k :: 0 <= k < |Survivors(tests, g)| ==> Acceptable(Survivors(tests, g)[k], g)
    ensures DistinctNames(Survivors(tests, g))
  {
    SurvivorsArePicked(tests, g);
    hide Acceptable, Survivors, Picks, Lower, Seen;
    var out, picks := Survivors(tests, g), Picks(tests, g);
    forall j, k | 0 <= j < k < |out|
      ensures Lower(out[j].name) != Lower(out[k].name)
    {
      var front := tests[..picks[k]];
      assert front[picks[j]] == tests[picks[j]];
      SeenNames(front, picks[j]);
    }
  }

  // ---- validating again --------------------------------------------------------------------------

  /** Distinct tests that all meet the rules all survive; if one does not, something is dropped. */
  lemma {:induction false} SurviveAll(tests: seq<TestSpec>, g: Gate)
    requires DistinctNames(tests)
    ensures |Survivors(tests, g)| == |tests| <==> forall k :: 0 <= k < |tests| ==> Acceptable(tests[k], g)
    ensures |Survivors(tests, g)| == |tests| ==> Survivors(tests, g) == tests
  {
    hide Acceptable, Lower;
    if tests != [] {
      var front, last := tests[..|tests| - 1], |tests| - 1;
      SurviveAll(front, g);
      SurvivorsCount(front, g);
      if Lower(tests[last].name) in Seen(front) {
        SeenOnlyNames(front, Lower(tests[last].name));
      }
      assert front + [tests[last]] == tests;
      hide Seen;
      assert forall k :: 0 <= k < last ==> front[k] == tests[k];
      assert front + [tests[last]] == tests;
    }
  }
}
