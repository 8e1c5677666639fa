/**
 Test specifications and their JSON form (src/ai/TestSpec.cpp), down to the text.
 */
module SpecJson {
  import opened Text
  import opened JsonValue
  import JP = JsonParse
  import opened JsonPrint
  import opened JsonRoundTrip
  import G = JsonGrammar

  // ---- the entities -----------------------------------------------------------

  type Int32 = i: int | -0x8000_0000 <= i <= 0x7FFF_FFFF

  datatype Kind =
    | StatusCode | StatusCodeIn | ResponseTimeUnder | BodyContains | BodyNotContains
    | JsonFieldExists | JsonFieldEquals | HeaderExists | HeaderEquals

  datatype Assertion = Assertion(kind: Kind, target: string, expected: Value)

  datatype TestSpec = TestSpec(
    name: string, description: string, verb: string, endpoint: string,
    headers: seq<Member>, body: Value,
    expectedStatus: Int32, acceptableStatuses: seq<Int32>, maxResponseTimeMs: Int64,
    assertions: seq<Assertion>, tags: seq<string>)

  datatype Suite = Suite(suite: string, requirement: string, source: string, model: string, tests: seq<TestSpec>)

  // ---- kinds --------------------------------------------------------------------

  function KindName(k: Kind): string {
    match k
    case StatusCode => "status_code"
    case StatusCodeIn => "status_code_in"
    case ResponseTimeUnder => "response_time_under_ms"
    case BodyContains => "body_contains"
    case BodyNotContains => "body_not_contains"
    case JsonFieldExists => "json_field_exists"
    case JsonFieldEquals => "json_field_equals"
    case HeaderExists => "header_exists"
    case HeaderEquals => "header_equals"
  }

  const ALL_KINDS: seq<Kind> := [
    StatusCode, StatusCodeIn, ResponseTimeUnder, BodyContains, BodyNotContains,
    JsonFieldExists, JsonFieldEquals, HeaderExists, HeaderEquals]

  function FirstKind(kinds: seq<Kind>, name: string): Option<Kind> {
    if kinds == [] then None
    else if KindName(kinds[0]) == name then Some(kinds[0])
    else FirstKind(kinds[1..], name)
  }

  function KindFromString(text: string): Option<Kind> { FirstKind(ALL_KINDS, Lower(Trim(text))) }

  predicate NameChars(s: string) { forall i :: 0 <= i < |s| ==> s[i] == '_' || 'a' <= s[i] <= 'z' }

  lemma NameCharsAreNormal(s: string)
    requires NameChars(s)
    ensures Lower(Trim(s)) == s
  {
    assert s != [] ==> NameChars([s[0]]) && NameChars([s[|s| - 1]]);
    assert Trimmed(s);
    TrimExact(s);
    hide Trim, Trimmed;
    forall i | 0 <= i < |s|
      ensures Lower(s)[i] == s[i]
    {
    }
  }

  lemma NameIsNormal(k: Kind)
    ensures Lower(Trim(KindName(k))) == KindName(k)
  {
    hide Trim, Lower;
    assert NameChars(KindName(k));
    NameCharsAreNormal(KindName(k));
  }

  lemma NamesDiffer(a: Kind, b: Kind)
    ensures KindName(a) == KindName(b) <==> a == b
  {
    var m, n := KindName(a), KindName(b);
    if |m| == |n| && a != b {
      assert m[0] != n[0] || m[8] != n[8] || m[12] != n[12];
    }
  }

  lemma {:induction false} FirstKindFinds(kinds: seq<Kind>, k: Kind)
    requires k in kinds
    ensures FirstKind(kinds, KindName(k)) == Some(k)
  {
    NamesDiffer(kinds[0], k);
    if kinds[0] != k {
      FirstKindFinds(kinds[1..], k);
    }
  }

  /** Reading back a printed kind name. */
  lemma KindRoundTrip(k: Kind)
    ensures KindFromString(KindName(k)) == Some(k)
  {
    NameIsNormal(k);
    FirstKindFinds(ALL_KINDS, k);
  }

  predicate NeedsTarget(k: Kind) {
    k == JsonFieldExists || k == JsonFieldEquals || k == HeaderExists || k == HeaderEquals
  }

  // ---- writing ------------------------------------------------------------------

  /** `set` key by key, skipping the fields that are left out. */
  function Build(keys: seq<string>, values: seq<Option<Value>>): (r: seq<Member>)
    requires |keys| == |values|
    ensures UniqueKeys(r)
  {
    if keys == [] then []
    else
      var last := |keys| - 1;
      var before := Build(keys[..last], values[..last]);
      if values[last].None? then before else SetMember(before, keys[last], values[last].value)
  }

  predicate Distinct(keys: seq<string>) { forall i, j :: 0 <= i < j < |keys| ==> keys[i] != keys[j] }

  /** Each field is found under its own key, and nothing under any other. */
  lemma {:induction false} BuildFind(keys: seq<string>, values: seq<Option<Value>>, key: string)
    requires |keys| == |values| && Distinct(keys)
    ensures forall i :: 0 <= i < |keys| && keys[i] == key ==> FindMember(Build(keys, values), key) == values[i]
    ensures key !in keys ==> FindMember(Build(keys, values), key) == None
  {
    if keys != [] {
      var last := |keys| - 1;
      BuildFind(keys[..last], values[..last], key);
      if values[last].Some? {
        FindAfterSet(Build(keys[..last], values[..last]), keys[last], values[last].value, key);
      }
      if keys[last] == key {
        assert key !in keys[..last];
      }
    }
  }

  function When(present: bool, v: Value): Option<Value> { if present then Some(v) else None }

  const ASSERTION_KEYS: seq<string> := ["kind", "target", "expected"]

  function AssertionValues(a: Assertion): seq<Option<Value>> {
    [Some(Str(KindName(a.kind))), When(a.target != "", Str(a.target)), Some(a.expected)]
  }

  function AssertionJson(a: Assertion): Value { Obj(Build(ASSERTION_KEYS, AssertionValues(a))) }

  function AssertionsJson(s: seq<Assertion>): seq<Value> {
    if s == [] then [] else [AssertionJson(s[0])] + AssertionsJson(s[1..])
  }

  function StringsJson(s: seq<string>): seq<Value> {
    if s == [] then [] else [Str(s[0])] + StringsJson(s[1..])
  }

  function IntsJson(s: seq<Int32>): seq<Value> {
    if s == [] then [] else [Integer(s[0])] + IntsJson(s[1..])
  }

  /** The header object: a repeated name keeps the later value. */
  function HeadersJson(headers: seq<Member>): seq<Member> {
    if headers == [] then []
    else
      var last := headers[|headers| - 1];
      SetMember(HeadersJson(headers[..|headers| - 1]), last.key, last.value)
  }

  const TEST_KEYS: seq<string> := [
    "name", "description", "method", "endpoint", "headers", "body", "expected_status", "acceptable_statuses",
    "max_response_time_ms", "assertions", "tags"]

  function TestValues(s: TestSpec): (r: seq<Option<Value>>)
    ensures |r| == |TEST_KEYS|
  {
    [Some(Str(s.name)),
     Some(Str(s.description)),
     Some(Str(s.verb)),
     Some(Str(s.endpoint)),
     When(s.headers != [], Obj(HeadersJson(s.headers))),
     When(s.body != Null, s.body),
     Some(Integer(s.expectedStatus)),
     When(s.acceptableStatuses != [], Arr(IntsJson(s.acceptableStatuses))),
     When(s.maxResponseTimeMs > 0, Integer(s.maxResponseTimeMs)),
     When(s.assertions != [], Arr(AssertionsJson(s.assertions))),
     When(s.tags != [], Arr(StringsJson(s.tags)))]
  }

  function TestJson(s: TestSpec): Value { Obj(Build(TEST_KEYS, TestValues(s))) }

  function TestsJson(s: seq<TestSpec>): seq<Value> {
    if s == [] then [] else [TestJson(s[0])] + TestsJson(s[1..])
  }

  const SUITE_KEYS: seq<string> := ["suite", "requirement", "source", "model", "tests", "test_count"]

  function SuiteValues(s: Suite): seq<Option<Value>>
    requires FitsInt64(|s.tests|)
  {
    [Some(Str(s.suite)), Some(Str(s.requirement)), Some(Str(s.source)), When(s.model != "", Str(s.model)),
     Some(Arr(TestsJson(s.tests))), Some(Integer(|s.tests|))]
  }

  function SuiteJson(s: Suite): Value
    requires FitsInt64(|s.tests|)
  {
    Obj(Build(SUITE_KEYS, SuiteValues(s)))
  }

  // ---- reading ------------------------------------------------------------------

  /** static_cast<int64_t>(double): a conversion the model takes as given. */
  type Cast = Double -> Int64

  function ReadString(v: Value, key: string, fallback: string): string {
    var found := Lookup(v, key);
    if found.Some? && found.value.Str? then found.value.s else fallback
  }

  predicate IsNumber(v: Value) { v.Integer? || v.Real? }

  function AsInt(v: Value, cast: Cast): Int64
    requires IsNumber(v)
  {
    if v.Integer? then v.i else cast(v.d)
  }

  /** static_cast<int>(int64_t): the low 32 bits, as two's complement. */
  function ToInt32(i: Int64): (r: Int32)
    ensures -0x8000_0000 <= i <= 0x7FFF_FFFF ==> r == i
  {
    (i + 0x8000_0000) % 0x1_0000_0000 - 0x8000_0000
  }

  function AssertionFromJson(v: Value): Option<Assertion> {
    if !v.Obj? then None
    else
      var kind := KindFromString(ReadString(v, "kind", ""));
      if kind.None? then None
      else
        var target := ReadString(v, "target", "");
        var expected := Lookup(v, "expected");
        if NeedsTarget(kind.value) && target == "" then None
        else Some(Assertion(kind.value, target, if expected.Some? then expected.value else Null))
  }

  /** One unreadable assertion makes the whole test unreadable. */
  function AssertionsFromJson(items: seq<Value>): Option<seq<Assertion>> {
    if items == [] then Some([])
    else
      var a, rest := AssertionFromJson(items[0]), AssertionsFromJson(items[1..]);
      if a.None? || rest.None? then None else Some([a.value] + rest.value)
  }

  /** Items that are not strings are skipped. */
  function StringsFromJson(items: seq<Value>): seq<string> {
    if items == [] then []
    else (if items[0].Str? then [items[0].s] else []) + StringsFromJson(items[1..])
  }

  /** Items that are not numbers are skipped. */
  function IntsFromJson(items: seq<Value>, cast: Cast): seq<Int32> {
    if items == [] then []
    else (if IsNumber(items[0]) then [ToInt32(AsInt(items[0], cast))] else []) + IntsFromJson(items[1..], cast)
  }

  function ItemsAt(v: Value, key: string): seq<Value> {
    var found := Lookup(v, key);
    if found.Some? && found.value.Arr? then found.value.items else []
  }

  /** "endpoint", or its synonym "path" when that is blank. */
  function ReadEndpoint(v: Value): string {
    var e := Trim(ReadString(v, "endpoint", ""));
    if e == "" then Trim(ReadString(v, "path", "")) else e
  }

  function ReadStatus(v: Value, cast: Cast): Int32 {
    var status, other := Lookup(v, "expected_status"), Lookup(v, "expectedStatus");
    if status.Some? && IsNumber(status.value) then ToInt32(AsInt(status.value, cast))
    else if other.Some? && IsNumber(other.value) then ToInt32(AsInt(other.value, cast))
    else 200
  }

  function ReadBudget(v: Value, cast: Cast): Int64 {
    var budget := Lookup(v, "max_response_time_ms");
    if budget.Some? && IsNumber(budget.value) then AsInt(budget.value, cast) else 0
  }

  function ReadHeaders(v: Value): seq<Member> {
    var headers := Lookup(v, "headers");
    if headers.Some? && headers.value.Obj? then headers.value.members else []
  }

  function ReadBody(v: Value): Value {
    var body := Lookup(v, "body");
    if body.Some? then body.value else Null
  }

  function TestFromJson(v: Value, cast: Cast): Option<TestSpec> {
    if !v.Obj? then None
    else
      var name, endpoint := Trim(ReadString(v, "name", "")), ReadEndpoint(v);
      var assertions := AssertionsFromJson(ItemsAt(v, "assertions"));
      if name == "" || endpoint == "" || assertions.None? then None
      else Some(TestSpec(
        name, ReadString(v, "description", ""), Upper(Trim(ReadString(v, "method", "GET"))), endpoint,
        ReadHeaders(v), ReadBody(v),
        ReadStatus(v, cast), IntsFromJson(ItemsAt(v, "acceptable_statuses"), cast), ReadBudget(v, cast),
        assertions.value, StringsFromJson(ItemsAt(v, "tags"))))
  }

  function TestsFromJson(items: seq<Value>, cast: Cast): Option<seq<TestSpec>> {
    if items == [] then Some([])
    else
      var t, rest := TestFromJson(items[0], cast), TestsFromJson(items[1..], cast);
      if t.None? || rest.None? then None else Some([t.value] + rest.value)
  }

  function SuiteFromJson(v: Value, cast: Cast): Option<Suite> {
    if !v.Obj? then None
    else
      var name := Trim(ReadString(v, "suite", ""));
      var tests := TestsFromJson(ItemsAt(v, "tests"), cast);
      if name == "" || ItemsAt(v, "tests") == [] || tests.None? then None
      else Some(Suite(name, ReadString(v, "requirement", ""), ReadString(v, "source", ""), ReadString(v, "model", ""),
                      tests.value))
  }

  const SPEC_LIMITS: JP.Limits := JP.Limits(24, 2 * 1024 * 1024)

  /** TestSpecSuite::parse, without the error text. */
  function ParseSuite(text: string, cast: Cast): Option<Suite> {
    var document := JP.Parse(text, SPEC_LIMITS);
    if document.None? then None else SuiteFromJson(document.value, cast)
  }

  // ---- what survives fromJson(toJson(...)) -----------------------------------------

  predicate StableAssertion(a: Assertion) { NeedsTarget(a.kind) ==> a.target != "" }

  predicate AllStable(s: seq<Assertion>) { forall i :: 0 <= i < |s| ==> StableAssertion(s[i]) }

  predicate StableTest(s: TestSpec) {
    && s.name != "" && Trimmed(s.name)
    && Upper(Trim(s.verb)) == s.verb
    && s.endpoint != "" && Trimmed(s.endpoint)
    && UniqueKeys(s.headers)
    && s.maxResponseTimeMs >= 0
    && AllStable(s.assertions)
  }

  predicate StableSuite(s: Suite) {
    s.suite != "" && Trimmed(s.suite) && s.tests != [] && forall i :: 0 <= i < |s.tests| ==> StableTest(s.tests[i])
  }

  lemma AssertionRoundTrip(a: Assertion)
    ensures AssertionFromJson(AssertionJson(a)) == if StableAssertion(a) then Some(a) else None
  {
    hide KindFromString, Build, FindMember;
    forall i | 0 <= i < 3
      ensures Lookup(AssertionJson(a), ASSERTION_KEYS[i]) == AssertionValues(a)[i]
    {
      BuildFind(ASSERTION_KEYS, AssertionValues(a), ASSERTION_KEYS[i]);
    }
    assert Lookup(AssertionJson(a), ASSERTION_KEYS[0]) == AssertionValues(a)[0];
    assert Lookup(AssertionJson(a), ASSERTION_KEYS[1]) == AssertionValues(a)[1];
    assert Lookup(AssertionJson(a), ASSERTION_KEYS[2]) == AssertionValues(a)[2];
    KindRoundTrip(a.kind);
  }

  lemma {:induction false} AssertionsRoundTrip(s: seq<Assertion>)
    ensures AssertionsFromJson(AssertionsJson(s)) == if AllStable(s) then Some(s) else None
  {
    hide AssertionJson, AssertionFromJson;
    if s != [] {
      AssertionRoundTrip(s[0]);
      AssertionsRoundTrip(s[1..]);
      assert s == [s[0]] + s[1..];
      assert AssertionsJson(s)[1..] == AssertionsJson(s[1..]);
    }
  }

  lemma {:induction false} StringsRoundTrip(s: seq<string>)
    ensures StringsFromJson(StringsJson(s)) == s
  {
    if s != [] {
      StringsRoundTrip(s[1..]);
      assert StringsJson(s)[1..] == StringsJson(s[1..]);
    }
  }

  lemma {:induction false} IntsRoundTrip(s: seq<Int32>, cast: Cast)
    ensures IntsFromJson(IntsJson(s), cast) == s
  {
    if s != [] {
      IntsRoundTrip(s[1..], cast);
      assert IntsJson(s)[1..] == IntsJson(s[1..]);
    }
  }

  lemma {:induction false} HeadersRoundTrip(headers: seq<Member>)
    ensures UniqueKeys(HeadersJson(headers))
    ensures UniqueKeys(headers) ==> HeadersJson(headers) == headers
  {
    if headers != [] {
      var front := headers[..|headers| - 1];
      HeadersRoundTrip(front);
      if UniqueKeys(headers) {
        assert IndexOfKey(front, headers[|headers| - 1].key) < 0;
      }
    }
  }

  /** Every field of a printed test is found under its key. */
  lemma TestField(s: TestSpec, i: nat)
    requires i < |TEST_KEYS|
    ensures Lookup(TestJson(s), TEST_KEYS[i]) == TestValues(s)[i]
  {
    hide TestValues, Build, FindMember;
    BuildFind(TEST_KEYS, TestValues(s), TEST_KEYS[i]);
  }

  lemma NoPathField(s: TestSpec)
    ensures Lookup(TestJson(s), "path") == None
  {
    hide TestValues, Build, FindMember;
    BuildFind(TEST_KEYS, TestValues(s), "path");
  }

  lemma TestFields(s: TestSpec)
    ensures var v := TestJson(s);
      && Lookup(v, "name") == Some(Str(s.name))
      && Lookup(v, "description") == Some(Str(s.description))
      && Lookup(v, "method") == Some(Str(s.verb))
      && Lookup(v, "endpoint") == Some(Str(s.endpoint))
      && Lookup(v, "headers") == When(s.headers != [], Obj(HeadersJson(s.headers)))
      && Lookup(v, "body") == When(s.body != Null, s.body)
      && Lookup(v, "expected_status") == Some(Integer(s.expectedStatus))
      && Lookup(v, "acceptable_statuses") == When(s.acceptableStatuses != [], Arr(IntsJson(s.acceptableStatuses)))
      && Lookup(v, "max_response_time_ms") == When(s.maxResponseTimeMs > 0, Integer(s.maxResponseTimeMs))
      && Lookup(v, "assertions") == When(s.assertions != [], Arr(AssertionsJson(s.assertions)))
      && Lookup(v, "tags") == When(s.tags != [], Arr(StringsJson(s.tags)))
  {
    hide TestJson, Lookup, HeadersJson, IntsJson, AssertionsJson, StringsJson;
    forall i: nat | i < |TEST_KEYS|
      ensures Lookup(TestJson(s), TEST_KEYS[i]) == TestValues(s)[i]
    {
      TestField(s, i);
    }
    assert TEST_KEYS[0] == "name" && TEST_KEYS[1] == "description" && TEST_KEYS[2] == "method";
    assert TEST_KEYS[3] == "endpoint" && TEST_KEYS[4] == "headers" && TEST_KEYS[5] == "body";
    assert TEST_KEYS[6] == "expected_status" && TEST_KEYS[7] == "acceptable_statuses";
    assert TEST_KEYS[8] == "max_response_time_ms" && TEST_KEYS[9] == "assertions" && TEST_KEYS[10] == "tags";
  }

  /** What reading a printed test gives, in terms of the test. */
  function Reread(s: TestSpec): Option<TestSpec> {
    if Trim(s.name) == "" || Trim(s.endpoint) == "" || !AllStable(s.assertions) then None
    else Some(TestSpec(
      Trim(s.name), s.description, Upper(Trim(s.verb)), Trim(s.endpoint), HeadersJson(s.headers), s.body,
      s.expectedStatus, s.acceptableStatuses, if s.maxResponseTimeMs > 0 then s.maxResponseTimeMs else 0,
      s.assertions, s.tags))
  }

  lemma ScalarsReread(s: TestSpec, cast: Cast)
    ensures var v := TestJson(s);
      && ReadString(v, "name", "") == s.name && ReadString(v, "description", "") == s.description
      && ReadString(v, "method", "GET") == s.verb && ReadEndpoint(v) == Trim(s.endpoint)
      && ReadBody(v) == s.body && ReadStatus(v, cast) == s.expectedStatus
      && ReadBudget(v, cast) == if s.maxResponseTimeMs > 0 then s.maxResponseTimeMs else 0
  {
    hide TestJson, Lookup, HeadersJson, IntsJson, AssertionsJson, StringsJson, Trim;
    TestFields(s);
    NoPathField(s);
    EmptyLists(cast);
  }

  lemma ListsReread(s: TestSpec, cast: Cast)
    ensures var v := TestJson(s);
      && ReadHeaders(v) == HeadersJson(s.headers)
      && IntsFromJson(ItemsAt(v, "acceptable_statuses"), cast) == s.acceptableStatuses
      && StringsFromJson(ItemsAt(v, "tags")) == s.tags
  {
    assert s.headers == [] ==> HeadersJson(s.headers) == [];
    hide TestJson, Lookup, HeadersJson, IntsJson, IntsFromJson, AssertionsJson, StringsJson, StringsFromJson;
    TestFields(s);
    StringsRoundTrip(s.tags);
    IntsRoundTrip(s.acceptableStatuses, cast);
    EmptyLists(cast);
  }

  lemma AssertionsReread(s: TestSpec, cast: Cast)
    ensures AssertionsFromJson(ItemsAt(TestJson(s), "assertions"))
         == if AllStable(s.assertions) then Some(s.assertions) else None
  {
    assert s.assertions == [] ==> AllStable(s.assertions);
    hide TestJson, Lookup, HeadersJson, IntsJson, AssertionsJson, AssertionsFromJson, StringsJson, AllStable;
    TestFields(s);
    AssertionsRoundTrip(s.assertions);
    EmptyLists(cast);
  }

  lemma TestRereads(s: TestSpec, cast: Cast)
    ensures TestFromJson(TestJson(s), cast) == Reread(s)
  {
    assert TestJson(s).Obj?;
    hide TestJson, ReadString, ReadEndpoint, ReadBody, ReadStatus, ReadBudget, ReadHeaders, IntsFromJson, ItemsAt,
         StringsFromJson, AssertionsFromJson, HeadersJson, Trim, Upper, AllStable;
    ScalarsReread(s, cast);
    ListsReread(s, cast);
    AssertionsReread(s, cast);
  }

  /** A test read back from its own JSON is unchanged exactly when it is stable. */
  lemma TestRoundTrip(s: TestSpec, cast: Cast)
    ensures TestFromJson(TestJson(s), cast) == Some(s) <==> StableTest(s)
  {
    hide TestJson, TestFromJson, HeadersJson, Trim, Trimmed, Upper, AllStable, UniqueKeys;
    TestRereads(s, cast);
    HeadersRoundTrip(s.headers);
    TrimExact(s.name);
    TrimExact(s.endpoint);
  }

  lemma EmptyLists(cast: Cast)
    ensures AssertionsFromJson([]) == Some([]) && StringsFromJson([]) == [] && IntsFromJson([], cast) == []
    ensures Trim("") == "" && UniqueKeys([])
  {
  }

  lemma {:induction false} TestsRoundTrip(ts: seq<TestSpec>, cast: Cast)
    ensures TestsFromJson(TestsJson(ts), cast) == Some(ts) <==> forall i :: 0 <= i < |ts| ==> StableTest(ts[i])
  {
    hide TestJson, TestFromJson, StableTest;
    if ts != [] {
      TestRoundTrip(ts[0], cast);
      TestsRoundTrip(ts[1..], cast);
      assert TestsJson(ts)[1..] == TestsJson(ts[1..]);
      assert ts == [ts[0]] + ts[1..];
      var t, rest := TestFromJson(TestJson(ts[0]), cast), TestsFromJson(TestsJson(ts[1..]), cast);
      if t.Some? && rest.Some? && [t.value] + rest.value == ts {
        assert ([t.value] + rest.value)[0] == ts[0] && ([t.value] + rest.value)[1..] == ts[1..];
      }
    }
  }

  lemma SuiteFields(s: Suite)
    requires FitsInt64(|s.tests|)
    ensures var v := SuiteJson(s);
      && Lookup(v, "suite") == Some(Str(s.suite)) && Lookup(v, "requirement") == Some(Str(s.requirement))
      && Lookup(v, "source") == Some(Str(s.source)) && Lookup(v, "model") == When(s.model != "", Str(s.model))
      && Lookup(v, "tests") == Some(Arr(TestsJson(s.tests)))
  {
    hide Build, FindMember, TestsJson;
    forall i | 0 <= i < |SUITE_KEYS|
      ensures Lookup(SuiteJson(s), SUITE_KEYS[i]) == SuiteValues(s)[i]
    {
      BuildFind(SUITE_KEYS, SuiteValues(s), SUITE_KEYS[i]);
    }
    assert SUITE_KEYS[0] == "suite" && SUITE_KEYS[1] == "requirement" && SUITE_KEYS[2] == "source";
    assert SUITE_KEYS[3] == "model" && SUITE_KEYS[4] == "tests";
  }

  lemma SuiteRereads(s: Suite)
    requires FitsInt64(|s.tests|)
    ensures var v := SuiteJson(s);
      && v.Obj? && ReadString(v, "suite", "") == s.suite && ReadString(v, "requirement", "") == s.requirement
      && ReadString(v, "source", "") == s.source && ReadString(v, "model", "") == s.model
      && ItemsAt(v, "tests") == TestsJson(s.tests)
  {
    assert SuiteJson(s).Obj?;
    hide SuiteJson, Lookup, TestsJson;
    SuiteFields(s);
  }

  /** A suite read back from its own JSON is unchanged exactly when it is stable. */
  lemma SuiteRoundTrip(s: Suite, cast: Cast)
    requires FitsInt64(|s.tests|)
    ensures SuiteFromJson(SuiteJson(s), cast) == Some(s) <==> StableSuite(s)
  {
    assert TestsJson(s.tests) == [] <==> s.tests == [];
    hide SuiteJson, ReadString, ItemsAt, TestsJson, TestsFromJson, Trim, Trimmed, StableTest;
    SuiteRereads(s);
    TestsRoundTrip(s.tests, cast);
    TrimExact(s.suite);
  }

  // ---- what is read when fields are missing ---------------------------------------------------

  /** There is a string under the key, or a number, or neither. */
  predicate HasText(v: Value, key: string) { Lookup(v, key).Some? && Lookup(v, key).value.Str? }

  predicate HasNumber(v: Value, key: string) {
    Lookup(v, key).Some? && (Lookup(v, key).value.Integer? || Lookup(v, key).value.Real?)
  }

  /** The 32 bits that are left of a number. */
  function StatusUnder(v: Value, key: string, cast: Cast): Int32
    requires HasNumber(v, key)
  {
    ToInt32(AsInt(Lookup(v, key).value, cast))
  }

  /**
   The scalar fields of any test that can be read: the method in upper case and
   trimmed, GET if there is none; the status under its name, under its other name only
   if there is no number under the first, and 200 if there is none; the endpoint, and
   the path only if the endpoint is missing or blank; and no budget if none is given.
   */
  lemma ScalarsRead(v: Value, cast: Cast)
    requires TestFromJson(v, cast).Some?
    ensures var t := TestFromJson(v, cast).value;
      && HasText(v, "name") && t.name == Trim(Lookup(v, "name").value.s) != ""
      && t.verb == (if HasText(v, "method") then Upper(Trim(Lookup(v, "method").value.s)) else "GET")
      && t.expectedStatus ==
           (if HasNumber(v, "expected_status") then StatusUnder(v, "expected_status", cast)
            else if HasNumber(v, "expectedStatus") then StatusUnder(v, "expectedStatus", cast)
            else 200)
      && (if HasText(v, "endpoint") && Trim(Lookup(v, "endpoint").value.s) != ""
          then t.endpoint == Trim(Lookup(v, "endpoint").value.s)
          else HasText(v, "path") && t.endpoint == Trim(Lookup(v, "path").value.s) != "")
      && (!HasNumber(v, "max_response_time_ms") ==> t.maxResponseTimeMs == 0)
  {
    hide *;
    FieldsOfTest(v, cast);
    TextRead(v, "name", "");
    TextRead(v, "method", "GET");
    NoText();
    StatusRead(v, cast);
    EndpointRead(v);
    BudgetRead(v, cast);
  }

  lemma FieldsOfTest(v: Value, cast: Cast)
    requires TestFromJson(v, cast).Some?
    ensures var t := TestFromJson(v, cast).value;
      && t.name == Trim(ReadString(v, "name", "")) != "" && t.verb == Upper(Trim(ReadString(v, "method", "GET")))
      && t.endpoint == ReadEndpoint(v) != "" && t.expectedStatus == ReadStatus(v, cast)
      && t.maxResponseTimeMs == ReadBudget(v, cast)
  {
    hide Trim, Upper, ReadString, ReadEndpoint, ReadStatus, ReadBudget, ReadHeaders, ReadBody;
    hide AssertionsFromJson, IntsFromJson, StringsFromJson, ItemsAt;
  }

  lemma TextRead(v: Value, key: string, fallback: string)
    ensures ReadString(v, key, fallback) == if HasText(v, key) then Lookup(v, key).value.s else fallback
  {
    hide Lookup;
  }

  lemma NoText()
    ensures Trim("") == "" && Upper(Trim("GET")) == "GET"
  {
    assert Trimmed("GET") && Trimmed("") && Upper("GET") == "GET";
    hide Trim, Upper, Trimmed;
    TrimExact("GET");
    TrimExact("");
  }

  lemma StatusRead(v: Value, cast: Cast)
    ensures ReadStatus(v, cast) ==
      if HasNumber(v, "expected_status") then StatusUnder(v, "expected_status", cast)
      else if HasNumber(v, "expectedStatus") then StatusUnder(v, "expectedStatus", cast)
      else 200
  {
    hide Lookup, AsInt, ToInt32;
  }

  lemma EndpointRead(v: Value)
    ensures ReadEndpoint(v) ==
      if HasText(v, "endpoint") && Trim(Lookup(v, "endpoint").value.s) != "" then Trim(Lookup(v, "endpoint").value.s)
      else if HasText(v, "path") then Trim(Lookup(v, "path").value.s) else ""
  {
    NoText();
    hide Lookup, Trim;
  }

  lemma BudgetRead(v: Value, cast: Cast)
    ensures !HasNumber(v, "max_response_time_ms") ==> ReadBudget(v, cast) == 0
  {
    hide Lookup;
  }

  /** When a test can be read at all: it is an object with a name, an endpoint or path, and readable assertions. */
  lemma ReadableExactly(v: Value, cast: Cast)
    ensures TestFromJson(v, cast).Some? <==>
      && v.Obj? && HasText(v, "name") && Trim(Lookup(v, "name").value.s) != ""
      && ((HasText(v, "endpoint") && Trim(Lookup(v, "endpoint").value.s) != "")
          || (HasText(v, "path") && Trim(Lookup(v, "path").value.s) != ""))
      && AssertionsFromJson(ItemsAt(v, "assertions")).Some?
  {
    NoText();
    TextRead(v, "name", "");
    EndpointRead(v);
    hide Trim, Upper, ReadString, ReadEndpoint, ReadStatus, ReadBudget, ReadHeaders, ReadBody, Lookup;
    hide AssertionsFromJson, IntsFromJson, StringsFromJson, ItemsAt;
  }

  /** The shortest test there is: a name and a path. */
  lemma SparseTest(name: string, path: string, cast: Cast)
    requires Trim(name) != "" && Trim(path) != ""
    ensures TestFromJson(Obj([Member("name", Str(name)), Member("path", Str(path))]), cast)
         == Some(TestSpec(Trim(name), "", "GET", Trim(path), [], Null, 200, [], 0, [], []))
  {
    var v := Obj([Member("name", Str(name)), Member("path", Str(path))]);
    SparseLookups(name, path);
    NoText();
    hide Trim, Upper, Lookup;
    assert ItemsAt(v, "assertions") == [] && ItemsAt(v, "tags") == [] && ItemsAt(v, "acceptable_statuses") == [];
    assert ReadString(v, "name", "") == name && ReadString(v, "endpoint", "") == ""
      && ReadString(v, "path", "") == path;
    assert ReadString(v, "description", "") == "" && ReadString(v, "method", "GET") == "GET";
    assert ReadHeaders(v) == [] && ReadBody(v) == Null && ReadStatus(v, cast) == 200 && ReadBudget(v, cast) == 0;
    assert ReadEndpoint(v) == Trim(path);
    hide ItemsAt, ReadString, ReadHeaders, ReadBody, ReadStatus, ReadBudget, ReadEndpoint;
  }

  lemma SparseLookups(name: string, path: string)
    ensures var v := Obj([Member("name", Str(name)), Member("path", Str(path))]);
      && Lookup(v, "name") == Some(Str(name)) && Lookup(v, "path") == Some(Str(path))
      && forall key :: key != "name" && key != "path" ==> Lookup(v, key) == None
  {
    var members := [Member("name", Str(name)), Member("path", Str(path))];
    assert members[0].key == "name" && members[1].key == "path" && |"name"| == |"path"| && "name"[0] != "path"[0];
    forall key: string
      ensures key != "name" && key != "path" ==> Lookup(Obj(members), key) == None
    {
      var i := IndexOfKey(members, key);
    }
    assert IndexOfKey(members, "name") == 0 && IndexOfKey(members, "path") == 1;
  }
}
