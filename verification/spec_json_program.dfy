/**
 toJson and fromJson of src/ai/TestSpec.cpp as they are written: objects built key by
 key, lists built in loops, and reading that stops at the first unreadable item.
 */
module SpecJsonProgram {
  import opened Text
  import opened JsonValue
  import JsonParser
  import opened SpecJson

  // ---- lists ----------------------------------------------------------------------------

  lemma NextAssertion(s: seq<Assertion>, i: nat)
    requires i < |s|
    ensures AssertionsJson(s[i..]) == [AssertionJson(s[i])] + AssertionsJson(s[i + 1..])
  {
    hide AssertionJson;
    assert s[i..][1..] == s[i + 1..];
  }

  method AssertionToJson(a: Assertion) returns (json: Value)
    ensures json == AssertionJson(a)
  {
    ghost var values := AssertionValues(a);
    Nothing(ASSERTION_KEYS, values);
    BuildNext(ASSERTION_KEYS, values, 0);
    BuildNext(ASSERTION_KEYS, values, 1);
    BuildNext(ASSERTION_KEYS, values, 2);
    Everything(ASSERTION_KEYS, values);
    hide Build, SetMember, KindName;
    var out := Set([], "kind", Str(KindName(a.kind)));
    if a.target != "" {
      out := Set(out, "target", Str(a.target));
    }
    out := Set(out, "expected", a.expected);
    return Obj(out);
  }

  method AssertionsToJson(s: seq<Assertion>) returns (items: seq<Value>)
    ensures items == AssertionsJson(s)
  {
    hide AssertionJson;
    items := [];
    assert s[0..] == s;
    for i := 0 to |s|
      invariant AssertionsJson(s) == items + AssertionsJson(s[i..])
    {
      NextAssertion(s, i);
      var item := AssertionToJson(s[i]);
      items := items + [item];
    }
  }

  method StringsToJson(s: seq<string>) returns (items: seq<Value>)
    ensures items == StringsJson(s)
  {
    items := [];
    assert s[0..] == s;
    for i := 0 to |s|
      invariant StringsJson(s) == items + StringsJson(s[i..])
    {
      assert s[i..][1..] == s[i + 1..];
      items := items + [Str(s[i])];
    }
  }

  method IntsToJson(s: seq<Int32>) returns (items: seq<Value>)
    ensures items == IntsJson(s)
  {
    items := [];
    assert s[0..] == s;
    for i := 0 to |s|
      invariant IntsJson(s) == items + IntsJson(s[i..])
    {
      assert s[i..][1..] == s[i + 1..];
      items := items + [Integer(s[i])];
    }
  }

  method HeadersToJson(headers: seq<Member>) returns (members: seq<Member>)
    ensures members == HeadersJson(headers)
  {
    hide SetMember;
    members := [];
    for i := 0 to |headers|
      invariant members == HeadersJson(headers[..i])
    {
      assert headers[..i + 1][..i] == headers[..i];
      members := Set(members, headers[i].key, headers[i].value);
    }
    assert headers[..|headers|] == headers;
  }

  // ---- objects, key by key ----------------------------------------------------------------

  lemma Nothing(keys: seq<string>, values: seq<Option<Value>>)
    requires |keys| == |values|
    ensures Build(keys[..0], values[..0]) == []
  {
  }

  lemma BuildNext(keys: seq<string>, values: seq<Option<Value>>, i: nat)
    requires i < |keys| == |values|
    ensures Build(keys[..i + 1], values[..i + 1])
            == if values[i].None? then Build(keys[..i], values[..i])
               else SetMember(Build(keys[..i], values[..i]), keys[i], values[i].value)
  {
    assert keys[..i + 1][..i] == keys[..i] && values[..i + 1][..i] == values[..i];
    hide SetMember;
  }

  lemma Everything(keys: seq<string>, values: seq<Option<Value>>)
    requires |keys| == |values|
    ensures Build(keys[..|keys|], values[..|keys|]) == Build(keys, values)
  {
    assert keys[..|keys|] == keys && values[..|keys|] == values;
  }

  /** One `set`, or none for a field that is left out. */
  method SetField(out: seq<Member>, key: string, value: Option<Value>,
                  ghost keys: seq<string>, ghost values: seq<Option<Value>>, ghost i: nat)
    returns (r: seq<Member>)
    requires i < |keys| == |values| && keys[i] == key && values[i] == value && out == Build(keys[..i], values[..i])
    ensures r == Build(keys[..i + 1], values[..i + 1])
  {
    BuildNext(keys, values, i);
    hide Build, SetMember;
    r := out;
    if value.Some? {
      r := Set(out, key, value.value);
    }
  }

  method TestToJson(s: TestSpec) returns (json: Value)
    ensures json == TestJson(s)
  {
    hide Build, HeadersJson, IntsJson, AssertionsJson, StringsJson, TestValues;
    Everything(TEST_KEYS, TestValues(s));
    var out := RequestFields(s);
    out := PayloadFields(s, out);
    out := LastFields(s, out);
    return Obj(out);
  }

  method RequestFields(s: TestSpec) returns (out: seq<Member>)
    ensures out == Build(TEST_KEYS[..4], TestValues(s)[..4])
  {
    ghost var keys, values := TEST_KEYS, TestValues(s);
    Nothing(keys, values);
    hide Build, HeadersJson, IntsJson, AssertionsJson, StringsJson;
    out := SetField([], "name", Some(Str(s.name)), keys, values, 0);
    out := SetField(out, "description", Some(Str(s.description)), keys, values, 1);
    out := SetField(out, "method", Some(Str(s.verb)), keys, values, 2);
    out := SetField(out, "endpoint", Some(Str(s.endpoint)), keys, values, 3);
  }

  method PayloadFields(s: TestSpec, out: seq<Member>) returns (r: seq<Member>)
    requires out == Build(TEST_KEYS[..4], TestValues(s)[..4])
    ensures r == Build(TEST_KEYS[..6], TestValues(s)[..6])
  {
    ghost var keys, values := TEST_KEYS, TestValues(s);
    hide Build, HeadersJson, IntsJson, AssertionsJson, StringsJson;
    var headers := HeadersToJson(s.headers);
    r := SetField(out, "headers", When(s.headers != [], Obj(headers)), keys, values, 4);
    r := SetField(r, "body", When(s.body != Null, s.body), keys, values, 5);
  }

  method LastFields(s: TestSpec, out: seq<Member>) returns (r: seq<Member>)
    requires out == Build(TEST_KEYS[..6], TestValues(s)[..6])
    ensures r == Build(TEST_KEYS[..11], TestValues(s)[..11])
  {
    ghost var keys, values := TEST_KEYS, TestValues(s);
    hide Build, HeadersJson, IntsJson, AssertionsJson, StringsJson;
    r := SetField(out, "expected_status", Some(Integer(s.expectedStatus)), keys, values, 6);
    var statuses := IntsToJson(s.acceptableStatuses);
    r := SetField(r, "acceptable_statuses", When(s.acceptableStatuses != [], Arr(statuses)), keys, values, 7);
    var budget := When(s.maxResponseTimeMs > 0, Integer(s.maxResponseTimeMs));
    r := SetField(r, "max_response_time_ms", budget, keys, values, 8);
    var assertions := AssertionsToJson(s.assertions);
    r := SetField(r, "assertions", When(s.assertions != [], Arr(assertions)), keys, values, 9);
    var tags := StringsToJson(s.tags);
    r := SetField(r, "tags", When(s.tags != [], Arr(tags)), keys, values, 10);
  }

  method SuiteToJson(s: Suite) returns (json: Value)
    requires FitsInt64(|s.tests|)
    ensures json == SuiteJson(s)
  {
    assert |SuiteValues(s)| == |SUITE_KEYS|;
    hide Build, TestsJson, TestJson, SuiteValues;
    Everything(SUITE_KEYS, SuiteValues(s));
    var out := SuiteTexts(s);
    var list := TestsToJson(s.tests);
    out := SuiteTests(s, out, list);
    return Obj(out);
  }

  method SuiteTexts(s: Suite) returns (out: seq<Member>)
    requires FitsInt64(|s.tests|)
    ensures out == Build(SUITE_KEYS[..4], SuiteValues(s)[..4])
  {
    ghost var keys, values := SUITE_KEYS, SuiteValues(s);
    Nothing(keys, values);
    hide Build, TestsJson;
    out := SetField([], "suite", Some(Str(s.suite)), keys, values, 0);
    out := SetField(out, "requirement", Some(Str(s.requirement)), keys, values, 1);
    out := SetField(out, "source", Some(Str(s.source)), keys, values, 2);
    out := SetField(out, "model", When(s.model != "", Str(s.model)), keys, values, 3);
  }

  method SuiteTests(s: Suite, out: seq<Member>, list: seq<Value>) returns (r: seq<Member>)
    requires FitsInt64(|s.tests|) && list == TestsJson(s.tests) && out == Build(SUITE_KEYS[..4], SuiteValues(s)[..4])
    ensures r == Build(SUITE_KEYS[..6], SuiteValues(s)[..6])
  {
    ghost var keys, values := SUITE_KEYS, SuiteValues(s);
    hide Build, TestsJson;
    r := SetField(out, "tests", Some(Arr(list)), keys, values, 4);
    r := SetField(r, "test_count", Some(Integer(|s.tests|)), keys, values, 5);
  }

  method TestsToJson(tests: seq<TestSpec>) returns (items: seq<Value>)
    ensures items == TestsJson(tests)
  {
    hide TestJson;
    items := [];
    assert tests[0..] == tests;
    for i := 0 to |tests|
      invariant TestsJson(tests) == items + TestsJson(tests[i..])
    {
      assert tests[i..][1..] == tests[i + 1..];
      var item := TestToJson(tests[i]);
      items := items + [item];
    }
  }

  // ---- reading ---------------------------------------------------------------------------------

  /** What was read before, and the outcome of the rest. */
  function Joined<T>(front: seq<T>, rest: Option<seq<T>>): Option<seq<T>> {
    if rest.None? then None else Some(front + rest.value)
  }

  lemma JoinedSteps<T>(front: seq<T>, x: T, rest: Option<seq<T>>)
    ensures Joined(front, Joined([x], rest)) == Joined(front + [x], rest)
  {
    if rest.Some? {
      assert front + ([x] + rest.value) == (front + [x]) + rest.value;
    }
  }

  lemma JoinedEnd<T>(front: seq<T>)
    ensures Joined(front, Some([])) == Some(front)
  {
    assert front + [] == front;
  }

  lemma JoinedNone<T>(rest: Option<seq<T>>)
    ensures Joined([], rest) == rest
  {
    if rest.Some? {
      assert [] + rest.value == rest.value;
    }
  }

  lemma NextRead(items: seq<Value>, i: nat)
    requires i < |items|
    ensures AssertionsFromJson(items[i..]) ==
      if AssertionFromJson(items[i]).None? then None
      else Joined([AssertionFromJson(items[i]).value], AssertionsFromJson(items[i + 1..]))
  {
    hide AssertionFromJson;
    assert items[i..][1..] == items[i + 1..];
  }

  lemma NextTestRead(items: seq<Value>, i: nat, cast: Cast)
    requires i < |items|
    ensures TestsFromJson(items[i..], cast) ==
      if TestFromJson(items[i], cast).None? then None
      else Joined([TestFromJson(items[i], cast).value], TestsFromJson(items[i + 1..], cast))
  {
    hide TestFromJson;
    assert items[i..][1..] == items[i + 1..];
  }

  lemma NothingRead(cast: Cast)
    ensures AssertionsFromJson([]) == Some([]) && TestsFromJson([], cast) == Some([])
  {
  }

  method ReadAssertions(items: seq<Value>, ghost cast: Cast) returns (r: Option<seq<Assertion>>)
    ensures r == AssertionsFromJson(items)
  {
    NothingRead(cast);
    hide AssertionFromJson, AssertionsFromJson, Joined;
    var out: seq<Assertion> := [];
    assert items[0..] == items;
    JoinedNone(AssertionsFromJson(items));
    for i := 0 to |items|
      invariant AssertionsFromJson(items) == Joined(out, AssertionsFromJson(items[i..]))
    {
      NextRead(items, i);
      var a := AssertionFromJson(items[i]);
      if a.None? {
        NeverJoined(out);
        return None;
      }
      JoinedSteps(out, a.value, AssertionsFromJson(items[i + 1..]));
      out := out + [a.value];
    }
    assert items[|items|..] == [];
    JoinedEnd(out);
    return Some(out);
  }

  lemma NeverJoined<T>(front: seq<T>)
    ensures Joined(front, None) == None
  {
  }

  method ReadStrings(items: seq<Value>) returns (out: seq<string>)
    ensures out == StringsFromJson(items)
  {
    out := [];
    assert items[0..] == items;
    for i := 0 to |items|
      invariant StringsFromJson(items) == out + StringsFromJson(items[i..])
    {
      assert items[i..][1..] == items[i + 1..];
      if items[i].Str? {
        out := out + [items[i].s];
      }
    }
  }

  method ReadInts(items: seq<Value>, cast: Cast) returns (out: seq<Int32>)
    ensures out == IntsFromJson(items, cast)
  {
    out := [];
    assert items[0..] == items;
    for i := 0 to |items|
      invariant IntsFromJson(items, cast) == out + IntsFromJson(items[i..], cast)
    {
      assert items[i..][1..] == items[i + 1..];
      if IsNumber(items[i]) {
        out := out + [ToInt32(AsInt(items[i], cast))];
      }
    }
  }

  method ReadTest(v: Value, cast: Cast) returns (spec: Option<TestSpec>)
    ensures spec == TestFromJson(v, cast)
  {
    hide ReadString, ReadEndpoint, ReadBody, ReadStatus, ReadBudget, ReadHeaders, ItemsAt, IntsFromJson,
      StringsFromJson,
         AssertionsFromJson, Trim, Upper;
    if !v.Obj? {
      return None;
    }
    var name := Trim(ReadString(v, "name", ""));
    if name == "" {
      return None;
    }
    var endpoint := ReadEndpoint(v);
    if endpoint == "" {
      return None;
    }
    var statuses := ReadInts(ItemsAt(v, "acceptable_statuses"), cast);
    var assertions := ReadAssertions(ItemsAt(v, "assertions"), cast);
    if assertions.None? {
      return None;
    }
    var tags := ReadStrings(ItemsAt(v, "tags"));
    return Some(TestSpec(
      name, ReadString(v, "description", ""), Upper(Trim(ReadString(v, "method", "GET"))), endpoint, ReadHeaders(v),
      ReadBody(v), ReadStatus(v, cast), statuses, ReadBudget(v, cast), assertions.value, tags));
  }

  method ReadTests(items: seq<Value>, cast: Cast) returns (r: Option<seq<TestSpec>>)
    ensures r == TestsFromJson(items, cast)
  {
    NothingRead(cast);
    hide TestFromJson, TestsFromJson, Joined;
    var out: seq<TestSpec> := [];
    assert items[0..] == items;
    JoinedNone(TestsFromJson(items, cast));
    for i := 0 to |items|
      invariant TestsFromJson(items, cast) == Joined(out, TestsFromJson(items[i..], cast))
    {
      NextTestRead(items, i, cast);
      var t := ReadTest(items[i], cast);
      if t.None? {
        NeverJoined(out);
        return None;
      }
      JoinedSteps(out, t.value, TestsFromJson(items[i + 1..], cast));
      out := out + [t.value];
    }
    assert items[|items|..] == [];
    JoinedEnd(out);
    return Some(out);
  }

  method ReadSuite(v: Value, cast: Cast) returns (suite: Option<Suite>)
    ensures suite == SuiteFromJson(v, cast)
  {
    hide ReadString, ItemsAt, TestsFromJson, Trim;
    if !v.Obj? {
      return None;
    }
    var name := Trim(ReadString(v, "suite", ""));
    if name == "" || ItemsAt(v, "tests") == [] {
      return None;
    }
    var tests := ReadTests(ItemsAt(v, "tests"), cast);
    if tests.None? {
      return None;
    }
    return Some(Suite(name, ReadString(v, "requirement", ""), ReadString(v, "source", ""), ReadString(v, "model", ""),
                      tests.value));
  }

  /** TestSpecSuite::parse. */
  method Parse(text: string, cast: Cast) returns (suite: Option<Suite>)
    ensures suite == ParseSuite(text, cast)
  {
    hide SuiteFromJson;
    var document := JsonParser.TryParse(text, SPEC_LIMITS);
    if document.None? {
      return None;
    }
    suite := ReadSuite(document.value, cast);
  }
}
