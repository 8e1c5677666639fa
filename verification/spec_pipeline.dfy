/**
 A test suite through the whole pipeline of src/ai/TestSpec.cpp and
 src/core/Json.cpp: to JSON, to text, and back.
 */
module SpecPipeline {
  import opened Text
  import opened JsonValue
  import JP = JsonParse
  import G = JsonGrammar
  import opened JsonPrint
  import opened JsonRoundTrip
  import opened SpecJson

  /** The free-form parts of a test hold only what JSON text can carry. */
  predicate PlainTest(t: TestSpec) {
    && (forall i :: 0 <= i < |t.headers| ==> Canonical(t.headers[i].value))
    && Canonical(t.body)
    && forall i :: 0 <= i < |t.assertions| ==> Canonical(t.assertions[i].expected)
  }

  predicate PlainSuite(s: Suite) { forall i :: 0 <= i < |s.tests| ==> PlainTest(s.tests[i]) }

  // ---- plain suites have canonical JSON -------------------------------------------

  predicate AllCanonical(values: seq<Option<Value>>) {
    forall i :: 0 <= i < |values| ==> values[i].Some? ==> Canonical(values[i].value)
  }

  lemma {:induction false} BuildCanonical(keys: seq<string>, values: seq<Option<Value>>)
    requires |keys| == |values| && AllCanonical(values)
    ensures Canonical(Obj(Build(keys, values)))
  {
    if keys != [] {
      BuildCanonical(keys[..|keys| - 1], values[..|keys| - 1]);
    }
  }

  lemma {:induction false} HeadersCanonical(headers: seq<Member>)
    requires forall i :: 0 <= i < |headers| ==> Canonical(headers[i].value)
    ensures Canonical(Obj(HeadersJson(headers)))
  {
    if headers != [] {
      HeadersCanonical(headers[..|headers| - 1]);
    }
  }

  lemma {:induction false} AssertionsCanonical(s: seq<Assertion>)
    requires forall i :: 0 <= i < |s| ==> Canonical(s[i].expected)
    ensures Canonical(Arr(AssertionsJson(s)))
  {
    if s != [] {
      BuildCanonical(ASSERTION_KEYS, AssertionValues(s[0]));
      AssertionsCanonical(s[1..]);
    }
  }

  lemma {:induction false} StringsCanonical(s: seq<string>)
    ensures Canonical(Arr(StringsJson(s)))
  {
    if s != [] {
      StringsCanonical(s[1..]);
    }
  }

  lemma {:induction false} IntsCanonical(s: seq<Int32>)
    ensures Canonical(Arr(IntsJson(s)))
  {
    if s != [] {
      IntsCanonical(s[1..]);
    }
  }

  lemma TestCanonical(t: TestSpec)
    requires PlainTest(t)
    ensures Canonical(TestJson(t))
  {
    HeadersCanonical(t.headers);
    AssertionsCanonical(t.assertions);
    StringsCanonical(t.tags);
    IntsCanonical(t.acceptableStatuses);
    assert AllCanonical(TestValues(t)) by {
      hide HeadersJson, AssertionsJson, StringsJson, IntsJson;
    }
    hide TestValues, Build, AllCanonical;
    BuildCanonical(TEST_KEYS, TestValues(t));
  }

  lemma {:induction false} TestsCanonical(ts: seq<TestSpec>)
    requires forall i :: 0 <= i < |ts| ==> PlainTest(ts[i])
    ensures Canonical(Arr(TestsJson(ts)))
  {
    hide PlainTest, TestJson;
    if ts != [] {
      TestCanonical(ts[0]);
      TestsCanonical(ts[1..]);
    }
  }

  lemma SuiteCanonical(s: Suite)
    requires PlainSuite(s) && FitsInt64(|s.tests|)
    ensures Canonical(SuiteJson(s))
  {
    TestsCanonical(s.tests);
    hide TestsJson, Build, PlainTest;
    BuildCanonical(SUITE_KEYS, SuiteValues(s));
  }

  // ---- what is read from canonical JSON is plain ------------------------------------

  lemma LookupCanonical(v: Value, key: string)
    requires Canonical(v) && Lookup(v, key).Some?
    ensures Canonical(Lookup(v, key).value)
  {
  }

  lemma {:induction false} AssertionsArePlain(items: seq<Value>)
    requires Canonical(Arr(items)) && AssertionsFromJson(items).Some?
    ensures forall i :: 0 <= i < |AssertionsFromJson(items).value| ==>
      Canonical(AssertionsFromJson(items).value[i].expected)
  {
    hide KindFromString, Lookup, ReadString;
    if items != [] {
      assert Canonical(Arr(items[1..]));
      AssertionsArePlain(items[1..]);
      if Lookup(items[0], "expected").Some? {
        LookupCanonical(items[0], "expected");
      }
    }
  }

  lemma ItemsCanonical(v: Value, key: string)
    requires Canonical(v)
    ensures Canonical(Arr(ItemsAt(v, key)))
  {
    if Lookup(v, key).Some? {
      LookupCanonical(v, key);
    }
  }

  lemma TestIsPlain(v: Value, cast: Cast)
    requires Canonical(v) && TestFromJson(v, cast).Some?
    ensures PlainTest(TestFromJson(v, cast).value)
  {
    hide ReadString, ReadEndpoint, ReadStatus, ReadBudget, ItemsAt, Lookup, AssertionsFromJson, Trim, Upper,
         IntsFromJson, StringsFromJson;
    ItemsCanonical(v, "assertions");
    AssertionsArePlain(ItemsAt(v, "assertions"));
    if Lookup(v, "headers").Some? {
      LookupCanonical(v, "headers");
    }
    if Lookup(v, "body").Some? {
      LookupCanonical(v, "body");
    }
  }

  lemma {:induction false} TestsArePlain(items: seq<Value>, cast: Cast)
    requires Canonical(Arr(items)) && TestsFromJson(items, cast).Some?
    ensures forall i :: 0 <= i < |TestsFromJson(items, cast).value| ==> PlainTest(TestsFromJson(items, cast).value[i])
  {
    hide TestFromJson, PlainTest;
    if items != [] {
      TestIsPlain(items[0], cast);
      assert Canonical(Arr(items[1..]));
      TestsArePlain(items[1..], cast);
    }
  }

  lemma SuiteIsPlain(v: Value, cast: Cast)
    requires Canonical(v) && SuiteFromJson(v, cast).Some?
    ensures PlainSuite(SuiteFromJson(v, cast).value)
  {
    hide TestsFromJson, PlainTest, ItemsAt, ReadString, Trim;
    ItemsCanonical(v, "tests");
    TestsArePlain(ItemsAt(v, "tests"), cast);
  }

  // ---- depth ---------------------------------------------------------------------------

  lemma {:induction false} DeeperValue(v: Value, low: int, high: int)
    requires FitsDepth(v, low) && low <= high
    ensures FitsDepth(v, high)
  {
    match v
    case Arr(items) =>
      forall i | 0 <= i < |items|
        ensures FitsDepth(items[i], high - 1)
      {
        DeeperValue(items[i], low - 1, high - 1);
      }
    case Obj(members) =>
      forall i | 0 <= i < |members|
        ensures FitsDepth(members[i].value, high - 1)
      {
        DeeperValue(members[i].value, low - 1, high - 1);
      }
    case _ =>
  }

  /** Every value fits some depth. */
  lemma {:induction false} SomeDepth(v: Value) returns (room: nat)
    ensures FitsDepth(v, room)
    decreases v, 1
  {
    room := 0;
    if v.Arr? {
      var r := SomeDepthOfItems(v.items);
      room := r + 1;
    } else if v.Obj? {
      var r := SomeDepthOfMembers(v.members);
      room := r + 1;
    }
  }

  lemma {:induction false} SomeDepthOfItems(items: seq<Value>) returns (room: nat)
    ensures forall i :: 0 <= i < |items| ==> FitsDepth(items[i], room)
    decreases items, 0
  {
    room := 0;
    if items != [] {
      var a := SomeDepth(items[0]);
      var b := SomeDepthOfItems(items[1..]);
      room := a + b;
      forall i | 0 <= i < |items|
        ensures FitsDepth(items[i], room)
      {
        DeeperValue(items[i], if i == 0 then a else b, room);
      }
    }
  }

  lemma {:induction false} SomeDepthOfMembers(members: seq<Member>) returns (room: nat)
    ensures forall i :: 0 <= i < |members| ==> FitsDepth(members[i].value, room)
    decreases members, 0
  {
    room := 0;
    if members != [] {
      var a := SomeDepth(members[0].value);
      var b := SomeDepthOfMembers(members[1..]);
      room := a + b;
      forall i | 0 <= i < |members|
        ensures FitsDepth(members[i].value, room)
      {
        DeeperValue(members[i].value, if i == 0 then a else b, room);
      }
    }
  }

  /** If the printed text parses at all, it parses to the normal form of what was printed. */
  lemma PrintedTextMeans(v: Value, indent: int, maxDepth: nat)
    requires JP.ParseDocument(DumpText(v, indent), maxDepth).Some?
    ensures JP.ParseDocument(DumpText(v, indent), maxDepth) == Some(Normal(v))
  {
    hide *;
    var room := SomeDepth(v);
    DeeperValue(v, room, room + maxDepth);
    PrintedTextParses(v, indent, room + maxDepth);
    G.LimitOnlyRejects(DumpText(v, indent), maxDepth, room + maxDepth);
  }

  // ---- the whole pipeline -----------------------------------------------------------------

  /**
   TestSpecSuite::parse(s.toJson().dump(indent)) is s for exactly the suites that
   are stable (non-empty, trimmed names and endpoints, upper-case methods, distinct
   header keys, no negative budget, required targets present), hold only values
   that JSON can carry, and keep within depth 24 and 2 MiB.
   */
  lemma PipelineExact(s: Suite, indent: int, cast: Cast)
    requires FitsInt64(|s.tests|)
    ensures var text := DumpText(SuiteJson(s), indent);
      ParseSuite(text, cast) == Some(s)
      <==> StableSuite(s) && PlainSuite(s) && FitsDepth(SuiteJson(s), 24) && |text| <= 2 * 1024 * 1024
  {
    hide StableSuite, PlainSuite, SuiteJson, DumpText, SuiteFromJson, Canonical, Normal, JP.ParseDocument, FitsDepth;
    var v := SuiteJson(s);
    var text := DumpText(v, indent);
    SuiteRoundTrip(s, cast);
    if StableSuite(s) && PlainSuite(s) && FitsDepth(v, 24) && |text| <= 2 * 1024 * 1024 {
      SuiteCanonical(s);
      CanonicalIsNormal(v);
      PrintedTextParses(v, indent, 24);
    }
    if ParseSuite(text, cast) == Some(s) {
      PrintedTextMeans(v, indent, 24);
      ParsedFits(text, 24);
      NormalIsCanonical(v);
      SuiteIsPlain(Normal(v), cast);
      SuiteCanonical(s);
      CanonicalIsNormal(v);
    }
  }
}
