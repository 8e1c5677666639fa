/**
 The gate between generated specifications and execution
 (src/ai/SpecValidator.cpp).
 */
module SpecGate {
  import opened Text
  import JV = JsonValue
  import JsonPrint
  import opened SpecJson
  import U = Url
  import UJ = UrlJoin
  import UP = UrlPolicy

  const MAX_NAME_LENGTH: nat := 80
  const MAX_ENDPOINT_LENGTH: nat := 512
  const MAX_HEADER_COUNT: nat := 16
  const MAX_HEADER_VALUE_LENGTH: nat := 1024
  const MAX_BODY_BYTES: nat := 64 * 1024
  const MAX_ASSERTIONS: nat := 20
  const MAX_TARGET_LENGTH: nat := 200

  const METHODS: seq<string> := ["GET", "POST", "PUT", "PATCH", "DELETE", "HEAD", "OPTIONS"]

  const FORBIDDEN_HEADERS: seq<string> := [
    "authorization", "cookie", "set-cookie", "proxy-authorization", "host", "x-forwarded-for", "x-forwarded-host",
    "x-real-ip", "content-length", "transfer-encoding", "connection", "upgrade"]

  const SCHEMES: seq<string> := ["http:", "https:", "file:", "ftp:", "gopher:", "data:", "javascript:"]

  // ---- names and endpoints -----------------------------------------------------------

  predicate IsControl(c: char) { c < ' ' || c == '\U{7F}' }

  predicate HasControl(s: string) { exists i :: 0 <= i < |s| && IsControl(s[i]) }

  predicate NameChar(c: char) { IsAlnum(c) || c == '_' || c == '-' || c == '.' }

  predicate SafeName(name: string) {
    && 0 < |name| <= MAX_NAME_LENGTH
    && (forall i :: 0 <= i < |name| ==> NameChar(name[i]))
    && name[0] != '.' && !Contains(name, "..")
  }

  predicate NamesScheme(lowered: string) { exists i :: 0 <= i < |SCHEMES| && Contains(lowered, SCHEMES[i]) }

  predicate SafeEndpoint(endpoint: string) {
    && 0 < |endpoint| <= MAX_ENDPOINT_LENGTH
    && !HasControl(endpoint)
    && endpoint[0] == '/' && !("//" <= endpoint)
    && !Contains(endpoint, "..")
    && !NamesScheme(Lower(endpoint))
    && !Contains(endpoint, "@")
  }

  /** The endpoint resolves against the base URL to a URL the policy accepts. */
  predicate Permitted(policy: UP.Policy, base: string, endpoint: string) {
    var resolved := UJ.Join(base, endpoint);
    resolved.Some? && U.Parse(resolved.value).Some? && UP.Accepts(policy, U.Parse(resolved.value).value)
  }

  // ---- one test ---------------------------------------------------------------------------

  datatype Problem =
    | BadName | BadMethod | BadEndpoint | NotPermitted | BadStatus | BadBudget | TooManyHeaders | ForbiddenHeader
    | ControlInHeader | LongHeader | LongBody | PointlessBody | TooManyAssertions | BadTarget | BadExpectation
    | DuplicateName | BadSuiteName | TooManyTests | NoTests

  /** Only two findings are warnings. */
  predicate Fatal(p: Problem) { p != PointlessBody && p != TooManyTests }

  predicate AnyFatal(issues: seq<Problem>) { exists i :: 0 <= i < |issues| && Fatal(issues[i]) }

  function Finding<T>(c: bool, p: T): seq<T> { if c then [p] else [] }

  predicate StatusOk(status: int) { 100 <= status <= 599 }

  function HeaderProblems(h: JV.Member): seq<Problem> {
    Finding(Lower(h.key) in FORBIDDEN_HEADERS, ForbiddenHeader)
    + Finding(HasControl(h.key), ControlInHeader)
    + if h.value.Str?
      then Finding(HasControl(h.value.s), ControlInHeader) + Finding(|h.value.s| > MAX_HEADER_VALUE_LENGTH, LongHeader)
      else []
  }

  function AssertionProblems(a: Assertion, cast: Cast): seq<Problem> {
    Finding(HasControl(a.target), BadTarget)
    + Finding(|a.target| > MAX_TARGET_LENGTH, BadTarget)
    + Finding(a.kind == ResponseTimeUnder && (!IsNumber(a.expected) || AsInt(a.expected, cast) <= 0), BadExpectation)
    + Finding(a.kind == StatusCodeIn && !a.expected.Arr?, BadExpectation)
  }

  function AllHeaderProblems(hs: seq<JV.Member>): seq<Problem> {
    if hs == [] then [] else AllHeaderProblems(hs[..|hs| - 1]) + HeaderProblems(hs[|hs| - 1])
  }

  function AllAssertionProblems(s: seq<Assertion>, cast: Cast): seq<Problem> {
    if s == [] then [] else AllAssertionProblems(s[..|s| - 1], cast) + AssertionProblems(s[|s| - 1], cast)
  }

  function StatusProblems(s: seq<Int32>): seq<Problem> {
    if s == [] then [] else StatusProblems(s[..|s| - 1]) + Finding(!StatusOk(s[|s| - 1]), BadStatus)
  }

  function BodyProblems(spec: TestSpec): seq<Problem> {
    if spec.body == JV.Null then []
    else Finding(|JsonPrint.DumpText(spec.body, -1)| > MAX_BODY_BYTES, LongBody)
         + Finding(spec.verb == "GET" || spec.verb == "HEAD", PointlessBody)
  }

  function EndpointProblems(spec: TestSpec, policy: UP.Policy, base: string): seq<Problem> {
    if !SafeEndpoint(spec.endpoint) then [BadEndpoint]
      else Finding(!Permitted(policy, base, spec.endpoint), NotPermitted)
  }

  /** What the gate is configured with; `limit` is ai.max_generated_tests. */
  datatype Gate = Gate(policy: UP.Policy, base: string, limit: int, cast: Cast)

  function IdentityProblems(spec: TestSpec, g: Gate): seq<Problem> {
    Finding(!SafeName(spec.name), BadName)
    + Finding(spec.verb !in METHODS, BadMethod)
    + EndpointProblems(spec, g.policy, g.base)
  }

  function NumberProblems(spec: TestSpec): seq<Problem> {
    Finding(!StatusOk(spec.expectedStatus), BadStatus)
    + StatusProblems(spec.acceptableStatuses)
    + Finding(spec.maxResponseTimeMs < 0 || spec.maxResponseTimeMs > 600_000, BadBudget)
  }

  /** validateOne, finding by finding. */
  function Problems(spec: TestSpec, g: Gate): seq<Problem> {
    IdentityProblems(spec, g)
    + NumberProblems(spec)
    + (Finding(|spec.headers| > MAX_HEADER_COUNT, TooManyHeaders) + AllHeaderProblems(spec.headers))
    + BodyProblems(spec)
    + (Finding(|spec.assertions| > MAX_ASSERTIONS, TooManyAssertions) + AllAssertionProblems(spec.assertions, g.cast))
  }

  // ---- when a test is acceptable ------------------------------------------------------------

  predicate HeaderOk(h: JV.Member) {
    && Lower(h.key) !in FORBIDDEN_HEADERS && !HasControl(h.key)
    && (h.value.Str? ==> !HasControl(h.value.s) && |h.value.s| <= MAX_HEADER_VALUE_LENGTH)
  }

  predicate AssertionOk(a: Assertion, cast: Cast) {
    && !HasControl(a.target) && |a.target| <= MAX_TARGET_LENGTH
    && (a.kind == ResponseTimeUnder ==> IsNumber(a.expected) && AsInt(a.expected, cast) > 0)
    && (a.kind == StatusCodeIn ==> a.expected.Arr?)
  }

  /** The rules for the test itself; a body on GET or HEAD is not among them. */
  predicate MeetsRules(spec: TestSpec, cast: Cast) {
    && SafeName(spec.name)
    && spec.verb in METHODS
    && SafeEndpoint(spec.endpoint)
    && StatusOk(spec.expectedStatus)
    && (forall i :: 0 <= i < |spec.acceptableStatuses| ==> StatusOk(spec.acceptableStatuses[i]))
    && 0 <= spec.maxResponseTimeMs <= 600_000
    && |spec.headers| <= MAX_HEADER_COUNT
    && (forall i :: 0 <= i < |spec.headers| ==> HeaderOk(spec.headers[i]))
    && (spec.body != JV.Null ==> |JsonPrint.DumpText(spec.body, -1)| <= MAX_BODY_BYTES)
    && |spec.assertions| <= MAX_ASSERTIONS
    && (forall i :: 0 <= i < |spec.assertions| ==> AssertionOk(spec.assertions[i], cast))
  }

  /** A test that meets them and whose endpoint resolves to a permitted URL. */
  predicate Acceptable(spec: TestSpec, g: Gate) {
    MeetsRules(spec, g.cast) && Permitted(g.policy, g.base, spec.endpoint)
  }

  lemma FatalInEither(a: seq<Problem>, b: seq<Problem>)
    ensures AnyFatal(a + b) <==> AnyFatal(a) || AnyFatal(b)
  {
    if AnyFatal(a) {
      var i :| 0 <= i < |a| && Fatal(a[i]);
      assert (a + b)[i] == a[i];
    }
    if AnyFatal(b) {
      var i :| 0 <= i < |b| && Fatal(b[i]);
      assert (a + b)[|a| + i] == b[i];
    }
  }

  lemma FatalWhen(c: bool, p: Problem)
    ensures AnyFatal(Finding(c, p)) <==> c && Fatal(p)
    ensures !AnyFatal([])
  {
    if c {
      assert Finding(c, p)[0] == p;
    }
  }

  lemma HeaderProblemsExact(h: JV.Member)
    ensures AnyFatal(HeaderProblems(h)) <==> !HeaderOk(h)
  {
    hide AnyFatal, Finding, HasControl, Lower;
    FatalWhen(Lower(h.key) in FORBIDDEN_HEADERS, ForbiddenHeader);
    FatalWhen(HasControl(h.key), ControlInHeader);
    hide FORBIDDEN_HEADERS;
    var a := Finding(Lower(h.key) in FORBIDDEN_HEADERS, ForbiddenHeader);
    var b := Finding(HasControl(h.key), ControlInHeader);
    FatalInEither(a, b);
    if h.value.Str? {
      var c := Finding(HasControl(h.value.s), ControlInHeader);
      var d := Finding(|h.value.s| > MAX_HEADER_VALUE_LENGTH, LongHeader);
      FatalWhen(HasControl(h.value.s), ControlInHeader);
      FatalWhen(|h.value.s| > MAX_HEADER_VALUE_LENGTH, LongHeader);
      FatalInEither(c, d);
      FatalInEither(a + b, c + d);
    } else {
      FatalInEither(a + b, []);
    }
  }

  lemma {:induction false} AllHeaderProblemsExact(hs: seq<JV.Member>)
    ensures AnyFatal(AllHeaderProblems(hs)) <==> exists i :: 0 <= i < |hs| && !HeaderOk(hs[i])
  {
    hide HeaderProblems, HeaderOk, Fatal;
    if hs != [] {
      var front, last := hs[..|hs| - 1], hs[|hs| - 1];
      AllHeaderProblemsExact(front);
      HeaderProblemsExact(last);
      FatalInEither(AllHeaderProblems(front), HeaderProblems(last));
      hide AnyFatal;
      assert forall i :: 0 <= i < |front| ==> hs[i] == front[i];
    }
  }

  lemma AssertionProblemsExact(a: Assertion, cast: Cast)
    ensures AnyFatal(AssertionProblems(a, cast)) <==> !AssertionOk(a, cast)
  {
    hide AnyFatal, Finding, HasControl;
    var c1, c2 := HasControl(a.target), |a.target| > MAX_TARGET_LENGTH;
    var c3 := a.kind == ResponseTimeUnder && (!IsNumber(a.expected) || AsInt(a.expected, cast) <= 0);
    var c4 := a.kind == StatusCodeIn && !a.expected.Arr?;
    FatalWhen(c1, BadTarget);
    FatalWhen(c2, BadTarget);
    FatalWhen(c3, BadExpectation);
    FatalWhen(c4, BadExpectation);
    FatalInEither(Finding(c1, BadTarget), Finding(c2, BadTarget));
    FatalInEither(Finding(c1, BadTarget) + Finding(c2, BadTarget), Finding(c3, BadExpectation));
    FatalInEither(Finding(c1, BadTarget) + Finding(c2, BadTarget) + Finding(c3, BadExpectation),
      Finding(c4, BadExpectation));
  }

  lemma {:induction false} AllAssertionProblemsExact(s: seq<Assertion>, cast: Cast)
    ensures AnyFatal(AllAssertionProblems(s, cast)) <==> exists i :: 0 <= i < |s| && !AssertionOk(s[i], cast)
  {
    hide AssertionProblems, AssertionOk, Fatal;
    if s != [] {
      var front, last := s[..|s| - 1], s[|s| - 1];
      AllAssertionProblemsExact(front, cast);
      AssertionProblemsExact(last, cast);
      FatalInEither(AllAssertionProblems(front, cast), AssertionProblems(last, cast));
      hide AnyFatal;
      assert forall i :: 0 <= i < |front| ==> s[i] == front[i];
    }
  }

  lemma {:induction false} StatusProblemsExact(s: seq<Int32>)
    ensures AnyFatal(StatusProblems(s)) <==> exists i :: 0 <= i < |s| && !StatusOk(s[i])
  {
    hide StatusOk;
    if s != [] {
      var front, last := s[..|s| - 1], s[|s| - 1];
      StatusProblemsExact(front);
      FatalWhen(!StatusOk(last), BadStatus);
      FatalInEither(StatusProblems(front), Finding(!StatusOk(last), BadStatus));
      hide AnyFatal;
      assert forall i :: 0 <= i < |front| ==> s[i] == front[i];
    }
  }

  lemma IdentityExact(spec: TestSpec, g: Gate)
    ensures AnyFatal(IdentityProblems(spec, g)) <==>
      !(SafeName(spec.name) && spec.verb in METHODS
        && SafeEndpoint(spec.endpoint) && Permitted(g.policy, g.base, spec.endpoint))
  {
    hide AnyFatal, SafeName, SafeEndpoint, Permitted, METHODS, Finding;
    var a, b := Finding(!SafeName(spec.name), BadName), Finding(spec.verb !in METHODS, BadMethod);
    FatalWhen(!SafeName(spec.name), BadName);
    FatalWhen(spec.verb !in METHODS, BadMethod);
    FatalWhen(!Permitted(g.policy, g.base, spec.endpoint), NotPermitted);
    OneFatal(BadEndpoint);
    FatalInEither(a, b);
    FatalInEither(a + b, EndpointProblems(spec, g.policy, g.base));
  }

  lemma OneFatal(p: Problem)
    ensures AnyFatal([p]) <==> Fatal(p)
  {
    assert [p][0] == p;
  }

  lemma NumberExact(spec: TestSpec)
    ensures AnyFatal(NumberProblems(spec)) <==>
      !(StatusOk(spec.expectedStatus)
        && (forall i :: 0 <= i < |spec.acceptableStatuses| ==> StatusOk(spec.acceptableStatuses[i]))
        && 0 <= spec.maxResponseTimeMs <= 600_000)
  {
    hide AnyFatal, StatusOk, Finding, StatusProblems;
    var late := spec.maxResponseTimeMs < 0 || spec.maxResponseTimeMs > 600_000;
    var a, b := Finding(!StatusOk(spec.expectedStatus), BadStatus), StatusProblems(spec.acceptableStatuses);
    FatalWhen(!StatusOk(spec.expectedStatus), BadStatus);
    FatalWhen(late, BadBudget);
    StatusProblemsExact(spec.acceptableStatuses);
    FatalInEither(a, b);
    FatalInEither(a + b, Finding(late, BadBudget));
  }

  lemma BodyExact(spec: TestSpec)
    ensures AnyFatal(BodyProblems(spec)) <==>
      spec.body != JV.Null && |JsonPrint.DumpText(spec.body, -1)| > MAX_BODY_BYTES
  {
    hide AnyFatal, Finding, JsonPrint.DumpText;
    var long := |JsonPrint.DumpText(spec.body, -1)| > MAX_BODY_BYTES;
    FatalWhen(long, LongBody);
    FatalWhen(spec.verb == "GET" || spec.verb == "HEAD", PointlessBody);
    FatalInEither(Finding(long, LongBody), Finding(spec.verb == "GET" || spec.verb == "HEAD", PointlessBody));
  }

  /** A test draws a fatal finding exactly when it breaks one of the rules. */
  lemma ProblemsExact(spec: TestSpec, g: Gate)
    ensures AnyFatal(Problems(spec, g)) <==> !Acceptable(spec, g)
  {
    hide AnyFatal, Finding, AllHeaderProblems, AllAssertionProblems, BodyProblems, IdentityProblems, NumberProblems,
         SafeName, SafeEndpoint, Permitted, METHODS, HeaderOk, AssertionOk, StatusOk, JsonPrint.DumpText;
    var a, b := IdentityProblems(spec, g), NumberProblems(spec);
    var c1, c2 := Finding(|spec.headers| > MAX_HEADER_COUNT, TooManyHeaders), AllHeaderProblems(spec.headers);
    var d := BodyProblems(spec);
    var e1 := Finding(|spec.assertions| > MAX_ASSERTIONS, TooManyAssertions);
    var e2 := AllAssertionProblems(spec.assertions, g.cast);
    IdentityExact(spec, g);
    NumberExact(spec);
    FatalWhen(|spec.headers| > MAX_HEADER_COUNT, TooManyHeaders);
    AllHeaderProblemsExact(spec.headers);
    BodyExact(spec);
    FatalWhen(|spec.assertions| > MAX_ASSERTIONS, TooManyAssertions);
    AllAssertionProblemsExact(spec.assertions, g.cast);
    FatalInEither(c1, c2);
    FatalInEither(e1, e2);
    FatalInEither(a, b);
    FatalInEither(a + b, c1 + c2);
    FatalInEither(a + b + (c1 + c2), d);
    FatalInEither(a + b + (c1 + c2) + d, e1 + e2);
  }
}
