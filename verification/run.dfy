/**
 A whole run (TestRunner::run in src/execution/TestRunner.cpp) with its retries and
 fail-fast, and the exit code (TestRun::exitCode in src/core/TestResult.cpp).

 Tests run on any number of workers: the steps of different tests interleave in
 any way.  What runOne answers for an attempt is arbitrary.
 */
module TestRun {
  import opened Text
  import opened Classifier
  import opened Order

  // ---- the attempts at one test ---------------------------------------------------------

  datatype Attempt = Attempt(status: Status, category: Category)

  datatype Options = Options(retryFailed: int, failFast: bool)

  function MaxAttempts(o: Options): (r: nat)
    ensures r >= 1
  {
    1 + if o.retryFailed > 0 then o.retryFailed else 0
  }

  /** Every attempt but the last failed in a way worth retrying, and the last one ends the series. */
  ghost predicate ValidLog(log: seq<Attempt>, o: Options) {
    && 1 <= |log| <= MaxAttempts(o)
    && (forall j :: 0 <= j < |log| - 1 ==> IsFailure(log[j].status) && IsRetryable(log[j].category))
    && (!IsFailure(log[|log| - 1].status) || |log| == MaxAttempts(o) || !IsRetryable(log[|log| - 1].category))
  }

  /** What executeWithRetries sets flakyCandidate to. */
  predicate FlakyFlag(log: seq<Attempt>)
    requires log != []
  {
    |log| > 1 && !IsFailure(log[|log| - 1].status)
  }

  /** What the flag is meant to say: the test passed, and only after a retry. */
  predicate PassedAfterRetry(log: seq<Attempt>)
    requires log != []
  {
    |log| > 1 && log[|log| - 1].status == Passed && forall j :: 0 <= j < |log| - 1 ==> IsFailure(log[j].status)
  }

  /**
   executeWithRetries, with the answers that runOne would give to each attempt.  It
   makes exactly the attempts of a valid log.
   */
  method ExecuteWithRetries(answers: seq<Attempt>, o: Options) returns (result: Attempt, attempts: nat, flaky: bool)
    requires |answers| >= MaxAttempts(o)
    ensures 1 <= attempts <= |answers| && ValidLog(answers[..attempts], o)
    ensures result == answers[attempts - 1]
    ensures flaky == FlakyFlag(answers[..attempts])
  {
    var maxAttempts := MaxAttempts(o);
    flaky := false;
    attempts := 0;
    result := answers[0];
    while attempts < maxAttempts
      invariant attempts <= maxAttempts && !flaky
      invariant forall j :: 0 <= j < attempts ==> IsFailure(answers[j].status)
      invariant forall j :: 0 <= j < attempts && j < maxAttempts - 1 ==> IsRetryable(answers[j].category)
      invariant attempts > 0 ==> result == answers[attempts - 1]
    {
      attempts := attempts + 1;
      result := answers[attempts - 1];
      if !IsFailure(result.status) {
        flaky := attempts > 1;
        break;
      }
      if attempts < maxAttempts && !IsRetryable(result.category) {
        break;
      }
    }
  }

  /** The answers determine how many attempts are made. */
  lemma OneValidLog(answers: seq<Attempt>, o: Options, m: nat, n: nat)
    requires m <= n <= |answers| && ValidLog(answers[..m], o) && ValidLog(answers[..n], o)
    ensures m == n
  {
    assert forall j :: 0 <= j < m ==> answers[..n][j] == answers[..m][j];
  }

  // ---- the run -----------------------------------------------------------------------------

  /** `test` is the position among the selected tests. */
  datatype Result = Result(test: nat, name: string, final: Attempt)

  datatype Phase = Waiting | Taken | Ran(log: seq<Attempt>) | Recorded | Stopping | Done | Dropped

  datatype State = State(
    names: seq<string>, options: Options, phases: seq<Phase>, results: seq<Result>,
    stopScheduling: bool, cancelled: bool, reason: string)

  datatype Step =
    | Take(test: nat)                            // or drop it, when scheduling has stopped
    | Execute(test: nat, log: seq<Attempt>)
    | Record(test: nat)                          // the result is added under the mutex
    | Stop(test: nat)                            // a failure under fail-fast: no more tests
    | CancelRun(test: nat)                       // and then cancel those that are running
    | Settle(test: nat)                          // nothing more to do for this result
    | External(why: string)                      // requestCancellation

  function ResultOf(s: State, i: nat): Result
    requires i < |s.names| && i < |s.phases| && s.phases[i].Ran? && s.phases[i].log != []
  {
    Result(i, s.names[i], s.phases[i].log[|s.phases[i].log| - 1])
  }

  /** The result recorded for test `i` calls for stopping. */
  predicate StopsRun(s: State, i: nat) {
    && s.options.failFast
    && exists k :: 0 <= k < |s.results| && s.results[k].test == i && IsFailure(s.results[k].final.status)
  }

  ghost predicate Enabled(s: State, step: Step) {
    match step
    case Take(i) => i < |s.phases| && s.phases[i] == Waiting
    case Execute(i, log) => i < |s.phases| && s.phases[i] == Taken && ValidLog(log, s.options)
    case Record(i) => i < |s.phases| && i < |s.names| && s.phases[i].Ran? && s.phases[i].log != []
    case Stop(i) => i < |s.phases| && s.phases[i] == Recorded && StopsRun(s, i)
    case CancelRun(i) => i < |s.phases| && s.phases[i] == Stopping && i < |s.names|
    case Settle(i) => i < |s.phases| && s.phases[i] == Recorded && !StopsRun(s, i)
    case External(_) => true
  }

  function Cancel(s: State, why: string): State { if s.cancelled then s else s.(cancelled := true, reason := why) }

  function Move(s: State, i: nat, p: Phase): State
    requires i < |s.phases|
  {
    s.(phases := s.phases[i := p])
  }

  ghost function Apply(s: State, step: Step): State
    requires Enabled(s, step)
  {
    match step
    case Take(i) => Move(s, i, if s.stopScheduling then Dropped else Taken)
    case Execute(i, log) => Move(s, i, Ran(log))
    case Record(i) => Move(s, i, Recorded).(results := s.results + [ResultOf(s, i)])
    case Stop(i) => Move(s, i, Stopping).(stopScheduling := true)
    case CancelRun(i) => Cancel(Move(s, i, Done), "fail-fast: " + s.names[i] + " failed")
    case Settle(i) => Move(s, i, Done)
    case External(why) => Cancel(s, why)
  }

  /** Any selection of tests with different names, any options; the run may be cancelled beforehand. */
  ghost predicate Initial(s: State) {
    && |s.phases| == |s.names| && (forall i :: 0 <= i < |s.phases| ==> s.phases[i] == Waiting)
    && (forall i, j :: 0 <= i < j < |s.names| ==> s.names[i] != s.names[j])
    && s.results == [] && !s.stopScheduling
  }

  predicate Kept(p: Phase) { p == Recorded || p == Stopping || p == Done }

  /** One result for each test that got that far, and none for any other. */
  ghost predicate Accounts(s: State) {
    && |s.phases| == |s.names|
    && (forall i, j :: 0 <= i < j < |s.names| ==> s.names[i] != s.names[j])
    && (forall k :: 0 <= k < |s.results| ==>
          s.results[k].test < |s.names| && s.results[k].name == s.names[s.results[k].test]
            && Kept(s.phases[s.results[k].test]))
    && (forall j, k :: 0 <= j < k < |s.results| ==> s.results[j].test != s.results[k].test)
    && (forall i :: 0 <= i < |s.phases| && Kept(s.phases[i]) ==>
          exists k :: 0 <= k < |s.results| && s.results[k].test == i)
    && (forall i :: 0 <= i < |s.phases| && s.phases[i].Ran? ==> ValidLog(s.phases[i].log, s.options))
  }

  ghost predicate SomeFailure(s: State) { exists k :: 0 <= k < |s.results| && IsFailure(s.results[k].final.status) }

  /** Scheduling stops, and tests are dropped, only for a failure that is on record. */
  ghost predicate Stops(s: State) {
    && (s.stopScheduling ==> s.options.failFast && SomeFailure(s))
    && (forall i :: 0 <= i < |s.phases| && s.phases[i] == Dropped ==> s.stopScheduling)
  }

  ghost predicate Inv(s: State) { Accounts(s) && Stops(s) }

  lemma AccountsKept(s: State, step: Step)
    requires Inv(s) && Enabled(s, step)
    ensures Accounts(Apply(s, step))
  {
    hide ValidLog, StopsRun, Stops;
    if step.Record? {
      RecordAccounts(s, step.test);
    } else if step.External? {
    } else {
      MoveAccounts(s, step);
    }
  }

  lemma MoveAccounts(s: State, step: Step)
    requires Accounts(s) && Enabled(s, step) && !step.Record? && !step.External?
    ensures Accounts(Apply(s, step))
  {
    hide ValidLog, StopsRun;
    var t := Apply(s, step);
    assert t.results == s.results && t.names == s.names && t.options == s.options;
    assert |t.phases| == |s.phases| && forall i :: 0 <= i < |s.phases| && i != step.test ==> t.phases[i] == s.phases[i];
    assert Kept(t.phases[step.test]) <==> Kept(s.phases[step.test]);
    assert t.phases[step.test].Ran? ==> ValidLog(t.phases[step.test].log, s.options);
    hide Enabled, Apply;
  }

  lemma RecordAccounts(s: State, i: nat)
    requires Accounts(s) && Enabled(s, Record(i))
    ensures Accounts(Apply(s, Record(i)))
  {
    hide ValidLog;
    var t := Apply(s, Record(i));
    forall j | 0 <= j < |t.phases| && Kept(t.phases[j])
      ensures exists k :: 0 <= k < |t.results| && t.results[k].test == j
    {
      if j == i {
        assert t.results[|s.results|].test == i;
      } else {
        var k :| 0 <= k < |s.results| && s.results[k].test == j;
        assert t.results[k] == s.results[k];
      }
    }
    assert !Kept(s.phases[i]);
  }

  lemma StopsKept(s: State, step: Step)
    requires Inv(s) && Enabled(s, step)
    ensures Stops(Apply(s, step))
  {
    hide ValidLog, Accounts;
    var t := Apply(s, step);
    if SomeFailure(s) {
      var k :| 0 <= k < |s.results| && IsFailure(s.results[k].final.status);
      assert t.results[k] == s.results[k];
    }
    if step.Stop? {
      var k :| 0 <= k < |s.results| && s.results[k].test == step.test && IsFailure(s.results[k].final.status);
      assert t.results[k] == s.results[k];
    }
  }

  ghost predicate Run(states: seq<State>, steps: seq<Step>) {
    && |states| == |steps| + 1 && Initial(states[0])
    && forall i :: 0 <= i < |steps| ==> Enabled(states[i], steps[i]) && states[i + 1] == Apply(states[i], steps[i])
  }

  lemma {:induction false} RunInv(states: seq<State>, steps: seq<Step>, i: nat)
    requires Run(states, steps) && i < |states|
    ensures Inv(states[i])
    ensures states[i].names == states[0].names && states[i].options == states[0].options
  {
    if i > 0 {
      RunInv(states, steps, i - 1);
      NamesKept(states[i - 1], steps[i - 1]);
      hide Inv, Enabled, Apply, Initial;
      AccountsKept(states[i - 1], steps[i - 1]) by {
        InvParts(states[i - 1]);
      }
      StopsKept(states[i - 1], steps[i - 1]);
      InvParts(states[i]);
    }
  }

  lemma NamesKept(s: State, step: Step)
    requires Enabled(s, step)
    ensures Apply(s, step).names == s.names && Apply(s, step).options == s.options
  {
  }

  lemma InvParts(s: State)
    ensures Inv(s) <==> Accounts(s) && Stops(s)
  {
  }

  // ---- the report ------------------------------------------------------------------------------

  /** All tests have been settled or dropped, and `final` is the results, sorted by name. */
  ghost predicate Completed(s: State, final: seq<Result>) {
    && (forall i :: 0 <= i < |s.phases| ==> s.phases[i] == Done || s.phases[i] == Dropped)
    && multiset(final) == multiset(s.results)
    && forall j, k :: 0 <= j < k < |final| ==> Leq(final[j].name, final[k].name)
  }

  predicate HasResult(results: seq<Result>, i: nat) { exists k :: 0 <= k < |results| && results[k].test == i }

  /** One result for every selected test, none for anything else, in the order of the names. */
  ghost predicate OnePerTest(names: seq<string>, final: seq<Result>) {
    && (forall k :: 0 <= k < |final| ==> final[k].test < |names| && final[k].name == names[final[k].test])
    && (forall i: nat :: i < |names| ==> HasResult(final, i))
    && (forall j, k :: 0 <= j < k < |final| ==> final[j].test != final[k].test)
    && (forall j, k :: 0 <= j < k < |final| ==> Leq(final[j].name, final[k].name) && final[j].name != final[k].name)
  }

  lemma FinalAccounts(s: State, final: seq<Result>)
    requires Accounts(s) && Completed(s, final)
    ensures forall k :: 0 <= k < |final| ==> final[k].test < |s.names| && final[k].name == s.names[final[k].test]
    ensures forall j, k :: 0 <= j < k < |final| ==> final[j].test != final[k].test
    ensures forall i: nat :: i < |s.names| && s.phases[i] == Done ==> HasResult(final, i)
  {
    forall k | 0 <= k < |final|
      ensures exists m :: 0 <= m < |s.results| && s.results[m] == final[k]
    {
      SameElements(final, s.results, final[k]);
    }
    DistinctRearranged(s.results, final);
    forall i: nat | i < |s.names| && s.phases[i] == Done
      ensures HasResult(final, i)
    {
      var m :| 0 <= m < |s.results| && s.results[m].test == i;
      SameElements(final, s.results, s.results[m]);
    }
  }

  lemma FinalFailures(s: State, final: seq<Result>)
    requires multiset(final) == multiset(s.results) && SomeFailure(s)
    ensures exists k :: 0 <= k < |final| && IsFailure(final[k].final.status)
  {
    var m :| 0 <= m < |s.results| && IsFailure(s.results[m].final.status);
    SameElements(final, s.results, s.results[m]);
  }

  /** TestRun::exitCode; an empty reason does not count as a cancellation. */
  function ExitCode(results: seq<Result>, reason: string): nat {
    if exists k :: 0 <= k < |results| && results[k].final.category == FrameworkError then 2
    else if exists k :: 0 <= k < |results| && IsFailure(results[k].final.status) then 1
    else if reason != "" then 4
    else 0
  }

  method ComputeExitCode(results: seq<Result>, reason: string) returns (code: nat)
    ensures code == ExitCode(results, reason)
  {
    for k := 0 to |results|
      invariant forall j :: 0 <= j < k ==> results[j].final.category != FrameworkError
    {
      if results[k].final.category == FrameworkError {
        return 2;
      }
    }
    for k := 0 to |results|
      invariant forall j :: 0 <= j < k ==> !IsFailure(results[j].final.status)
    {
      if IsFailure(results[k].final.status) {
        return 1;
      }
    }
    if reason != "" {
      return 4;
    }
    return 0;
  }

  /** The reason that the run reports: none unless it was cancelled. */
  function ReportedReason(s: State): string { if s.cancelled then s.reason else "" }

  /** Without fail-fast, every selected test has exactly one result, whatever happens. */
  lemma NothingIsDropped(states: seq<State>, steps: seq<Step>, final: seq<Result>)
    requires Run(states, steps) && !states[0].options.failFast && Completed(states[|steps|], final)
    ensures OnePerTest(states[0].names, final)
  {
    var s := states[|steps|];
    RunInv(states, steps, |steps|);
    assert states[0].options == s.options;
    AllDone(s, final);
  }

  lemma AllDone(s: State, final: seq<Result>)
    requires Inv(s) && Completed(s, final) && !s.stopScheduling
    ensures OnePerTest(s.names, final)
  {
    FinalAccounts(s, final);
    assert forall i :: 0 <= i < |s.phases| ==> s.phases[i] == Done;
    forall j, k | 0 <= j < k < |final|
      ensures final[j].name != final[k].name
    {
      var a, b := final[j].test, final[k].test;
      assert a != b && s.names[a] != s.names[b];
    }
    hide Leq, HasResult;
  }

  /**
   Exit code 0 means complete success: exactly one result for each selected test, in
   the order of the names, none of them a failure or a defect of the framework, and
   no cancellation that gave a reason.
   */
  lemma ExitZeroIsSuccess(states: seq<State>, steps: seq<Step>, final: seq<Result>)
    requires Run(states, steps) && Completed(states[|steps|], final)
    requires ExitCode(final, ReportedReason(states[|steps|])) == 0
    ensures OnePerTest(states[0].names, final)
    ensures forall k :: 0 <= k < |final| ==>
      !IsFailure(final[k].final.status) && final[k].final.category != FrameworkError
    ensures states[|steps|].cancelled ==> states[|steps|].reason == ""
  {
    var s := states[|steps|];
    RunInv(states, steps, |steps|);
    hide Run, Leq;
    if SomeFailure(s) {
      FinalFailures(s, final);
    }
    AllDone(s, final);
  }

  /** And the other way round: complete success without a cancellation that gave a reason exits with 0. */
  lemma SuccessIsExitZero(states: seq<State>, steps: seq<Step>, final: seq<Result>)
    requires Run(states, steps) && Completed(states[|steps|], final)
    ensures ExitCode(final, ReportedReason(states[|steps|])) == 0 <==>
      && OnePerTest(states[0].names, final)
      && (forall k :: 0 <= k < |final| ==>
            !IsFailure(final[k].final.status) && final[k].final.category != FrameworkError)
      && (states[|steps|].cancelled ==> states[|steps|].reason == "")
  {
    if ExitCode(final, ReportedReason(states[|steps|])) == 0 {
      ExitZeroIsSuccess(states, steps, final);
    }
    hide Run, Completed, OnePerTest;
  }

  /** One test failed. */
  ghost predicate SomeFailed(final: seq<Result>) {
    exists k :: 0 <= k < |final| && final[k].final.status in {Failed, Error, Timeout}
  }

  /** The framework itself was at fault in one test. */
  ghost predicate SomeBroken(final: seq<Result>) {
    exists k :: 0 <= k < |final| && final[k].final.category == FrameworkError
  }

  /**
   When a run exits with which code: 2 if the framework was at fault somewhere, or else
   1 if a test failed, or else 4 if the run was cancelled for a reason; and with
   nothing else but 0, 1, 2 and 4.
   */
  lemma ExitCodesExactly(s: State, final: seq<Result>)
    ensures var code := ExitCode(final, ReportedReason(s));
      && code in {0, 1, 2, 4}
      && (code == 2 <==> SomeBroken(final))
      && (code == 1 <==> SomeFailed(final) && !SomeBroken(final))
      && (code == 4 <==> s.cancelled && s.reason != "" && !SomeFailed(final) && !SomeBroken(final))
  {
  }

  /** A run that fail-fast has stopped never exits with 0 or 4: the failure that stopped it is in the report. */
  lemma StoppedRunFails(states: seq<State>, steps: seq<Step>, final: seq<Result>)
    requires Run(states, steps) && Completed(states[|steps|], final) && states[|steps|].stopScheduling
    ensures ExitCode(final, ReportedReason(states[|steps|])) in {1, 2}
  {
    RunInv(states, steps, |steps|);
    hide Run;
    FinalFailures(states[|steps|], final);
  }

  /** A run of one test that was cancelled for no reason before it began still exits with 0, its test skipped. */
  lemma CancelledForNoReason(name: string) returns (states: seq<State>, steps: seq<Step>, final: seq<Result>)
    ensures Run(states, steps) && Completed(states[|steps|], final) && |final| == 1
    ensures states[|steps|].cancelled && final[0].final.status == Skipped
    ensures ExitCode(final, ReportedReason(states[|steps|])) == 0
  {
    var o, log := Options(0, false), [Attempt(Skipped, NoFailure)];
    assert ValidLog(log, o);
    final := [Result(0, name, log[0])];
    var s0 := State([name], o, [Waiting], [], false, false, "");
    steps := [External(""), Take(0), Execute(0, log), Record(0), Settle(0)];
    states := [s0, s0.(cancelled := true), s0.(cancelled := true, phases := [Taken]),
               s0.(cancelled := true, phases := [Ran(log)]),
               s0.(cancelled := true, phases := [Recorded], results := final),
               s0.(cancelled := true, phases := [Done], results := final)];
    forall i | 0 <= i < |steps|
      ensures Enabled(states[i], steps[i]) && states[i + 1] == Apply(states[i], steps[i])
    {
      hide ValidLog;
      assert i == 0 || i == 1 || i == 2 || i == 3 || i == 4;
    }
    hide Enabled, Apply, ValidLog;
  }

  // ---- fail-fast -------------------------------------------------------------------------------

  lemma StepAt(states: seq<State>, steps: seq<Step>, i: nat)
    requires Run(states, steps) && i < |steps|
    ensures Enabled(states[i], steps[i]) && states[i + 1] == Apply(states[i], steps[i])
  {
  }

  lemma {:induction false} StopLasts(states: seq<State>, steps: seq<Step>, i: nat, j: nat)
    requires Run(states, steps) && i < j <= |steps| && steps[i].Stop?
    ensures states[j].stopScheduling
  {
    StepAt(states, steps, j - 1);
    if i < j - 1 {
      StopLasts(states, steps, i, j - 1);
    }
    hide Run, ValidLog, StopsRun;
  }

  /** Once a failure has stopped the scheduling, every test that is picked up is dropped, and none is made to run. */
  lemma NothingStartsAfterStop(states: seq<State>, steps: seq<Step>, i: nat, j: nat)
    requires Run(states, steps) && i < j < |steps| && steps[i].Stop?
    ensures steps[j].Take? ==> states[j + 1].phases[steps[j].test] == Dropped
    ensures forall t ::
      0 <= t < |states[j].phases| && t < |states[j + 1].phases| && states[j + 1].phases[t] == Taken ==>
      states[j].phases[t] == Taken
  {
    StopLasts(states, steps, i, j);
    StepAt(states, steps, j);
    hide Run, ValidLog, StopsRun;
  }

  lemma {:induction false} CancelLasts(states: seq<State>, steps: seq<Step>, i: nat, j: nat)
    requires Run(states, steps) && i <= j <= |steps| && states[i].cancelled
    ensures states[j].cancelled && states[j].reason == states[i].reason
  {
    if i < j {
      CancelLasts(states, steps, i, j - 1);
      StepAt(states, steps, j - 1);
      hide Run, ValidLog, StopsRun;
    }
  }

  /**
   A run that fail-fast has cancelled says so in its report: the reason it reports is
   empty only if somebody had cancelled it before with an empty reason.
   */
  lemma FailFastIsReported(states: seq<State>, steps: seq<Step>, i: nat, j: nat)
    requires Run(states, steps) && i < j <= |steps| && steps[i].CancelRun?
    ensures states[j].cancelled && (ReportedReason(states[j]) == "" <==> states[i].cancelled && states[i].reason == "")
  {
    StepAt(states, steps, i);
    CancelLasts(states, steps, i + 1, j);
    hide Run, ValidLog, StopsRun;
  }

  // ---- every attempt ---------------------------------------------------------------------------

  /**
   The result on record is that of the last attempt of a valid log, so a test fails in the end only as its last
   attempt did.
   */
  lemma RecordsLastAttempt(states: seq<State>, steps: seq<Step>, i: nat)
    requires Run(states, steps) && i < |steps| && steps[i].Record?
    ensures var s, t := states[i], steps[i].test;
      && s.phases[t].Ran? && ValidLog(s.phases[t].log, states[0].options)
      && |s.phases[t].log| <= MaxAttempts(states[0].options)
      && states[i + 1].results
         == s.results + [Result(t, s.names[t], s.phases[t].log[|s.phases[t].log| - 1])]
  {
    RunInv(states, steps, i);
    assert Enabled(states[i], steps[i]) && states[i + 1] == Apply(states[i], steps[i]);
    hide Run, Stops;
  }
}
