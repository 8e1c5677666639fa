/**
 A run put together: the attempts of `TestRun` are calls of runOne, and a call that
 starts a body is a run of `BoundedBody` (runOne and run in
 src/execution/TestRunner.cpp).
 */
module Runner {
  import opened Text
  import opened Classifier
  import opened Order
  import opened TestRun
  import BB = BoundedBody

  /** One call of runOne: without a body, or with the run of a body to its verdict. */
  datatype Call =
    | Disabled
    | Unmade        // the factory produced nothing
    | NotRun        // the run had been cancelled before
    | WithBody(states: seq<BB.State>, steps: seq<BB.Step>)

  /** `cancelled` is whether the run has been cancelled by the end of the call. */
  ghost predicate ValidCall(c: Call, cancelled: bool) {
    match c
    case NotRun => cancelled
    case WithBody(states, steps) =>
      && BB.Run(states, steps) && states[|steps|].pc == BB.Finished && states[|steps|].verdict.Some?
      && (states[|steps|].runCancelled ==> cancelled)
    case _ => true
  }

  ghost function Answer(c: Call): Attempt
    requires c.WithBody? ==> |c.states| == |c.steps| + 1 && c.states[|c.steps|].verdict.Some?
  {
    match c
    case Disabled => Attempt(Skipped, NoFailure)
    case Unmade => Attempt(Error, FrameworkError)
    case NotRun => Attempt(Skipped, NoFailure)
    case WithBody(states, steps) =>
      var v := states[|steps|].verdict.value;
      Attempt(v.status, v.category)
  }

  /** Each attempt in the log of an Execute step is the answer of its own call. */
  ghost predicate Executes(states: seq<State>, steps: seq<Step>, calls: seq<seq<Call>>) {
    && Run(states, steps) && |calls| == |steps|
    && forall k :: 0 <= k < |steps| && steps[k].Execute? ==> Answers(calls[k], steps[k].log, states[k].cancelled)
  }

  ghost predicate Answers(calls: seq<Call>, log: seq<Attempt>, cancelled: bool) {
    && |calls| == |log|
    && forall j :: 0 <= j < |log| ==> ValidCall(calls[j], cancelled) && Answer(calls[j]) == log[j]
  }

  // ---- from a result back to its attempts ---------------------------------------------

  lemma LengthOf(states: seq<State>, steps: seq<Step>)
    requires Run(states, steps)
    ensures |states| == |steps| + 1
  {
  }

  /** A log was left by an Execute step of its test. */
  lemma {:induction false} LogWasExecuted(states: seq<State>, steps: seq<Step>, i: nat, t: nat) returns (k: nat)
    requires Run(states, steps) && i < |states| && t < |states[i].phases| && states[i].phases[t].Ran?
    ensures k < i && steps[k] == Execute(t, states[i].phases[t].log)
  {
    LengthOf(states, steps);
    if i == 0 {
      assert false;
    } else {
      StepAt(states, steps, i - 1);
      hide Run, ValidLog, StopsRun;
      if steps[i - 1] == Execute(t, states[i].phases[t].log) {
        k := i - 1;
      } else {
        k := LogWasExecuted(states, steps, i - 1, t);
      }
    }
  }

  lemma ResultsOfStep(states: seq<State>, steps: seq<Step>, i: nat)
    requires Run(states, steps) && i < |steps| && !steps[i].Record?
    ensures states[i + 1].results == states[i].results
  {
    StepAt(states, steps, i);
    hide Run, ValidLog, StopsRun;
  }

  /** A result is the last attempt of an Execute step of its test. */
  lemma {:induction false} ResultWasExecuted(states: seq<State>, steps: seq<Step>, i: nat, m: nat)
    returns (k: nat, log: seq<Attempt>)
    requires Run(states, steps) && i < |states| && m < |states[i].results|
    ensures k < i && k < |steps| && log != [] && steps[k] == Execute(states[i].results[m].test, log)
    ensures states[i].results[m].final == log[|log| - 1]
  {
    LengthOf(states, steps);
    if i == 0 {
      assert false;
    } else if steps[i - 1].Record? {
      RecordsLastAttempt(states, steps, i - 1);
      hide Run, ValidLog;
      if m < |states[i - 1].results| {
        k, log := ResultWasExecuted(states, steps, i - 1, m);
      } else {
        var t := steps[i - 1].test;
        log := states[i - 1].phases[t].log;
        LogNotEmpty(states, steps, i - 1);
        k := LogWasExecuted(states, steps, i - 1, t);
      }
    } else {
      ResultsOfStep(states, steps, i - 1);
      hide Run;
      k, log := ResultWasExecuted(states, steps, i - 1, m);
    }
  }

  lemma LogNotEmpty(states: seq<State>, steps: seq<Step>, i: nat)
    requires Run(states, steps) && i < |steps| && steps[i].Record?
    ensures var t := steps[i].test;
      t < |states[i].phases| && states[i].phases[t].Ran? && states[i].phases[t].log != []
  {
    StepAt(states, steps, i);
    hide Run;
  }

  // ---- bodies of a run that was not cancelled --------------------------------------------

  /** Without a cancellation of the run, only the deadline cancels the source of a test. */
  lemma QuietBody(states: seq<BB.State>, steps: seq<BB.Step>, j: nat)
    requires BB.Run(states, steps) && j <= |steps| && !states[|steps|].runCancelled
    ensures BB.Told(states, steps, j) ==> BB.Expire in steps[..j]
  {
    forall k | 0 <= k < j
      ensures BB.Tells(states[k], steps[k]) ==> BB.Expire in steps[..j]
    {
      BB.StepOf(states, steps, k);
      BB.FlagsOfRun(states, steps, k);
      BB.FlagsOfRun(states, steps, |steps|);
      assert forall s :: s in steps[..k] ==> s in steps;
      assert steps[..|steps|] == steps;
      if steps[k] == BB.Expire {
        assert steps[..j][k] == BB.Expire;
      }
      hide BB.Run, BB.Apply;
    }
    hide BB.Run;
  }

  /** The body ended by itself and this is what it reported. */
  ghost predicate Reported(c: Call, a: Attempt) {
    && c.WithBody? && |c.states| == |c.steps| + 1
    && exists j :: 0 <= j < |c.steps| && ReportsAt(c, j, a)
  }

  /** Before step j no deadline was seen; then the report of the body is judged. */
  ghost predicate ReportsAt(c: Call, j: nat, a: Attempt)
    requires c.WithBody? && |c.states| == |c.steps| + 1 && j < |c.steps|
  {
    && c.steps[j] == BB.Judge && BB.Expire !in c.steps[..j]
    && c.states[j].bundle.Some?
    && a == Attempt(c.states[j].bundle.value.status, c.states[j].bundle.value.category)
  }

  /** In a run that nobody cancels, a body whose verdict is no failure made that verdict itself. */
  lemma GoodVerdictIsOwn(c: Call)
    requires c.WithBody? && ValidCall(c, false) && !IsFailure(Answer(c).status)
    ensures Reported(c, Answer(c))
  {
    var states, steps := c.states, c.steps;
    var j := BB.VerdictFalls(states, steps, |steps|);
    QuietBody(states, steps, j);
    hide BB.Run, BB.Told;
    if steps[j] == BB.Judge {
      BB.JudgedVerdict(states, steps, j);
      hide Refine;
      assert ReportsAt(c, j, Answer(c));
    } else {
      BB.DescribedVerdict(states, steps, j);
    }
  }

  // ---- what a successful run says ----------------------------------------------------------

  /** The test was disabled, or its body ended in time and reported this itself. */
  ghost predicate Genuine(c: Call, a: Attempt) { (c == Disabled && a == Attempt(Skipped, NoFailure)) || Reported(c, a) }

  lemma GoodCallIsGenuine(c: Call)
    requires ValidCall(c, false) && !IsFailure(Answer(c).status)
    ensures Genuine(c, Answer(c))
  {
    if c.WithBody? {
      GoodVerdictIsOwn(c);
    }
    hide Reported;
  }

  /**
   Exit code 0 of a run that nobody cancelled without a reason: every result in the
   report is that of the last call of runOne for its test, and that call either found
   the test disabled or is what its body, in time and undisturbed, reported itself.
   */
  lemma SuccessIsGenuine(states: seq<State>, steps: seq<Step>, calls: seq<seq<Call>>, final: seq<Result>, r: nat)
    returns (k: nat)
    requires Executes(states, steps, calls) && Completed(states[|steps|], final) && r < |final|
    requires ExitCode(final, ReportedReason(states[|steps|])) == 0
    requires states[|steps|].cancelled ==> states[|steps|].reason != ""
    ensures k < |steps| && steps[k].Execute? && steps[k].test == final[r].test && calls[k] != []
    ensures Genuine(calls[k][|calls[k]| - 1], final[r].final)
  {
    LengthOf(states, steps);
    ExitZeroIsSuccess(states, steps, final);
    var end := states[|steps|];
    assert multiset(final) == multiset(end.results) && !end.cancelled;
    hide Run, Completed, ExitCode, OnePerTest, Genuine;
    SameElements(final, end.results, final[r]);
    var m :| 0 <= m < |end.results| && end.results[m] == final[r];
    var log: seq<Attempt>;
    k, log := ResultWasExecuted(states, steps, |steps|, m);
    if states[k].cancelled {
      CancelLasts(states, steps, k, |steps|);
    }
    assert Answers(calls[k], log, states[k].cancelled);
    GoodCallIsGenuine(calls[k][|log| - 1]);
  }

  // ---- the flaky flag --------------------------------------------------------------------------

  /** The flag says so exactly if the last attempt was not a skip behind failed ones. */
  lemma FlakyExactly(log: seq<Attempt>, o: Options)
    requires ValidLog(log, o)
    ensures FlakyFlag(log) == PassedAfterRetry(log) <==> |log| == 1 || log[|log| - 1].status != Skipped
  {
  }

  /** A call that skips its test: it is disabled, or was cancelled, or its body skipped it itself. */
  lemma FlakyInQuietRun(calls: seq<Call>, log: seq<Attempt>, o: Options)
    requires ValidLog(log, o) && Answers(calls, log, false) && Disabled !in calls
    requires forall j :: 0 <= j < |calls| ==> !Reported(calls[j], Attempt(Skipped, log[j].category))
    ensures FlakyFlag(log) == PassedAfterRetry(log)
  {
    var last := |log| - 1;
    FlakyExactly(log, o);
    if log[last].status == Skipped {
      GoodCallIsGenuine(calls[last]);
    }
    hide Reported, ValidLog;
  }

  /** An unbounded body that reports this, from its start to its verdict. */
  lemma InlineRun(r: BB.Report) returns (c: Call)
    requires r.notes == Notes(None, None, None, None)
    ensures ValidCall(c, false) && Answer(c) == Attempt(r.status, r.category)
  {
    var s0 := BB.State(false, BB.Inline, None, false, false, false, false, false, false, 0, None);
    var s1 := BB.Apply(s0, BB.InlineEnds(r));
    var s2 := BB.Apply(s1, BB.Read);
    var s3 := BB.Apply(s2, BB.Judge);
    c := WithBody([s0, s1, s2, s3], [BB.InlineEnds(r), BB.Read, BB.Judge]);
    assert s3.verdict == Some(BB.Verdict(r.status, r.category));
  }

  lemma StepsMakeRun(states: seq<State>, steps: seq<Step>)
    requires |states| == 6 && |steps| == 5 && Initial(states[0])
    requires Enabled(states[0], steps[0]) && states[1] == Apply(states[0], steps[0])
    requires Enabled(states[1], steps[1]) && states[2] == Apply(states[1], steps[1])
    requires Enabled(states[2], steps[2]) && states[3] == Apply(states[2], steps[2])
    requires Enabled(states[3], steps[3]) && states[4] == Apply(states[3], steps[3])
    requires Enabled(states[4], steps[4]) && states[5] == Apply(states[4], steps[4])
    ensures Run(states, steps)
  {
    hide Initial, Enabled, Apply;
    forall i | 0 <= i < |steps|
      ensures Enabled(states[i], steps[i]) && states[i + 1] == Apply(states[i], steps[i])
    {
      assert i == 0 || i == 1 || i == 2 || i == 3 || i == 4;
    }
  }

  /**
   A whole run of one test: the first attempt fails in a way worth retrying, then the
   run is cancelled, and the second attempt is skipped.  The test is flagged although
   it never passed.
   */
  lemma SkippedRetryIsFlagged(name: string, why: string)
    returns (states: seq<State>, steps: seq<Step>, calls: seq<seq<Call>>, log: seq<Attempt>)
    ensures Executes(states, steps, calls) && |steps| == 5 && steps[2] == Execute(0, log) && log != []
    ensures FlakyFlag(log) && !PassedAfterRetry(log)
  {
    log := [Attempt(Failed, NetworkFailure), Attempt(Skipped, NoFailure)];
    var o := Options(1, false);
    assert ValidLog(log, o);
    var s0 := State([name], o, [Waiting], [], false, false, "");
    steps := [Take(0), External(why), Execute(0, log), Record(0), Settle(0)];
    var s1 := s0.(phases := [Taken]);
    var s2 := s1.(cancelled := true, reason := why);
    var s3 := s2.(phases := [Ran(log)]);
    var s4 := s3.(phases := [Recorded], results := [Result(0, name, log[1])]);
    states := [s0, s1, s2, s3, s4, s4.(phases := [Done])];
    hide ValidLog;
    StepsMakeRun(states, steps);
    hide Run, Enabled, Apply, Initial;
    var first := InlineRun(BB.Report(Failed, NetworkFailure, Notes(None, None, None, None)));
    StillValid(first);
    calls := [[], [], [first, NotRun], [], []];
  }

  lemma StillValid(c: Call)
    requires ValidCall(c, false)
    ensures ValidCall(c, true)
  {
  }
}
