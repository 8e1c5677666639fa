/**
 Cancellation of a run (src/core/CancellationToken.cpp, and the registration of
 active tests and requestCancellation in src/execution/TestRunner.cpp).

 First the objects as they are written, then the protocol between the threads as a
 state machine, in which the sweep over the active tests takes one step a source.
 */
module Cancellation {

  // ---- the objects ------------------------------------------------------------------

  class CancellationSource {
    var cancelled: bool
    var reason: string

    constructor ()
      ensures !cancelled && reason == ""
    {
      cancelled, reason := false, "";
    }

    /** The first reason wins. */
    method Cancel(why: string)
      modifies this
      ensures cancelled && reason == if old(cancelled) then old(reason) else why
    {
      if cancelled {
        return;
      }
      reason := why;
      cancelled := true;
    }
  }

  function Remove<T(==)>(s: seq<T>, x: T): seq<T> {
    if s == [] then []
    else Remove(s[..|s| - 1], x) + if s[|s| - 1] == x then [] else [s[|s| - 1]]
  }

  class ActiveTests {
    var activeTests: seq<CancellationSource>

    constructor ()
      ensures activeTests == []
    {
      activeTests := [];
    }

    method RegisterActive(source: CancellationSource)
      modifies this
      ensures activeTests == old(activeTests) + [source]
    {
      activeTests := activeTests + [source];
    }

    /** The erase-remove idiom: what is kept moves to the front, in order. */
    method UnregisterActive(source: CancellationSource)
      modifies this
      ensures activeTests == Remove(old(activeTests), source)
    {
      var kept: seq<CancellationSource> := [];
      for i := 0 to |activeTests|
        invariant kept == Remove(activeTests[..i], source)
      {
        assert activeTests[..i + 1][..i] == activeTests[..i];
        if activeTests[i] != source {
          kept := kept + [activeTests[i]];
        }
      }
      assert activeTests[..|activeTests|] == activeTests;
      activeTests := kept;
    }

    /** Every active source is cancelled; one that was cancelled before keeps its reason. */
    method CancelAllActive(why: string)
      modifies set i | 0 <= i < |activeTests| :: activeTests[i]
      ensures forall s :: s in activeTests ==>
        s.cancelled && s.reason == if old(s.cancelled) then old(s.reason) else why
    {
      for k := 0 to |activeTests|
        invariant forall s :: s in activeTests[..k] ==> s.cancelled
        invariant forall s :: s in activeTests && s.cancelled ==>
          s.reason == if old(s.cancelled) then old(s.reason) else why
        invariant forall s :: s in activeTests && old(s.cancelled) ==> s.cancelled
      {
        activeTests[k].Cancel(why);
        assert activeTests[..k + 1] == activeTests[..k] + [activeTests[k]];
      }
    }
  }

  // ---- the protocol -------------------------------------------------------------------

  datatype Source = Source(cancelled: bool, reason: string)

  function Cancelled(s: Source, why: string): Source { if s.cancelled then s else Source(true, why) }

  /** Where a call of runOne is: its source is registered from Registered to Leaving. */
  datatype Phase = Idle | Registered | Body | Leaving | Gone

  /** `bounded` tests have a deadline, and a thread that polls for them. */
  datatype Test = Test(bounded: bool, phase: Phase, own: Source)

  /** Where a call of requestCancellation is. */
  datatype Caller = Fresh(why: string) | RunSet(why: string) | Sweeping(why: string, next: nat) | Answered

  /** `sweeper` holds activeMutex across the sweep; the other users hold it for one step. */
  datatype State = State(run: Source, tests: seq<Test>, active: seq<nat>, callers: seq<Caller>, sweeper: int)

  predicate Live(p: Phase) { p == Registered || p == Body || p == Leaving }

  datatype Step =
    | Register(test: nat)
    | Look(test: nat)                      // runOne looks at the run's source, once
    | EndBody(test: nat)
    | Unregister(test: nat)
    | Forward(test: nat)                   // the polling loop of a bounded test
    | Deadline(test: nat, why: string)     // the end of its wait
    | CancelRun(caller: nat)
    | StartSweep(caller: nat)
    | SweepOne(caller: nat)
    | EndSweep(caller: nat)
    | FailFast(why: string)                // cancels the run's source only

  predicate Enabled(s: State, step: Step) {
    match step
    case Register(i) => i < |s.tests| && s.tests[i].phase == Idle && s.sweeper < 0
    case Look(i) => i < |s.tests| && s.tests[i].phase == Registered
    case EndBody(i) => i < |s.tests| && s.tests[i].phase == Body
    case Unregister(i) => i < |s.tests| && s.tests[i].phase == Leaving && s.sweeper < 0
    case Forward(i) => i < |s.tests| && s.tests[i].phase == Body && s.tests[i].bounded
    case Deadline(i, _) => i < |s.tests| && s.tests[i].phase == Body && s.tests[i].bounded
    case CancelRun(c) => c < |s.callers| && s.callers[c].Fresh?
    case StartSweep(c) => c < |s.callers| && s.callers[c].RunSet? && s.sweeper < 0
    case SweepOne(c) => c < |s.callers| && s.callers[c].Sweeping? && s.callers[c].next < |s.active|
                        && s.active[s.callers[c].next] < |s.tests|
    case EndSweep(c) => c < |s.callers| && s.callers[c].Sweeping? && s.callers[c].next >= |s.active|
    case FailFast(_) => true
  }

  function Move(s: State, i: nat, phase: Phase): State
    requires i < |s.tests|
  {
    s.(tests := s.tests[i := s.tests[i].(phase := phase)])
  }

  function CancelOwn(s: State, i: nat, why: string): State
    requires i < |s.tests|
  {
    s.(tests := s.tests[i := s.tests[i].(own := Cancelled(s.tests[i].own, why))])
  }

  function Apply(s: State, step: Step): State
    requires Enabled(s, step)
  {
    match step
    case Register(i) =>
      var test := Test(s.tests[i].bounded, Registered, Source(false, ""));
      s.(tests := s.tests[i := test], active := s.active + [i])
    case Look(i) => Move(s, i, if s.run.cancelled then Leaving else Body)
    case EndBody(i) => Move(s, i, Leaving)
    case Unregister(i) => Move(s, i, Gone).(active := Remove(s.active, i))
    case Forward(i) => if s.run.cancelled then CancelOwn(s, i, s.run.reason) else s
    case Deadline(i, why) => CancelOwn(s, i, why)
    case CancelRun(c) =>
      s.(run := Cancelled(s.run, s.callers[c].why), callers := s.callers[c := RunSet(s.callers[c].why)])
    case StartSweep(c) => s.(callers := s.callers[c := Sweeping(s.callers[c].why, 0)], sweeper := c)
    case SweepOne(c) =>
      var caller := s.callers[c];
      CancelOwn(s, s.active[caller.next], caller.why).(callers := s.callers[c := Sweeping(caller.why, caller.next + 1)])
    case EndSweep(c) => s.(callers := s.callers[c := Answered], sweeper := -1)
    case FailFast(why) => s.(run := Cancelled(s.run, why))
  }

  /** Any number of tests and of callers with any reasons. */
  ghost predicate Initial(s: State) {
    && !s.run.cancelled && s.active == [] && s.sweeper == -1
    && (forall i :: 0 <= i < |s.tests| ==> s.tests[i].phase == Idle)
    && (forall c :: 0 <= c < |s.callers| ==> s.callers[c].Fresh?)
  }

  /** The registered sources are those of the calls that are under way. */
  ghost predicate Registers(s: State) {
    && (forall i :: i in s.active ==> i < |s.tests| && Live(s.tests[i].phase))
    && (forall i: nat :: i < |s.tests| && Live(s.tests[i].phase) ==> i in s.active)
  }

  ghost predicate Sweeps(s: State) {
    && -1 <= s.sweeper < |s.callers|
    && (forall c: nat :: c < |s.callers| && s.callers[c].Sweeping? ==> s.sweeper == c)
    && (s.sweeper >= 0 ==> s.callers[s.sweeper].Sweeping? && s.callers[s.sweeper].next <= |s.active|)
    && (s.sweeper >= 0 ==>
        forall k :: 0 <= k < s.callers[s.sweeper].next && s.active[k] < |s.tests| ==>
          s.tests[s.active[k]].own.cancelled)
  }

  /** What a caller has achieved so far. */
  ghost predicate Reached(s: State) {
    && (forall c :: 0 <= c < |s.callers| && !s.callers[c].Fresh? ==> s.run.cancelled)
    && ((exists c :: 0 <= c < |s.callers| && s.callers[c].Answered?) ==>
        forall i :: 0 <= i < |s.tests| && s.tests[i].phase == Body ==> s.tests[i].own.cancelled)
  }

  ghost predicate Inv(s: State) { Registers(s) && Sweeps(s) && Reached(s) }

  lemma {:induction false} RemoveExact<T>(s: seq<T>, x: T, y: T)
    ensures y in Remove(s, x) <==> y in s && y != x
  {
    if s != [] {
      RemoveExact(s[..|s| - 1], x, y);
      assert s == s[..|s| - 1] + [s[|s| - 1]];
    }
  }

  lemma RegistersKept(s: State, step: Step)
    requires Inv(s) && Enabled(s, step)
    ensures Registers(Apply(s, step))
  {
    hide Sweeps, Reached;
    if step.Unregister? {
      forall j: nat
        ensures j in Remove(s.active, step.test) <==> j in s.active && j != step.test
      {
        RemoveExact(s.active, step.test, j);
      }
      hide Remove;
    }
  }

  lemma SweepsKept(s: State, step: Step)
    requires Inv(s) && Enabled(s, step)
    ensures Sweeps(Apply(s, step))
  {
    hide Registers, Reached, Remove;
  }

  lemma ReachedKept(s: State, step: Step)
    requires Inv(s) && Enabled(s, step)
    ensures Reached(Apply(s, step))
  {
    hide Remove;
    if step.EndSweep? {
      hide Reached;
      assert s.sweeper == step.caller;
      assert Reached(s) && forall c :: 0 <= c < |s.callers| && !s.callers[c].Fresh? ==> s.run.cancelled by {
        ReachedRun(s);
      }
      EverySourceSwept(s);
      ReachedNow(Apply(s, step));
    } else {
      hide Registers, Sweeps;
    }
  }

  lemma ReachedRun(s: State)
    requires Reached(s)
    ensures forall c :: 0 <= c < |s.callers| && !s.callers[c].Fresh? ==> s.run.cancelled
  {
  }

  lemma EverySourceSwept(s: State)
    requires Registers(s) && Sweeps(s) && s.sweeper >= 0 && s.callers[s.sweeper].next >= |s.active|
    ensures forall i: nat :: i < |s.tests| && s.tests[i].phase == Body ==> s.tests[i].own.cancelled
  {
    forall i: nat | i < |s.tests| && s.tests[i].phase == Body
      ensures s.tests[i].own.cancelled
    {
      assert i in s.active;
    }
  }

  lemma ReachedNow(s: State)
    requires forall c :: 0 <= c < |s.callers| && !s.callers[c].Fresh? ==> s.run.cancelled
    requires forall i: nat :: i < |s.tests| && s.tests[i].phase == Body ==> s.tests[i].own.cancelled
    ensures Reached(s)
  {
  }

  lemma StepInv(s: State, step: Step)
    requires Inv(s) && Enabled(s, step)
    ensures Inv(Apply(s, step))
  {
    hide Enabled, Apply, Registers, Sweeps, Reached;
    RegistersKept(s, step);
    SweepsKept(s, step);
    ReachedKept(s, step);
  }

  // ---- whole runs ----------------------------------------------------------------------

  ghost predicate Run(states: seq<State>, steps: seq<Step>) {
    && |states| == |steps| + 1 && Initial(states[0])
    && forall i :: 0 <= i < |steps| ==> Enabled(states[i], steps[i]) && states[i + 1] == Apply(states[i], steps[i])
  }

  lemma {:induction false} RunInv(states: seq<State>, steps: seq<Step>, i: nat)
    requires Run(states, steps) && i < |states|
    ensures Inv(states[i])
  {
    if i == 0 {
    } else {
      RunInv(states, steps, i - 1);
      hide Inv, Enabled, Apply, Initial;
      StepInv(states[i - 1], steps[i - 1]);
    }
  }

  /** No step makes a source less cancelled or changes its reason. */
  ghost predicate Holds(s: Source, t: Source) { s.cancelled ==> t == s }

  lemma FirstReasonWins(s: State, step: Step)
    requires Inv(s) && Enabled(s, step)
    ensures var t := Apply(s, step);
      && Holds(s.run, t.run) && |t.tests| == |s.tests|
      && forall i :: 0 <= i < |s.tests| && s.tests[i].phase != Idle ==> Holds(s.tests[i].own, t.tests[i].own)
  {
    hide Registers, Sweeps, Reached, Remove;
  }

  /** The sweep only touches sources whose calls of runOne are still under way. */
  lemma SweepTouchesLiveSources(states: seq<State>, steps: seq<Step>, i: nat)
    requires Run(states, steps) && i < |steps| && steps[i].SweepOne?
    ensures var s := states[i]; Live(s.tests[s.active[s.callers[steps[i].caller].next]].phase)
  {
    RunInv(states, steps, i);
    hide Sweeps, Reached, Run, Apply;
    assert Enabled(states[i], steps[i]) by {
      StepOf(states, steps, i);
    }
  }

  lemma StepOf(states: seq<State>, steps: seq<Step>, i: nat)
    requires Run(states, steps) && i < |steps|
    ensures Enabled(states[i], steps[i]) && states[i + 1] == Apply(states[i], steps[i])
  {
  }

  /** Once the run is cancelled it stays so, with its reason, to the end of the run. */
  lemma {:induction false} RunStaysCancelled(states: seq<State>, steps: seq<Step>, i: nat, j: nat)
    requires Run(states, steps) && i <= j < |states| && states[i].run.cancelled
    ensures states[j].run == states[i].run
  {
    assert |states| == |steps| + 1;
    hide Run, Inv, Enabled, Apply;
    if i < j {
      RunStaysCancelled(states, steps, i, j - 1);
      RunInv(states, steps, j - 1);
      StepOf(states, steps, j - 1);
      FirstReasonWins(states[j - 1], steps[j - 1]);
    }
  }

  /**
   Whatever the interleaving: once a call of requestCancellation has returned, every
   body that is running has its own source cancelled, and from then on no body
   starts.
   */
  lemma NoCancellationLost(states: seq<State>, steps: seq<Step>, i: nat, j: nat, c: nat)
    requires Run(states, steps) && i <= j < |states| && c < |states[i].callers| && states[i].callers[c].Answered?
    ensures forall t :: 0 <= t < |states[j].tests| && states[j].tests[t].phase == Body ==>
      states[j].tests[t].own.cancelled
    ensures j < |steps| ==> forall t :: 0 <= t < |states[j].tests| && t < |states[j + 1].tests| ==>
      (states[j + 1].tests[t].phase == Body ==> states[j].tests[t].phase == Body)
  {
    AnsweredStays(states, steps, i, j, c);
    RunInv(states, steps, j);
    hide Registers, Sweeps;
    assert states[j].callers[c].Answered? && states[j].run.cancelled;
    if j < |steps| {
      StepOf(states, steps, j);
      hide Run, Reached, Remove;
    }
  }

  lemma {:induction false} AnsweredStays(states: seq<State>, steps: seq<Step>, i: nat, j: nat, c: nat)
    requires Run(states, steps) && i <= j < |states| && c < |states[i].callers| && states[i].callers[c].Answered?
    ensures c < |states[j].callers| && states[j].callers[c].Answered?
  {
    if i < j {
      AnsweredStays(states, steps, i, j - 1, c);
      StepOf(states, steps, j - 1);
      hide Run, Remove;
    }
  }

  // ---- which steps reach a test ------------------------------------------------------------

  /** The step cancels the source of test t, if it is not cancelled yet. */
  predicate Reaches(s: State, step: Step, t: nat) {
    match step
    case Forward(i) => i == t && s.run.cancelled
    case Deadline(i, _) => i == t
    case SweepOne(c) => c < |s.callers| && s.callers[c].Sweeping? && s.callers[c].next < |s.active|
                        && s.active[s.callers[c].next] == t
    case _ => false
  }

  ghost predicate ReachedBefore(states: seq<State>, steps: seq<Step>, i: nat, t: nat)
    requires |states| == |steps| + 1 && i <= |steps|
  {
    exists k :: 0 <= k < i && Reaches(states[k], steps[k], t)
  }

  /** One step, seen from one test. */
  lemma StepOnTest(s: State, step: Step, t: nat)
    requires Inv(s) && Enabled(s, step) && t < |s.tests|
    ensures var u := Apply(s, step);
      && |u.tests| == |s.tests| && u.tests[t].bounded == s.tests[t].bounded
      && (u.tests[t].phase == Idle ==> s.tests[t].phase == Idle)
      && (s.tests[t].phase == Idle ==> !Reaches(s, step, t) && (u.tests[t].phase != Idle ==> !u.tests[t].own.cancelled))
      && (s.tests[t].phase != Idle ==> (u.tests[t].own.cancelled <==> s.tests[t].own.cancelled || Reaches(s, step, t)))
  {
    hide Sweeps, Reached, Remove;
  }

  /** A test that has not registered yet was not reached either. */
  lemma {:induction false} NoneBefore(states: seq<State>, steps: seq<Step>, i: nat, t: nat)
    requires Run(states, steps) && i <= |steps| && t < |states[i].tests| && states[i].tests[t].phase == Idle
    ensures !ReachedBefore(states, steps, i, t)
  {
    hide Run, Inv, Enabled, Apply, Reaches;
    LengthOf(states, steps);
    if i > 0 {
      RunInv(states, steps, i - 1);
      StepOf(states, steps, i - 1);
      SameTests(states, steps, i - 1);
      StepOnTest(states[i - 1], steps[i - 1], t);
      NoneBefore(states, steps, i - 1, t);
    }
  }

  lemma LengthOf(states: seq<State>, steps: seq<Step>)
    requires Run(states, steps)
    ensures |states| == |steps| + 1
  {
  }

  lemma SameTests(states: seq<State>, steps: seq<Step>, i: nat)
    requires Run(states, steps) && i < |steps|
    ensures |states[i + 1].tests| == |states[i].tests|
  {
    StepOf(states, steps, i);
    hide Run, Remove;
  }

  /**
   Whatever the interleaving: the source of a registered test is cancelled exactly
   when a sweep has passed it, its deadline was seen, or its poll has looked at a run
   that was cancelled.
   */
  lemma {:induction false} CancelledExactly(states: seq<State>, steps: seq<Step>, i: nat, t: nat)
    requires Run(states, steps) && i <= |steps| && t < |states[i].tests| && states[i].tests[t].phase != Idle
    ensures states[i].tests[t].own.cancelled <==> ReachedBefore(states, steps, i, t)
  {
    if i == 0 {
      assert false;
    } else {
      hide Run, Inv, Enabled, Apply, Reaches;
      LengthOf(states, steps);
      RunInv(states, steps, i - 1);
      StepOf(states, steps, i - 1);
      SameTests(states, steps, i - 1);
      StepOnTest(states[i - 1], steps[i - 1], t);
      if states[i - 1].tests[t].phase == Idle {
        NoneBefore(states, steps, i - 1, t);
      } else {
        CancelledExactly(states, steps, i - 1, t);
      }
    }
  }

  /** Nobody calls requestCancellation: only fail-fast cancels the run. */
  ghost predicate OnlyFailFast(steps: seq<Step>) { forall k :: 0 <= k < |steps| ==> !steps[k].CancelRun? }

  lemma {:induction false} CallersStayFresh(states: seq<State>, steps: seq<Step>, i: nat)
    requires Run(states, steps) && OnlyFailFast(steps) && i < |states|
    ensures forall c :: 0 <= c < |states[i].callers| ==> states[i].callers[c].Fresh?
  {
    if i > 0 {
      CallersStayFresh(states, steps, i - 1);
      StepOf(states, steps, i - 1);
      hide Run, Remove;
    }
  }

  lemma {:induction false} BoundedStays(states: seq<State>, steps: seq<Step>, k: nat, i: nat, t: nat)
    requires Run(states, steps) && k <= i <= |steps| && t < |states[i].tests|
    ensures |states[k].tests| == |states[i].tests| && states[k].tests[t].bounded == states[i].tests[t].bounded
  {
    hide Run, Inv, Enabled, Apply, Reaches;
    LengthOf(states, steps);
    if k < i {
      SameTests(states, steps, i - 1);
      BoundedStays(states, steps, k, i - 1, t);
      RunInv(states, steps, i - 1);
      StepOf(states, steps, i - 1);
      StepOnTest(states[i - 1], steps[i - 1], t);
    }
  }

  /**
   A run that only fail-fast cancels: the source of an unbounded test is never
   cancelled, and that of a bounded one exactly when its poll has looked at the
   cancelled run, or its deadline was seen.
   */
  lemma FailFastReaches(states: seq<State>, steps: seq<Step>, i: nat, t: nat)
    requires Run(states, steps) && OnlyFailFast(steps) && i <= |steps|
    requires t < |states[i].tests| && states[i].tests[t].phase != Idle
    ensures !states[i].tests[t].bounded ==> !states[i].tests[t].own.cancelled
    ensures states[i].tests[t].own.cancelled <==>
      exists k :: 0 <= k < i
        && ((steps[k] == Forward(t) && states[k].run.cancelled) || (steps[k].Deadline? && steps[k].test == t))
  {
    CancelledExactly(states, steps, i, t);
    forall k | 0 <= k < i
      ensures Reaches(states[k], steps[k], t) ==> states[i].tests[t].bounded
      ensures Reaches(states[k], steps[k], t) <==>
        (steps[k] == Forward(t) && states[k].run.cancelled) || (steps[k].Deadline? && steps[k].test == t)
    {
      CallersStayFresh(states, steps, k);
      StepOf(states, steps, k);
      BoundedStays(states, steps, k, i, t);
      hide Run, Apply;
    }
    hide Run, Reaches;
  }

  /**
   So a fail-fast trip can reach a running test exactly if the test is bounded: then
   its next poll does, and otherwise no run that goes on without requestCancellation
   ever does.
   */
  lemma FailFastReachesBounded(states: seq<State>, steps: seq<Step>, i: nat, t: nat)
    requires Run(states, steps) && OnlyFailFast(steps) && i < |states| && states[i].run.cancelled
    requires t < |states[i].tests| && states[i].tests[t].phase == Body
    ensures Enabled(states[i], Forward(t)) <==> states[i].tests[t].bounded
    ensures states[i].tests[t].bounded ==> Apply(states[i], Forward(t)).tests[t].own.cancelled
    ensures !states[i].tests[t].bounded ==>
      forall j :: i <= j < |states| && t < |states[j].tests| && states[j].tests[t].phase != Idle ==>
        !states[j].tests[t].own.cancelled
  {
    forall j | i <= j < |states| && t < |states[j].tests| && states[j].tests[t].phase != Idle
      ensures !states[i].tests[t].bounded ==> !states[j].tests[t].own.cancelled
    {
      BoundedStays(states, steps, i, j, t);
      FailFastReaches(states, steps, j, t);
    }
    hide Run;
  }

  /** A whole run in which fail-fast trips under an unbounded body, which runs to its end and never hears of it. */
  lemma FailFastMissesUnbounded(why: string) returns (states: seq<State>, steps: seq<Step>)
    ensures Run(states, steps) && OnlyFailFast(steps) && |states| == 6 && steps[2] == FailFast(why)
    ensures forall i :: 2 <= i < 6 ==> |states[i].tests| == 1 && !states[i].tests[0].own.cancelled
    ensures |states[2].tests| == |states[5].tests| == 1 && states[3].run.cancelled
    ensures states[2].tests[0].phase == Body && states[5].tests[0].phase == Gone
  {
    var s0 := State(Source(false, ""), [Test(false, Idle, Source(false, ""))], [], [], -1);
    steps := [Register(0), Look(0), FailFast(why), EndBody(0), Unregister(0)];
    var s1 := Apply(s0, steps[0]);
    var s2 := Apply(s1, steps[1]);
    var s3 := Apply(s2, steps[2]);
    var s4 := Apply(s3, steps[3]);
    states := [s0, s1, s2, s3, s4, Apply(s4, steps[4])];
  }
}
