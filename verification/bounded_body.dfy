/**
 One execution of a test body (awaitBoundedBody and the end of runOne in
 src/execution/TestRunner.cpp) as a state machine: the waiting worker, the helper
 thread, the clock, and the cancellation of the run.  Time only appears as the
 events "the deadline passed", "a slice is over" and "the grace period is over".
 */
module BoundedBody {
  import opened Text
  import opened Classifier

  /** What the body leaves in the shared bundle. */
  datatype Report = Report(status: Status, category: Category, notes: Notes)

  datatype Verdict = Verdict(status: Status, category: Category)

  /** Where the worker is; Inline is the body of an unbounded test. */
  datatype Pc =
    | Inline | LoopHead | Waiting | Forwarding | Expired | Grace | Joining | Detaching | Adopting | Abandoned
    | Reading | Judging(read: Report) | Finished

  datatype State = State(
    bounded: bool, pc: Pc, bundle: Option<Report>,
    deadlinePassed: bool, runCancelled: bool, ownCancelled: bool,
    exceeded: bool, joined: bool, detached: bool, adopted: nat, verdict: Option<Verdict>)

  datatype Step =
    | BodyEnds(report: Report)   // the helper thread fulfils its promise
    | DeadlinePasses
    | RunCancels
    | Sweep                      // requestCancellation reaches this test's source
    | InlineEnds(report: Report)
    | Turn                       // the worker looks at the clock
    | SliceReady
    | SliceOver
    | ForwardTurn
    | Expire                     // the deadline was seen: cancel, then wait a little
    | GraceReady
    | GraceOver
    | Join
    | Detach
    | Adopt
    | Describe                   // the verdict for an abandoned test
    | Read                       // the bundle is read
    | Judge

  predicate BodyRunning(s: State) { s.bundle.None? }

  predicate Enabled(s: State, step: Step) {
    match step
    case BodyEnds(_) => s.bounded && BodyRunning(s)
    case DeadlinePasses => true
    case RunCancels => true
    case Sweep => s.runCancelled
    case InlineEnds(_) => s.pc == Inline
    case Turn => s.pc == LoopHead
    case SliceReady => s.pc == Waiting && !BodyRunning(s)
    case SliceOver => s.pc == Waiting && BodyRunning(s)
    case ForwardTurn => s.pc == Forwarding
    case Expire => s.pc == Expired
    case GraceReady => s.pc == Grace && !BodyRunning(s)
    case GraceOver => s.pc == Grace && BodyRunning(s)
    case Join => s.pc == Joining && !BodyRunning(s)
    case Detach => s.pc == Detaching
    case Adopt => s.pc == Adopting
    case Describe => s.pc == Abandoned
    case Read => s.pc == Reading
    case Judge => s.pc.Judging?
  }

  /** overrideVerdictForCancellation: the deadline comes first, then the run. */
  function Overridden(exceeded: bool, byRun: bool, v: Verdict): Verdict {
    if exceeded then Verdict(Timeout, TimedOut) else if byRun then Verdict(Skipped, NoFailure) else v
  }

  /** The second classification pass, with the notes of the test at hand. */
  function Refined(v: Verdict, notes: Notes): Verdict {
    if IsFailure(v.status) then v.(category := Refine(v.category, notes)) else v
  }

  /** A read of the bundle while the body still writes to it would see anything; here, a fixed junk value. */
  const JUNK: Report := Report(Passed, NoFailure, Notes(None, None, None, None))

  function Apply(s: State, step: Step): State
    requires Enabled(s, step)
  {
    match step
    case BodyEnds(r) => s.(bundle := Some(r))
    case DeadlinePasses => s.(deadlinePassed := true)
    case RunCancels => s.(runCancelled := true)
    case Sweep => s.(ownCancelled := true)
    case InlineEnds(r) => s.(bundle := Some(r), pc := Reading)
    case Turn => s.(pc := if s.deadlinePassed then Expired else Waiting)
    case SliceReady => s.(pc := Joining)
    case SliceOver => s.(pc := Forwarding)
    case ForwardTurn => s.(pc := LoopHead, ownCancelled := s.ownCancelled || s.runCancelled)
    case Expire => s.(pc := Grace, exceeded := true, ownCancelled := true)
    case GraceReady => s.(pc := Joining)
    case GraceOver => s.(pc := Detaching)
    case Join => s.(pc := Reading, joined := true)
    case Detach => s.(pc := Adopting, detached := true)
    case Adopt => s.(pc := Abandoned, adopted := s.adopted + 1)
    case Describe => s.(pc := Finished, verdict := Some(Verdict(Timeout, TimedOut)))
    case Read => s.(pc := Judging(if s.bundle.Some? then s.bundle.value else JUNK))
    case Judge =>
      var byRun := s.ownCancelled && !s.exceeded;
      var own := Verdict(s.pc.read.status, s.pc.read.category);
      s.(pc := Finished, verdict := Some(Refined(Overridden(s.exceeded, byRun, own), s.pc.read.notes)))
  }

  ghost predicate Initial(s: State) {
    && s.pc == (if s.bounded then LoopHead else Inline) && s.bundle == None
    && !s.ownCancelled && !s.exceeded && !s.joined && !s.detached && s.adopted == 0 && s.verdict == None
  }

  // ---- the invariant -------------------------------------------------------------------

  /** The thread is disposed of exactly once, and in the right order. */
  ghost predicate Disposal(s: State) {
    && (s.pc == Inline || (!s.bounded && s.pc in {Reading, Finished}) || (!s.bounded && s.pc.Judging?) || s.bounded)
    && (!s.bounded ==> !s.joined && !s.detached)
    && (s.pc in {Inline, LoopHead, Waiting, Forwarding, Expired, Grace, Joining, Detaching} ==>
      !s.joined && !s.detached)
    && (s.pc in {Adopting, Abandoned} ==> s.detached && !s.joined)
    && (s.bounded && (s.pc == Reading || s.pc.Judging?) ==> s.joined && !s.detached)
    && (s.bounded && s.pc == Finished ==> (s.joined <==> !s.detached))
    && s.adopted == (if s.detached && s.pc != Adopting then 1 else 0)
    && (s.pc in {Joining, Reading} || s.pc.Judging? || s.joined ==> s.bundle.Some?)
    && (s.pc.Judging? ==> s.bundle == Some(s.pc.read))
  }

  ghost predicate Deadlines(s: State) {
    && (s.exceeded ==> s.bounded && s.deadlinePassed && s.ownCancelled)
    && (s.pc == Expired ==> s.deadlinePassed)
    && (s.pc in {Grace, Detaching, Adopting, Abandoned} || s.detached ==> s.exceeded)
    && (s.pc in {Inline, LoopHead, Waiting, Forwarding, Expired} ==> !s.exceeded)
    && (s.pc == Inline || !s.bounded ==> !s.exceeded)
    && (s.ownCancelled && !s.exceeded ==> s.runCancelled)
  }

  ghost predicate Verdicts(s: State) {
    && (s.pc == Finished <==> s.verdict.Some?)
    && (s.pc == Finished && s.exceeded ==> s.verdict == Some(Verdict(Timeout, TimedOut)))
    && (s.pc == Finished ==> s.detached || s.bundle.Some?)
  }

  ghost predicate Inv(s: State) { Disposal(s) && Deadlines(s) && Verdicts(s) && (s.bounded ==> s.pc != Inline) }

  lemma TimeoutIsFinal(notes: Notes)
    ensures Refine(TimedOut, notes) == TimedOut
  {
    RefineSharpens(TimedOut, notes);
    hide Refine;
  }

  lemma InitialInv(s: State)
    requires Initial(s)
    ensures Inv(s)
  {
  }

  lemma StepInv(s: State, step: Step)
    requires Inv(s) && Enabled(s, step)
    ensures Inv(Apply(s, step))
  {
    hide Refine;
    if step.Judge? {
      TimeoutIsFinal(s.pc.read.notes);
    }
  }

  ghost predicate Run(states: seq<State>, steps: seq<Step>) {
    && |states| == |steps| + 1 && Initial(states[0])
    && forall i :: 0 <= i < |steps| ==> Enabled(states[i], steps[i]) && states[i + 1] == Apply(states[i], steps[i])
  }

  lemma {:induction false} RunInv(states: seq<State>, steps: seq<Step>, i: nat)
    requires Run(states, steps) && i < |states|
    ensures Inv(states[i])
  {
    if i == 0 {
      InitialInv(states[0]);
    } else {
      RunInv(states, steps, i - 1);
      hide Inv, Enabled, Apply, Initial;
      StepInv(states[i - 1], steps[i - 1]);
    }
  }

  // ---- what holds for every interleaving --------------------------------------------------

  /** The helper thread ends up joined, or detached and adopted once; never both, never neither. */
  lemma JoinedOrAdopted(states: seq<State>, steps: seq<Step>, i: nat)
    requires Run(states, steps) && i < |states| && states[i].pc == Finished && states[i].bounded
    ensures var s := states[i];
      (s.joined && !s.detached && s.adopted == 0) || (!s.joined && s.detached && s.adopted == 1)
  {
    RunInv(states, steps, i);
    hide Run, Deadlines, Verdicts;
  }

  /** The bundle is only read when the body has ended, and on the bounded path after the join. */
  lemma ReadAfterJoin(states: seq<State>, steps: seq<Step>, i: nat)
    requires Run(states, steps) && i < |steps| && (steps[i] == Read || steps[i] == Judge)
    ensures !BodyRunning(states[i]) && (states[i].bounded ==> states[i].joined && !states[i].detached)
  {
    RunInv(states, steps, i);
    assert Enabled(states[i], steps[i]);
    hide Run, Deadlines, Verdicts;
  }

  // ---- the verdict, from the history of the run ---------------------------------------------

  /** The steps that cancel the source of this test. */
  predicate Tells(s: State, step: Step) { step == Sweep || step == Expire || (step == ForwardTurn && s.runCancelled) }

  /** The run's cancellation was passed on to this test within the first i steps. */
  ghost predicate Told(states: seq<State>, steps: seq<Step>, i: nat)
    requires Run(states, steps) && i <= |steps|
  {
    exists k :: 0 <= k < i && Tells(states[k], steps[k])
  }

  lemma StepOf(states: seq<State>, steps: seq<Step>, i: nat)
    requires Run(states, steps) && i < |steps|
    ensures Enabled(states[i], steps[i]) && states[i + 1] == Apply(states[i], steps[i])
  {
  }

  /** What one step does to the three flags. */
  lemma FlagsOfStep(s: State, step: Step)
    requires Enabled(s, step)
    ensures Apply(s, step).exceeded <==> s.exceeded || step == Expire
    ensures Apply(s, step).runCancelled <==> s.runCancelled || step == RunCancels
    ensures Apply(s, step).ownCancelled <==> s.ownCancelled || Tells(s, step)
  {
    hide Refined, Overridden, Refine;
    match step
    case BodyEnds(_) =>
    case InlineEnds(_) =>
    case Judge =>
    case Read =>
    case Turn =>
    case _ =>
  }

  /** The flags say exactly which steps were taken; none of them is ever taken back. */
  lemma {:induction false} FlagsOfRun(states: seq<State>, steps: seq<Step>, i: nat)
    requires Run(states, steps) && i <= |steps|
    ensures states[i].exceeded <==> Expire in steps[..i]
    ensures states[i].runCancelled <==> states[0].runCancelled || RunCancels in steps[..i]
    ensures states[i].ownCancelled <==> Told(states, steps, i)
  {
    if i > 0 {
      FlagsOfRun(states, steps, i - 1);
      StepOf(states, steps, i - 1);
      assert steps[..i] == steps[..i - 1] + [steps[i - 1]];
      hide Run, Apply, Enabled, Tells;
      FlagsOfStep(states[i - 1], steps[i - 1]);
    }
  }

  /** A run cancelled before a poll or a sweep has its cancellation passed on. */
  lemma CancelledThenPolled(states: seq<State>, steps: seq<Step>, a: nat, b: nat, i: nat)
    requires Run(states, steps) && a < b < i <= |steps|
    requires steps[a] == RunCancels && (steps[b] == ForwardTurn || steps[b] == Sweep)
    ensures Told(states, steps, i)
  {
    assert steps[..b][a] == RunCancels;
    FlagsOfRun(states, steps, b);
    hide Run, Apply, Enabled;
    assert Tells(states[b], steps[b]);
  }

  /** The clock had passed the deadline when the worker looked at it. */
  predicate SeesDeadline(s: State, step: Step) { step == Turn && s.deadlinePassed }

  ghost predicate DeadlineSeen(states: seq<State>, steps: seq<Step>, i: nat)
    requires Run(states, steps) && i <= |steps|
  {
    exists k :: 0 <= k < i && SeesDeadline(states[k], steps[k])
  }

  predicate Overdue(s: State) { s.exceeded || s.pc == Expired }

  lemma OverdueOfStep(s: State, step: Step)
    requires Inv(s) && Enabled(s, step)
    ensures Overdue(Apply(s, step)) <==> Overdue(s) || SeesDeadline(s, step)
    ensures Apply(s, step).deadlinePassed <==> s.deadlinePassed || step == DeadlinePasses
  {
    hide Refined, Overridden, Refine, Disposal, Verdicts;
    match step
    case BodyEnds(_) =>
    case InlineEnds(_) =>
    case Judge =>
    case Read =>
    case Turn =>
    case _ =>
  }

  /** What the clock and the looks at it have come to. */
  lemma {:induction false} OverdueOfRun(states: seq<State>, steps: seq<Step>, i: nat)
    requires Run(states, steps) && i <= |steps|
    ensures Overdue(states[i]) <==> DeadlineSeen(states, steps, i)
    ensures states[i].deadlinePassed <==> states[0].deadlinePassed || DeadlinePasses in steps[..i]
  {
    if i > 0 {
      OverdueOfRun(states, steps, i - 1);
      RunInv(states, steps, i - 1);
      StepOf(states, steps, i - 1);
      assert steps[..i] == steps[..i - 1] + [steps[i - 1]];
      hide Run, Apply, Enabled, Inv, Overdue, SeesDeadline;
      OverdueOfStep(states[i - 1], steps[i - 1]);
    }
  }

  /** If the deadline passes before a look at the clock, the verdict at the end is Timeout. */
  lemma PassedDeadlineTimesOut(states: seq<State>, steps: seq<Step>, a: nat, b: nat, i: nat)
    requires Run(states, steps) && a < b < i <= |steps| && steps[a] == DeadlinePasses && steps[b] == Turn
    requires states[i].pc == Finished
    ensures states[i].verdict == Some(Verdict(Timeout, TimedOut))
  {
    assert steps[..b][a] == DeadlinePasses;
    OverdueOfRun(states, steps, b);
    OverdueOfRun(states, steps, i);
    RunInv(states, steps, i);
    hide Run, Disposal, Deadlines;
    assert SeesDeadline(states[b], steps[b]);
  }

  /**
   At the end, the deadline was exceeded exactly if it had passed at some look at the
   clock: a body that ends in the last slice is not late, whatever the clock says then.
   */
  lemma ExceededExactly(states: seq<State>, steps: seq<Step>, i: nat)
    requires Run(states, steps) && i <= |steps| && states[i].pc == Finished
    ensures Expire in steps[..i] <==>
      exists k :: 0 <= k < i && steps[k] == Turn && (states[0].deadlinePassed || DeadlinePasses in steps[..k])
  {
    FlagsOfRun(states, steps, i);
    OverdueOfRun(states, steps, i);
    forall k | 0 <= k < i
      ensures SeesDeadline(states[k], steps[k]) <==>
        steps[k] == Turn && (states[0].deadlinePassed || DeadlinePasses in steps[..k])
    {
      OverdueOfRun(states, steps, k);
    }
    hide Run, SeesDeadline;
  }

  /** The verdict falls once, in the step that judges the body or describes the abandoned test. */
  lemma {:induction false} VerdictFalls(states: seq<State>, steps: seq<Step>, i: nat) returns (j: nat)
    requires Run(states, steps) && i < |states| && states[i].pc == Finished
    ensures j < i && (steps[j] == Judge || steps[j] == Describe) && states[i].verdict == states[j + 1].verdict
  {
    if i == 0 {
      assert false;
    } else {
      StepOf(states, steps, i - 1);
      hide Run, Refined, Overridden;
      if states[i - 1].pc == Finished {
        j := VerdictFalls(states, steps, i - 1);
      } else {
        j := i - 1;
      }
    }
  }

  /**
   The verdict of a body that is judged, told by the steps before: Timeout if the
   worker saw the deadline; otherwise Skipped exactly if the cancellation of the run
   had been passed on by a poll or a sweep; otherwise the body's own verdict, refined.
   */
  lemma JudgedVerdict(states: seq<State>, steps: seq<Step>, j: nat)
    requires Run(states, steps) && j < |steps| && steps[j] == Judge
    ensures states[j].bundle.Some?
    ensures var r := states[j].bundle.value;
      states[j + 1].verdict ==
        if Expire in steps[..j] then Some(Verdict(Timeout, TimedOut))
        else if Told(states, steps, j) then Some(Verdict(Skipped, NoFailure))
        else Some(Refined(Verdict(r.status, r.category), r.notes))
  {
    RunInv(states, steps, j);
    FlagsOfRun(states, steps, j);
    StepOf(states, steps, j);
    hide Run, Refine, Told, Deadlines, Verdicts;
    TimeoutIsFinal(states[j].bundle.value.notes);
  }

  /** An abandoned test always timed out. */
  lemma DescribedVerdict(states: seq<State>, steps: seq<Step>, j: nat)
    requires Run(states, steps) && j < |steps| && steps[j] == Describe
    ensures Expire in steps[..j] && states[j + 1].verdict == Some(Verdict(Timeout, TimedOut))
  {
    RunInv(states, steps, j);
    FlagsOfRun(states, steps, j);
    StepOf(states, steps, j);
    hide Run, Told, Disposal, Verdicts;
  }

  /** The body's own verdict: its status, and for a failure the category that base and evidence call for. */
  ghost predicate Own(r: Report, v: Verdict) {
    && v.status == r.status
    && (if IsFailure(r.status) then RefinesTo(r.category, r.notes, v.category) else v.category == r.category)
    && Specificity(v.category) >= Specificity(r.category)
    && (v.category != r.category ==> Specificity(v.category) > Specificity(r.category))
  }

  /** The second classification pass keeps the status, and sharpens the category of a failure as the evidence says. */
  lemma OwnVerdict(r: Report)
    ensures Own(r, Refined(Verdict(r.status, r.category), r.notes))
  {
    hide Refine, Specificity, RefinesTo;
    RefineSharpens(r.category, r.notes);
    RefineExactly(r.category, r.notes);
  }

  /**
   At the end of every run: Timeout if the worker saw the deadline, whatever the body
   and the run did and whatever the test noted; with no deadline seen, a test to which
   the cancellation of the run was passed on before it was judged is skipped without a
   category, and any other keeps its own status, with the category that its own and
   the evidence call for, never a vaguer one.
   */
  lemma FinalVerdict(states: seq<State>, steps: seq<Step>, i: nat) returns (j: nat)
    requires Run(states, steps) && i < |states| && states[i].pc == Finished
    ensures j < i && states[i].verdict.Some?
    ensures var v := states[i].verdict.value;
      if Expire in steps[..j] then v == Verdict(Timeout, TimedOut)
      else
        && steps[j] == Judge && states[j].bundle.Some?
        && if Told(states, steps, j) then v == Verdict(Skipped, NoFailure) else Own(states[j].bundle.value, v)
  {
    j := VerdictFalls(states, steps, i);
    hide Told, Refined, Specificity, Own;
    if steps[j] == Judge {
      JudgedVerdict(states, steps, j);
      OwnVerdict(states[j].bundle.value);
    } else {
      DescribedVerdict(states, steps, j);
    }
  }

  /** The worker always has a next step, so only the deadline can keep it waiting. */
  lemma WorkerNeverStalls(s: State, report: Report) returns (step: Step)
    requires Inv(s) && s.pc != Finished
    ensures Enabled(s, step) && IsWorkerStep(step)
  {
    step := match s.pc
      case Inline => InlineEnds(report)
      case LoopHead => Turn
      case Waiting => if BodyRunning(s) then SliceOver else SliceReady
      case Forwarding => ForwardTurn
      case Expired => Expire
      case Grace => if BodyRunning(s) then GraceOver else GraceReady
      case Joining => Join
      case Detaching => Detach
      case Adopting => Adopt
      case Abandoned => Describe
      case Reading => Read
      case Judging(_) => Judge;
  }

  function Distance(pc: Pc): nat {
    match pc
    case Finished => 0
    case Judging(_) => 1
    case Reading => 2
    case Joining => 3
    case Abandoned => 1
    case Adopting => 2
    case Detaching => 3
    case Grace => 4
    case Expired => 5
    case LoopHead => 6
    case Forwarding => 7
    case Waiting => 8
    case Inline => 3
  }

  predicate IsWorkerStep(step: Step) {
    !(step.BodyEnds? || step.DeadlinePasses? || step.RunCancels? || step.Sweep?)
  }

  /**
   Once the deadline has passed, each of the worker's own steps, of which there are at most eight, brings the verdict
   closer.
   */
  lemma DeadlineEndsTheWait(s: State, step: Step)
    requires s.deadlinePassed && Enabled(s, step)
    ensures Distance(s.pc) <= 8 && Apply(s, step).deadlinePassed
    ensures if IsWorkerStep(step) then Distance(Apply(s, step).pc) < Distance(s.pc) else Apply(s, step).pc == s.pc
  {
    hide Refined, Overridden;
    match step
    case BodyEnds(_) =>
    case DeadlinePasses =>
    case RunCancels =>
    case Sweep =>
    case InlineEnds(_) =>
    case Turn =>
    case Judge =>
    case Read =>
    case _ =>
  }
}
