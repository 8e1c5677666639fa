/**
 The worker pool (src/execution/ThreadPool.cpp, include/testforge/execution/ThreadPool.hpp)
 as a state machine.  What a thread does while it holds the mutex is one step;
 notifications given after the mutex is released are steps of their own, so other
 threads can come in between.
 */
module Pool {

  /** AtWait is on the way to checking the wait condition under the mutex. */
  datatype Worker = AtWait | Sleeping | Running(task: nat) | Exited

  /** A caller of waitIdle. */
  datatype Waiter = Checking | Dozing | Returned

  /** A caller of shutdown, or of shutdownNow when `now`. */
  datatype Phase = Fresh | Owing | WantsJoin | Holding | Done
  datatype Closer = Closer(now: bool, phase: Phase)

  datatype State = State(
    queue: seq<nat>, pending: int, stopping: bool, discard: bool,
    workers: seq<Worker>, owed: nat, waiters: seq<Waiter>, closers: seq<Closer>, joined: bool,
    accepted: seq<nat>, started: seq<nat>, finished: multiset<nat>, dropped: seq<nat>)

  // ---- counting ------------------------------------------------------------------------

  datatype Kind = Awake | Asleep | Busy

  predicate Is(k: Kind, w: Worker) {
    match k
    case Awake => w.AtWait?
    case Asleep => w.Sleeping?
    case Busy => w.Running?
  }

  function Count(k: Kind, ws: seq<Worker>): nat {
    if ws == [] then 0 else Count(k, ws[..|ws| - 1]) + if Is(k, ws[|ws| - 1]) then 1 else 0
  }

  function TasksOf(ws: seq<Worker>): multiset<nat> {
    if ws == [] then multiset{}
    else TasksOf(ws[..|ws| - 1]) + TaskOf(ws[|ws| - 1])
  }

  function One(k: Kind, w: Worker): nat { if Is(k, w) then 1 else 0 }

  function TaskOf(w: Worker): multiset<nat> { if w.Running? then multiset{w.task} else multiset{} }

  lemma {:induction false} CountUpdate(k: Kind, ws: seq<Worker>, i: nat, w: Worker)
    requires i < |ws|
    ensures Count(k, ws[i := w]) + One(k, ws[i]) == Count(k, ws) + One(k, w)
  {
    var last := |ws| - 1;
    if i == last {
      assert ws[i := w][..last] == ws[..last];
    } else {
      assert ws[i := w][..last] == ws[..last][i := w];
      CountUpdate(k, ws[..last], i, w);
    }
  }

  lemma TasksLast(ws: seq<Worker>, w: Worker)
    ensures TasksOf(ws + [w]) == TasksOf(ws) + TaskOf(w)
  {
    assert (ws + [w])[..|ws|] == ws;
  }

  lemma {:induction false} TasksUpdate(ws: seq<Worker>, i: nat, w: Worker)
    requires i < |ws|
    ensures TasksOf(ws[i := w]) + TaskOf(ws[i]) == TasksOf(ws) + TaskOf(w)
  {
    var last := |ws| - 1;
    var front := ws[..last];
    hide TaskOf, TasksOf;
    assert ws == front + [ws[last]];
    TasksLast(front, ws[last]);
    if i == last {
      assert ws[i := w] == front + [w];
      TasksLast(front, w);
      Exchange(TasksOf(front), TasksOf(front), TaskOf(w), TaskOf(ws[i]), multiset{});
    } else {
      assert ws[i := w] == front[i := w] + [ws[last]];
      TasksLast(front[i := w], ws[last]);
      TasksUpdate(front, i, w);
      Exchange(TasksOf(front[i := w]), TasksOf(front), TaskOf(ws[last]), TaskOf(ws[i]), TaskOf(w));
    }
  }

  lemma Exchange(a: multiset<nat>, b: multiset<nat>, x: multiset<nat>, t: multiset<nat>, u: multiset<nat>)
    ensures a + t == b + u ==> (a + x) + t == (b + x) + u
    ensures (a + x) + t == (a + t) + x
  {
    assert (a + x) + t == (a + t) + x;
    assert (b + x) + u == (b + u) + x;
  }

  lemma TasksUpdateCases(ws: seq<Worker>, i: nat, w: Worker)
    requires i < |ws|
    ensures !ws[i].Running? && !w.Running? ==> TasksOf(ws[i := w]) == TasksOf(ws)
    ensures ws[i].Running? && !w.Running? ==> TasksOf(ws) == TasksOf(ws[i := w]) + multiset{ws[i].task}
    ensures !ws[i].Running? && w.Running? ==> TasksOf(ws[i := w]) == TasksOf(ws) + multiset{w.task}
  {
    hide TasksOf;
    TasksUpdate(ws, i, w);
    var a, b := TasksOf(ws[i := w]), TasksOf(ws);
    assert a + multiset{} == a && b + multiset{} == b;
  }

  lemma {:induction false} CountZero(k: Kind, ws: seq<Worker>)
    ensures Count(k, ws) == 0 <==> forall i :: 0 <= i < |ws| ==> !Is(k, ws[i])
  {
    if ws != [] {
      CountZero(k, ws[..|ws| - 1]);
      assert forall i :: 0 <= i < |ws| - 1 ==> ws[i] == ws[..|ws| - 1][i];
    }
  }

  lemma {:induction false} NoTasks(ws: seq<Worker>)
    requires forall i :: 0 <= i < |ws| ==> !ws[i].Running?
    ensures TasksOf(ws) == multiset{}
  {
    if ws != [] {
      NoTasks(ws[..|ws| - 1]);
    }
  }

  function Woken(w: Worker): Worker { if w.Sleeping? then AtWait else w }

  /** notify_all on the work condition. */
  function WakeAll(ws: seq<Worker>): (r: seq<Worker>)
    ensures |r| == |ws| && forall i :: 0 <= i < |ws| ==> r[i] == Woken(ws[i])
  {
    seq(|ws|, i requires 0 <= i < |ws| => Woken(ws[i]))
  }

  lemma {:induction false} CountWoken(ws: seq<Worker>)
    ensures Count(Busy, WakeAll(ws)) == Count(Busy, ws) && TasksOf(WakeAll(ws)) == TasksOf(ws)
    ensures Count(Asleep, WakeAll(ws)) == 0
    ensures Count(Awake, WakeAll(ws)) == Count(Awake, ws) + Count(Asleep, ws)
  {
    if ws != [] {
      CountWoken(ws[..|ws| - 1]);
      assert WakeAll(ws)[..|ws| - 1] == WakeAll(ws[..|ws| - 1]);
    }
  }

  /** notify_all on the idle condition. */
  function Rouse(waiters: seq<Waiter>): (r: seq<Waiter>)
    ensures |r| == |waiters|
    ensures forall i :: 0 <= i < |waiters| ==> r[i] == if waiters[i].Dozing? then Checking else waiters[i]
  {
    seq(|waiters|, i requires 0 <= i < |waiters| => if waiters[i].Dozing? then Checking else waiters[i])
  }

  // ---- steps -----------------------------------------------------------------------------

  datatype Step =
    | Submit                    // the locked part of submit()
    | Notify(worker: nat)       // its notify_one, reaching a sleeping worker
    | NotifyNobody              // its notify_one, when nobody sleeps
    | Spurious(worker: nat)     // a worker wakes for no reason
    | Turn(worker: nat)         // the locked part of workerLoop
    | Finish(worker: nat)       // a task ends, and the pool is told
    | Check(waiter: nat)        // waitIdle looks at the counter
    | Stir(waiter: nat)         // a caller of waitIdle wakes for no reason
    | Close(closer: nat)        // the locked part of shutdown or shutdownNow
    | NotifyAll(closer: nat)
    | TakeJoin(closer: nat)     // joinMutex_ is taken
    | Join(closer: nat)         // every worker is joined, or had been before

  predicate Enabled(s: State, step: Step) {
    match step
    case Submit => true
    case Notify(w) => s.owed > 0 && w < |s.workers| && s.workers[w].Sleeping?
    case NotifyNobody => s.owed > 0 && forall w :: 0 <= w < |s.workers| ==> !s.workers[w].Sleeping?
    case Spurious(w) => w < |s.workers| && s.workers[w].Sleeping?
    case Turn(w) => w < |s.workers| && s.workers[w].AtWait?
    case Finish(w) => w < |s.workers| && s.workers[w].Running?
    case Check(i) => i < |s.waiters| && s.waiters[i].Checking?
    case Stir(i) => i < |s.waiters| && s.waiters[i].Dozing?
    case Close(c) => c < |s.closers| && s.closers[c].phase == Fresh
    case NotifyAll(c) => c < |s.closers| && s.closers[c].phase == Owing
    case TakeJoin(c) =>
      && c < |s.closers| && s.closers[c].phase == WantsJoin
      && forall d :: 0 <= d < |s.closers| ==> s.closers[d].phase != Holding
    case Join(c) =>
      && c < |s.closers| && s.closers[c].phase == Holding
      && (s.joined || forall w :: 0 <= w < |s.workers| ==> s.workers[w].Exited?)
  }

  function SetPhase(s: State, c: nat, phase: Phase): State
    requires c < |s.closers|
  {
    s.(closers := s.closers[c := s.closers[c].(phase := phase)])
  }

  /** The locked part of workerLoop: sleep, leave, drop the queue and leave, or take a task. */
  function TurnOf(s: State, w: nat): State
    requires w < |s.workers|
  {
    if s.queue == [] then
      s.(workers := s.workers[w := if s.stopping then Exited else Sleeping])
    else if s.stopping && s.discard then
      s.(queue := [], pending := s.pending - |s.queue|, dropped := s.dropped + s.queue,
         waiters := Rouse(s.waiters), workers := s.workers[w := Exited])
    else
      s.(queue := s.queue[1..], started := s.started + [s.queue[0]], workers := s.workers[w := Running(s.queue[0])])
  }

  function FinishOf(s: State, w: nat): State
    requires w < |s.workers| && s.workers[w].Running?
  {
    var pending := s.pending - 1;
    s.(pending := pending, waiters := if pending == 0 then Rouse(s.waiters) else s.waiters,
       finished := s.finished + multiset{s.workers[w].task}, workers := s.workers[w := AtWait])
  }

  function Apply(s: State, step: Step): State
    requires Enabled(s, step)
  {
    match step
    case Submit =>
      if s.stopping then s
      else s.(queue := s.queue + [|s.accepted|], pending := s.pending + 1, accepted := s.accepted + [|s.accepted|],
              owed := s.owed + 1)
    case Notify(w) => s.(owed := s.owed - 1, workers := s.workers[w := AtWait])
    case NotifyNobody => s.(owed := s.owed - 1)
    case Spurious(w) => s.(workers := s.workers[w := AtWait])
    case Turn(w) => TurnOf(s, w)
    case Finish(w) => FinishOf(s, w)
    case Check(i) => s.(waiters := s.waiters[i := if s.pending == 0 then Returned else Dozing])
    case Stir(i) => s.(waiters := s.waiters[i := Checking])
    case Close(c) => SetPhase(s, c, Owing).(stopping := true, discard := s.closers[c].now)
    case NotifyAll(c) => SetPhase(s, c, WantsJoin).(workers := WakeAll(s.workers))
    case TakeJoin(c) => SetPhase(s, c, Holding)
    case Join(c) => SetPhase(s, c, Done).(joined := true)
  }

  /** Any number of workers, at least one, and of callers that have not called yet. */
  ghost predicate Initial(s: State) {
    && s.queue == [] && s.pending == 0 && !s.stopping && !s.discard && s.owed == 0 && !s.joined
    && s.workers != [] && (forall w :: 0 <= w < |s.workers| ==> s.workers[w] == AtWait)
    && (forall i :: 0 <= i < |s.waiters| ==> s.waiters[i] == Checking)
    && (forall c :: 0 <= c < |s.closers| ==> s.closers[c].phase == Fresh)
    && s.accepted == [] && s.started == [] && s.finished == multiset{} && s.dropped == []
  }

  // ---- the invariant ----------------------------------------------------------------------

  predicate SomeOwing(s: State) { exists c :: 0 <= c < |s.closers| && s.closers[c].phase == Owing }

  /** Every accepted task is in exactly one place, in the order of submission. */
  ghost predicate Accounts(s: State) {
    && s.pending == |s.queue| + Count(Busy, s.workers)
    && s.accepted == s.started + s.dropped + s.queue
    && (forall i :: 0 <= i < |s.accepted| ==> s.accepted[i] == i)
    && multiset(s.started) == s.finished + TasksOf(s.workers)
    && (s.dropped != [] ==> s.queue == [] && s.stopping)
  }

  /** No wake-up is lost. */
  ghost predicate Wakeups(s: State) {
    && (!s.stopping && Count(Asleep, s.workers) > 0 ==> |s.queue| <= s.owed + Count(Awake, s.workers))
    && (s.stopping && !SomeOwing(s) ==> Count(Asleep, s.workers) == 0)
    && (s.pending == 0 ==> forall i :: 0 <= i < |s.waiters| ==> !s.waiters[i].Dozing?)
  }

  ghost predicate Shutdown(s: State) {
    && s.workers != []
    && (forall w :: 0 <= w < |s.workers| && s.workers[w].Exited? ==> s.stopping && s.queue == [])
    && (s.joined ==> forall w :: 0 <= w < |s.workers| ==> s.workers[w].Exited?)
    && (forall c :: 0 <= c < |s.closers| && s.closers[c].phase != Fresh ==> s.stopping)
    && (forall c :: 0 <= c < |s.closers| && s.closers[c].phase == Done ==> s.joined)
    && ((forall c :: 0 <= c < |s.closers| ==> !s.closers[c].now) ==> !s.discard && s.dropped == [])
  }

  ghost predicate Inv(s: State) { Accounts(s) && Wakeups(s) && Shutdown(s) }

  lemma InitialInv(s: State)
    requires Initial(s)
    ensures Inv(s)
  {
    CountZero(Busy, s.workers);
    CountZero(Asleep, s.workers);
    NoTasks(s.workers);
  }

  /** What replacing one worker does to the counts. */
  lemma WorkerCounts(s: State, w: nat, now: Worker)
    requires w < |s.workers|
    ensures var ws := s.workers[w := now];
      && Count(Busy, ws) + One(Busy, s.workers[w]) == Count(Busy, s.workers) + One(Busy, now)
      && Count(Awake, ws) + One(Awake, s.workers[w]) == Count(Awake, s.workers) + One(Awake, now)
      && Count(Asleep, ws) + One(Asleep, s.workers[w]) == Count(Asleep, s.workers) + One(Asleep, now)
      && (!s.workers[w].Running? && !now.Running? ==> TasksOf(ws) == TasksOf(s.workers))
      && (s.workers[w].Running? && !now.Running? ==> TasksOf(s.workers) == TasksOf(ws) + multiset{s.workers[w].task})
      && (!s.workers[w].Running? && now.Running? ==> TasksOf(ws) == TasksOf(s.workers) + multiset{now.task})
  {
    CountUpdate(Busy, s.workers, w, now);
    CountUpdate(Awake, s.workers, w, now);
    CountUpdate(Asleep, s.workers, w, now);
    TasksUpdateCases(s.workers, w, now);
  }

  lemma AccountsKept(s: State, step: Step)
    requires Inv(s) && Enabled(s, step)
    ensures Accounts(Apply(s, step))
  {
    hide Count, TasksOf, SomeOwing;
    match step
    case Notify(w) => WorkerCounts(s, w, AtWait);
    case Spurious(w) => WorkerCounts(s, w, AtWait);
    case Turn(w) => TurnAccounts(s, w);
    case Finish(w) => FinishAccounts(s, w);
    case NotifyAll(c) => CountWoken(s.workers);
    case Submit =>
      if !s.stopping {
        assert s.accepted + [|s.accepted|] == s.started + s.dropped + (s.queue + [|s.accepted|]);
      }
    case _ =>
  }

  lemma TurnAccounts(s: State, w: nat)
    requires Inv(s) && Enabled(s, Turn(w))
    ensures Accounts(TurnOf(s, w))
  {
    hide Count, TasksOf, Wakeups, Shutdown;
    if s.queue == [] {
      WorkerCounts(s, w, TurnOf(s, w).workers[w]);
    } else if s.stopping && s.discard {
      DropAccounts(s, w);
    } else {
      TakeAccounts(s, w);
    }
  }

  lemma DropAccounts(s: State, w: nat)
    requires Accounts(s) && Enabled(s, Turn(w)) && s.queue != [] && s.stopping && s.discard
    ensures Accounts(TurnOf(s, w))
  {
    hide Count, TasksOf;
    WorkerCounts(s, w, Exited);
    TakenInOrder(s.started, s.dropped, s.queue);
  }

  lemma TakeAccounts(s: State, w: nat)
    requires Accounts(s) && Enabled(s, Turn(w)) && s.queue != [] && !(s.stopping && s.discard)
    ensures Accounts(TurnOf(s, w))
  {
    hide Count, TasksOf;
    WorkerCounts(s, w, Running(s.queue[0]));
    TakenInOrder(s.started, s.dropped, s.queue);
    var before, after := TasksOf(s.workers), TasksOf(TurnOf(s, w).workers);
    assert s.finished + (before + multiset{s.queue[0]}) == (s.finished + before) + multiset{s.queue[0]};
  }

  lemma TakenInOrder(started: seq<nat>, dropped: seq<nat>, queue: seq<nat>)
    requires queue != [] && dropped == []
    ensures (started + [queue[0]]) + dropped + queue[1..] == started + dropped + queue
    ensures started + (dropped + queue) + [] == started + dropped + queue
    ensures multiset(started + [queue[0]]) == multiset(started) + multiset{queue[0]}
  {
    assert queue == [queue[0]] + queue[1..];
  }

  lemma FinishAccounts(s: State, w: nat)
    requires Inv(s) && Enabled(s, Finish(w))
    ensures Accounts(FinishOf(s, w))
  {
    hide Count, TasksOf;
    WorkerCounts(s, w, AtWait);
    var t := FinishOf(s, w);
    assert t.finished + TasksOf(t.workers) == s.finished + TasksOf(s.workers);
  }

  lemma WorkersWakeups(s: State, step: Step)
    requires Inv(s) && Enabled(s, step)
    requires step.Notify? || step.NotifyNobody? || step.Spurious? || step.Finish?
    ensures Wakeups(Apply(s, step))
  {
    hide Count, TasksOf, SomeOwing, Accounts, Shutdown;
    SameClosers(s, Apply(s, step));
    match step
    case Notify(w) => WorkerCounts(s, w, AtWait);
    case NotifyNobody => CountZero(Asleep, s.workers);
    case Spurious(w) => WorkerCounts(s, w, AtWait);
    case Finish(w) => WorkerCounts(s, w, AtWait);
  }

  lemma ClosersWakeups(s: State, step: Step)
    requires Inv(s) && Enabled(s, step)
    requires step.Close? || step.NotifyAll? || step.TakeJoin? || step.Join?
    ensures Wakeups(Apply(s, step))
  {
    hide Count, TasksOf, SomeOwing, Accounts, Shutdown;
    match step
    case Close(c) =>
      assert Apply(s, step).closers[c].phase == Owing;
      NowOwing(Apply(s, step), c);
    case NotifyAll(c) => CountWoken(s.workers);
    case TakeJoin(c) => OwingKept(s, c, Holding);
    case Join(c) =>
      OwingKept(s, c, Done);
      SameClosers(SetPhase(s, c, Done), Apply(s, step));
  }

  lemma WakeupsKept(s: State, step: Step)
    requires Inv(s) && Enabled(s, step)
    ensures Wakeups(Apply(s, step))
  {
    hide Count, TasksOf, SomeOwing, Accounts, Shutdown;
    if step.Turn? {
      TurnWakeups(s, step.worker);
    } else if step.Notify? || step.NotifyNobody? || step.Spurious? || step.Finish? {
      WorkersWakeups(s, step);
    } else if step.Close? || step.NotifyAll? || step.TakeJoin? || step.Join? {
      ClosersWakeups(s, step);
    } else {
      SameClosers(s, Apply(s, step));
      PendingCounts(s);
    }
  }

  lemma PendingCounts(s: State)
    requires Inv(s)
    ensures s.pending >= |s.queue| >= 0
  {
  }

  lemma NowOwing(s: State, c: nat)
    requires c < |s.closers| && s.closers[c].phase == Owing
    ensures SomeOwing(s)
  {
  }

  lemma TurnWakeups(s: State, w: nat)
    requires Inv(s) && Enabled(s, Turn(w))
    ensures Wakeups(TurnOf(s, w))
  {
    hide Count, TasksOf, SomeOwing;
    var t := TurnOf(s, w);
    WorkerCounts(s, w, t.workers[w]);
    assert SomeOwing(t) <==> SomeOwing(s) by {
      SameClosers(s, t);
    }
  }

  lemma SameClosers(s: State, t: State)
    requires s.closers == t.closers
    ensures SomeOwing(s) <==> SomeOwing(t)
  {
  }

  lemma OwingKept(s: State, c: nat, phase: Phase)
    requires c < |s.closers| && s.closers[c].phase != Owing && phase != Owing
    ensures SomeOwing(SetPhase(s, c, phase)) <==> SomeOwing(s)
  {
    var t := SetPhase(s, c, phase);
    assert forall d :: 0 <= d < |s.closers| ==> (t.closers[d].phase == Owing <==> s.closers[d].phase == Owing);
  }

  lemma ShutdownKept(s: State, step: Step)
    requires Inv(s) && Enabled(s, step)
    ensures Shutdown(Apply(s, step))
  {
    hide Accounts, Wakeups, Count, TasksOf, SomeOwing;
    if step.Close? || step.NotifyAll? || step.TakeJoin? || step.Join? {
      CloserShutdown(s, step);
    } else {
      WorkerShutdown(s, step);
    }
  }

  lemma CloserShutdown(s: State, step: Step)
    requires Shutdown(s) && Enabled(s, step) && (step.Close? || step.NotifyAll? || step.TakeJoin? || step.Join?)
    ensures Shutdown(Apply(s, step))
  {
    var t := Apply(s, step);
    assert |t.closers| == |s.closers| && forall c :: 0 <= c < |s.closers| ==> t.closers[c].now == s.closers[c].now;
    match step
    case Close(c) =>
    case NotifyAll(c) =>
    case TakeJoin(c) =>
    case Join(c) =>
    case _ =>
  }

  lemma WorkerShutdown(s: State, step: Step)
    requires Shutdown(s) && Enabled(s, step) && !step.Close? && !step.NotifyAll? && !step.TakeJoin? && !step.Join?
    ensures Shutdown(Apply(s, step))
  {
    match step
    case Submit =>
    case Turn(w) =>
    case Finish(w) =>
    case _ =>
  }

  lemma StepInv(s: State, step: Step)
    requires Inv(s) && Enabled(s, step)
    ensures Inv(Apply(s, step))
  {
    hide Enabled, Apply, Accounts, Wakeups, Shutdown;
    AccountsKept(s, step);
    WakeupsKept(s, step);
    ShutdownKept(s, step);
  }

  // ---- whole runs -----------------------------------------------------------------------------

  /** The states of a run; states[i] becomes states[i + 1] by steps[i]. */
  ghost predicate Steps(states: seq<State>, steps: seq<Step>) {
    && |states| == |steps| + 1
    && forall i :: 0 <= i < |steps| ==> Enabled(states[i], steps[i]) && states[i + 1] == Apply(states[i], steps[i])
  }

  ghost predicate Run(states: seq<State>, steps: seq<Step>) { Steps(states, steps) && Initial(states[0]) }

  /** The invariant holds in every state of every run. */
  lemma {:induction false} RunInv(states: seq<State>, steps: seq<Step>, i: nat)
    requires Run(states, steps) && i < |states|
    ensures Inv(states[i])
  {
    hide Inv, Enabled, Apply, Initial;
    if i == 0 {
      InitialInv(states[0]);
    } else {
      RunInv(states, steps, i - 1);
      StepInv(states[i - 1], steps[i - 1]);
    }
  }

  /**
   In every reachable state: whoever sleeps in waitIdle has something to wait for;
   while tasks are queued some worker is awake or about to be woken; and once
   stopping is set and announced, no worker sleeps.
   */
  lemma NoLostWakeup(states: seq<State>, steps: seq<Step>, i: nat)
    requires Run(states, steps) && i < |states|
    ensures var s := states[i];
      && ((exists j :: 0 <= j < |s.waiters| && s.waiters[j].Dozing?) ==> s.pending > 0)
      && (s.queue != [] ==> (s.owed > 0 || SomeOwing(s)
          || exists w :: 0 <= w < |s.workers| && (s.workers[w].AtWait? || s.workers[w].Running?)))
      && (s.stopping && !SomeOwing(s) ==> forall w :: 0 <= w < |s.workers| ==> !s.workers[w].Sleeping?)
  {
    RunInv(states, steps, i);
    var s := states[i];
    hide Count, Run, SomeOwing;
    CountZero(Asleep, s.workers);
    CountZero(Awake, s.workers);
    if s.queue != [] {
      assert !s.workers[0].Exited?;
    }
  }

  /** Each accepted task is counted once, and tasks start in the order in which they were accepted. */
  lemma FirstInFirstOut(states: seq<State>, steps: seq<Step>, i: nat)
    requires Run(states, steps) && i < |states|
    ensures var s := states[i];
      && s.pending == |s.queue| + Count(Busy, s.workers)
      && s.started <= s.accepted && s.accepted == s.started + s.dropped + s.queue
      && multiset(s.accepted) == s.finished + TasksOf(s.workers) + multiset(s.dropped) + multiset(s.queue)
      && forall j, k :: 0 <= j < k < |s.accepted| ==> s.accepted[j] != s.accepted[k]
  {
    RunInv(states, steps, i);
    var s := states[i];
    hide Run, Wakeups, Shutdown, Count, TasksOf;
    assert multiset(s.started + s.dropped + s.queue) == multiset(s.started) + multiset(s.dropped) + multiset(s.queue);
  }

  /**
   Once a call of shutdown or shutdownNow has returned, nothing is pending, and
   every accepted task has finished or was dropped; without shutdownNow, every
   task was started in order and finished.
   */
  lemma AfterShutdown(states: seq<State>, steps: seq<Step>, i: nat, c: nat)
    requires Run(states, steps) && i < |states| && c < |states[i].closers| && states[i].closers[c].phase == Done
    ensures var s := states[i];
      && s.pending == 0 && s.queue == [] && (forall w :: 0 <= w < |s.workers| ==> s.workers[w].Exited?)
      && s.accepted == s.started + s.dropped && s.finished == multiset(s.started)
      && ((forall d :: 0 <= d < |s.closers| ==> !s.closers[d].now) ==>
          s.started == s.accepted && s.finished == multiset(s.accepted))
  {
    RunInv(states, steps, i);
    var s := states[i];
    hide Run, Wakeups;
    assert s.joined && s.workers[0].Exited?;
    CountZero(Busy, s.workers);
    NoTasks(s.workers);
    assert s.started + s.dropped + [] == s.started + s.dropped;
    assert s.started + [] == s.started;
  }

  lemma StepOf(states: seq<State>, steps: seq<Step>, i: nat)
    requires Run(states, steps) && i < |steps|
    ensures Enabled(states[i], steps[i]) && states[i + 1] == Apply(states[i], steps[i])
  {
  }

  /** What a step does to one caller of waitIdle. */
  lemma WaiterOfStep(s: State, step: Step, i: nat)
    requires Enabled(s, step) && i < |Apply(s, step).waiters|
    ensures i < |s.waiters|
    ensures Apply(s, step).waiters[i] == Returned ==>
      s.waiters[i] == Returned || (step == Check(i) && s.pending == 0)
  {
    hide Count, TasksOf;
    match step
    case Submit =>
    case Close(c) =>
    case NotifyAll(c) =>
    case TakeJoin(c) =>
    case Join(c) =>
    case Turn(w) =>
    case Finish(w) =>
    case _ =>
  }

  /** Nothing is queued, and no worker has a task. */
  ghost predicate Quiet(s: State) { s.queue == [] && forall w :: 0 <= w < |s.workers| ==> !s.workers[w].Running? }

  /**
   A call of waitIdle returns only by a look at the pool at which nothing was queued
   and no worker had a task: every task accepted until then had finished, or been
   dropped.
   */
  lemma {:induction false} WaitIdleWaited(states: seq<State>, steps: seq<Step>, i: nat, j: nat) returns (k: nat)
    requires Run(states, steps) && i < |states| && j < |states[i].waiters| && states[i].waiters[j] == Returned
    ensures k < i && steps[k] == Check(j) && Quiet(states[k])
    ensures multiset(states[k].accepted) == states[k].finished + multiset(states[k].dropped)
  {
    if i == 0 {
      assert false;
    } else {
      StepOf(states, steps, i - 1);
      hide Run, Enabled, Apply, Initial;
      WaiterOfStep(states[i - 1], steps[i - 1], j);
      if states[i - 1].waiters[j] == Returned {
        k := WaitIdleWaited(states, steps, i - 1, j);
      } else {
        k := i - 1;
        RunInv(states, steps, k);
        NothingPending(states[k]);
      }
    }
  }

  lemma NothingPending(s: State)
    requires Inv(s) && s.pending == 0
    ensures Quiet(s) && multiset(s.accepted) == s.finished + multiset(s.dropped)
  {
    hide Wakeups, Shutdown, Count, TasksOf;
    CountZero(Busy, s.workers);
    assert forall w :: 0 <= w < |s.workers| ==> !Is(Busy, s.workers[w]);
    NoTasks(s.workers);
    assert s.started + s.dropped + [] == s.started + s.dropped;
    assert multiset(s.started + s.dropped) == multiset(s.started) + multiset(s.dropped);
  }

  /** And conversely: a look at an idle pool lets its caller return. */
  lemma IdleLookReturns(s: State, j: nat)
    requires Inv(s) && Enabled(s, Check(j)) && Quiet(s)
    ensures Apply(s, Check(j)).waiters[j] == Returned
  {
    hide Wakeups, Shutdown, TasksOf;
    assert forall w :: 0 <= w < |s.workers| ==> !Is(Busy, s.workers[w]);
    CountZero(Busy, s.workers);
    hide Count;
  }

  /** Nobody calls shutdown in these steps, which would let the queue be worked off after all. */
  ghost predicate NoDrain(states: seq<State>, steps: seq<Step>, i: nat, j: nat)
    requires |states| == |steps| + 1 && i <= j <= |steps|
  {
    forall k :: i <= k < j && steps[k].Close? ==>
      steps[k].closer < |states[k].closers| && states[k].closers[steps[k].closer].now
  }

  lemma DiscardOfStep(s: State, step: Step)
    requires Enabled(s, step) && s.stopping && s.discard
    requires step.Close? ==> s.closers[step.closer].now
    ensures var t := Apply(s, step);
      && t.stopping && t.discard && t.started == s.started && t.accepted == s.accepted
      && (step.Turn? ==> t.queue == [] && t.dropped == s.dropped + s.queue)
  {
    hide Count, TasksOf, Rouse, WakeAll;
    match step
    case Submit =>
    case Close(c) =>
    case NotifyAll(c) =>
    case TakeJoin(c) =>
    case Join(c) =>
    case Turn(w) => assert s.queue == [] ==> s.dropped + s.queue == s.dropped;
    case Finish(w) =>
    case _ =>
  }

  /**
   Behind a call of shutdownNow no task is accepted and none is started, unless
   shutdown is called later; the first worker to look drops all that is queued.
   */
  lemma {:induction false} DiscardStartsNothing(states: seq<State>, steps: seq<Step>, i: nat, j: nat)
    requires Run(states, steps) && i < j <= |steps| && NoDrain(states, steps, i, j) && steps[i].Close?
    ensures states[j].stopping && states[j].discard
    ensures states[j].started == states[i].started && states[j].accepted == states[i].accepted
    ensures steps[j - 1].Turn? ==> states[j].queue == []
  {
    hide Run, Steps, Initial, Enabled, Apply;
    LengthOf(states, steps);
    StepOf(states, steps, j - 1);
    if i < j - 1 {
      DiscardStartsNothing(states, steps, i, j - 1);
      DiscardOfStep(states[j - 1], steps[j - 1]);
    } else {
      ClosedNow(states[i], steps[i]);
    }
  }

  lemma ClosedNow(s: State, step: Step)
    requires Enabled(s, step) && step.Close? && step.closer < |s.closers| && s.closers[step.closer].now
    ensures var t := Apply(s, step); t.stopping && t.discard && t.started == s.started && t.accepted == s.accepted
  {
  }

  lemma LengthOf(states: seq<State>, steps: seq<Step>)
    requires Run(states, steps)
    ensures |states| == |steps| + 1
  {
  }

  // ---- progress --------------------------------------------------------------------------------

  /** What the workers still have to do after stopping is set. */
  function Work(s: State): nat {
    3 * |s.queue| + 2 * Count(Busy, s.workers) + Count(Awake, s.workers) + 2 * Count(Asleep, s.workers)
  }

  predicate IsWorkerStep(step: Step) { step.Turn? || step.Finish? }

  lemma WorkDecreases(s: State, step: Step)
    requires Inv(s) && s.stopping && Enabled(s, step)
    ensures Apply(s, step).stopping && Work(Apply(s, step)) <= Work(s)
    ensures IsWorkerStep(step) ==> Work(Apply(s, step)) < Work(s)
  {
    hide Count, TasksOf, SomeOwing, Accounts, Wakeups, Shutdown, Rouse, WakeAll;
    match step
    case Notify(w) => WorkerCounts(s, w, AtWait);
    case Spurious(w) => WorkerCounts(s, w, AtWait);
    case Turn(w) => WorkerCounts(s, w, TurnOf(s, w).workers[w]);
    case Finish(w) => WorkerCounts(s, w, AtWait);
    case NotifyAll(c) => CountWoken(s.workers);
    case _ =>
  }

  function WorkerSteps(steps: seq<Step>): nat {
    if steps == [] then 0
    else WorkerSteps(steps[..|steps| - 1]) + if IsWorkerStep(steps[|steps| - 1]) then 1 else 0
  }

  /** From a stopping state on, however the threads interleave, the workers take at most `Work` more steps. */
  lemma {:induction false} WorkIsBounded(states: seq<State>, steps: seq<Step>)
    requires Steps(states, steps) && Inv(states[0]) && states[0].stopping
    ensures var last := states[|steps|];
      Inv(last) && last.stopping && WorkerSteps(steps) + Work(last) <= Work(states[0])
  {
    hide Inv, Enabled, Apply, Work, IsWorkerStep;
    if steps != [] {
      var n := |steps| - 1;
      assert Steps(states[..n + 1], steps[..n]);
      WorkIsBounded(states[..n + 1], steps[..n]);
      assert states[..n + 1][n] == states[n];
      StepInv(states[n], steps[n]);
      WorkDecreases(states[n], steps[n]);
    }
  }

  /** While stopping, as long as a worker has not left, some worker or announcement can go on. */
  lemma StoppingNeverStalls(s: State) returns (step: Step)
    requires Inv(s) && s.stopping && exists w :: 0 <= w < |s.workers| && !s.workers[w].Exited?
    ensures Enabled(s, step) && (IsWorkerStep(step) || step.NotifyAll?)
  {
    if SomeOwing(s) {
      var c :| 0 <= c < |s.closers| && s.closers[c].phase == Owing;
      step := NotifyAll(c);
    } else {
      CountZero(Asleep, s.workers);
      hide Count;
      var w :| 0 <= w < |s.workers| && !s.workers[w].Exited?;
      assert !Is(Asleep, s.workers[w]);
      step := if s.workers[w].AtWait? then Turn(w) else Finish(w);
    }
  }

  /** While anything is pending, some worker can go on or some notification is under way. */
  lemma PendingNeverStalls(s: State) returns (step: Step)
    requires Inv(s) && s.pending > 0
    ensures Enabled(s, step) && (IsWorkerStep(step) || step.Notify? || step.NotifyNobody? || step.NotifyAll?)
  {
    CountZero(Busy, s.workers);
    CountZero(Awake, s.workers);
    CountZero(Asleep, s.workers);
    hide Count, TasksOf;
    if w :| 0 <= w < |s.workers| && s.workers[w].Running? {
      step := Finish(w);
    } else if w :| 0 <= w < |s.workers| && s.workers[w].AtWait? {
      step := Turn(w);
    } else if c :| 0 <= c < |s.closers| && s.closers[c].phase == Owing {
      step := NotifyAll(c);
    } else {
      assert forall w :: 0 <= w < |s.workers| ==> !Is(Busy, s.workers[w]) && !Is(Awake, s.workers[w]);
      assert s.queue != [] && !s.workers[0].Exited? && Is(Asleep, s.workers[0]);
      step := Notify(0);
    }
  }
}
