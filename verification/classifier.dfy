/**
 Failure categories and how a second look refines them
 (src/execution/FailureClassifier.cpp).
 */
module Classifier {
  import opened Text

  datatype Status = Passed | Failed | Skipped | Timeout | Error

  datatype Category =
    | NoFailure | AssertionFailure | TimedOut | NetworkFailure | EnvironmentFailure | ResourceFailure
    | ApplicationFailure | DependencyFailure | ConfigurationFailure | FrameworkError | Unknown

  predicate IsFailure(s: Status) { s == Failed || s == Error || s == Timeout }

  function Specificity(c: Category): nat {
    match c
    case NoFailure => 0
    case Unknown => 1
    case AssertionFailure => 2
    case FrameworkError => 4
    case ConfigurationFailure => 4
    case TimedOut => 4
    case _ => 3
  }

  predicate IsRetryable(c: Category) { c == NetworkFailure || c == TimedOut || c == ResourceFailure }

  datatype Signal = Signal(needle: string, category: Category)

  const SIGNALS: seq<Signal> := [
    Signal("connection refused", NetworkFailure),
    Signal("connection reset", NetworkFailure),
    Signal("could not resolve", NetworkFailure),
    Signal("name or service not known", NetworkFailure),
    Signal("no route to host", NetworkFailure),
    Signal("network is unreachable", NetworkFailure),
    Signal("broken pipe", NetworkFailure),
    Signal("timed out", TimedOut),
    Signal("timeout", TimedOut),
    Signal("deadline exceeded", TimedOut),
    Signal("no such file or directory", DependencyFailure),
    Signal("executable not found", DependencyFailure),
    Signal("command not found", DependencyFailure),
    Signal("not installed", DependencyFailure),
    Signal("permission denied", EnvironmentFailure),
    Signal("read-only file system", EnvironmentFailure),
    Signal("cannot allocate memory", ResourceFailure),
    Signal("out of memory", ResourceFailure),
    Signal("no space left", ResourceFailure),
    Signal("too many open files", ResourceFailure),
    Signal("internal server error", ApplicationFailure),
    Signal("bad gateway", ApplicationFailure)]

  function FirstSignal(signals: seq<Signal>, lowered: string): Category {
    if signals == [] then Unknown
    else if Contains(lowered, signals[0].needle) then signals[0].category
    else FirstSignal(signals[1..], lowered)
  }

  function FromMessage(message: string): Category { FirstSignal(SIGNALS, Lower(message)) }

  method FindSignal(message: string) returns (category: Category)
    ensures category == FromMessage(message)
  {
    hide Contains, Lower;
    var lowered := Lower(message);
    assert SIGNALS[0..] == SIGNALS;
    for i := 0 to |SIGNALS|
      invariant FromMessage(message) == FirstSignal(SIGNALS[i..], lowered)
    {
      assert SIGNALS[i..][0] == SIGNALS[i] && SIGNALS[i..][1..] == SIGNALS[i + 1..];
      hide SIGNALS;
      if Contains(lowered, SIGNALS[i].needle) {
        return SIGNALS[i].category;
      }
    }
    return Unknown;
  }

  /** The first signal in the table that occurs decides; a message without any is not classified. */
  lemma {:induction false} FirstSignalDecides(signals: seq<Signal>, lowered: string)
    ensures (forall i :: 0 <= i < |signals| ==> !Contains(lowered, signals[i].needle)) ==>
      FirstSignal(signals, lowered) == Unknown
    ensures forall i :: (0 <= i < |signals| && Contains(lowered, signals[i].needle)
                         && forall j :: 0 <= j < i ==> !Contains(lowered, signals[j].needle)) ==>
              FirstSignal(signals, lowered) == signals[i].category
  {
    hide Contains;
    if signals != [] {
      FirstSignalDecides(signals[1..], lowered);
      assert forall i :: 0 < i < |signals| ==> signals[i] == signals[1..][i - 1];
    }
  }

  /** What a test noted in its metadata, as far as the classifier looks. */
  datatype Notes = Notes(
    httpStatus: Option<int>, transportError: Option<string>,
    missingDependency: Option<string>, errorHint: Option<string>)

  function Promote(refined: Category, candidate: Category): Category {
    if Specificity(candidate) > Specificity(refined) then candidate else refined
  }

  function RefineByEvidence(base: Category, notes: Notes): Category {
    var serverError := notes.httpStatus.Some? && notes.httpStatus.value >= 500;
    var a := if serverError then Promote(base, ApplicationFailure) else base;
    var b := if notes.transportError.Some? then Promote(a, FromMessage(notes.transportError.value)) else a;
    if notes.missingDependency.Some? && notes.missingDependency.value != "" then Promote(b, DependencyFailure) else b
  }

  function Refine(base: Category, notes: Notes): Category {
    var c := RefineByEvidence(base, notes);
    if c == Unknown && notes.errorHint.Some? then Promote(c, FromMessage(notes.errorHint.value)) else c
  }

  method RefineCategory(base: Category, notes: Notes) returns (refined: Category)
    ensures refined == Refine(base, notes)
  {
    hide Promote, FromMessage;
    refined := base;
    if notes.httpStatus.Some? && notes.httpStatus.value >= 500 {
      refined := Promote(refined, ApplicationFailure);
    }
    if notes.transportError.Some? {
      var candidate := FindSignal(notes.transportError.value);
      refined := Promote(refined, candidate);
    }
    if notes.missingDependency.Some? && notes.missingDependency.value != "" {
      refined := Promote(refined, DependencyFailure);
    }
    if refined == Unknown && notes.errorHint.Some? {
      var candidate := FindSignal(notes.errorHint.value);
      refined := Promote(refined, candidate);
    }
  }

  /**
   A second look never makes a diagnosis vaguer, changes it only for a more specific
   one, leaves the most specific ones alone, and settles at once.
   */
  lemma RefineSharpens(base: Category, notes: Notes)
    ensures Specificity(Refine(base, notes)) >= Specificity(base)
    ensures Refine(base, notes) == base || Specificity(Refine(base, notes)) > Specificity(base)
    ensures Specificity(base) == 4 ==> Refine(base, notes) == base
    ensures Refine(Refine(base, notes), notes) == Refine(base, notes)
  {
    hide FromMessage;
  }

  // ---- what the evidence does --------------------------------------------------------------

  predicate ServerError(notes: Notes) { notes.httpStatus.Some? && notes.httpStatus.value >= 500 }

  predicate NamesDependency(notes: Notes) { notes.missingDependency.Some? && notes.missingDependency.value != "" }

  /** The categories that speak for themselves, in the order in which they are considered. */
  function Evidence(notes: Notes): seq<Category> {
    (if ServerError(notes) then [ApplicationFailure] else [])
    + (if notes.transportError.Some? then [FromMessage(notes.transportError.value)] else [])
    + (if NamesDependency(notes) then [DependencyFailure] else [])
  }

  /** c is the first of the most specific ones. */
  predicate FirstMostSpecific(all: seq<Category>, c: Category) {
    exists i :: 0 <= i < |all| && all[i] == c
      && (forall j :: 0 <= j < |all| ==> Specificity(all[j]) <= Specificity(c))
      && (forall j :: 0 <= j < i ==> Specificity(all[j]) < Specificity(c))
  }

  lemma Promoted(all: seq<Category>, c: Category, next: Category)
    requires FirstMostSpecific(all, c)
    ensures FirstMostSpecific(all + [next], Promote(c, next))
  {
    hide Specificity;
    var i :| 0 <= i < |all| && all[i] == c
      && (forall j :: 0 <= j < |all| ==> Specificity(all[j]) <= Specificity(c))
      && (forall j :: 0 <= j < i ==> Specificity(all[j]) < Specificity(c));
    var more := all + [next];
    assert more[i] == c && more[|all|] == next;
    assert forall j :: 0 <= j < |all| ==> more[j] == all[j];
  }

  /**
   Before the hint is looked at, the result is the most specific among the base, a
   server error, the first signal in a transport error and a missing dependency; of
   equally specific ones the first.
   */
  lemma EvidenceDecides(base: Category, notes: Notes)
    ensures FirstMostSpecific([base] + Evidence(notes), RefineByEvidence(base, notes))
  {
    hide FromMessage, Promote, FirstMostSpecific;
    BaseAlone(base);
    var all, c := [base], base;
    if ServerError(notes) {
      Promoted(all, c, ApplicationFailure);
      all, c := all + [ApplicationFailure], Promote(c, ApplicationFailure);
    }
    if notes.transportError.Some? {
      var signal := FromMessage(notes.transportError.value);
      Promoted(all, c, signal);
      all, c := all + [signal], Promote(c, signal);
    }
    if NamesDependency(notes) {
      Promoted(all, c, DependencyFailure);
      all, c := all + [DependencyFailure], Promote(c, DependencyFailure);
    }
    assert all == [base] + Evidence(notes);
  }

  lemma BaseAlone(base: Category)
    ensures FirstMostSpecific([base], base)
  {
    assert [base][0] == base;
  }

  ghost predicate RefinesTo(base: Category, notes: Notes, result: Category) {
    exists c :: FirstMostSpecific([base] + Evidence(notes), c)
      && result ==
           if c == Unknown && notes.errorHint.Some? && Specificity(FromMessage(notes.errorHint.value)) > 1
           then FromMessage(notes.errorHint.value) else c
  }

  /**
   The result of the second look: the first of the most specific categories among the
   base and the evidence; only if that is Unknown, the hint decides, where it says
   anything more specific than nothing.
   */
  lemma RefineExactly(base: Category, notes: Notes)
    ensures RefinesTo(base, notes, Refine(base, notes))
  {
    EvidenceDecides(base, notes);
    hide FromMessage, FirstMostSpecific, Evidence, RefineByEvidence;
  }

  /** In particular it is at least as specific as the base and as every piece of evidence. */
  lemma RefineCoversEvidence(base: Category, notes: Notes)
    ensures var r := Specificity(Refine(base, notes));
      && r >= Specificity(base)
      && (ServerError(notes) ==> r >= Specificity(ApplicationFailure))
      && (notes.transportError.Some? ==> r >= Specificity(FromMessage(notes.transportError.value)))
      && (NamesDependency(notes) ==> r >= Specificity(DependencyFailure))
  {
    hide FromMessage;
  }
}
