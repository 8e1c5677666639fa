/**
 Redaction is idempotent, and its fixed points are the texts without a readable
 secret.
 */
module RedactStable {
  import opened Text
  import opened Redact
  import opened RedactClean

  // ---- the same word further along in another text ------------------------------------

  /** From index `i` on, `s` is the end of `t`, moved by `d` places. */
  ghost predicate Aligned(s: string, i: nat, t: string, d: int) {
    i <= |s| && 0 <= i + d && |t| == |s| + d && forall p :: i <= p < |s| ==> s[p] == t[p + d]
  }

  lemma {:induction false} RunShift(cls: Class, s: string, i: nat, t: string, d: int)
    requires Aligned(s, i, t, d)
    ensures RunEnd(cls, t, i + d) == RunEnd(cls, s, i) + d
    decreases |s| - i
  {
    if i < |s| && In(cls, s[i]) {
      RunShift(cls, s, i + 1, t, d);
    }
  }

  lemma {:induction false} TrimShift(s: string, lo: nat, hi: nat, t: string, d: int)
    requires Aligned(s, lo, t, d) && lo <= hi <= |s|
    ensures TrimBack(t, lo + d, hi + d) == TrimBack(s, lo, hi) + d
    decreases hi
  {
    if lo < hi && IsSpace(s[hi - 1]) {
      TrimShift(s, lo, hi - 1, t, d);
    }
  }

  ghost predicate Moved(v: Option<Range>, d: int, w: Option<Range>) {
    if v.None? then w.None?
    else w.Some? && w.value.start == v.value.start + d && w.value.end == v.value.end + d
  }

  lemma NoNamedValue(s: string, i: nat)
    requires i <= |s| && (RunEnd(Soft, s, i) == |s| || !IsSeparator(s[RunEnd(Soft, s, i)]))
    ensures NamedValue(s, i) == None
  {
  }

  lemma NamedValueIs(s: string, i: nat, sep: nat, start: nat, end: nat)
    requires i <= |s| && sep == RunEnd(Soft, s, i) && sep < |s| && IsSeparator(s[sep])
    requires start == RunEnd(Soft, s, sep + 1) && end == TrimBack(s, start, RunEnd(Plain, s, start))
    ensures NamedValue(s, i) == Some(Range(start, end))
  {
  }

  lemma AlignedLater(s: string, i: nat, t: string, d: int, k: nat)
    requires Aligned(s, i, t, d) && i <= k <= |s|
    ensures Aligned(s, k, t, d) && 0 <= k + d <= |t| == |s| + d && (k < |s| ==> k + d < |t| && t[k + d] == s[k])
  {
  }

  lemma ValueEndShift(s: string, start: nat, t: string, d: int)
    requires Aligned(s, start, t, d)
    ensures TrimBack(t, start + d, RunEnd(Plain, t, start + d)) == TrimBack(s, start, RunEnd(Plain, s, start)) + d
  {
    hide Aligned, In, IsSpace, TrimBack, RunEnd;
    RunShift(Plain, s, start, t, d);
    TrimShift(s, start, RunEnd(Plain, s, start), t, d);
  }

  lemma SeparatedShift(s: string, i: nat, t: string, j: nat, d: int, sep: nat, start: nat, end: nat)
    requires Aligned(s, i, t, d) && j == i + d && sep == RunEnd(Soft, s, i) && sep < |s| && IsSeparator(s[sep])
    requires start == RunEnd(Soft, s, sep + 1) && end == TrimBack(s, start, RunEnd(Plain, s, start))
    ensures 0 <= start + d && 0 <= end + d && NamedValue(t, j) == Some(Range(start + d, end + d))
  {
    AlignedLater(s, i, t, d, sep);
    AlignedLater(s, i, t, d, sep + 1);
    AlignedLater(s, i, t, d, start);
    hide *;
    RunShift(Soft, s, i, t, d);
    RunShift(Soft, s, sep + 1, t, d);
    ValueEndShift(s, start, t, d);
    NamedValueIs(t, j, sep + d, start + d, end + d);
  }

  lemma NamedValueShift(s: string, i: nat, t: string, j: nat, d: int)
    requires Aligned(s, i, t, d) && j == i + d
    ensures Moved(NamedValue(s, i), d, NamedValue(t, j))
  {
    var sep := RunEnd(Soft, s, i);
    if sep < |s| && IsSeparator(s[sep]) {
      var start := RunEnd(Soft, s, sep + 1);
      var end := TrimBack(s, start, RunEnd(Plain, s, start));
      hide Aligned, NamedValue, In, IsSpace, TrimBack, RunEnd;
      SeparatedShift(s, i, t, j, d, sep, start, end);
      NamedValueIs(s, i, sep, start, end);
    } else {
      RunShift(Soft, s, i, t, d);
      AlignedLater(s, i, t, d, sep);
      hide Aligned, NamedValue, In, IsSpace, TrimBack, RunEnd;
      NoNamedValue(s, i);
      NoNamedValue(t, j);
    }
  }

  lemma ValueShift(rule: Rule, s: string, i: nat, t: string, j: nat, d: int)
    requires Aligned(s, i, t, d) && j == i + d && i + |Word(rule)| <= |s|
    ensures Moved(Value(rule, s, i), d, Value(rule, t, j))
  {
    hide In, IsSeparator, IsSpace, TrimBack, RunEnd, NamedValue, Word;
    var after, next := i + |Word(rule)|, j + |Word(rule)|;
    assert Aligned(s, after, t, d) && next == after + d;
    hide Aligned;
    if rule.Key? {
      NamedValueShift(s, after, t, next, d);
    } else {
      RunShift(if rule.Bearer? then Unbroken else Tail, s, after, t, d);
    }
  }

  lemma StartsShift(rule: Rule, s: string, i: nat, t: string, d: int)
    requires Aligned(s, i, t, d)
    ensures Starts(rule, s, i) <==> Starts(rule, t, i + d)
    ensures Starts(rule, s, i) ==> i + |Word(rule)| <= |s|
  {
    hide Word;
    if i + |Word(rule)| <= |s| {
      assert forall p :: i + d <= p < i + d + |Word(rule)| ==> t[p] == s[p - d];
    }
  }

  lemma SliceShift(s: string, i: nat, t: string, d: int, v: Range)
    requires Aligned(s, i, t, d) && i <= v.start <= v.end <= |s|
    ensures s[v.start..v.end] == t[v.start + d..v.end + d]
  {
  }

  lemma GoodShift(rule: Rule, s: string, i: nat, t: string, d: int)
    requires Aligned(s, i, t, d)
    ensures Good(rule, s, i) <==> Good(rule, t, i + d)
  {
    hide Value, Starts;
    StartsShift(rule, s, i, t, d);
    if Starts(rule, s, i) {
      ValueShift(rule, s, i, t, i + d, d);
      var v := Value(rule, s, i);
      if v.Some? {
        SliceShift(s, i, t, d, v.value);
      }
    }
  }

  // ---- one step of one pass ---------------------------------------------------------------

  /** A word with a readable value, and the text with that value masked. */
  ghost predicate Step(rule: Rule, s: string, f: nat, v: Range, t: string) {
    && Known(rule) && Starts(rule, s, f) && Exposed(rule, s, f)
    && Value(rule, s, f) == Some(v) && t == Masked(s, v)
  }

  lemma GapOfName(s: string, after: nat, v: Range)
    requires after <= |s| && NamedValue(s, after) == Some(v)
    ensures forall j :: after <= j < v.start ==> In(Soft, s[j]) || IsSeparator(s[j])
  {
    hide In, TrimBack, RunEnd;
    RunChars(Soft, s, after);
    RunChars(Soft, s, RunEnd(Soft, s, after) + 1);
  }

  lemma GapOfStep(rule: Rule, s: string, f: nat, v: Range)
    requires Known(rule) && Starts(rule, s, f) && Value(rule, s, f) == Some(v)
    ensures forall j :: f + Core(rule) <= j < v.start ==> In(Soft, s[j]) || IsSeparator(s[j])
    ensures rule.Prefix? ==> f + Core(rule) == v.start
  {
    hide Known, RunEnd, NamedValue, IsSeparator;
    if rule.Key? {
      GapOfName(s, f + |rule.word|, v);
    } else if rule.Bearer? {
      WordHere(rule, s, f);
    }
  }

  lemma StepIsSite(rule: Rule, s: string, f: nat, v: Range, t: string)
    requires Step(rule, s, f, v, t)
    ensures Site(s, t, f, f + Core(rule), v)
    ensures rule.Prefix? ==> f + Core(rule) == v.start
  {
    hide Known, Starts, Foreign, Solid, Masked, In, RunEnd, NamedValue, IsSeparator, Word;
    WordFacts(rule);
    WordHere(rule, s, f);
    GapOfStep(rule, s, f, v);
    assert v.start < v.end;
  }

  /** Behind the mask, the new text is the old text. */
  lemma StepAligned(s: string, v: Range, t: string)
    requires v.start <= v.end <= |s| && t == Masked(s, v)
    ensures Aligned(s, v.end, t, v.start + |MASK| - v.end)
  {
  }

  lemma {:induction false} RunThrough(cls: Class, s: string, i: nat, j: nat)
    requires i <= j <= |s| && forall p :: i <= p < j ==> In(cls, s[p])
    ensures RunEnd(cls, s, i) == RunEnd(cls, s, j)
    decreases j - i
  {
    if i < j {
      RunThrough(cls, s, i + 1, j);
    }
  }

  lemma {:induction false} TrimStop(s: string, lo: nat, mid: nat, hi: nat)
    requires lo < mid <= hi <= |s| && !IsSpace(s[mid - 1]) && forall p :: mid <= p < hi ==> IsSpace(s[p])
    ensures TrimBack(s, lo, hi) == mid
    decreases hi
  {
    if hi > mid {
      TrimStop(s, lo, mid, hi - 1);
    }
  }

  lemma MaskedText(s: string, v: Range, t: string)
    requires v.start <= v.end <= |s| && t == Masked(s, v)
    ensures var mid := v.start + |MASK|;
      && mid <= |t| && t[v.start..mid] == MASK && t[mid - 1] == '*'
      && (forall p :: v.start <= p < mid ==> In(Plain, t[p]) && In(Unbroken, t[p]))
      && Aligned(s, v.end, t, mid - v.end)
  {
    MaskFacts();
    hide In, Foreign;
    assert forall p :: v.start <= p < v.start + 14 ==> t[p] == MASK[p - v.start];
  }

  /** The mask that was put in is now the whole value, up to trailing whitespace. */
  lemma MaskIsTheValue(cls: Class, s: string, v: Range, t: string)
    requires v.start < v.end <= |s| && t == Masked(s, v)
    requires cls == Plain || cls == Unbroken
    requires v.end <= RunEnd(cls, s, v.start)
    ensures RunEnd(cls, t, v.start) == RunEnd(cls, s, v.start) + v.start + |MASK| - v.end
  {
    RunSkip(cls, s, v.start, v.end);
    MaskedText(s, v, t);
    hide In, Aligned, RunEnd, Masked, MASK;
    RunShift(cls, s, v.end, t, v.start + |MASK| - v.end);
    RunThrough(cls, t, v.start, v.start + |MASK|);
  }

  lemma RunSkip(cls: Class, s: string, i: nat, j: nat)
    requires i <= |s| && i <= j <= RunEnd(cls, s, i)
    ensures RunEnd(cls, s, j) == RunEnd(cls, s, i)
  {
    RunChars(cls, s, i);
    RunThrough(cls, s, i, j);
  }

  lemma TrimmedToMask(s: string, v: Range, u: nat, t: string)
    requires v.start < v.end <= u <= |s| && t == Masked(s, v) && v.end == TrimBack(s, v.start, u)
    ensures var mid := v.start + |MASK|; TrimBack(t, v.start, u + mid - v.end) == mid
  {
    assert !IsSpace('*') && |MASK| > 0;
    hide In, Masked, TrimBack, IsSpace, MASK;
    MaskedText(s, v, t);
    TrimChars(s, v.start, u);
    BlanksMoved(s, v.end, u, t, v.start + |MASK| - v.end);
    TrimStop(t, v.start, v.start + |MASK|, u + v.start + |MASK| - v.end);
  }

  lemma BlanksMoved(s: string, i: nat, u: nat, t: string, d: int)
    requires Aligned(s, i, t, d) && i <= u <= |s| && forall p :: i <= p < u ==> IsSpace(s[p])
    ensures 0 <= i + d && u + d <= |t| && forall q :: i + d <= q < u + d ==> IsSpace(t[q])
  {
    forall q | i + d <= q < u + d
      ensures IsSpace(t[q])
    {
      assert t[q] == s[q - d];
    }
  }

  lemma SiteStart(s: string, v: Range, t: string)
    requires v.start <= v.end <= |s| && t == Masked(s, v)
    ensures v.start < |t| && t[v.start] == '*' && forall p :: 0 <= p < v.start ==> s[p] == t[p]
  {
  }

  lemma SeparatorKept(s: string, after: nat, v: Range, t: string)
    requires after <= |s| && NamedValue(s, after) == Some(v) && t == Masked(s, v)
    ensures var sep := RunEnd(Soft, s, after);
      && sep < v.start < |t| && RunEnd(Soft, t, after) == sep && IsSeparator(t[sep])
      && RunEnd(Soft, t, sep + 1) == v.start
  {
    var sep := RunEnd(Soft, s, after);
    SiteStart(s, v, t);
    assert IsSeparator(s[sep]) && !In(Soft, '*');
    hide Masked, TrimBack, RunEnd, IsSeparator, In, MASK, IsSpace;
    SameRun(Soft, s, t, after, v.start);
    SameRun(Soft, s, t, sep + 1, v.start);
    RunChars(Soft, t, sep + 1);
  }

  lemma NamedValueMasked(s: string, after: nat, v: Range, t: string)
    requires after <= |s| && NamedValue(s, after) == Some(v) && v.start < v.end && t == Masked(s, v)
    ensures after <= |t| && NamedValue(t, after) == Some(Range(v.start, v.start + |MASK|))
  {
    var sep, u := RunEnd(Soft, s, after), RunEnd(Plain, s, v.start);
    assert v.end == TrimBack(s, v.start, u) && v.start < v.end <= |s|;
    hide In, IsSpace, MASK, Masked, TrimBack, RunEnd, IsSeparator, NamedValue;
    SeparatorKept(s, after, v, t);
    MaskTrims(s, v.start, u);
    MaskIsTheValue(Plain, s, v, t);
    TrimmedToMask(s, v, u, t);
    NamedValueIs(t, after, sep, v.start, v.start + |MASK|);
  }

  lemma MaskTrims(s: string, lo: nat, u: nat)
    requires lo <= u <= |s|
    ensures TrimBack(s, lo, u) <= u
  {
    TrimChars(s, lo, u);
  }

  lemma UnbrokenMasked(s: string, v: Range, t: string)
    requires v.start < v.end <= |s| && t == Masked(s, v) && v.end == RunEnd(Unbroken, s, v.start)
    ensures v.start + |MASK| <= |t| && RunEnd(Unbroken, t, v.start) == v.start + |MASK|
  {
    hide Masked, RunEnd;
    MaskIsTheValue(Unbroken, s, v, t);
  }

  lemma TailGone(t: string, i: nat)
    requires i < |t| && t[i] == '*'
    ensures RunEnd(Tail, t, i) == i
  {
  }

  lemma NewValue(rule: Rule, s: string, f: nat, v: Range, t: string)
    requires Step(rule, s, f, v, t)
    ensures f + |Word(rule)| <= v.start < |t|
    ensures Value(rule, t, f) == Some(Range(v.start, if rule.Prefix? then v.start else v.start + |MASK|))
  {
    var after := f + |Word(rule)|;
    hide Masked, Starts, In, RunEnd, NamedValue, Known;
    if rule.Key? {
      NamedValueMasked(s, after, v, t);
    } else if rule.Bearer? {
      UnbrokenMasked(s, v, t);
    } else {
      SiteStart(s, v, t);
      TailGone(t, after);
    }
  }

  /** The word whose value was just masked is in order. */
  lemma MaskedHere(rule: Rule, s: string, f: nat, v: Range, t: string)
    requires Step(rule, s, f, v, t)
    ensures Good(rule, t, f)
  {
    NewValue(rule, s, f, v, t);
    MaskIsThere(s, v, t);
    hide Masked, Starts, Known, Value, Word;
  }

  lemma MaskIsThere(s: string, v: Range, t: string)
    requires v.start <= v.end <= |s| && t == Masked(s, v)
    ensures v.start + |MASK| <= |t| && t[v.start..v.start + |MASK|] == MASK
  {
  }

  // ---- what a step keeps ---------------------------------------------------------------------

  function Rank(rule: Rule): nat {
    match rule
    case Key(_) => 0
    case Bearer => 1
    case Prefix(_) => 2
  }

  lemma EndChar(rule: Rule, s: string, f: nat, d: nat)
    requires Known(rule) && Starts(rule, s, f) && 1 <= d <= Core(rule)
    ensures f + Core(rule) <= |s| && Core(rule) <= |Word(rule)|
    ensures LowerChar(s[f + Core(rule) - d]) == LowerChar(FromEnd(Word(rule)[..Core(rule)], d))
    ensures rule.Key? ==> LowerChar(s[f + Core(rule) - d]) == FromEnd(rule.word, d)
  {
    var p := f + Core(rule) - d;
    assert Core(rule) <= |Word(rule)| && (rule.Key? ==> Word(rule) == rule.word && Core(rule) == |rule.word|);
    LetterOfWord(rule, s, f, p);
    hide Known, Starts, KEYS, PREFIXES, Word, Core, LowerChar, Fold, FromEnd;
    LetterFromEnd(Word(rule), Core(rule), d);
    FoldLowers(rule, s[p]);
  }

  lemma LetterFromEnd(w: string, core: nat, d: nat)
    requires 1 <= d <= core <= |w|
    ensures FromEnd(w[..core], d) == w[core - d] && (core == |w| ==> w[..core] == w)
  {
  }

  lemma FoldLowers(rule: Rule, c: char)
    ensures LowerChar(Fold(rule, c)) == LowerChar(c) && (rule.Key? ==> Fold(rule, c) == LowerChar(c))
  {
  }

  lemma LetterOfWord(rule: Rule, s: string, f: nat, p: nat)
    requires Starts(rule, s, f) && f <= p < f + |Word(rule)|
    ensures f + |Word(rule)| <= |s| && Fold(rule, s[p]) == Word(rule)[p - f]
  {
    hide Fold, Word;
  }

  lemma EndsMatch(key: string, rule: Rule, s: string, f: nat, i: nat)
    requires Known(Key(key)) && Known(rule) && Starts(rule, s, f) && Starts(Key(key), s, i)
    requires i + |key| == f + Core(rule)
    ensures !EndApart(key, Word(rule)[..Core(rule)])
  {
    hide Known, Starts, Foreign, Solid, LowerChar;
    WordFacts(rule);
    var w := Word(rule)[..Core(rule)];
    assert Core(Key(key)) == |key|;
    hide Word, Core;
    forall d | 1 <= d <= |key| && d <= |w|
      ensures FromEnd(key, d) == LowerChar(FromEnd(w, d))
    {
      EndChar(rule, s, f, d);
      EndChar(Key(key), s, i, d);
    }
  }

  /** A name cannot end where the word of another rule ends. */
  lemma NoCommonEnd(key: string, rule: Rule, s: string, f: nat, i: nat)
    requires Known(Key(key)) && Known(rule) && Key(key) != rule
    requires Starts(rule, s, f) && Starts(Key(key), s, i)
    ensures i + |key| != f + Core(rule)
  {
    hide Known, Word, Starts, EndApart;
    KeysEndApart(key, rule);
    if i + |key| == f + Core(rule) {
      EndsMatch(key, rule, s, f, i);
    }
  }

  /** Masking one value leaves every other word that was in order in order. */
  lemma OthersKept(rule: Rule, other: Rule, s: string, f: nat, v: Range, t: string, i: nat)
    requires Step(rule, s, f, v, t) && Known(other) && Rank(other) <= Rank(rule)
    requires other != rule || i != f
    requires i < v.start + |MASK| && Good(other, s, i)
    ensures Good(other, t, i)
  {
    var end := f + Core(rule);
    StepIsSite(rule, s, f, v, t);
    if i >= end {
      NoneInside(other, s, t, f, end, v, i);
    } else if Starts(other, t, i) {
      EndsInTime(other, s, t, f, end, v, i);
      hide Known, Starts, Good, Site, Value;
      match other
      case Key(key) =>
        if other == rule {
          assert i + |key| != end;
        } else {
          NoCommonEnd(key, rule, s, f, i);
        }
        KeyBefore(key, s, t, f, end, v, i);
      case Bearer =>
        assert i + 6 < end;
        BearerBefore(s, t, f, end, v, i);
      case Prefix(word) =>
        PrefixBefore(word, s, t, f, end, v, i);
    }
  }

  /** Behind the mask nothing has changed. */
  lemma BehindKept(other: Rule, s: string, from: nat, t: string, d: int, k: nat)
    requires Aligned(s, from, t, d) && from <= k && Good(other, s, k)
    ensures 0 <= k + d && Good(other, t, k + d)
  {
    assert from <= |s| && 0 <= from + d && |t| == |s| + d;
    hide Good, Aligned;
    if k <= |s| {
      AlignedLater(s, from, t, d, k);
      GoodShift(other, s, k, t, d);
    } else {
      NothingPastTheEnd(other, t, k + d);
    }
  }

  lemma NothingPastTheEnd(rule: Rule, s: string, i: nat)
    requires i > |s|
    ensures Good(rule, s, i)
  {
  }

  lemma BehindStep(other: Rule, s: string, v: Range, t: string, i: nat)
    requires v.start <= v.end <= |s| && t == Masked(s, v) && Clean(other, s) && v.start + |MASK| <= i
    ensures Good(other, t, i)
  {
    hide Good, Masked, MASK, Aligned;
    var d := v.start + |MASK| - v.end;
    StepAligned(s, v, t);
    assert Good(other, s, i - d);
    BehindKept(other, s, v.end, t, d, i - d);
  }

  /** A pass never spoils what an earlier pass has cleaned. */
  lemma StepKeepsClean(rule: Rule, other: Rule, s: string, f: nat, v: Range, t: string)
    requires Step(rule, s, f, v, t) && Known(other) && Rank(other) <= Rank(rule) && other != rule
    requires Clean(other, s)
    ensures Clean(other, t)
  {
    forall i: nat
      ensures Good(other, t, i)
    {
      hide Good, Known, Rank, Starts, Exposed, Value, Masked;
      if i < v.start + |MASK| {
        OthersKept(rule, other, s, f, v, t, i);
      } else {
        BehindStep(other, s, v, t, i);
      }
    }
  }

  /** Up to `from`, the pass has left no readable value behind. */
  ghost predicate CleanUpTo(rule: Rule, s: string, from: nat) { forall i: nat :: i < from ==> Good(rule, s, i) }

  lemma StepExtends(rule: Rule, s: string, f: nat, v: Range, t: string)
    requires Step(rule, s, f, v, t) && CleanUpTo(rule, s, f)
    ensures CleanUpTo(rule, t, v.start + |MASK|)
  {
    StepIsSite(rule, s, f, v, t);
    MaskedHere(rule, s, f, v, t);
    forall i: nat | i < v.start + |MASK|
      ensures Good(rule, t, i)
    {
      hide Known, Value, Starts, Exposed;
      if i < f {
        OthersKept(rule, rule, s, f, v, t, i);
      } else if i >= f + Core(rule) {
        NoneInside(rule, s, t, f, f + Core(rule), v, i);
      } else if i > f && Starts(rule, t, i) {
        EndsInTime(rule, s, t, f, f + Core(rule), v, i);
      }
    }
  }

  lemma NoneInWord(rule: Rule, s: string, f: nat, i: nat)
    requires Known(rule) && !rule.Prefix? && Starts(rule, s, f) && f < i < f + |Word(rule)|
    ensures !Starts(rule, s, i)
  {
    NoOverlap(rule, i - f);
    var w := Word(rule);
    assert Fold(rule, s[i]) == w[i - f];
    assert i + 1 < f + |w| ==> Fold(rule, s[i + 1]) == w[i + 1 - f];
    WordFacts(rule);
    hide Known, Word;
  }

  /** Behind a name or `bearer` that needs no mask, nothing begins before the search goes on. */
  lemma SkipWord(rule: Rule, s: string, f: nat, i: nat)
    requires Known(rule) && !rule.Prefix? && Starts(rule, s, f) && !Exposed(rule, s, f)
    requires f < i < Resume(rule, s, f)
    ensures !Starts(rule, s, i)
  {
    hide Known, KEYS, PREFIXES, In, RunEnd, TrimBack, Fold;
    var after := f + |Word(rule)|;
    if i < after {
      NoneInWord(rule, s, f, i);
    } else {
      var v := Value(rule, s, f).value;
      if i < v.start {
        hide Starts, Exposed;
        GapOfName(s, after, v);
        NoneInGap(rule, s, i);
      } else {
        MaskInPlace(s, v);
        hide Value, Starts, Exposed;
        NoneInMask(rule, s, v.start, i);
      }
    }
  }

  lemma MaskInPlace(s: string, v: Range)
    requires v.start <= v.end <= |s| && s[v.start..v.end] == MASK
    ensures v.end == v.start + |MASK| && forall p :: v.start <= p < v.end ==> s[p] == MASK[p - v.start]
  {
    assert forall p :: v.start <= p < v.end ==> s[p] == s[v.start..v.end][p - v.start];
  }

  lemma SameTailEnd(s: string, f: nat, i: nat, n: nat)
    requires f < i && i + n <= |s| && i < RunEnd(Tail, s, f + n)
    requires forall p :: f <= p < f + n ==> Solid(s[p])
    requires forall p :: i <= p < i + n ==> Solid(s[p])
    ensures RunEnd(Tail, s, i + n) == RunEnd(Tail, s, f + n)
  {
    var end := RunEnd(Tail, s, f + n);
    RunChars(Tail, s, f + n);
    SolidIsTail(s, f, f + n);
    SolidIsTail(s, i, i + n);
    hide In, Solid, RunEnd;
    assert forall p :: f <= p < end ==> In(Tail, s[p]);
    assert i + n <= end;
    RunThrough(Tail, s, i + n, end);
    RunThrough(Tail, s, f + n, end);
  }

  /** The tails of the prefixes inside a short tail are shorter still. */
  lemma SkipTail(rule: Rule, s: string, f: nat, i: nat)
    requires Known(rule) && rule.Prefix? && Starts(rule, s, f) && !Exposed(rule, s, f)
    requires f < i < Resume(rule, s, f)
    ensures Good(rule, s, i)
  {
    hide Known, RunEnd;
    if Starts(rule, s, i) {
      assert i + |rule.word| <= |s| && f + |rule.word| <= |s|;
      hide Starts, Foreign;
      WordHere(rule, s, f);
      WordHere(rule, s, i);
      hide Solid;
      SameTailEnd(s, f, i, |rule.word|);
    }
  }

  lemma SolidIsTail(s: string, i: nat, j: nat)
    requires i <= j <= |s| && forall p :: i <= p < j ==> Solid(s[p])
    ensures forall p :: i <= p < j ==> In(Tail, s[p])
  {
  }

  lemma SkipExtends(rule: Rule, s: string, f: nat)
    requires Known(rule) && Starts(rule, s, f) && !Exposed(rule, s, f) && CleanUpTo(rule, s, f)
    ensures CleanUpTo(rule, s, Resume(rule, s, f))
  {
    forall i: nat | i < Resume(rule, s, f)
      ensures Good(rule, s, i)
    {
      hide Known, Value, Exposed;
      if i > f {
        if rule.Prefix? {
          SkipTail(rule, s, f, i);
        } else {
          SkipWord(rule, s, f, i);
        }
      }
    }
  }

  // ---- whole passes --------------------------------------------------------------------------

  lemma TurnCleans(rule: Rule, s: string, from: nat)
    requires Known(rule) && CleanUpTo(rule, s, from)
    ensures match OneTurn(rule, s, from) case Done => Clean(rule, s) case Go(t, next) => CleanUpTo(rule, t, next)
  {
    NextFinds(rule, s, from);
    var f := Next(rule, s, from);
    hide Known, Starts, Exposed, Value, Resume, Next, Masked;
    if f >= 0 {
      assert CleanUpTo(rule, s, f);
      hide Good, CleanUpTo;
      if Exposed(rule, s, f) {
        ExposedHasValue(rule, s, f);
        var v := Value(rule, s, f).value;
        StepExtends(rule, s, f, v, Masked(s, v));
      } else {
        SkipExtends(rule, s, f);
      }
    }
  }

  lemma ExposedHasValue(rule: Rule, s: string, f: nat)
    requires Starts(rule, s, f) && Exposed(rule, s, f)
    ensures Value(rule, s, f).Some?
  {
  }

  lemma TurnKeeps(rule: Rule, other: Rule, s: string, from: nat)
    requires Known(rule) && Known(other) && Rank(other) <= Rank(rule) && other != rule && Clean(other, s)
    ensures match OneTurn(rule, s, from) case Done => true case Go(t, next) => Clean(other, t)
  {
    NextFinds(rule, s, from);
    var f := Next(rule, s, from);
    hide Known, Starts, Exposed, Value, Resume, Next, Masked, Clean, Rank;
    if f >= 0 && Exposed(rule, s, f) {
      ExposedHasValue(rule, s, f);
      var v := Value(rule, s, f).value;
      StepKeepsClean(rule, other, s, f, v, Masked(s, v));
    }
  }

  lemma TurnOfClean(rule: Rule, s: string, from: nat)
    requires Known(rule) && Clean(rule, s)
    ensures match OneTurn(rule, s, from) case Done => true case Go(t, next) => t == s
  {
    NextFinds(rule, s, from);
    var f := Next(rule, s, from);
    assert f >= 0 ==> Good(rule, s, f);
    hide Known, Starts, Exposed, Value, Resume, Next, Masked;
  }

  /** After a pass, no occurrence of its word has a readable value. */
  lemma {:induction false} PassCleans(rule: Rule, s: string, from: nat)
    requires Known(rule) && CleanUpTo(rule, s, from)
    ensures Clean(rule, Rewrite(rule, s, from))
    decreases |s| - from
  {
    TurnCleans(rule, s, from);
    hide Known, OneTurn, CleanUpTo, Clean;
    match OneTurn(rule, s, from)
    case Done =>
    case Go(t, next) => PassCleans(rule, t, next);
  }

  lemma {:induction false} PassKeeps(rule: Rule, other: Rule, s: string, from: nat)
    requires Known(rule) && Known(other) && Rank(other) <= Rank(rule) && other != rule && Clean(other, s)
    ensures Clean(other, Rewrite(rule, s, from))
    decreases |s| - from
  {
    TurnKeeps(rule, other, s, from);
    hide Known, OneTurn, Rank, Clean;
    match OneTurn(rule, s, from)
    case Done =>
    case Go(t, next) => PassKeeps(rule, other, t, next);
  }

  lemma {:induction false} PassOfClean(rule: Rule, s: string, from: nat)
    requires Known(rule) && Clean(rule, s)
    ensures Rewrite(rule, s, from) == s
    decreases |s| - from
  {
    TurnOfClean(rule, s, from);
    hide Known, OneTurn, Clean;
    match OneTurn(rule, s, from)
    case Done =>
    case Go(t, next) => PassOfClean(rule, t, next);
  }

  // ---- all passes -------------------------------------------------------------------------------

  /** Each pass comes once, names first and token prefixes last. */
  ghost predicate Ordered(rules: seq<Rule>) {
    && (forall r :: r in rules ==> Known(r))
    && forall i, j :: 0 <= i < j < |rules| ==> rules[i] != rules[j] && Rank(rules[i]) <= Rank(rules[j])
  }

  lemma RulesOrdered()
    ensures Ordered(RULES)
  {
    hide Known, RULES, Rank;
    RulesKnown();
    forall i, j | 0 <= i < j < |RULES|
      ensures RULES[i] != RULES[j] && Rank(RULES[i]) <= Rank(RULES[j])
    {
      RuleAt(i);
      RuleAt(j);
    }
  }

  /** A number that tells the thirteen words apart. */
  function Mark(rule: Rule): nat {
    match rule
    case Bearer => 7
    case Key(w) =>
      if |w| == 13 then 0 else if |w| == 8 then 1 else if |w| == 7 then 5 else if |w| == 5 then 4
      else if w != "" && w[0] == 'p' then 2 else if w != "" && w[0] == 's' then 3 else 6
    case Prefix(w) =>
      if |w| == 3 then 8 else if |w| == 5 then 11
      else if w != "" && w[0] == 'A' then 12 else if |w| > 2 && w[2] == 'p' then 9 else 10
  }

  lemma RuleAt(i: nat)
    requires i < |RULES|
    ensures Mark(RULES[i]) == i && Rank(RULES[i]) == if i < 7 then 0 else if i == 7 then 1 else 2
  {
  }

  ghost predicate AllClean(rules: seq<Rule>, s: string) { forall r :: r in rules ==> Clean(r, s) }

  lemma {:induction false} ApplyKeeps(other: Rule, rules: seq<Rule>, s: string)
    requires Ordered(rules) && Known(other) && Clean(other, s)
    requires forall r :: r in rules ==> r != other && Rank(other) <= Rank(r)
    ensures Clean(other, Apply(rules, s))
  {
    hide Known, Clean, Rank;
    if rules != [] {
      PassKeeps(rules[0], other, s, 0);
      ApplyKeeps(other, rules[1..], Rewrite(rules[0], s, 0));
    }
  }

  lemma {:induction false} ApplyCleans(rules: seq<Rule>, s: string)
    requires Ordered(rules)
    ensures AllClean(rules, Apply(rules, s))
  {
    if rules != [] {
      assert CleanUpTo(rules[0], s, 0);
      hide Known, Clean, Rank, Rewrite;
      PassCleans(rules[0], s, 0);
      assert forall r :: r in rules[1..] ==> r != rules[0] && Rank(rules[0]) <= Rank(r);
      ApplyKeeps(rules[0], rules[1..], Rewrite(rules[0], s, 0));
      ApplyCleans(rules[1..], Rewrite(rules[0], s, 0));
      assert rules == [rules[0]] + rules[1..];
    }
  }

  lemma {:induction false} ApplyOfClean(rules: seq<Rule>, s: string)
    requires Ordered(rules) && AllClean(rules, s)
    ensures Apply(rules, s) == s
  {
    hide Known, Clean, Rank;
    if rules != [] {
      PassOfClean(rules[0], s, 0);
      ApplyOfClean(rules[1..], s);
    }
  }

  /** No credential name, `bearer` or token prefix in the output has a readable value. */
  lemma RedactedIsClean(text: string)
    ensures AllClean(RULES, Redacted(text))
  {
    RulesOrdered();
    ApplyCleans(RULES, text);
  }

  /** The texts that redaction leaves alone are exactly those with nothing to mask. */
  lemma FixedExactlyWhenClean(text: string)
    ensures Redacted(text) == text <==> AllClean(RULES, text)
  {
    RulesOrdered();
    RedactedIsClean(text);
    if AllClean(RULES, text) {
      ApplyOfClean(RULES, text);
    }
  }

  /**
   The text ends at start, or has a character there that ends a value, or has the mask
   and behind it at most blanks before such an end.
   */
  ghost predicate NothingReadable(s: string, start: nat)
    requires start <= |s|
  {
    || start == |s| || IsValueTerminator(s[start])
    || (start + |MASK| <= |s| && s[start..start + |MASK|] == MASK
        && forall p :: start + |MASK| <= p < |s| && !IsSpace(s[p]) ==>
           exists q :: start + |MASK| <= q <= p && IsValueTerminator(s[q]))
  }

  /** A name at i, then blanks or quotes around one separator, then the value at start. */
  ghost predicate NamesValue(s: string, key: string, i: nat, sep: nat, start: nat) {
    && i + |key| <= sep < start <= |s|
    && Lower(s[i..i + |key|]) == key && IsSeparator(s[sep])
    && (forall p :: i + |key| <= p < start && p != sep ==> In(Soft, s[p]))
    && (start < |s| ==> !In(Soft, s[start]))
  }

  /** What that means for a name, character by character. */
  lemma NameInOutput(text: string, key: string, i: nat, sep: nat, start: nat)
    requires Known(Key(key)) && NamesValue(Redacted(text), key, i, sep, start)
    ensures NothingReadable(Redacted(text), start)
  {
    KeyIsRule(key);
    RedactedIsClean(text);
    assert Clean(Key(key), Redacted(text));
    hide *;
    NameInClean(Redacted(text), key, i, sep, start);
  }

  lemma NameInClean(s: string, key: string, i: nat, sep: nat, start: nat)
    requires Known(Key(key)) && Clean(Key(key), s) && NamesValue(s, key, i, sep, start)
    ensures NothingReadable(s, start)
  {
    hide Known, In, MASK, IsSpace, RunEnd, TrimBack, IsSeparator, IsValueTerminator, NothingReadable;
    NameHere(key, s, i);
    NamedValueFrom(s, i + |key|, sep, start);
    assert Good(Key(key), s, i);
    hide Starts, NamedValue, Clean;
    MaskedOrEmpty(s, start);
  }

  lemma KeyIsRule(key: string)
    requires Known(Key(key))
    ensures Key(key) in RULES
  {
    assert forall i :: 0 <= i < |KEYS| ==> RULES[i] == Key(KEYS[i]);
  }

  lemma NameHere(key: string, s: string, i: nat)
    requires i + |key| <= |s| && Lower(s[i..i + |key|]) == key
    ensures Starts(Key(key), s, i)
  {
    assert forall p :: i <= p < i + |key| ==> Lower(s[i..i + |key|])[p - i] == LowerChar(s[p]);
  }

  lemma NamedValueFrom(s: string, after: nat, sep: nat, start: nat)
    requires after <= sep < start <= |s| && IsSeparator(s[sep])
    requires forall p :: after <= p < start && p != sep ==> In(Soft, s[p])
    requires start < |s| ==> !In(Soft, s[start])
    ensures NamedValue(s, after) == Some(Range(start, TrimBack(s, start, RunEnd(Plain, s, start))))
  {
    assert !In(Soft, s[sep]);
    RunThrough(Soft, s, after, sep);
    RunThrough(Soft, s, sep + 1, start);
  }

  lemma MaskedOrEmpty(s: string, start: nat)
    requires start <= |s| && (start < |s| ==> !In(Soft, s[start]))
    requires var end := TrimBack(s, start, RunEnd(Plain, s, start)); start == end || s[start..end] == MASK
    ensures NothingReadable(s, start)
  {
    var u := RunEnd(Plain, s, start);
    RunChars(Plain, s, start);
    TrimChars(s, start, u);
    if start < u {
      assert !IsSpace(s[start]);
      assert TrimBack(s, start, u) != start;
    }
  }

  /** A second run changes nothing. */
  lemma RedactIdempotent(text: string)
    ensures Redacted(Redacted(text)) == Redacted(text)
  {
    RedactedIsClean(text);
    FixedExactlyWhenClean(Redacted(text));
  }
}
