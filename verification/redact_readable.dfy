/**
 Masking told character by character, without the scanners: what one pass of
 redactSecrets (src/core/StringUtils.cpp) replaces, and what its output can no longer
 hold.
 */
module RedactReadable {
  import opened Text
  import opened Redact
  import opened RedactClean
  import opened RedactStable

  // ---- characters and words ---------------------------------------------------------

  predicate Blank(c: char) { c as int == 32 || 9 <= c as int <= 13 }

  predicate Quote(c: char) { c as int == 34 }

  /** What ends the value of a name. */
  predicate EndsValue(c: char) { Quote(c) || c in [',', '}', '&'] || c as int == 10 || c as int == 13 }

  /** What ends a bearer token. */
  predicate EndsBearer(c: char) { Blank(c) || Quote(c) || c == ',' }

  predicate TokenChar(c: char) {
    '0' <= c <= '9' || 'a' <= c <= 'z' || 'A' <= c <= 'Z' || c == '-' || c == '_'
  }

  predicate Name(w: string) {
    w in ["authorization", "password", "passwd", "secret", "token", "api_key", "apikey"]
  }

  predicate TokenPrefix(w: string) { w in ["sk-", "ghp_", "gho_", "xoxb-", "AKIA"] }

  /** The word stands at i, whatever its case. */
  predicate Stands(w: string, s: string, i: nat) {
    i + |w| <= |s| && forall p :: i <= p < i + |w| ==> LowerChar(s[p]) == w[p - i]
  }

  // ---- values -------------------------------------------------------------------------

  /** Blanks or quotes only. */
  predicate Gap(s: string, i: nat, j: nat) {
    i <= j <= |s| && forall p :: i <= p < j ==> Blank(s[p]) || Quote(s[p])
  }

  /**
   s[start..end] is the value of a name that ends at `after`: behind one colon or equals
   sign, with blanks and quotes around it, up to u, where the value is ended, less the
   blanks before u.
   */
  predicate NameValue(s: string, after: nat, sep: nat, start: nat, end: nat, u: nat) {
    && Gap(s, after, sep) && sep < |s| && (s[sep] == ':' || s[sep] == '=')
    && Gap(s, sep + 1, start) && (start < |s| ==> !Blank(s[start]) && !Quote(s[start]))
    && start <= end <= u <= |s|
    && (forall p :: start <= p < u ==> !EndsValue(s[p])) && (u < |s| ==> EndsValue(s[u]))
    && (forall p :: end <= p < u ==> Blank(s[p])) && (start < end ==> !Blank(s[end - 1]))
  }

  /** s[start..end] is the token behind the word bearer. */
  predicate BearerValue(s: string, start: nat, end: nat) {
    && start <= end <= |s|
    && (forall p :: start <= p < end ==> !EndsBearer(s[p])) && (end < |s| ==> EndsBearer(s[end]))
  }

  /** s[start..end] is what follows a token prefix. */
  predicate TokenTail(s: string, start: nat, end: nat) {
    && start <= end <= |s|
    && (forall p :: start <= p < end ==> TokenChar(s[p])) && (end < |s| ==> !TokenChar(s[end]))
  }

  lemma RunIs(cls: Class, s: string, i: nat, j: nat)
    requires i <= j <= |s| && (forall p :: i <= p < j ==> In(cls, s[p])) && (j < |s| ==> !In(cls, s[j]))
    ensures RunEnd(cls, s, i) == j
  {
    RunThrough(cls, s, i, j);
  }

  /** The scanner for names finds exactly such values. */
  lemma NameValueExactly(s: string, after: nat, v: Range)
    requires after <= |s|
    ensures NamedValue(s, after) == Some(v) <==> exists sep: nat, u: nat :: NameValue(s, after, sep, v.start, v.end, u)
  {
    if NamedValue(s, after) == Some(v) {
      ScannedName(s, after, v);
    }
    if exists sep: nat, u: nat :: NameValue(s, after, sep, v.start, v.end, u) {
      var sep: nat, u: nat :| NameValue(s, after, sep, v.start, v.end, u);
      NameScanned(s, after, sep, v.start, v.end, u);
    }
  }

  lemma ScannedName(s: string, after: nat, v: Range)
    requires after <= |s| && NamedValue(s, after) == Some(v)
    ensures exists sep: nat, u: nat :: NameValue(s, after, sep, v.start, v.end, u)
  {
    var sep := RunEnd(Soft, s, after);
    RunChars(Soft, s, after);
    RunChars(Soft, s, sep + 1);
    var u := RunEnd(Plain, s, v.start);
    RunChars(Plain, s, v.start);
    TrimChars(s, v.start, u);
    hide RunEnd, TrimBack;
    assert NameValue(s, after, sep, v.start, v.end, u);
  }

  lemma NameScanned(s: string, after: nat, sep: nat, start: nat, end: nat, u: nat)
    requires after <= |s| && NameValue(s, after, sep, start, end, u)
    ensures NamedValue(s, after) == Some(Range(start, end))
  {
    assert !In(Soft, s[sep]) && IsSeparator(s[sep]);
    RunIs(Soft, s, after, sep);
    RunIs(Soft, s, sep + 1, start);
    RunIs(Plain, s, start, u);
    TrimIs(s, start, end, u);
    hide RunEnd, TrimBack;
    NamedValueIs(s, after, sep, start, end);
  }

  lemma TrimIs(s: string, lo: nat, end: nat, u: nat)
    requires lo <= end <= u <= |s| && (forall p :: end <= p < u ==> Blank(s[p])) && (lo < end ==> !Blank(s[end - 1]))
    ensures TrimBack(s, lo, u) == end
    decreases u
  {
    if end < u {
      TrimIs(s, lo, end, u - 1);
    }
  }

  lemma BearerValueExactly(s: string, start: nat, end: nat)
    requires start <= |s|
    ensures RunEnd(Unbroken, s, start) == end <==> BearerValue(s, start, end)
  {
    RunChars(Unbroken, s, start);
    if BearerValue(s, start, end) {
      RunIs(Unbroken, s, start, end);
    }
    hide RunEnd;
  }

  lemma TokenTailExactly(s: string, start: nat, end: nat)
    requires start <= |s|
    ensures RunEnd(Tail, s, start) == end <==> TokenTail(s, start, end)
  {
    RunChars(Tail, s, start);
    if TokenTail(s, start, end) {
      RunIs(Tail, s, start, end);
    }
    hide RunEnd;
  }

  lemma StandsHere(rule: Rule, s: string, i: nat)
    ensures !rule.Prefix? ==> (Starts(rule, s, i) <==> Stands(Word(rule), s, i))
    ensures rule.Prefix? ==> (Starts(rule, s, i) <==> i + |rule.word| <= |s| && s[i..i + |rule.word|] == rule.word)
  {
    if rule.Prefix? && i + |rule.word| <= |s| {
      assert forall p :: i <= p < i + |rule.word| ==> s[p] == s[i..i + |rule.word|][p - i];
    }
  }

  // ---- what the output no longer holds ------------------------------------------------

  lemma WordsAreRules(w: string)
    ensures Name(w) ==> Key(w) in RULES
    ensures TokenPrefix(w) ==> Prefix(w) in RULES
    ensures Bearer in RULES
  {
    assert RULES[7] == Bearer;
    assert forall i :: 0 <= i < 7 ==> RULES[i] == Key(KEYS[i]);
    assert forall i :: 0 <= i < 5 ==> RULES[i + 8] == Prefix(PREFIXES[i]);
  }

  lemma OutputIsGood(text: string, rule: Rule, i: nat)
    requires rule in RULES
    ensures Good(rule, Redacted(text), i)
  {
    RedactedIsClean(text);
    hide Redacted, RULES, Good;
  }

  /** No listed token prefix in the output is followed by eight characters of a token. */
  lemma TokenInOutput(text: string, prefix: string, i: nat)
    requires TokenPrefix(prefix) && i + |prefix| + 8 <= |Redacted(text)|
    requires Redacted(text)[i..i + |prefix|] == prefix
    ensures exists p :: i + |prefix| <= p < i + |prefix| + 8 && !TokenChar(Redacted(text)[p])
  {
    hide *;
    WordsAreRules(prefix);
    OutputIsGood(text, Prefix(prefix), i);
    ShortTail(Redacted(text), prefix, i);
  }

  lemma ShortTail(s: string, prefix: string, i: nat)
    requires Good(Prefix(prefix), s, i) && i + |prefix| + 8 <= |s| && s[i..i + |prefix|] == prefix
    ensures exists p :: i + |prefix| <= p < i + |prefix| + 8 && !TokenChar(s[p])
  {
    var after := i + |prefix|;
    StandsHere(Prefix(prefix), s, i);
    TokenTailExactly(s, after, RunEnd(Tail, s, after));
    hide RunEnd, TokenChar, Starts;
    assert !TokenChar(s[RunEnd(Tail, s, after)]);
  }

  /**
   The word bearer and a blank in the output are followed by nothing that could be a token, or by exactly the mask.
   */
  lemma BearerInOutput(text: string, i: nat, end: nat)
    requires Stands("bearer ", Redacted(text), i) && BearerValue(Redacted(text), i + 7, end)
    ensures end == i + 7 || Redacted(text)[i + 7..end] == "***REDACTED***"
  {
    hide *;
    WordsAreRules("");
    OutputIsGood(text, Bearer, i);
    BearerIsMask(Redacted(text), i, end);
  }

  lemma BearerIsMask(s: string, i: nat, end: nat)
    requires Good(Bearer, s, i) && Stands("bearer ", s, i) && BearerValue(s, i + 7, end)
    ensures end == i + 7 || s[i + 7..end] == "***REDACTED***"
  {
    StandsHere(Bearer, s, i);
    BearerValueExactly(s, i + 7, end);
    hide RunEnd, Starts, BearerValue, Stands;
  }

  /** A listed name in the output, in any case, has no value or exactly the mask. */
  lemma NameInOutputExactly(text: string, key: string, i: nat, sep: nat, start: nat, end: nat, u: nat)
    requires Name(key) && Stands(key, Redacted(text), i)
    requires NameValue(Redacted(text), i + |key|, sep, start, end, u)
    ensures end == start || Redacted(text)[start..end] == "***REDACTED***"
  {
    hide *;
    WordsAreRules(key);
    OutputIsGood(text, Key(key), i);
    NameIsMask(Redacted(text), key, i, sep, start, end, u);
  }

  lemma NameIsMask(s: string, key: string, i: nat, sep: nat, start: nat, end: nat, u: nat)
    requires Good(Key(key), s, i) && Stands(key, s, i) && NameValue(s, i + |key|, sep, start, end, u)
    ensures start <= end <= |s| && (end == start || s[start..end] == "***REDACTED***")
  {
    StandsHere(Key(key), s, i);
    NameScanned(s, i + |key|, sep, start, end, u);
    hide NamedValue, Starts, Stands;
  }

  // ---- what one pass replaces -------------------------------------------------------------

  ghost predicate NamedAt(w: string, s: string, i: nat, sep: nat, v: Range, u: nat) {
    Stands(w, s, i) && NameValue(s, i + |w|, sep, v.start, v.end, u)
  }

  /**
   The range is the value, in the original text, of an occurrence of the rule's word, and long enough to be masked.
   */
  ghost predicate ValueOf(rule: Rule, s: string, v: Range) {
    && v.start <= v.end <= |s|
    && match rule
       case Key(w) => v.start < v.end && exists i: nat, sep: nat, u: nat :: NamedAt(w, s, i, sep, v, u)
       case Bearer => v.start < v.end && v.start >= 7 && Stands("bearer ", s, v.start - 7)
         && BearerValue(s, v.start, v.end)
       case Prefix(w) => v.end >= v.start + 8 && v.start >= |w| && s[v.start - |w|..v.start] == w
                         && TokenTail(s, v.start, v.end)
  }

  /** From position `at` on, the ranges are in order and replaced by the mask; everything else stays. */
  ghost predicate InOrder(s: string, at: nat, ranges: seq<Range>)
    decreases |ranges|
  {
    && at <= |s|
    && (ranges != [] ==>
        at <= ranges[0].start <= ranges[0].end <= |s| && InOrder(s, ranges[0].end, ranges[1..]))
  }

  ghost function Replaced(s: string, at: nat, ranges: seq<Range>): string
    requires InOrder(s, at, ranges)
    decreases |ranges|
  {
    if ranges == [] then s[at..]
    else s[at..ranges[0].start] + "***REDACTED***" + Replaced(s, ranges[0].end, ranges[1..])
  }

  lemma ExposedIsValue(rule: Rule, s: string, i: nat)
    requires Starts(rule, s, i) && Exposed(rule, s, i)
    ensures ValueOf(rule, s, Value(rule, s, i).value)
  {
    match rule
    case Key(w) => ExposedName(w, s, i);
    case Bearer => ExposedBearer(s, i);
    case Prefix(w) => ExposedToken(w, s, i);
    hide Starts, Exposed, ValueOf;
  }

  lemma ExposedName(w: string, s: string, i: nat)
    requires Starts(Key(w), s, i) && Exposed(Key(w), s, i)
    ensures ValueOf(Key(w), s, Value(Key(w), s, i).value)
  {
    var v := Value(Key(w), s, i).value;
    StandsHere(Key(w), s, i);
    assert v.start < v.end <= |s| && NamedValue(s, i + |w|) == Some(v);
    hide Starts, Exposed, NamedValue, Stands, NameValue;
    ScannedName(s, i + |w|, v);
    var sep: nat, u: nat :| NameValue(s, i + |w|, sep, v.start, v.end, u);
    assert NamedAt(w, s, i, sep, v, u);
  }

  lemma ExposedBearer(s: string, i: nat)
    requires Starts(Bearer, s, i) && Exposed(Bearer, s, i)
    ensures ValueOf(Bearer, s, Value(Bearer, s, i).value)
  {
    var v := Value(Bearer, s, i).value;
    StandsHere(Bearer, s, i);
    assert v.start == i + 7 < v.end <= |s| && v.end == RunEnd(Unbroken, s, i + 7);
    hide Starts, Exposed, RunEnd, Stands, BearerValue;
    BearerValueExactly(s, i + 7, v.end);
  }

  lemma ExposedToken(w: string, s: string, i: nat)
    requires Starts(Prefix(w), s, i) && Exposed(Prefix(w), s, i)
    ensures ValueOf(Prefix(w), s, Value(Prefix(w), s, i).value)
  {
    var v := Value(Prefix(w), s, i).value;
    StandsHere(Prefix(w), s, i);
    assert v.start == i + |w| && v.start + 8 <= v.end <= |s| && v.end == RunEnd(Tail, s, i + |w|);
    hide Starts, Exposed, RunEnd, TokenTail;
    TokenTailExactly(s, i + |w|, v.end);
  }

  lemma LaterReplaced(s: string, at: nat, later: nat, ranges: seq<Range>)
    requires at <= later && InOrder(s, later, ranges)
    ensures InOrder(s, at, ranges) && Replaced(s, at, ranges) == s[at..later] + Replaced(s, later, ranges)
  {
    if ranges == [] {
      assert s[at..] == s[at..later] + s[later..];
    } else {
      var v, tail := ranges[0], Replaced(s, ranges[0].end, ranges[1..]);
      assert Replaced(s, later, ranges) == s[later..v.start] + "***REDACTED***" + tail;
      assert Replaced(s, at, ranges) == s[at..v.start] + "***REDACTED***" + tail;
      hide *;
      LaterCut(s, at, later, v.start, "***REDACTED***", tail);
    }
  }

  lemma LaterCut(s: string, at: nat, later: nat, start: nat, mask: string, tail: string)
    requires at <= later <= start <= |s|
    ensures s[at..start] + mask + tail == s[at..later] + (s[later..start] + mask + tail)
  {
    assert s[at..start] == s[at..later] + s[later..start];
  }

  /** A turn that masks, in terms of the original text. */
  lemma MaskedTurn(s0: string, at: nat, v0: Range, s: string, from: nat, d: int, v: Range, t: string, tail: string)
    requires Aligned(s0, at, s, d) && from == at + d && at <= v0.start <= v0.end <= |s0|
    requires v.start == v0.start + d && v.end == v0.end + d && t == Masked(s, v)
    ensures Aligned(s0, v0.end, t, v.start + |MASK| - v0.end)
    ensures from <= |s| && v.start + |MASK| <= |t|
    ensures t[..v.start + |MASK|] + tail == s[..from] + (s0[at..v0.start] + "***REDACTED***" + tail)
  {
    assert s[..v.start] == s[..from] + s0[at..v0.start];
    assert t[..v.start + |MASK|] == s[..v.start] + MASK;
  }

  /** A turn that only moves on. */
  lemma MovedTurn(s0: string, at: nat, s: string, from: nat, d: int, next: nat, tail: string)
    requires Aligned(s0, at, s, d) && from == at + d && from <= next <= |s|
    ensures 0 <= next - d <= |s0| && Aligned(s0, next - d, s, d)
    ensures s[..next] + tail == s[..from] + (s0[at..next - d] + tail)
  {
    assert s[..next] == s[..from] + s0[at..next - d];
  }

  lemma NothingLeft(s0: string, at: nat, s: string, from: nat, d: int)
    requires Aligned(s0, at, s, d) && from == at + d
    ensures s == s[..from] + s0[at..]
  {
    assert s[from..] == s0[at..];
  }

  /** What OneTurn did, as far as it matters here. */
  lemma TurnIs(rule: Rule, s: string, from: nat)
    requires Known(rule) && from <= |s|
    ensures match OneTurn(rule, s, from)
      case Done => true
      case Go(t, next) =>
        exists f: nat :: from <= f && Starts(rule, s, f) && TurnAt(rule, s, f, t, next)
  {
    NextFinds(rule, s, from);
    var f := Next(rule, s, from);
    hide Starts, Exposed, Value, Resume, Next, Known;
    if f >= 0 {
      if !Exposed(rule, s, f) {
        ResumeInside(rule, s, f);
      }
      assert TurnAt(rule, s, f, OneTurn(rule, s, from).text, OneTurn(rule, s, from).from);
    }
  }

  ghost predicate TurnAt(rule: Rule, s: string, f: nat, t: string, next: nat)
    requires Starts(rule, s, f)
  {
    if Exposed(rule, s, f) then
      var v := Value(rule, s, f).value;
      t == Masked(s, v) && next == v.start + |MASK|
    else t == s && f <= next <= |s|
  }

  lemma ResumeInside(rule: Rule, s: string, f: nat)
    requires Starts(rule, s, f) && !Exposed(rule, s, f)
    ensures f <= Resume(rule, s, f) <= |s|
  {
    hide NamedValue, RunEnd, Starts;
    assert f + |Word(rule)| <= |s| by {
      WordFits(rule, s, f);
    }
  }

  lemma WordFits(rule: Rule, s: string, f: nat)
    requires Starts(rule, s, f)
    ensures f + |Word(rule)| <= |s|
  {
  }

  lemma RewriteIs(rule: Rule, s: string, from: nat)
    requires Known(rule)
    ensures Rewrite(rule, s, from)
         == match OneTurn(rule, s, from) case Done => s case Go(t, next) => Rewrite(rule, t, next)
    ensures OneTurn(rule, s, from).Go? ==>
      |OneTurn(rule, s, from).text| - OneTurn(rule, s, from).from < |s| - from && from < |s|
  {
    hide OneTurn;
  }

  lemma EmptyReplaced(s: string, at: nat)
    requires at <= |s|
    ensures InOrder(s, at, []) && Replaced(s, at, []) == s[at..]
  {
  }

  lemma AlignedPlace(s0: string, at: nat, s: string, d: int)
    requires Aligned(s0, at, s, d)
    ensures at <= |s0| && 0 <= at + d && |s| == |s0| + d
  {
  }

  lemma OneMore(s: string, at: nat, v: Range, rest: seq<Range>)
    requires at <= v.start <= v.end && InOrder(s, v.end, rest)
    requires v.end <= |s|
    ensures InOrder(s, at, [v] + rest)
    ensures Replaced(s, at, [v] + rest) == s[at..v.start] + "***REDACTED***" + Replaced(s, v.end, rest)
  {
    assert ([v] + rest)[1..] == rest;
  }

  /** What was found in the text at hand stands in the original text, with the same value. */
  lemma FoundInOriginal(rule: Rule, s0: string, at: nat, s: string, from: nat, d: int, f: nat)
    requires Aligned(s0, at, s, d) && from == at + d && from <= f && Starts(rule, s, f)
    ensures at <= f - d && Starts(rule, s0, f - d)
    ensures Exposed(rule, s, f) ==>
      && Value(rule, s, f).Some? && Value(rule, s0, f - d).Some?
      && var v0, v := Value(rule, s0, f - d).value, Value(rule, s, f).value;
         && v.start == v0.start + d && v.end == v0.end + d && at <= v0.start <= v0.end <= |s0|
         && ValueOf(rule, s0, v0)
  {
    hide *;
    WordFits(rule, s, f);
    AlignedPlace(s0, at, s, d);
    var f0 := f - d;
    AlignedLater(s0, at, s, d, f0);
    StartsShift(rule, s0, f0, s, d);
    if Exposed(rule, s, f) {
      SameExposed(rule, s0, f0, s, d);
      ExposedHasValue(rule, s, f);
      ExposedHasValue(rule, s0, f0);
      ValueShift(rule, s0, f0, s, f, d);
      MovedIs(Value(rule, s0, f0), d, Value(rule, s, f));
      ExposedIsValue(rule, s0, f0);
      WordFits(rule, s0, f0);
      ValueInside(rule, s0, f0);
    }
  }

  lemma MovedIs(v: Option<Range>, d: int, w: Option<Range>)
    requires Moved(v, d, w) && v.Some?
    ensures w.Some? && w.value.start == v.value.start + d && w.value.end == v.value.end + d
  {
  }

  lemma ValueInside(rule: Rule, s: string, i: nat)
    requires i + |Word(rule)| <= |s| && Value(rule, s, i).Some?
    ensures i <= Value(rule, s, i).value.start <= Value(rule, s, i).value.end <= |s|
  {
  }

  lemma SameExposed(rule: Rule, s0: string, f0: nat, s: string, d: int)
    requires Aligned(s0, f0, s, d) && Starts(rule, s0, f0)
    ensures f0 + d >= 0 && Starts(rule, s, f0 + d)
    ensures Exposed(rule, s0, f0) <==> Exposed(rule, s, f0 + d)
  {
    AlignedPlace(s0, f0, s, d);
    hide Aligned, Starts, Exposed;
    StartsShift(rule, s0, f0, s, d);
    GoodShift(rule, s0, f0, s, d);
  }

  lemma TurnMasks(rule: Rule, s: string, f: nat, t: string, next: nat)
    requires Starts(rule, s, f) && Exposed(rule, s, f) && TurnAt(rule, s, f, t, next)
    ensures Value(rule, s, f).Some?
    ensures var v := Value(rule, s, f).value;
      v.start <= v.end <= |s| && t == Masked(s, v) && next == v.start + |MASK|
  {
    ExposedHasValue(rule, s, f);
    hide Starts, Exposed;
  }

  lemma TurnMoves(rule: Rule, s: string, f: nat, t: string, next: nat)
    requires Starts(rule, s, f) && !Exposed(rule, s, f) && TurnAt(rule, s, f, t, next)
    ensures t == s && f <= next <= |s|
  {
    hide Starts, Exposed;
  }

  /**
   One pass, from any turn on: it replaces by the mask some values that the original
   text has behind this place, in their order, and changes nothing else.
   */
  lemma {:induction false} RestOfPass(rule: Rule, s0: string, at: nat, s: string, from: nat, d: int)
    returns (ranges: seq<Range>)
    requires Known(rule) && Aligned(s0, at, s, d) && from == at + d
    ensures InOrder(s0, at, ranges) && Rewrite(rule, s, from) == s[..from] + Replaced(s0, at, ranges)
    ensures forall v :: v in ranges ==> ValueOf(rule, s0, v)
    decreases |s| - from
  {
    hide *;
    AlignedPlace(s0, at, s, d);
    TurnIs(rule, s, from);
    RewriteIs(rule, s, from);
    match OneTurn(rule, s, from)
    case Done =>
      ranges := [];
      NothingLeft(s0, at, s, from, d);
      EmptyReplaced(s0, at);
    case Go(t, next) =>
      var f: nat :| from <= f && Starts(rule, s, f) && TurnAt(rule, s, f, t, next);
      FoundInOriginal(rule, s0, at, s, from, d, f);
      if Exposed(rule, s, f) {
        var v0, v := Value(rule, s0, f - d).value, Value(rule, s, f).value;
        TurnMasks(rule, s, f, t, next);
        MaskedTurn(s0, at, v0, s, from, d, v, t, "");
        var rest := RestOfPass(rule, s0, v0.end, t, next, next - v0.end);
        ranges := [v0] + rest;
        OneMore(s0, at, v0, rest);
        MaskedTurn(s0, at, v0, s, from, d, v, t, Replaced(s0, v0.end, rest));
      } else {
        TurnMoves(rule, s, f, t, next);
        MovedTurn(s0, at, s, from, d, next, "");
        ranges := RestOfPass(rule, s0, next - d, s, next, d);
        LaterReplaced(s0, at, next - d, ranges);
        MovedTurn(s0, at, s, from, d, next, Replaced(s0, next - d, ranges));
      }
  }

  /**
   A whole pass over a text replaces by the mask some of the values that the text has
   for the pass's word, each of them whole, and leaves every other character as it is.
   */
  lemma PassReplacesValues(rule: Rule, s: string) returns (ranges: seq<Range>)
    requires Known(rule)
    ensures InOrder(s, 0, ranges) && Rewrite(rule, s, 0) == Replaced(s, 0, ranges)
    ensures forall v :: v in ranges ==> ValueOf(rule, s, v)
  {
    assert Aligned(s, 0, s, 0);
    hide *;
    ranges := RestOfPass(rule, s, 0, s, 0, 0);
    assert s[..0] + Replaced(s, 0, ranges) == Replaced(s, 0, ranges);
  }

  /** The example that the masking of token prefixes is for. */
  lemma TokenIsMasked(prefix: string, tail: string)
    requires TokenPrefix(prefix) && |tail| >= 8 && forall p :: 0 <= p < |tail| ==> TokenChar(tail[p])
    ensures Redacted(prefix + tail) != prefix + tail
  {
    var text := prefix + tail;
    assert text[0..|prefix|] == prefix;
    assert forall p :: |prefix| <= p < |prefix| + 8 ==> text[p] == tail[p - |prefix|];
    hide Redacted, TokenChar, TokenPrefix;
    if Redacted(text) == text {
      TokenInOutput(text, prefix, 0);
    }
  }

  /** A text, and what a pass makes of it. */
  ghost predicate PassFrom(rule: Rule, s: string, t: string) {
    exists ranges ::
      InOrder(s, 0, ranges) && t == Replaced(s, 0, ranges) && forall v :: v in ranges ==> ValueOf(rule, s, v)
  }

  lemma {:induction false} PassByPass(rules: seq<Rule>, s: string) returns (texts: seq<string>)
    requires forall r :: r in rules ==> Known(r)
    ensures |texts| == |rules| + 1 && texts[0] == s && texts[|rules|] == Apply(rules, s)
    ensures forall k :: 0 <= k < |rules| ==> PassFrom(rules[k], texts[k], texts[k + 1])
  {
    hide Known, Rewrite, ValueOf, InOrder, Replaced;
    if rules == [] {
      texts := [s];
    } else {
      var ranges := PassReplacesValues(rules[0], s);
      var t := Rewrite(rules[0], s, 0);
      assert PassFrom(rules[0], s, t);
      var rest := PassByPass(rules[1..], t);
      texts := [s] + rest;
      hide PassFrom;
      forall k | 0 <= k < |rules|
        ensures PassFrom(rules[k], texts[k], texts[k + 1])
      {
        if k > 0 {
          assert rules[k] == rules[1..][k - 1] && texts[k] == rest[k - 1] && texts[k + 1] == rest[k];
        }
      }
    }
  }

  /** The whole function: thirteen such passes, the names first, then bearer, then the token prefixes. */
  lemma RedactedByPasses(text: string) returns (texts: seq<string>)
    ensures |texts| == 14 && texts[0] == text && texts[13] == Redacted(text)
    ensures forall k :: 0 <= k < 7 ==>
      PassFrom(Key(["authorization", "password", "passwd", "secret", "token", "api_key", "apikey"][k]), texts[k],
        texts[k + 1])
    ensures PassFrom(Bearer, texts[7], texts[8])
    ensures forall k :: 0 <= k < 5 ==>
      PassFrom(Prefix(["sk-", "ghp_", "gho_", "xoxb-", "AKIA"][k]), texts[k + 8], texts[k + 9])
  {
    RulesKnown();
    hide PassFrom, Known, Apply;
    texts := PassByPass(RULES, text);
    assert |RULES| == 13;
    RulesInOrder();
    assert RULES[7] == Bearer;
  }

  lemma RulesInOrder()
    ensures |RULES| == 13
    ensures forall k :: 0 <= k < 7 ==>
      RULES[k] == Key(["authorization", "password", "passwd", "secret", "token", "api_key", "apikey"][k])
    ensures forall k :: 0 <= k < 5 ==> RULES[k + 8] == Prefix(["sk-", "ghp_", "gho_", "xoxb-", "AKIA"][k])
  {
  }
}
