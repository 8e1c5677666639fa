/**
 Masking of secrets (redactSecrets in src/core/StringUtils.cpp): thirteen
 left-to-right rewriting passes, and why a second run changes nothing.
 */
module Redact {
  import opened Text

  const MASK: string := "***REDACTED***"

  /** One pass: a credential name, the word `bearer`, or a token prefix. */
  datatype Rule = Key(word: string) | Bearer | Prefix(word: string)

  const KEYS: seq<string> := ["authorization", "password", "passwd", "secret", "token", "api_key", "apikey"]
  const PREFIXES: seq<string> := ["sk-", "ghp_", "gho_", "xoxb-", "AKIA"]

  function Word(rule: Rule): string {
    match rule
    case Key(w) => w
    case Bearer => "bearer "
    case Prefix(w) => w
  }

  predicate Known(rule: Rule) {
    match rule
    case Key(w) => w in KEYS
    case Bearer => true
    case Prefix(w) => w in PREFIXES
  }

  // ---- what a pass looks at ---------------------------------------------------------

  datatype Class = Soft | Plain | Unbroken | Tail

  predicate IsSeparator(c: char) { c == ':' || c == '=' }

  predicate IsValueTerminator(c: char) {
    c == '"' || c == ',' || c == '\n' || c == '\r' || c == '}' || c == '&'
  }

  predicate In(cls: Class, c: char) {
    match cls
    case Soft => c == '"' || IsSpace(c)
    case Plain => !IsValueTerminator(c)
    case Unbroken => !IsSpace(c) && c != '"' && c != ','
    case Tail => IsAlnum(c) || c == '-' || c == '_'
  }

  /** Where the run of characters of one class that starts at `i` ends. */
  function RunEnd(cls: Class, s: string, i: nat): (r: nat)
    requires i <= |s|
    ensures i <= r <= |s|
    decreases |s| - i
  {
    if i < |s| && In(cls, s[i]) then RunEnd(cls, s, i + 1) else i
  }

  lemma {:induction false} RunChars(cls: Class, s: string, i: nat)
    requires i <= |s|
    ensures forall j :: i <= j < RunEnd(cls, s, i) ==> In(cls, s[j])
    ensures RunEnd(cls, s, i) < |s| ==> !In(cls, s[RunEnd(cls, s, i)])
    decreases |s| - i
  {
    if i < |s| && In(cls, s[i]) {
      RunChars(cls, s, i + 1);
    }
  }

  /** The end of s[lo..hi] without its trailing whitespace. */
  function TrimBack(s: string, lo: nat, hi: nat): (r: nat)
    requires lo <= hi <= |s|
    ensures lo <= r <= hi
  {
    if lo < hi && IsSpace(s[hi - 1]) then TrimBack(s, lo, hi - 1) else hi
  }

  lemma {:induction false} TrimChars(s: string, lo: nat, hi: nat)
    requires lo <= hi <= |s|
    ensures forall j :: TrimBack(s, lo, hi) <= j < hi ==> IsSpace(s[j])
    ensures lo < TrimBack(s, lo, hi) ==> !IsSpace(s[TrimBack(s, lo, hi) - 1])
  {
    if lo < hi && IsSpace(s[hi - 1]) {
      TrimChars(s, lo, hi - 1);
    }
  }

  function Fold(rule: Rule, c: char): char { if rule.Prefix? then c else LowerChar(c) }

  /** The rule's word stands at index `i`; only token prefixes are case-sensitive. */
  predicate Starts(rule: Rule, s: string, i: nat) {
    i + |Word(rule)| <= |s| && forall p :: i <= p < i + |Word(rule)| ==> Fold(rule, s[p]) == Word(rule)[p - i]
  }

  datatype Range = Range(start: nat, end: nat)

  /** The value of a name that ends at `after`: what stands behind a separator. */
  function NamedValue(s: string, after: nat): (r: Option<Range>)
    requires after <= |s|
    ensures r.Some? ==> after <= r.value.start <= r.value.end <= |s|
  {
    var sep := RunEnd(Soft, s, after);
    if sep == |s| || !IsSeparator(s[sep]) then None
    else
      var start := RunEnd(Soft, s, sep + 1);
      Some(Range(start, TrimBack(s, start, RunEnd(Plain, s, start))))
  }

  /** The value that belongs to the word at `i`; a name needs a separator behind it. */
  function Value(rule: Rule, s: string, i: nat): (r: Option<Range>)
    requires i + |Word(rule)| <= |s|
    ensures r.Some? ==> i + |Word(rule)| <= r.value.start <= r.value.end <= |s|
  {
    var after := i + |Word(rule)|;
    match rule
    case Key(_) => NamedValue(s, after)
    case Bearer => Some(Range(after, RunEnd(Unbroken, s, after)))
    case Prefix(_) => Some(Range(after, RunEnd(Tail, s, after)))
  }

  /** The value is still readable and has to be masked. */
  predicate Exposed(rule: Rule, s: string, i: nat)
    requires Starts(rule, s, i)
  {
    var v := Value(rule, s, i);
    && v.Some?
    && if rule.Prefix? then v.value.end - v.value.start >= 8
       else v.value.start < v.value.end && s[v.value.start..v.value.end] != MASK
  }

  predicate Good(rule: Rule, s: string, i: nat) { Starts(rule, s, i) ==> !Exposed(rule, s, i) }

  /** No occurrence of the rule's word has a readable value. */
  ghost predicate Clean(rule: Rule, s: string) { forall i: nat :: Good(rule, s, i) }

  // ---- one pass ----------------------------------------------------------------------

  function Haystack(rule: Rule, s: string): string { if rule.Prefix? then s else Lower(s) }

  function Next(rule: Rule, s: string, from: nat): int { Find(Haystack(rule, s), Word(rule), from) }

  lemma AtIsStarts(rule: Rule, s: string, i: nat)
    ensures At(Haystack(rule, s), Word(rule), i) <==> Starts(rule, s, i)
  {
    var h, w := Haystack(rule, s), Word(rule);
    if i + |w| <= |s| {
      var part := h[i..i + |w|];
      assert forall p :: i <= p < i + |w| ==> part[p - i] == h[p] == Fold(rule, s[p]);
      assert forall j :: 0 <= j < |w| ==> part[j] == h[i + j];
      if Starts(rule, s, i) {
        assert part == w;
      }
    }
  }

  lemma NextFinds(rule: Rule, s: string, from: nat)
    ensures var f := Next(rule, s, from);
      && (f < 0 ==> forall i: nat :: from <= i ==> !Starts(rule, s, i))
      && (f >= 0 ==> from <= f && Starts(rule, s, f) && forall i: nat :: from <= i < f ==> !Starts(rule, s, i))
  {
    forall i: nat
      ensures At(Haystack(rule, s), Word(rule), i) <==> Starts(rule, s, i)
    {
      AtIsStarts(rule, s, i);
    }
  }

  function Masked(s: string, v: Range): string
    requires v.start <= v.end <= |s|
  {
    s[..v.start] + MASK + s[v.end..]
  }

  /** Where the search goes on behind a word whose value needs no mask. */
  function Resume(rule: Rule, s: string, i: nat): nat
    requires Starts(rule, s, i)
  {
    var v := Value(rule, s, i);
    if v.None? then i + |Word(rule)|
    else if rule.Prefix? then v.value.end
    else if v.value.end <= v.value.start then v.value.start
    else v.value.start + |MASK|
  }

  datatype Turn = Done | Go(text: string, from: nat)

  /** One turn of the loop, started at `from`: the text and the place to go on with. */
  function OneTurn(rule: Rule, s: string, from: nat): (r: Turn)
    requires Known(rule)
    ensures r.Go? ==> |r.text| - r.from < |s| - from && from < |s|
  {
    NextFinds(rule, s, from);
    WordFacts(rule);
    var found := Next(rule, s, from);
    if found < 0 then Done
    else if Exposed(rule, s, found) then
      var v := Value(rule, s, found).value;
      Go(Masked(s, v), v.start + |MASK|)
    else Go(s, Resume(rule, s, found))
  }

  /**
   The loop of one pass.  Every turn comes closer to the end of the text, which is
   why the loop ends although masking can lengthen the text.
   */
  function Rewrite(rule: Rule, s: string, from: nat): string
    requires Known(rule)
    decreases |s| - from
  {
    match OneTurn(rule, s, from)
    case Done => s
    case Go(t, next) => Rewrite(rule, t, next)
  }

  // ---- facts about the words -----------------------------------------------------------

  /** A character no run of blanks, quotes or separators, no value end and no mask border has. */
  predicate Solid(c: char) { IsAlpha(c) || c == '-' || c == '_' }

  /** A character that is in no part of the mask, in either case. */
  predicate Foreign(c: char) { LowerChar(c) !in "*redacted" }

  /** The length of the word without the blank that ends "bearer ". */
  function Core(rule: Rule): nat { if rule.Bearer? then 6 else |Word(rule)| }

  predicate WordOk(w: string) {
    3 <= |w| && (forall j :: 0 <= j < |w| ==> Solid(w[j])) && (Foreign(w[0]) || Foreign(w[1]))
  }

  lemma NamesOk()
    ensures forall w :: w in KEYS ==> WordOk(w)
  {
    assert WordOk("authorization") && WordOk("password") && WordOk("passwd") && WordOk("secret");
    assert WordOk("token") && WordOk("api_key") && WordOk("apikey");
    hide WordOk;
  }

  lemma PrefixesOk()
    ensures forall w :: w in PREFIXES ==> WordOk(w)
  {
    assert WordOk("sk-") && WordOk("ghp_") && WordOk("gho_") && WordOk("xoxb-") && WordOk("AKIA");
    hide WordOk;
  }

  lemma WordFacts(rule: Rule)
    requires Known(rule)
    ensures 3 <= Core(rule) <= |Word(rule)|
    ensures forall j :: 0 <= j < Core(rule) ==> Solid(Word(rule)[j])
    ensures rule.Bearer? ==> |Word(rule)| == 7 && Word(rule)[6] == ' '
    ensures exists j :: 0 <= j < Core(rule) && Foreign(Word(rule)[j])
  {
    NamesOk();
    PrefixesOk();
    if rule.Bearer? {
      assert Solid('b') && Solid('e') && Solid('a') && Solid('r') && Foreign(Word(rule)[0]);
    } else {
      hide KEYS, PREFIXES, Solid, Foreign;
    }
  }

  /** No name or `bearer` overlaps a shifted copy of itself. */
  lemma NoOverlap(rule: Rule, d: nat)
    requires Known(rule) && !rule.Prefix? && 0 < d < |Word(rule)|
    ensures Word(rule)[d] != Word(rule)[0] || (d + 1 < |Word(rule)| && Word(rule)[d + 1] != Word(rule)[1])
  {
  }

  function FromEnd(w: string, d: nat): char
    requires 1 <= d <= |w|
  {
    w[|w| - d]
  }

  /** Aligned at their ends, the two words differ somewhere, even in lower case. */
  predicate EndApart(a: string, b: string) {
    exists d :: 1 <= d <= |a| && d <= |b| && FromEnd(a, d) != LowerChar(FromEnd(b, d))
  }

  lemma NamesEndApart(a: string, b: string)
    requires a in KEYS && b in KEYS && a != b
    ensures EndApart(a, b)
  {
    assert |a| >= 5 && |b| >= 5;
    assert forall d :: 1 <= d <= |b| ==> LowerChar(FromEnd(b, d)) == FromEnd(b, d);
    assert FromEnd(a, 1) != FromEnd(b, 1) || FromEnd(a, 2) != FromEnd(b, 2) || FromEnd(a, 4) != FromEnd(b, 4);
  }

  lemma LastOfName(a: string)
    requires a in KEYS
    ensures |a| >= 5 && FromEnd(a, 1) in "ndty"
  {
  }

  lemma LastOfOther(rule: Rule)
    requires Known(rule) && !rule.Key?
    ensures var b := Word(rule)[..Core(rule)]; |b| >= 3 && LowerChar(FromEnd(b, 1)) in "r-_a"
  {
  }

  lemma KeysEndApart(key: string, rule: Rule)
    requires Known(Key(key)) && Known(rule) && rule != Key(key)
    ensures EndApart(key, Word(rule)[..Core(rule)])
  {
    if rule.Key? {
      assert rule.word[..|rule.word|] == rule.word;
      NamesEndApart(key, rule.word);
    } else {
      LastOfName(key);
      LastOfOther(rule);
    }
  }

  // ---- all passes ------------------------------------------------------------------------

  const RULES: seq<Rule> := [
    Key("authorization"), Key("password"), Key("passwd"), Key("secret"), Key("token"), Key("api_key"), Key("apikey"),
    Bearer,
    Prefix("sk-"), Prefix("ghp_"), Prefix("gho_"), Prefix("xoxb-"), Prefix("AKIA")]

  lemma RulesKnown()
    ensures forall r :: r in RULES ==> Known(r)
  {
  }

  function Apply(rules: seq<Rule>, s: string): string
    requires forall r :: r in rules ==> Known(r)
  {
    if rules == [] then s else Apply(rules[1..], Rewrite(rules[0], s, 0))
  }

  function Redacted(text: string): string {
    RulesKnown();
    Apply(RULES, text)
  }
}
