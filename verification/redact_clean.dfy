/**
 What masking guarantees: every pass leaves the text clean for its own word, no
 later pass makes an earlier one necessary again, and so a second run changes
 nothing.
 */
module RedactClean {
  import opened Text
  import opened Redact

  // ---- one replacement, seen from the words elsewhere in the text --------------------

  /**
   `t` is `s` with a value replaced by the mask.  The value belongs to a word whose
   core is s[core..end]; between the core and the value there is only a gap of
   blanks, quotes and separators.
   */
  ghost predicate Site(s: string, t: string, core: nat, end: nat, v: Range) {
    && core < end <= v.start < v.end <= |s|
    && t == Masked(s, v)
    && (forall j :: core <= j < end ==> Solid(s[j]))
    && (forall j :: end <= j < v.start ==> In(Soft, s[j]) || IsSeparator(s[j]))
    && (exists j :: core <= j < end && Foreign(s[j]))
  }

  lemma SiteText(s: string, t: string, core: nat, end: nat, v: Range)
    requires Site(s, t, core, end, v)
    ensures |t| == v.start + |MASK| + (|s| - v.end)
    ensures forall j :: 0 <= j < v.start ==> t[j] == s[j]
    ensures forall p :: v.start <= p < v.start + |MASK| ==> t[p] == MASK[p - v.start]
    ensures t[v.start + |MASK|..] == s[v.end..]
  {
  }

  /** The same run, seen from two texts that agree up to the end of the run. */
  lemma SameRun(cls: Class, s: string, t: string, i: nat, bound: nat)
    requires i <= bound <= |s| && bound <= |t| && forall j :: i <= j < bound ==> s[j] == t[j]
    ensures RunEnd(cls, s, i) < bound ==> RunEnd(cls, t, i) == RunEnd(cls, s, i)
    ensures RunEnd(cls, s, i) >= bound ==> RunEnd(cls, t, i) >= bound
  {
    hide In, RunEnd;
    RunChars(cls, s, i);
    RunChars(cls, t, i);
  }

  lemma {:induction false} SameTrim(s: string, t: string, lo: nat, hi: nat)
    requires lo <= hi <= |s| && hi <= |t| && forall j :: lo <= j < hi ==> s[j] == t[j]
    ensures TrimBack(s, lo, hi) == TrimBack(t, lo, hi)
  {
    if lo < hi && IsSpace(s[hi - 1]) {
      SameTrim(s, t, lo, hi - 1);
    }
  }

  lemma MaskFacts()
    ensures |MASK| == 14 && MASK[0] == '*' && MASK[13] == '*'
    ensures forall j :: 0 <= j < 14 ==> !Foreign(MASK[j]) && In(Plain, MASK[j]) && In(Unbroken, MASK[j])
  {
  }

  /** A readable value that runs over the core of another word cannot be the mask. */
  lemma NotTheMask(s: string, from: nat, to: nat, x: nat)
    requires from <= x < to <= |s| && Foreign(s[x])
    ensures s[from..to] != MASK
  {
    MaskFacts();
    hide Foreign;
    assert s[from..to][x - from] == s[x];
  }

  lemma WordHere(rule: Rule, s: string, i: nat)
    requires Known(rule) && Starts(rule, s, i)
    ensures forall p :: i <= p < i + |Word(rule)| ==> s[p] != '*'
    ensures forall p :: i <= p < i + Core(rule) ==> Solid(s[p])
    ensures exists p :: i <= p < i + Core(rule) && Foreign(s[p])
    ensures rule.Bearer? ==> s[i + 6] == ' '
  {
    WordFacts(rule);
    var w := Word(rule);
    hide Known, Word;
    assert forall p :: i <= p < i + |w| ==> Fold(rule, s[p]) == w[p - i];
    var x :| 0 <= x < Core(rule) && Foreign(w[x]);
    assert Foreign(s[i + x]);
  }

  lemma SameStart(rule: Rule, s: string, t: string, i: nat)
    requires Starts(rule, t, i) && i + |Word(rule)| <= |s| && forall p :: i <= p < i + |Word(rule)| ==> s[p] == t[p]
    ensures Starts(rule, s, i)
  {
    hide Word;
  }

  lemma NoneInMask(rule: Rule, t: string, start: nat, i: nat)
    requires Known(rule) && start <= i < start + |MASK| <= |t|
    requires forall p :: start <= p < start + |MASK| ==> t[p] == MASK[p - start]
    ensures !Starts(rule, t, i)
  {
    MaskFacts();
    WordFacts(rule);
    var last := start + 13;
    assert t[last] == '*';
    assert forall p :: start <= p < start + |MASK| ==> !Foreign(t[p]);
    hide Known, Word, Foreign, Starts;
    if Starts(rule, t, i) {
      WordHere(rule, t, i);
    }
  }

  lemma NoneInGap(rule: Rule, t: string, i: nat)
    requires Known(rule) && i < |t| && (In(Soft, t[i]) || IsSeparator(t[i]))
    ensures !Starts(rule, t, i)
  {
    WordFacts(rule);
    hide Known, Word, Starts, Foreign;
    if Starts(rule, t, i) {
      WordHere(rule, t, i);
    }
  }

  /** A word cannot begin in the gap or in the mask that was put in. */
  lemma NoneInside(rule: Rule, s: string, t: string, core: nat, end: nat, v: Range, i: nat)
    requires Site(s, t, core, end, v) && Known(rule) && end <= i < v.start + |MASK|
    ensures !Starts(rule, t, i)
  {
    SiteText(s, t, core, end, v);
    hide Known, Starts, Foreign, Masked, In, IsSeparator;
    if i >= v.start {
      NoneInMask(rule, t, v.start, i);
    } else {
      NoneInGap(rule, t, i);
    }
  }

  /** A word that begins before the gap ends before the mask, and at the latest with the core. */
  lemma EndsInTime(rule: Rule, s: string, t: string, core: nat, end: nat, v: Range, i: nat)
    requires Site(s, t, core, end, v) && Known(rule) && i < end && Starts(rule, t, i)
    ensures Starts(rule, s, i) && i + Core(rule) <= end && i + |Word(rule)| <= v.start
  {
    SiteText(s, t, core, end, v);
    MaskFacts();
    WordHere(rule, t, i);
    hide Known, Word, Foreign, Masked;
    assert t[v.start] == '*';
    assert t[end] == '*' || In(Soft, t[end]) || IsSeparator(t[end]);
    assert i + |Word(rule)| <= v.start;
    SameStart(rule, s, t, i);
  }

  // ---- a replacement leaves the words before it as they were ----------------------------

  /** Two texts that agree up to the end of a core. */
  ghost predicate Alike(s: string, t: string, core: nat, end: nat) {
    && core < end <= |s| && end <= |t|
    && (forall j :: 0 <= j < end ==> s[j] == t[j])
    && (forall j :: core <= j < end ==> Solid(s[j]))
    && (exists j :: core <= j < end && Foreign(s[j]))
  }

  lemma SiteIsAlike(s: string, t: string, core: nat, end: nat, v: Range)
    requires Site(s, t, core, end, v)
    ensures Alike(s, t, core, end)
  {
    SiteText(s, t, core, end, v);
    hide Foreign, Solid;
  }

  /** A run of blanks and quotes that begins before the core ends there at the latest. */
  lemma SoftStops(s: string, core: nat, end: nat, i: nat)
    requires core < end <= |s| && i < end && forall j :: core <= j < end ==> Solid(s[j])
    ensures RunEnd(Soft, s, i) < end && (i <= core ==> RunEnd(Soft, s, i) <= core)
  {
    RunChars(Soft, s, i);
    assert Solid(s[core]) && !In(Soft, s[core]);
    assert i > core ==> Solid(s[i]) && !In(Soft, s[i]);
  }

  lemma SolidFlows(s: string, core: nat, end: nat)
    requires core <= end <= |s| && forall j :: core <= j < end ==> Solid(s[j])
    ensures forall j :: core <= j < end ==> In(Plain, s[j]) && In(Unbroken, s[j]) && !IsSpace(s[j])
  {
  }

  /** A value that ends before the core is the same in both texts. */
  lemma ValueStops(cls: Class, s: string, t: string, core: nat, end: nat, start: nat)
    requires Alike(s, t, core, end) && start <= core && (cls == Plain || cls == Unbroken)
    requires RunEnd(cls, s, start) < end
    ensures var u := RunEnd(cls, s, start);
      && u <= core && RunEnd(cls, t, start) == u && TrimBack(t, start, u) == TrimBack(s, start, u)
      && s[start..u] == t[start..u] && s[start..TrimBack(s, start, u)] == t[start..TrimBack(s, start, u)]
  {
    SolidFlows(s, core, end);
    hide Solid, Foreign, In, IsSpace, TrimBack, RunEnd;
    RunChars(cls, s, start);
    SameRun(cls, s, t, start, end);
    SameTrim(s, t, start, RunEnd(cls, s, start));
  }

  /** A value that runs over the core is neither empty nor the mask. */
  lemma ValueCovers(cls: Class, s: string, t: string, core: nat, end: nat, start: nat)
    requires Alike(s, t, core, end) && start <= core && RunEnd(cls, s, start) >= end
    ensures var u := RunEnd(cls, s, start);
      && start < u && s[start..u] != MASK
      && start < TrimBack(s, start, u) && s[start..TrimBack(s, start, u)] != MASK
  {
    SolidFlows(s, core, end);
    hide Solid, Foreign, In, IsSpace, TrimBack;
    var x :| core <= x < end && Foreign(s[x]);
    var u := RunEnd(cls, s, start);
    TrimChars(s, start, u);
    assert !IsSpace(s[x]);
    NotTheMask(s, start, u, x);
    NotTheMask(s, start, TrimBack(s, start, u), x);
  }

  lemma NamedValueBefore(s: string, t: string, core: nat, end: nat, after: nat)
    requires Alike(s, t, core, end)
    requires after < end
    ensures var v := NamedValue(s, after);
      || NamedValue(t, after) == v == None
      || (v.Some? && v.value.end <= end && NamedValue(t, after) == v
          && s[v.value.start..v.value.end] == t[v.value.start..v.value.end])
      || (v.Some? && v.value.start < v.value.end && s[v.value.start..v.value.end] != MASK)
  {
    hide Foreign, Solid, In, TrimBack, IsSpace;
    SoftStops(s, core, end, after);
    SameRun(Soft, s, t, after, end);
    var sep := RunEnd(Soft, s, after);
    if IsSeparator(s[sep]) {
      assert sep < core by {
        SolidIsNoSeparator(s[sep]);
      }
      SoftStops(s, core, end, sep + 1);
      SameRun(Soft, s, t, sep + 1, end);
      var start := RunEnd(Soft, s, sep + 1);
      var v := Range(start, TrimBack(s, start, RunEnd(Plain, s, start)));
      assert NamedValue(s, after) == Some(v);
      if RunEnd(Plain, s, start) < end {
        ValueStops(Plain, s, t, core, end, start);
        assert NamedValue(t, after) == Some(v);
        assert s[v.start..v.end] == t[v.start..v.end];
      } else {
        hide NamedValue, RunEnd;
        ValueCovers(Plain, s, t, core, end, start);
      }
    } else {
      assert NamedValue(s, after) == None && NamedValue(t, after) == None;
    }
  }

  lemma SolidIsNoSeparator(c: char)
    ensures Solid(c) ==> !IsSeparator(c)
  {
  }

  lemma KeyBefore(key: string, s: string, t: string, core: nat, end: nat, v: Range, i: nat)
    requires Site(s, t, core, end, v) && Known(Key(key)) && i < end && i + |key| != end
    requires Good(Key(key), s, i)
    ensures Good(Key(key), t, i)
  {
    hide Known, Masked, Starts, NamedValue, Foreign, Solid, In, IsSeparator, RunEnd;
    if Starts(Key(key), t, i) {
      EndsInTime(Key(key), s, t, core, end, v, i);
      SiteIsAlike(s, t, core, end, v);
      NamedValueBefore(s, t, core, end, i + |key|);
    }
  }

  lemma BearerSpace(s: string, core: nat, end: nat, i: nat)
    requires Starts(Bearer, s, i) && i + 6 < end <= |s| && forall j :: core <= j < end ==> Solid(s[j])
    ensures i + 7 <= core
  {
    WordHere(Bearer, s, i);
    hide Starts, Foreign;
    assert !Solid(s[i + 6]);
  }

  lemma BearerValueBefore(s: string, t: string, core: nat, end: nat, after: nat)
    requires Alike(s, t, core, end) && after <= core
    ensures var u := RunEnd(Unbroken, s, after);
      || (u <= |t| && RunEnd(Unbroken, t, after) == u && s[after..u] == t[after..u])
      || (after < u && s[after..u] != MASK)
  {
    if RunEnd(Unbroken, s, after) < end {
      ValueStops(Unbroken, s, t, core, end, after);
    } else {
      ValueCovers(Unbroken, s, t, core, end, after);
    }
  }

  lemma BearerBefore(s: string, t: string, core: nat, end: nat, v: Range, i: nat)
    requires Site(s, t, core, end, v) && i + 6 < end
    requires Good(Bearer, s, i)
    ensures Good(Bearer, t, i)
  {
    hide Masked, Foreign, In, IsSeparator, RunEnd, TrimBack, Starts, Solid;
    if Starts(Bearer, t, i) {
      EndsInTime(Bearer, s, t, core, end, v, i);
      SiteIsAlike(s, t, core, end, v);
      BearerSpace(s, core, end, i);
      BearerValueBefore(s, t, core, end, i + 7);
    }
  }

  /** Masking can only shorten the tail of a token prefix. */
  lemma PrefixBefore(word: string, s: string, t: string, core: nat, end: nat, v: Range, i: nat)
    requires Site(s, t, core, end, v) && Known(Prefix(word)) && i < end && end == v.start
    requires Good(Prefix(word), s, i) || (i + |word| == end)
    ensures Good(Prefix(word), t, i)
  {
    hide Known, Foreign, Starts, Solid, RunEnd;
    if Starts(Prefix(word), t, i) {
      EndsInTime(Prefix(word), s, t, core, end, v, i);
      SiteText(s, t, core, end, v);
      TailStops(s, t, i + |word|, end);
    }
  }

  lemma TailStops(s: string, t: string, after: nat, end: nat)
    requires after <= end < |t| && end <= |s| && t[end] == '*' && forall j :: 0 <= j < end ==> s[j] == t[j]
    ensures RunEnd(Tail, t, after) <= end && RunEnd(Tail, t, after) <= RunEnd(Tail, s, after)
  {
    assert !In(Tail, t[end]);
    RunChars(Tail, t, after);
    SameRun(Tail, s, t, after, end);
  }
}
