/**
 redactSecrets as it is written: loops over one buffer, with a position that only
 moves forward relative to the end of the text.
 */
module RedactProgram {
  import opened Text
  import opened Redact
  import opened RedactClean

  method SkipRun(cls: Class, s: string, from: nat) returns (i: nat)
    requires from <= |s|
    ensures i == RunEnd(cls, s, from)
  {
    i := from;
    while i < |s| && In(cls, s[i])
      invariant i <= |s| && RunEnd(cls, s, from) == RunEnd(cls, s, i)
    {
      i := i + 1;
    }
  }

  method SkipBack(s: string, lo: nat, hi: nat) returns (i: nat)
    requires lo <= hi <= |s|
    ensures i == TrimBack(s, lo, hi)
  {
    i := hi;
    while lo < i && IsSpace(s[i - 1])
      invariant lo <= i <= |s| && TrimBack(s, lo, hi) == TrimBack(s, lo, i)
    {
      i := i - 1;
    }
  }

  lemma RewriteTurn(rule: Rule, s: string, from: nat)
    requires Known(rule)
    ensures Rewrite(rule, s, from)
            == match OneTurn(rule, s, from) case Done => s case Go(t, next) => Rewrite(rule, t, next)
  {
    hide OneTurn;
  }

  // The turns of a name, spelled out as the program takes them.

  lemma NameMissing(key: string, s: string, from: nat)
    requires Known(Key(key))
    ensures Find(Lower(s), key, from) < 0 ==> OneTurn(Key(key), s, from) == Done
    ensures Find(Lower(s), key, from) >= 0 ==> Find(Lower(s), key, from) + |key| <= |s|
  {
    hide Known;
    NextFinds(Key(key), s, from);
  }

  lemma NameAlone(key: string, s: string, from: nat, found: nat, sep: nat)
    requires Known(Key(key)) && found == Find(Lower(s), key, from)
    requires found + |key| <= |s| && sep == RunEnd(Soft, s, found + |key|)
    requires sep == |s| || !IsSeparator(s[sep])
    ensures OneTurn(Key(key), s, from) == Go(s, found + |key|)
  {
    hide Known, RunEnd, IsSeparator, At, In, IsSpace;
    NextFinds(Key(key), s, from);
    assert Value(Key(key), s, found) == None;
    hide Starts, Value, At, NamedValue, MASK, Masked;
  }

  lemma NameWithValue(key: string, s: string, from: nat, found: nat, sep: nat, v: Range)
    requires Known(Key(key)) && found == Find(Lower(s), key, from)
    requires found + |key| <= |s| && sep == RunEnd(Soft, s, found + |key|)
    requires sep < |s| && IsSeparator(s[sep])
    requires v.start == RunEnd(Soft, s, sep + 1) && v.end == TrimBack(s, v.start, RunEnd(Plain, s, v.start))
    ensures v.end <= v.start ==> OneTurn(Key(key), s, from) == Go(s, v.start)
    ensures v.start < v.end && s[v.start..v.end] == MASK ==> OneTurn(Key(key), s, from) == Go(s, v.start + |MASK|)
    ensures v.start < v.end && s[v.start..v.end] != MASK ==>
      OneTurn(Key(key), s, from) == Go(s[..v.start] + MASK + s[v.end..], v.start + |MASK|)
  {
    hide Known, RunEnd, TrimBack, IsSeparator, At;
    NextFinds(Key(key), s, from);
    assert Value(Key(key), s, found) == Some(v);
    hide Starts, Value, MASK;
  }

  /** Rule 1 for one name. */
  method MaskNamed(text: string, key: string) returns (out: string)
    requires Known(Key(key))
    ensures out == Rewrite(Key(key), text, 0)
  {
    hide Known, OneTurn, RunEnd, TrimBack, IsSeparator, Rewrite, At, In, IsSpace, MASK;
    out := text;
    var from: nat := 0;
    while true
      invariant Rewrite(Key(key), text, 0) == Rewrite(Key(key), out, from)
      decreases |out| - from
    {
      RewriteTurn(Key(key), out, from);
      NameMissing(key, out, from);
      var found := Find(Lower(out), key, from);
      if found < 0 {
        break;
      }
      var separator := SkipRun(Soft, out, found + |key|);
      if separator >= |out| || !IsSeparator(out[separator]) {
        NameAlone(key, out, from, found, separator);
        from := found + |key|;
        continue;
      }
      var cursor := SkipRun(Soft, out, separator + 1);
      var valueEnd := SkipRun(Plain, out, cursor);
      valueEnd := SkipBack(out, cursor, valueEnd);
      NameWithValue(key, out, from, found, separator, Range(cursor, valueEnd));
      if valueEnd <= cursor {
        from := cursor;
      } else if out[cursor..valueEnd] == MASK {
        from := cursor + |MASK|;
      } else {
        out, from := out[..cursor] + MASK + out[valueEnd..], cursor + |MASK|;
      }
    }
  }

  /** A turn of rule 2. */
  lemma BearerTurn(s: string, from: nat)
    ensures var found := Find(Lower(s), "bearer ", from);
      var turn := OneTurn(Bearer, s, from);
      if found < 0 then turn == Done
      else
        && found + 7 <= |s|
        && var start := found + 7;
           var end := RunEnd(Unbroken, s, start);
           turn == if end <= start then Go(s, start)
                   else if s[start..end] == MASK then Go(s, start + |MASK|)
                   else Go(s[..start] + MASK + s[end..], start + |MASK|)
  {
    NextFinds(Bearer, s, from);
    hide Starts;
    if Find(Lower(s), "bearer ", from) >= 0 {
      hide RunEnd;
    }
  }

  /** Rule 2. */
  method MaskBearer(text: string) returns (out: string)
    ensures out == Rewrite(Bearer, text, 0)
  {
    assert Known(Bearer);
    hide Known, OneTurn, RunEnd;
    out := text;
    var from: nat := 0;
    while true
      invariant Rewrite(Bearer, text, 0) == Rewrite(Bearer, out, from)
      decreases |out| - from
    {
      BearerTurn(out, from);
      var found := Find(Lower(out), "bearer ", from);
      if found < 0 {
        break;
      }
      var valueStart := found + 7;
      var valueEnd := SkipRun(Unbroken, out, valueStart);
      if valueEnd <= valueStart {
        from := valueStart;
      } else if out[valueStart..valueEnd] == MASK {
        from := valueStart + |MASK|;
      } else {
        out, from := out[..valueStart] + MASK + out[valueEnd..], valueStart + |MASK|;
      }
    }
  }

  /** A turn of rule 3: the program writes the prefix back in front of the mask. */
  lemma PrefixTurn(prefix: string, s: string, from: nat)
    requires Known(Prefix(prefix))
    ensures var found := Find(s, prefix, from);
      var turn := OneTurn(Prefix(prefix), s, from);
      if found < 0 then turn == Done
      else
        && found + |prefix| <= |s|
        && var start := found + |prefix|;
           var end := RunEnd(Tail, s, start);
           && end > found
           && turn == if end - start < 8 then Go(s, end)
                      else Go(s[..found] + (prefix + MASK) + s[end..], start + |MASK|)
  {
    hide Known, RunEnd, At, MASK, In;
    NextFinds(Prefix(prefix), s, from);
    WordFacts(Prefix(prefix));
    hide Foreign, Solid;
    var found := Find(s, prefix, from);
    if found >= 0 {
      PrefixReplaced(prefix, s, found, RunEnd(Tail, s, found + |prefix|));
      hide Starts;
    }
  }

  lemma PrefixReplaced(prefix: string, s: string, found: nat, end: nat)
    requires Starts(Prefix(prefix), s, found) && found + |prefix| <= end <= |s|
    ensures Masked(s, Range(found + |prefix|, end)) == s[..found] + (prefix + MASK) + s[end..]
  {
    var start := found + |prefix|;
    assert s[found..start] == prefix;
    hide Starts;
    assert s[..start] + MASK == s[..found] + (prefix + MASK);
  }

  /** Rule 3 for one prefix. */
  method MaskPrefixed(text: string, prefix: string) returns (out: string)
    requires Known(Prefix(prefix))
    ensures out == Rewrite(Prefix(prefix), text, 0)
  {
    hide Known, OneTurn, RunEnd;
    out := text;
    var from: nat := 0;
    while true
      invariant Rewrite(Prefix(prefix), text, 0) == Rewrite(Prefix(prefix), out, from)
      decreases |out| - from
    {
      PrefixTurn(prefix, out, from);
      var found := Find(out, prefix, from);
      if found < 0 {
        break;
      }
      var valueEnd := SkipRun(Tail, out, found + |prefix|);
      var tailLength := valueEnd - (found + |prefix|);
      if tailLength < 8 {
        // The program's other choice here, found + 1, is never taken.
        assert valueEnd > found;
        from := valueEnd;
        continue;
      }
      out := out[..found] + (prefix + MASK) + out[valueEnd..];
      from := found + |prefix| + |MASK|;
    }
  }

  /** The rules still to come, behind the first `n`. */
  lemma ApplyNext(rules: seq<Rule>, n: nat, s: string)
    requires n < |rules| && forall r :: r in rules ==> Known(r)
    ensures Apply(rules[n..], s) == Apply(rules[n + 1..], Rewrite(rules[n], s, 0))
  {
    assert rules[n..][1..] == rules[n + 1..];
    hide Known, Rewrite;
  }

  lemma RuleAt(i: nat)
    requires i < |RULES|
    ensures RULES[i] == if i < |KEYS| then Key(KEYS[i])
                        else if i == |KEYS| then Bearer
                        else Prefix(PREFIXES[i - |KEYS| - 1])
  {
  }

  method RedactSecrets(text: string) returns (out: string)
    ensures out == Redacted(text)
  {
    RulesKnown();
    assert |KEYS| == 7 && |PREFIXES| == 5 && |RULES| == 13;
    assert RULES[0..] == RULES;
    out := text;
    hide Known, Rewrite;
    for i := 0 to |KEYS|
      invariant Redacted(text) == Apply(RULES[i..], out)
    {
      ApplyNext(RULES, i, out);
      RuleAt(i);
      out := MaskNamed(out, KEYS[i]);
    }
    ApplyNext(RULES, |KEYS|, out);
    RuleAt(|KEYS|);
    out := MaskBearer(out);
    for i := 0 to |PREFIXES|
      invariant Redacted(text) == Apply(RULES[|KEYS| + 1 + i..], out)
    {
      ApplyNext(RULES, |KEYS| + 1 + i, out);
      RuleAt(|KEYS| + 1 + i);
      out := MaskPrefixed(out, PREFIXES[i]);
    }
  }
}
