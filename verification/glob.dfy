/**
 Wildcard matching (globMatch in src/core/StringUtils.cpp): a greedy loop that
 remembers only the last star, against the recursive meaning of `*` and `?`.
 */
module Glob {

  /** What a pattern means: `*` is any run of characters, `?` any one character. */
  predicate Matches(pattern: string, text: string)
    decreases |pattern| + |text|
  {
    if pattern == [] then text == []
    else if pattern[0] == '*' then
      Matches(pattern[1..], text) || (text != [] && Matches(pattern, text[1..]))
    else
      text != [] && (pattern[0] == '?' || pattern[0] == text[0]) && Matches(pattern[1..], text[1..])
  }

  /** The last star passed, and where its run of text ends at present. */
  datatype Mark = NoStar | Star(pattern: nat, text: nat)

  predicate GoodMark(pattern: string, p: nat, t: nat, mark: Mark) {
    mark.Star? ==> mark.pattern < p <= |pattern| && pattern[mark.pattern] == '*' && mark.text <= t
  }

  /** The two loops of the program, one step per call. */
  predicate Scan(pattern: string, text: string, p: nat, t: nat, mark: Mark)
    requires p <= |pattern| && t <= |text| && GoodMark(pattern, p, t, mark)
    decreases if mark.NoStar? then |text| + 1 else |text| - mark.text, |pattern| - p
  {
    if t < |text| then
      if p < |pattern| && (pattern[p] == '?' || pattern[p] == text[t]) then Scan(pattern, text, p + 1, t + 1, mark)
      else if p < |pattern| && pattern[p] == '*' then Scan(pattern, text, p + 1, t, Star(p, t))
      else if mark.Star? then
        Scan(pattern, text, mark.pattern + 1, mark.text + 1, Star(mark.pattern, mark.text + 1))
      else false
    else forall i :: p <= i < |pattern| ==> pattern[i] == '*'
  }

  predicate Code(pattern: string, text: string) { Scan(pattern, text, 0, 0, NoStar) }

  // ---- facts about the meaning ----------------------------------------------------

  lemma {:induction false} StarAbsorbs(q: string, text: string, k: nat)
    requires q != [] && q[0] == '*' && k <= |text| && Matches(q, text[k..])
    ensures Matches(q, text)
  {
    if k > 0 {
      assert text[1..][k - 1..] == text[k..];
      StarAbsorbs(q, text[1..], k - 1);
    } else {
      assert text[0..] == text;
    }
  }

  /** Characters other than `*` use up exactly one character of text each. */
  lemma {:induction false} FixedPart(q: string, n: nat, text: string)
    requires n <= |q| && '*' !in q[..n] && Matches(q, text)
    ensures n <= |text| && Matches(q[n..], text[n..])
  {
    if n > 0 {
      assert q[0] == q[..n][0];
      assert q[1..][..n - 1] == q[..n][1..];
      FixedPart(q[1..], n - 1, text[1..]);
      assert q[1..][n - 1..] == q[n..] && text[1..][n - 1..] == text[n..];
    } else {
      assert q[0..] == q && text[0..] == text;
    }
  }

  /** However far an earlier star reaches, a later star can start at the first place. */
  lemma {:induction false} LaterStarSuffices(q: string, n: nat, text: string)
    requires n < |q| && '*' !in q[..n] && q[n] == '*' && Matches(['*'] + q, text)
    ensures n <= |text| && Matches(q[n..], text[n..])
    decreases |text|
  {
    assert (['*'] + q)[1..] == q;
    if Matches(q, text) {
      FixedPart(q, n, text);
    } else {
      LaterStarSuffices(q, n, text[1..]);
      assert text[n..][1..] == text[1..][n..];
      StarAbsorbs(q[n..], text[n..], 1);
    }
  }

  lemma {:induction false} FixedPartNeedsRoom(q: string, n: nat, text: string)
    requires n <= |q| && '*' !in q[..n] && Matches(['*'] + q, text)
    ensures n <= |text|
    decreases |text|
  {
    assert (['*'] + q)[1..] == q;
    if Matches(q, text) {
      FixedPart(q, n, text);
    } else {
      FixedPartNeedsRoom(q, n, text[1..]);
    }
  }

  lemma {:induction false} EmptyTextNeedsStars(q: string)
    ensures Matches(q, []) <==> forall i :: 0 <= i < |q| ==> q[i] == '*'
  {
    if q != [] {
      EmptyTextNeedsStars(q[1..]);
      assert forall i :: 0 < i < |q| ==> q[i] == q[1..][i - 1];
    }
  }

  // ---- the loop invariant --------------------------------------------------------

  /** What still has to be tried: the rest from here, or the last star taking one character more. */
  predicate Open(pattern: string, text: string, p: nat, t: nat, mark: Mark)
    requires p <= |pattern| && t <= |text| && GoodMark(pattern, p, t, mark)
  {
    || Matches(pattern[p..], text[t..])
    || (mark.Star? && mark.text < |text| && Matches(pattern[mark.pattern..], text[mark.text + 1..]))
  }

  /** Since the last star, the pattern is fixed and as long as the text it was matched with. */
  predicate FixedSince(pattern: string, p: nat, t: nat, mark: Mark)
    requires p <= |pattern| && GoodMark(pattern, p, t, mark)
  {
    mark.Star? ==> p - mark.pattern - 1 == t - mark.text && '*' !in pattern[mark.pattern + 1..p]
  }

  lemma ReachStar(pattern: string, text: string, p: nat, t: nat, mark: Mark)
    requires p < |pattern| && t < |text| && GoodMark(pattern, p, t, mark) && FixedSince(pattern, p, t, mark)
    requires pattern[p] == '*'
    ensures Open(pattern, text, p, t, mark) <==> Open(pattern, text, p + 1, t, Star(p, t))
  {
    var q := pattern[p..];
    assert q[1..] == pattern[p + 1..] && text[t..][1..] == text[t + 1..];
    if mark.Star? && mark.text < |text| && Matches(pattern[mark.pattern..], text[mark.text + 1..]) {
      var rest, u, n := pattern[mark.pattern + 1..], text[mark.text + 1..], p - mark.pattern - 1;
      assert ['*'] + rest == pattern[mark.pattern..];
      assert rest[..n] == pattern[mark.pattern + 1..p];
      LaterStarSuffices(rest, n, u);
      assert rest[n..] == q && u[n..] == text[t..][1..];
      StarAbsorbs(q, text[t..], 1);
    }
  }

  lemma Backtrack(pattern: string, text: string, p: nat, t: nat, mark: Mark)
    requires p <= |pattern| && t < |text| && GoodMark(pattern, p, t, mark) && mark.Star?
    requires p == |pattern| || (pattern[p] != '*' && pattern[p] != '?' && pattern[p] != text[t])
    ensures Open(pattern, text, p, t, mark)
            <==> Open(pattern, text, mark.pattern + 1, mark.text + 1, Star(mark.pattern, mark.text + 1))
  {
    assert text[t..] != [] && text[t..][0] == text[t];
    assert p < |pattern| ==> pattern[p..][0] == pattern[p];
    assert !Matches(pattern[p..], text[t..]);
    var q, u := pattern[mark.pattern..], text[mark.text + 1..];
    assert q[1..] == pattern[mark.pattern + 1..];
    assert u != [] ==> u[1..] == text[mark.text + 2..];
  }

  lemma Advance(pattern: string, text: string, p: nat, t: nat, mark: Mark)
    requires p < |pattern| && t < |text| && GoodMark(pattern, p, t, mark)
    requires pattern[p] != '*' && (pattern[p] == '?' || pattern[p] == text[t])
    ensures Open(pattern, text, p, t, mark) <==> Open(pattern, text, p + 1, t + 1, mark)
  {
    assert pattern[p..][1..] == pattern[p + 1..] && text[t..][1..] == text[t + 1..];
  }

  /** Without a star in the text, the program decides the meaning of every pattern. */
  lemma {:induction false} ScanDecides(pattern: string, text: string, p: nat, t: nat, mark: Mark)
    requires p <= |pattern| && t <= |text| && GoodMark(pattern, p, t, mark)
    requires '*' !in text && FixedSince(pattern, p, t, mark)
    ensures Scan(pattern, text, p, t, mark) == Open(pattern, text, p, t, mark)
    decreases if mark.NoStar? then |text| + 1 else |text| - mark.text, |pattern| - p
  {
    if t < |text| {
      if p < |pattern| && (pattern[p] == '?' || pattern[p] == text[t]) {
        Advance(pattern, text, p, t, mark);
        assert mark.Star? ==> pattern[mark.pattern + 1..p + 1] == pattern[mark.pattern + 1..p] + [pattern[p]];
        ScanDecides(pattern, text, p + 1, t + 1, mark);
      } else if p < |pattern| && pattern[p] == '*' {
        ReachStar(pattern, text, p, t, mark);
        ScanDecides(pattern, text, p + 1, t, Star(p, t));
      } else if mark.Star? {
        Backtrack(pattern, text, p, t, mark);
        ScanDecides(pattern, text, mark.pattern + 1, mark.text + 1, Star(mark.pattern, mark.text + 1));
      } else {
        assert text[t..] != [] && text[t..][0] == text[t];
        assert p < |pattern| ==> pattern[p..][0] == pattern[p];
        assert !Matches(pattern[p..], text[t..]);
      }
    } else {
      assert text[t..] == [];
      if mark.Star? && mark.text < |text| && Matches(pattern[mark.pattern..], text[mark.text + 1..]) {
        var rest := pattern[mark.pattern + 1..];
        assert ['*'] + rest == pattern[mark.pattern..];
        assert rest[..t - mark.text] == pattern[mark.pattern + 1..p];
        FixedPartNeedsRoom(rest, t - mark.text, text[mark.text + 1..]);
      }
      EmptyTextNeedsStars(pattern[p..]);
      assert forall i :: p <= i < |pattern| ==> pattern[i] == pattern[p..][i - p];
    }
  }

  lemma CodeDecides(pattern: string, text: string)
    requires '*' !in text
    ensures Code(pattern, text) == Matches(pattern, text)
  {
    ScanDecides(pattern, text, 0, 0, NoStar);
    assert pattern[0..] == pattern && text[0..] == text;
  }

  // ---- the program ------------------------------------------------------------------

  method GlobMatch(pattern: string, text: string) returns (matched: bool, ghost steps: nat)
    ensures matched == Code(pattern, text)
    ensures '*' !in text ==> matched == Matches(pattern, text)
    ensures steps <= (|pattern| + 1) * (|text| + 1)
  {
    var p: nat, t: nat, mark := 0, 0, NoStar;
    ghost var width := |pattern| + 1;
    ghost var rounds := 0;
    steps := 0;
    if '*' !in text {
      CodeDecides(pattern, text);
    }
    while t < |text|
      invariant p <= |pattern| && t <= |text| && GoodMark(pattern, p, t, mark)
      invariant Code(pattern, text) == Scan(pattern, text, p, t, mark)
      invariant rounds <= if mark.Star? then mark.text else 0
      invariant steps <= rounds * width + p
      decreases if mark.NoStar? then |text| + 1 else |text| - mark.text, |pattern| - p
    {
      steps := steps + 1;
      if p < |pattern| && (pattern[p] == '?' || pattern[p] == text[t]) {
        p, t := p + 1, t + 1;
      } else if p < |pattern| && pattern[p] == '*' {
        mark := Star(p, t);
        p := p + 1;
      } else if mark.Star? {
        assert (rounds + 1) * width == rounds * width + width;
        rounds := rounds + 1;
        mark := Star(mark.pattern, mark.text + 1);
        p, t := mark.pattern + 1, mark.text;
      } else {
        WithinBound(rounds, steps, p, |pattern|, |text|);
        return false, steps;
      }
    }
    ghost var first := p;
    while p < |pattern| && pattern[p] == '*'
      invariant first <= p <= |pattern|
      invariant forall i :: first <= i < p ==> pattern[i] == '*'
      invariant steps <= rounds * width + p
    {
      steps, p := steps + 1, p + 1;
    }
    WithinBound(rounds, steps, p, |pattern|, |text|);
    matched := p == |pattern|;
  }

  lemma WithinBound(rounds: nat, steps: nat, p: nat, n: nat, m: nat)
    requires rounds <= m && p <= n && steps <= rounds * (n + 1) + p + 1
    ensures steps <= (n + 1) * (m + 1)
  {
    assert rounds * (n + 1) <= m * (n + 1);
  }

  // ---- exactly when the program is right -----------------------------------------------

  /** Text without a star, used as a pattern, is matched one character at a time. */
  lemma {:induction false} LiteralScan(pattern: string, text: string, n: nat, k: nat)
    requires k <= n <= |pattern| && n <= |text| && pattern[..n] == text[..n]
    ensures Code(pattern, text) == Scan(pattern, text, k, k, NoStar)
  {
    if k > 0 {
      LiteralScan(pattern, text, n, k - 1);
      assert pattern[k - 1] == pattern[..n][k - 1] == text[..n][k - 1] == text[k - 1];
    }
  }

  lemma {:induction false} LiteralMatches(u: string, q: string, w: string)
    requires '*' !in u && Matches(q, w)
    ensures Matches(u + q, u + w)
  {
    if u == [] {
      assert u + q == q && u + w == w;
    } else {
      LiteralMatches(u[1..], q, w);
      assert (u + q)[1..] == u[1..] + q && (u + w)[1..] == u[1..] + w;
    }
  }

  lemma {:induction false} StarMatchesAll(w: string)
    ensures Matches("*", w)
  {
    if w != [] {
      StarMatchesAll(w[1..]);
    }
  }

  /** A pattern that a text with a star in it should match, but that the program rejects. */
  function Mismatch(text: string, i: nat): string
    requires i < |text|
  {
    text[..i] + if i + 1 < |text| then "*" else "*?"
  }

  lemma StarInTextMisleads(text: string, i: nat)
    requires i < |text| && text[i] == '*' && '*' !in text[..i]
    ensures Matches(Mismatch(text, i), text) && !Code(Mismatch(text, i), text)
  {
    var u, w, pattern := text[..i], text[i..], Mismatch(text, i);
    assert text == u + w;
    if i + 1 < |text| {
      StarMatchesAll(w);
      LiteralMatches(u, "*", w);
    } else {
      assert w == "*" && Matches("?", "*") by {
        assert Matches([], []) && "?"[1..] == [] && "*"[1..] == [];
      }
      assert "*?"[1..] == "?";
      LiteralMatches(u, "*?", w);
    }
    LiteralScan(pattern, text, i + 1, i + 1) by {
      assert pattern[..i + 1] == text[..i + 1];
    }
    assert Code(pattern, text) == Scan(pattern, text, i + 1, i + 1, NoStar);
    if i + 1 == |text| {
      assert pattern[i + 1] == '?';
    }
  }

  lemma {:induction false} FirstStar(text: string) returns (i: nat)
    requires '*' in text
    ensures i < |text| && text[i] == '*' && '*' !in text[..i]
  {
    if text[0] == '*' {
      i := 0;
    } else {
      i := FirstStar(text[1..]);
      assert text[..i + 1] == [text[0]] + text[1..][..i];
      i := i + 1;
    }
  }

  /** The program agrees with the meaning of every pattern exactly on texts without a star. */
  lemma GlobExact(text: string)
    ensures (forall pattern :: Code(pattern, text) == Matches(pattern, text)) <==> '*' !in text
  {
    if '*' in text {
      var i := FirstStar(text);
      StarInTextMisleads(text, i);
    } else {
      forall pattern
        ensures Code(pattern, text) == Matches(pattern, text)
      {
        CodeDecides(pattern, text);
      }
    }
  }
}
