/**
 The chunked transfer decoder (decodeChunked in src/net/HttpClient.cpp), with its
 64-bit sizes and positions: when it stops, and what more bytes change.
 */
module Chunked {
  import opened Text

  const CRLF: string := "\r\n"

  // ---- chunk sizes -----------------------------------------------------------

  predicate IsBlank(c: char) { c == ' ' || c == '\t' }

  /** The size so far, in 64-bit arithmetic; blanks are skipped wherever they are. */
  function SizeValue(s: string): (r: Option<nat>)
    ensures r.Some? ==> r.value < WORD
  {
    if s == [] then Some(0)
    else
      var front, c := SizeValue(s[..|s| - 1]), s[|s| - 1];
      if front.None? then None
      else if IsHex(c) then Some((front.value * 16 + HexDigit(c)) % WORD)
      else if IsBlank(c) then front
      else None
  }

  /** The value of a chunk-size line: what stands before an extension. */
  function SizeOf(line: string): (r: Option<nat>)
    ensures r.Some? ==> r.value < WORD
  {
    var digits := line[..IndexOf(line, ';')];
    if digits == [] then None else SizeValue(digits)
  }

  // ---- the decoder, were positions unbounded ---------------------------------------

  datatype Verdict = NeedMore(out: string) | Complete(out: string) | Malformed

  function Prepend(data: string, v: Verdict): Verdict {
    match v
    case NeedMore(out) => NeedMore(data + out)
    case Complete(out) => Complete(data + out)
    case _ => v
  }

  datatype Step = Stop(verdict: Verdict) | Take(data: string, next: nat)

  /** What stands at the front of `s`. */
  function First(s: string): (r: Step)
    ensures r.Take? ==> 0 < r.next <= |s|
  {
    var lineEnd := Find(s, CRLF, 0);
    if lineEnd < 0 then Stop(NeedMore([]))
    else
      var size, dataStart := SizeOf(s[..lineEnd]), lineEnd + 2;
      if size.None? then Stop(Malformed)
      else if size.value == 0 then Stop(Complete([]))
      else
        var next := dataStart + size.value + 2;
        if next > |s| then Stop(NeedMore([]))
        else Take(s[dataStart..next - 2], next)
  }

  function Decode(s: string): Verdict
    decreases |s|
  {
    match First(s)
    case Stop(v) => v
    case Take(data, next) => Prepend(data, Decode(s[next..]))
  }

  lemma PrependTwice(a: string, b: string, v: Verdict)
    ensures Prepend(a, Prepend(b, v)) == Prepend(a + b, v)
    ensures Prepend([], v) == v
  {
    match v
    case NeedMore(out) => assert a + (b + out) == (a + b) + out;
    case Complete(out) => assert a + (b + out) == (a + b) + out;
    case _ =>
  }

  lemma FindBound(s: string, pat: string, from: nat)
    ensures Find(s, pat, from) >= 0 ==> Find(s, pat, from) + |pat| <= |s|
  {
  }

  lemma AtShift(raw: string, pat: string, pos: nat, i: nat)
    requires pos <= |raw|
    ensures At(raw, pat, pos + i) <==> At(raw[pos..], pat, i)
  {
    if pos + i + |pat| <= |raw| {
      assert raw[pos + i..pos + i + |pat|] == raw[pos..][i..i + |pat|];
    }
  }

  lemma FindShift(raw: string, pat: string, pos: nat)
    requires pos <= |raw| && pat != []
    ensures Find(raw, pat, pos) == if Find(raw[pos..], pat, 0) < 0 then -1 else pos + Find(raw[pos..], pat, 0)
  {
    hide At;
    var s := raw[pos..];
    forall i: nat
      ensures At(raw, pat, pos + i) <==> At(s, pat, i)
    {
      AtShift(raw, pat, pos, i);
    }
    var a, b := Find(raw, pat, pos), Find(s, pat, 0);
    if a >= 0 {
      assert At(s, pat, a - pos);
    }
    if b >= 0 {
      assert At(raw, pat, pos + b);
    }
  }

  /** The size of one line, digit by digit; the empty line is no size. */
  method ReadSize(sizeLine: string) returns (chunkSize: Option<nat>)
    ensures chunkSize == SizeOf(sizeLine)
  {
    var line := sizeLine[..IndexOf(sizeLine, ';')];
    if line == [] {
      return None;
    }
    var size: nat := 0;
    for i := 0 to |line|
      invariant SizeValue(line[..i]) == Some(size)
    {
      var c := line[i];
      assert line[..i + 1][..i] == line[..i];
      if IsHex(c) {
        size := (size * 16 + HexDigit(c)) % WORD;
      } else if IsBlank(c) {
        continue;
      } else {
        BadDigitStays(line, i + 1);
        return None;
      }
    }
    assert line[..|line|] == line;
    return Some(size);
  }

  lemma {:induction false} BadDigitStays(line: string, i: nat)
    requires i <= |line| && SizeValue(line[..i]) == None
    ensures SizeValue(line) == None
    decreases |line|
  {
    if i < |line| {
      assert line[..|line| - 1][..i] == line[..i];
      BadDigitStays(line[..|line| - 1], i);
    } else {
      assert line[..i] == line;
    }
  }

  // ---- the decoder as it is: positions of 64 bits -------------------------------------

  /** No byte string is longer than std::string::max_size. */
  const MAX_STRING: int := WORD / 2

  /** One turn of the loop; `wrapped` says that the next position overflowed. */
  datatype Turn = Halt(verdict: Verdict) | Go(data: string, next: nat, wrapped: bool)

  function TurnAt(raw: string, pos: nat): (r: Turn)
    requires pos <= |raw|
    ensures r.Go? ==> r.next <= |raw| && pos < |raw|
  {
    var lineEnd := Find(raw, CRLF, pos);
    if lineEnd < 0 then Halt(NeedMore([]))
    else
      var size, dataStart := SizeOf(raw[pos..lineEnd]), lineEnd + 2;
      if size.None? then Halt(Malformed)
      else if size.value == 0 then Halt(Complete([]))
      else
        var next := (dataStart + size.value + 2) % WORD;
        if next > |raw| then Halt(NeedMore([]))
        else Go(Substring(raw, dataStart, size.value), next, dataStart + size.value + 2 >= WORD)
  }

  /** std::string_view::substr: at most `count` bytes. */
  function Substring(s: string, from: nat, count: nat): string
    requires from <= |s|
  {
    s[from..if from + count <= |s| then from + count else |s|]
  }

  /** The loop after some turns, with the number of positions that overflowed. */
  datatype Loop = Running(pos: nat, out: string, wraps: nat) | Stopped(verdict: Verdict, wraps: nat)

  function After(raw: string, turns: nat): (r: Loop)
    ensures r.Running? ==> r.pos <= |raw|
  {
    if turns == 0 then Running(0, "", 0)
    else
      var l := After(raw, turns - 1);
      if l.Stopped? then l else Taking(l, TurnAt(raw, l.pos))
  }

  /** The loop after this turn. */
  function Taking(l: Loop, t: Turn): Loop
    requires l.Running?
  {
    match t
    case Halt(v) => Stopped(Prepend(l.out, v), l.wraps)
    case Go(data, next, wrapped) => Running(next, l.out + data, if wrapped then l.wraps + 1 else l.wraps)
  }

  lemma AfterTurn(raw: string, n: nat)
    requires After(raw, n).Running?
    ensures After(raw, n + 1) == Taking(After(raw, n), TurnAt(raw, After(raw, n).pos))
  {
    hide TurnAt, Taking;
  }

  lemma {:induction false} StoppedStays(raw: string, m: nat, n: nat)
    requires m <= n && After(raw, m).Stopped?
    ensures After(raw, n) == After(raw, m)
  {
    hide TurnAt, Taking;
    if m < n {
      StoppedStays(raw, m, n - 1);
    }
  }

  /** The loop, watched for a number of turns: it need not come to an end by itself. */
  method DecodeChunked(raw: string, turns: nat) returns (l: Loop)
    ensures l == After(raw, turns)
  {
    hide After, At, SizeOf;
    var pos: nat, out, wraps, k := 0, "", 0, 0;
    assert After(raw, 0) == Running(0, "", 0) by {
      NoTurns(raw);
    }
    while pos < |raw|
      invariant k <= turns && After(raw, k) == Running(pos, out, wraps)
      decreases turns - k
    {
      if k == turns {
        return Running(pos, out, wraps);
      }
      AfterTurn(raw, k);
      NothingAdded(out);
      FindBound(raw, CRLF, pos);
      var lineEnd := Find(raw, CRLF, pos);
      if lineEnd < 0 {
        StoppedStays(raw, k + 1, turns);
        return Stopped(NeedMore(out), wraps);
      }
      var chunkSize := ReadSize(raw[pos..lineEnd]);
      if chunkSize.None? {
        StoppedStays(raw, k + 1, turns);
        return Stopped(Malformed, wraps);
      }
      var dataStart := lineEnd + 2;
      if chunkSize.value == 0 {
        StoppedStays(raw, k + 1, turns);
        return Stopped(Complete(out), wraps);
      }
      var next := (dataStart + chunkSize.value + 2) % WORD;
      if next > |raw| {
        StoppedStays(raw, k + 1, turns);
        return Stopped(NeedMore(out), wraps);
      }
      out := out + Substring(raw, dataStart, chunkSize.value);
      wraps := if dataStart + chunkSize.value + 2 >= WORD then wraps + 1 else wraps;
      pos := next;
      k := k + 1;
    }
    if k == turns {
      return Running(pos, out, wraps);
    }
    AfterTurn(raw, k);
    NothingAdded(out);
    StoppedStays(raw, k + 1, turns);
    return Stopped(NeedMore(out), wraps);
  }

  lemma NoTurns(raw: string)
    ensures After(raw, 0) == Running(0, "", 0)
  {
  }

  lemma NothingAdded(out: string)
    ensures out + [] == out
  {
  }

  // ---- it stops within |raw| + 1 turns, or never ---------------------------------------

  lemma {:induction false} Pigeonhole(s: seq<nat>, n: nat) returns (i: nat, j: nat)
    requires |s| > n && forall k :: 0 <= k < |s| ==> s[k] < n
    ensures i < j < |s| && s[i] == s[j]
    decreases n
  {
    var last := |s| - 1;
    var x := s[last];
    if exists k :: 0 <= k < last && s[k] == x {
      i :| 0 <= i < last && s[i] == x;
      j := last;
    } else {
      // Where the largest value stands, put the one of the last place, which occurs nowhere else.
      var t := seq(last, k requires 0 <= k < last => if s[k] == n - 1 then x else s[k]);
      i, j := Pigeonhole(t, n - 1);
    }
  }

  /** Only the position decides whether the loop goes on, and where. */
  lemma SamePlace(raw: string, i: nat, j: nat)
    requires After(raw, i).Running? && After(raw, j).Running? && After(raw, i).pos == After(raw, j).pos
    ensures After(raw, i + 1).Running? <==> After(raw, j + 1).Running?
    ensures After(raw, i + 1).Running? ==> After(raw, i + 1).pos == After(raw, j + 1).pos
  {
    hide TurnAt;
  }

  lemma {:induction false} Repeats(raw: string, i: nat, j: nat, m: nat)
    requires i < j && After(raw, i).Running? && After(raw, j).Running? && After(raw, i).pos == After(raw, j).pos
    ensures After(raw, m).Running?
    ensures m >= j ==> After(raw, m - (j - i)).Running? && After(raw, m).pos == After(raw, m - (j - i)).pos
    decreases m
  {
    hide After;
    if m <= j {
      if After(raw, m).Stopped? {
        StoppedStays(raw, m, j);
      }
    } else {
      Repeats(raw, i, j, m - 1);
      Repeats(raw, i, j, m - (j - i));
      SamePlace(raw, m - 1 - (j - i), m - 1);
    }
  }

  lemma RunningInside(raw: string, k: nat, n: nat)
    requires k < n && After(raw, n).Running?
    ensures After(raw, k).Running? && After(raw, k).pos < |raw|
  {
    if After(raw, k + 1).Stopped? {
      StoppedStays(raw, k + 1, n);
    }
    hide TurnAt;
  }

  /** A loop that is still running after |raw| + 1 turns has been at one place twice, and never stops. */
  lemma RunsForever(raw: string, n: nat)
    requires After(raw, |raw| + 1).Running?
    ensures After(raw, n).Running?
  {
    hide After;
    forall k: nat | k <= |raw|
      ensures After(raw, k).Running? && After(raw, k).pos < |raw|
    {
      RunningInside(raw, k, |raw| + 1);
    }
    var places := seq(|raw| + 1, k requires 0 <= k <= |raw| => After(raw, k).pos);
    var i, j := Pigeonhole(places, |raw|);
    assert places[i] == After(raw, i).pos && places[j] == After(raw, j).pos;
    Repeats(raw, i, j, n);
  }

  /** What the loop comes to; one that is still running then never stops. */
  function Decoded(raw: string): Loop { After(raw, |raw| + 1) }

  lemma DecodedIs(raw: string, n: nat)
    requires After(raw, n).Stopped?
    ensures Decoded(raw) == After(raw, n)
  {
    hide After;
    if Decoded(raw).Running? {
      RunsForever(raw, n);
    } else if n <= |raw| + 1 {
      StoppedStays(raw, n, |raw| + 1);
    } else {
      StoppedStays(raw, |raw| + 1, n);
    }
  }

  // ---- as long as no position overflows --------------------------------------------------

  /** A turn whose position does not overflow does what unbounded positions do. */
  lemma TurnIsFirst(raw: string, pos: nat)
    requires pos <= |raw| && |raw| < MAX_STRING
    ensures match TurnAt(raw, pos)
      case Halt(v) => First(raw[pos..]) == Stop(v)
      case Go(data, next, wrapped) =>
        if wrapped then First(raw[pos..]) == Stop(NeedMore([]))
        else pos < next && First(raw[pos..]) == Take(data, next - pos)
  {
    hide SizeOf, At;
    FindShift(raw, CRLF, pos);
    FindBound(raw, CRLF, pos);
    var s, lineEnd := raw[pos..], Find(raw, CRLF, pos);
    if lineEnd >= 0 {
      assert raw[pos..lineEnd] == s[..lineEnd - pos];
      var size := SizeOf(raw[pos..lineEnd]);
      if size.Some? && size.value > 0 {
        ChunkTurn(raw, pos, lineEnd, size.value);
      }
    }
  }

  lemma ChunkTurn(raw: string, pos: nat, lineEnd: nat, size: nat)
    requires pos <= lineEnd <= |raw| - 2 && |raw| < MAX_STRING && 0 < size < WORD
    ensures var sum := lineEnd + 2 + size + 2;
      if sum < WORD then
        sum % WORD == sum && (sum <= |raw| ==>
          Substring(raw, lineEnd + 2, size) == raw[pos..][lineEnd + 2 - pos..sum - pos - 2])
      else sum > |raw|
  {
    var sum := lineEnd + 2 + size + 2;
    if sum <= |raw| {
      assert raw[lineEnd + 2..sum - 2] == raw[pos..][lineEnd + 2 - pos..sum - pos - 2];
    }
  }

  /** Until a position overflows, the loop computes `Decode`; each turn then moves on. */
  lemma {:induction false} UnwrappedIsDecode(raw: string, n: nat)
    requires |raw| < MAX_STRING && After(raw, n).wraps == 0
    ensures match After(raw, n)
      case Running(pos, out, _) => n <= pos && Decode(raw) == Prepend(out, Decode(raw[pos..]))
      case Stopped(v, _) => v == Decode(raw)
  {
    hide TurnAt, First;
    if n == 0 {
      assert raw[0..] == raw;
      PrependTwice([], [], Decode(raw));
    } else {
      UnwrappedIsDecode(raw, n - 1);
      var l := After(raw, n - 1);
      if l.Running? {
        TurnIsFirst(raw, l.pos);
        var t := TurnAt(raw, l.pos);
        if t.Go? {
          assert raw[l.pos..][t.next - l.pos..] == raw[t.next..];
          PrependTwice(l.out, t.data, Decode(raw[t.next..]));
        }
      }
    }
  }

  /** Where a position overflows, unbounded positions would have the decoder wait for more. */
  lemma {:induction false} WrappedWaits(raw: string, n: nat)
    requires |raw| < MAX_STRING && After(raw, n).wraps > 0
    ensures Decode(raw).NeedMore?
  {
    hide TurnAt, First;
    if n > 0 {
      var l := After(raw, n - 1);
      if l.wraps > 0 {
        WrappedWaits(raw, n - 1);
      } else {
        UnwrappedIsDecode(raw, n - 1);
        TurnIsFirst(raw, l.pos);
      }
    }
  }

  /** The loop ends with `Decode`, unless a position overflows. */
  lemma DecodedExactly(raw: string)
    requires |raw| < MAX_STRING
    ensures Decoded(raw).wraps == 0 ==> Decoded(raw) == Stopped(Decode(raw), 0)
    ensures !Decode(raw).NeedMore? ==> Decoded(raw).wraps == 0
  {
    if Decoded(raw).wraps == 0 {
      UnwrappedIsDecode(raw, |raw| + 1);
    } else {
      WrappedWaits(raw, |raw| + 1);
    }
    hide After, Decode;
  }

  // ---- more bytes only extend ------------------------------------------------------

  lemma FindInLonger(s: string, t: string, pat: string, from: nat)
    requires Find(s, pat, from) >= 0
    ensures Find(s + t, pat, from) == Find(s, pat, from)
  {
    var f := Find(s, pat, from);
    forall i: nat | i <= f
      ensures At(s + t, pat, i) <==> At(s, pat, i)
    {
      SameAt(s, t, pat, i, f);
    }
    hide At;
  }

  lemma SameAt(s: string, t: string, pat: string, i: nat, f: nat)
    requires i <= f && f + |pat| <= |s|
    ensures At(s + t, pat, i) <==> At(s, pat, i)
  {
    assert (s + t)[i..i + |pat|] == s[i..i + |pat|];
  }

  /** The same turn with more bytes behind: only a chunk that wraps takes them all in. */
  lemma TurnExtends(raw: string, t: string, pos: nat)
    requires pos <= |raw| && |raw + t| < MAX_STRING
    ensures match TurnAt(raw, pos)
      case Halt(v) => v == NeedMore([]) || TurnAt(raw + t, pos) == Halt(v)
      case Go(data, next, wrapped) => TurnAt(raw + t, pos) == Go(if wrapped then data + t else data, next, wrapped)
  {
    hide SizeOf, At;
    FindBound(raw, CRLF, pos);
    var lineEnd := Find(raw, CRLF, pos);
    if lineEnd >= 0 {
      FindInLonger(raw, t, CRLF, pos);
      assert (raw + t)[pos..lineEnd] == raw[pos..lineEnd];
      var size := SizeOf(raw[pos..lineEnd]);
      if size.Some? {
        SubstringExtends(raw, t, lineEnd + 2, size.value);
      }
    }
  }

  lemma SubstringExtends(raw: string, t: string, from: nat, count: nat)
    requires from <= |raw|
    ensures from + count <= |raw| ==> Substring(raw + t, from, count) == Substring(raw, from, count)
    ensures from + count >= |raw + t| ==> Substring(raw + t, from, count) == Substring(raw, from, count) + t
  {
    if from + count <= |raw| {
      assert (raw + t)[from..from + count] == raw[from..from + count];
    } else {
      assert (raw + t)[from..] == raw[from..] + t;
    }
  }

  /** Two loops at one place, the second with t bytes more for each chunk that wrapped. */
  predicate Alongside(l: Loop, m: Loop, extra: nat) {
    && l.wraps == m.wraps && l.Running? == m.Running?
    && match l
       case Running(pos, out, wraps) => m.pos == pos && Longer(out, m.out, wraps, extra)
       case Stopped(v, wraps) =>
         match v
         case NeedMore(_) => false
         case Complete(out) => m.verdict.Complete? && Longer(out, m.verdict.out, wraps, extra)
         case Malformed => m.verdict == v
  }

  predicate Longer(a: string, b: string, wraps: nat, extra: nat) {
    if wraps == 0 then a == b else |b| >= |a| + extra
  }

  predicate Waits(l: Loop) { l.Stopped? && l.verdict.NeedMore? }

  lemma {:induction false} PathExtends(raw: string, t: string, n: nat)
    requires |raw + t| < MAX_STRING
    ensures Waits(After(raw, n)) || Alongside(After(raw, n), After(raw + t, n), |t|)
    ensures After(raw, n).wraps <= After(raw + t, n).wraps
  {
    hide TurnAt;
    if n > 0 {
      PathExtends(raw, t, n - 1);
      var l := After(raw, n - 1);
      if l.Running? {
        TurnExtends(raw, t, l.pos);
        OnlyEmptyHalts(raw, l.pos);
      }
    }
  }

  lemma OnlyEmptyHalts(raw: string, pos: nat)
    requires pos <= |raw|
    ensures TurnAt(raw, pos).Halt? ==> TurnAt(raw, pos).verdict.Malformed? || TurnAt(raw, pos).verdict.out == []
  {
    hide SizeOf, At;
  }

  lemma {:induction false} OutGrows(raw: string, m: nat, n: nat)
    requires m <= n && After(raw, m).Running?
    ensures match After(raw, n)
      case Running(_, out, _) => After(raw, m).out <= out
      case Stopped(v, _) => v.Malformed? || After(raw, m).out <= v.out
  {
    hide TurnAt;
    if m < n {
      OutGrows(raw, m, n - 1);
    }
  }

  /** The last turn of a loop that waits for more bytes. */
  lemma {:induction false} WaitedAt(raw: string, n: nat) returns (k: nat)
    requires Waits(After(raw, n))
    ensures k < n && After(raw, k).Running? && After(raw, n).verdict == NeedMore(After(raw, k).out)
    ensures After(raw, n).wraps == After(raw, k).wraps
  {
    var l := After(raw, n - 1);
    if l.Stopped? {
      k := WaitedAt(raw, n - 1);
    } else {
      k := n - 1;
      OnlyEmptyHalts(raw, l.pos);
      assert l.out + [] == l.out;
      hide TurnAt;
    }
  }

  /** What the loop came to, and what it comes to with more bytes. */
  predicate Extends(v: Verdict, m: Loop) {
    match v
    case NeedMore(out) => m.Stopped? && !m.verdict.Malformed? ==> out <= m.verdict.out
    case _ => m == Stopped(v, 0)
  }

  /**
   As long as no position overflows, more bytes never take back what was decoded, and
   a buffer that is complete or malformed stays so, with the same output.
   */
  lemma DecodeExtends(raw: string, t: string)
    requires |raw + t| < MAX_STRING && Decoded(raw).wraps == 0
    ensures Decoded(raw).Stopped? && Extends(Decoded(raw).verdict, Decoded(raw + t))
  {
    DecodedExactly(raw);
    hide After, Decode;
    var n := |raw| + 1;
    if Waits(Decoded(raw)) {
      var k := WaitedAt(raw, n);
      PathExtends(raw, t, k);
      OutGrows(raw + t, k, |raw + t| + 1);
    } else {
      PathExtends(raw, t, n);
      DecodedIs(raw + t, n);
    }
  }

  /** A complete body stays the same with more bytes behind it exactly if no position overflowed on the way. */
  lemma CompleteIsFinal(raw: string)
    requires |raw| + 1 < MAX_STRING && Decoded(raw).Stopped? && Decoded(raw).verdict.Complete?
    ensures (forall t :: |raw + t| < MAX_STRING ==> Decoded(raw + t) == Decoded(raw)) <==> Decoded(raw).wraps == 0
  {
    if Decoded(raw).wraps == 0 {
      forall t | |raw + t| < MAX_STRING
        ensures Decoded(raw + t) == Decoded(raw)
      {
        DecodeExtends(raw, t);
      }
    } else {
      WrappedChanges(raw, "X");
    }
    hide After, Decode;
  }

  /** Behind a complete body that overflowed, every further byte changes the body. */
  lemma WrappedChanges(raw: string, t: string)
    requires |raw + t| < MAX_STRING && t != "" && Decoded(raw).Stopped? && Decoded(raw).verdict.Complete?
    requires Decoded(raw).wraps > 0
    ensures Decoded(raw + t).Stopped? && Decoded(raw + t).verdict.Complete?
    ensures |Decoded(raw + t).verdict.out| > |Decoded(raw).verdict.out|
  {
    hide After;
    PathExtends(raw, t, |raw| + 1);
    DecodedIs(raw + t, |raw| + 1);
  }

  /** A buffer in which no position overflows has no front part in which one does. */
  lemma FrontUnwrapped(raw: string, t: string)
    requires |raw + t| < MAX_STRING && Decoded(raw + t).wraps == 0
    ensures Decoded(raw).wraps == 0
  {
    hide After;
    PathExtends(raw, t, |raw| + 1);
    WrapsGrow(raw + t, |raw| + 1, |raw + t| + 1);
  }

  lemma {:induction false} WrapsGrow(raw: string, m: nat, n: nat)
    requires m <= n
    ensures After(raw, m).wraps <= After(raw, n).wraps
  {
    hide TurnAt;
    if m < n {
      WrapsGrow(raw, m, n - 1);
    }
  }
}
