/**
 Which texts the decoder of chunked bodies accepts: exactly those of a framing that
 is more lenient than the standard's, and some in which a position overflows.
 */
module ChunkedFraming {
  import opened Text
  import opened Chunked

  // ---- exactly the accepted framing -------------------------------------------------

  /** The number that the digits spell, however large; blanks do not count. */
  function Numeral(s: string): nat
    requires SizeChars(s)
  {
    if s == [] then 0
    else if IsHex(s[|s| - 1]) then 16 * Numeral(s[..|s| - 1]) + HexDigit(s[|s| - 1])
    else Numeral(s[..|s| - 1])
  }

  predicate SizeChars(s: string) { forall i :: 0 <= i < |s| ==> IsHex(s[i]) || IsBlank(s[i]) }

  /** The size line that the decoder reads as n: its digits before a semicolon spell n, up to multiples of 2^64. */
  predicate Spells(line: string, n: nat) {
    var digits := line[..IndexOf(line, ';')];
    digits != [] && SizeChars(digits) && Numeral(digits) % WORD == n
  }

  lemma {:induction false} SizeValueExact(s: string)
    ensures SizeValue(s).Some? <==> SizeChars(s)
    ensures SizeChars(s) ==> SizeValue(s).value == Numeral(s) % WORD
  {
    if s != [] {
      var front, last := s[..|s| - 1], s[|s| - 1];
      SizeValueExact(front);
      assert SizeChars(s) <==> SizeChars(front) && (IsHex(last) || IsBlank(last)) by {
        assert forall i :: 0 <= i < |front| ==> s[i] == front[i];
      }
      if SizeChars(s) && IsHex(last) {
        ModStep(Numeral(front), HexDigit(last));
      }
    }
  }

  lemma ModStep(a: nat, d: nat)
    ensures ((a % WORD) * 16 + d) % WORD == (16 * a + d) % WORD
  {
    var q, r := a / WORD, a % WORD;
    var x := r * 16 + d;
    var u, v := x / WORD, x % WORD;
    Quotient(16 * a + d, u + 16 * q, v);
  }

  lemma Quotient(n: nat, q: nat, r: nat)
    requires n == WORD * q + r && r < WORD
    ensures n % WORD == r
  {
  }

  lemma SizeExact(line: string, n: nat)
    ensures SizeOf(line) == Some(n) <==> Spells(line, n)
  {
    SizeValueExact(line[..IndexOf(line, ';')]);
  }

  /** One chunk on the wire: its size line, its data, and the two bytes behind them. */
  datatype Chunk = Chunk(line: string, data: string, end: string)

  predicate IsLine(line: string) { Find(line + CRLF, CRLF, 0) == |line| }

  predicate IsChunk(c: Chunk) {
    IsLine(c.line) && c.data != [] && Spells(c.line, |c.data|) && |c.end| == 2
  }

  function Wire(chunks: seq<Chunk>, last: string, trailer: string): string {
    if chunks == [] then last + CRLF + trailer
    else chunks[0].line + CRLF + chunks[0].data + chunks[0].end + Wire(chunks[1..], last, trailer)
  }

  function Payload(chunks: seq<Chunk>): string {
    if chunks == [] then [] else chunks[0].data + Payload(chunks[1..])
  }

  /** What the decoder takes for a chunked body: chunks, a line of size zero, and anything behind it. */
  ghost predicate Framed(chunks: seq<Chunk>, last: string) {
    (forall c :: c in chunks ==> IsChunk(c)) && IsLine(last) && Spells(last, 0)
  }

  lemma LineThen(line: string, rest: string)
    requires IsLine(line)
    ensures Find(line + CRLF + rest, CRLF, 0) == |line|
    ensures (line + CRLF + rest)[..|line|] == line
  {
    FindInLonger(line + CRLF, rest, CRLF, 0);
  }

  lemma FirstOfChunk(c: Chunk, rest: string)
    requires IsChunk(c)
    ensures var s := c.line + CRLF + (c.data + c.end + rest);
      var next := |c.line| + 2 + |c.data| + 2;
      First(s) == Take(c.data, next) && s[next..] == rest
  {
    var s := c.line + CRLF + (c.data + c.end + rest);
    var next := |c.line| + 2 + |c.data| + 2;
    LineThen(c.line, c.data + c.end + rest);
    SizeExact(c.line, |c.data|);
    assert s == (c.line + CRLF + c.data + c.end) + rest;
    assert |c.line + CRLF + c.data + c.end| == next;
    assert s[next..] == rest;
    assert s[|c.line| + 2..next - 2] == c.data;
    hide SizeOf, IsLine, At, Spells;
  }

  lemma FirstOfLast(last: string, trailer: string)
    requires IsLine(last) && Spells(last, 0)
    ensures First(last + CRLF + trailer) == Stop(Complete([]))
  {
    hide SizeOf, At, Spells;
    SizeExact(last, 0);
    LineThen(last, trailer);
    hide IsLine;
  }

  /** Decoding undoes encoding, however the sizes are spelled. */
  lemma {:induction false} DecodesWire(chunks: seq<Chunk>, last: string, trailer: string)
    requires Framed(chunks, last)
    ensures Decode(Wire(chunks, last, trailer)) == Complete(Payload(chunks))
    decreases |chunks|
  {
    hide First, IsLine, SizeOf, Spells;
    if chunks == [] {
      FirstOfLast(last, trailer);
    } else {
      var c, rest := chunks[0], Wire(chunks[1..], last, trailer);
      assert Wire(chunks, last, trailer) == c.line + CRLF + (c.data + c.end + rest);
      FirstOfChunk(c, rest);
      DecodesWire(chunks[1..], last, trailer);
    }
  }

  lemma AtInHead(s: string, pat: string, n: nat, i: nat)
    requires i + |pat| <= n <= |s|
    ensures At(s[..n], pat, i) <==> At(s, pat, i)
  {
    assert s[..n][i..i + |pat|] == s[i..i + |pat|];
  }

  /** The first occurrence is still the first one when the text ends right behind it. */
  lemma FindInHead(s: string, pat: string)
    requires Find(s, pat, 0) >= 0
    ensures var e := Find(s, pat, 0); e + |pat| <= |s| && Find(s[..e + |pat|], pat, 0) == e
  {
    hide At, Find;
    FindBound(s, pat, 0);
    var e := Find(s, pat, 0);
    var head := s[..e + |pat|];
    forall i: nat | i <= e
      ensures At(head, pat, i) <==> At(s, pat, i)
    {
      AtInHead(s, pat, e + |pat|, i);
    }
    assert At(head, pat, e);
  }

  lemma SplitAt(s: string, pat: string, e: nat)
    requires At(s, pat, e)
    ensures e + |pat| <= |s| && s[..e + |pat|] == s[..e] + pat && s == s[..e] + pat + s[e + |pat|..]
  {
  }

  lemma LineOf(s: string)
    requires Find(s, CRLF, 0) >= 0
    ensures var e := Find(s, CRLF, 0); e + 2 <= |s| && IsLine(s[..e]) && s == s[..e] + CRLF + s[e + 2..]
  {
    hide At, Find;
    FindInHead(s, CRLF);
    SplitAt(s, CRLF, Find(s, CRLF, 0));
  }

  lemma FirstIsChunk(s: string) returns (c: Chunk)
    requires First(s).Take?
    ensures IsChunk(c) && c.data == First(s).data
    ensures s == c.line + CRLF + c.data + c.end + s[First(s).next..]
  {
    var e, next := Find(s, CRLF, 0), First(s).next;
    hide SizeOf, IsLine, At, Spells, Find;
    LineOf(s);
    c := Chunk(s[..e], s[e + 2..next - 2], s[next - 2..next]);
    SizeExact(c.line, |c.data|);
    CutTwice(s, e + 2, next);
  }

  lemma CutTwice(s: string, from: nat, next: nat)
    requires from + 2 <= next <= |s|
    ensures s[from..] == s[from..next - 2] + s[next - 2..next] + s[next..]
  {
  }

  lemma LastIsZero(s: string) returns (last: string, trailer: string)
    requires First(s).Stop? && First(s).verdict.Complete?
    ensures IsLine(last) && Spells(last, 0) && s == last + CRLF + trailer && First(s).verdict.out == []
  {
    hide SizeOf, IsLine, At, Spells;
    LineOf(s);
    var e := Find(s, CRLF, 0);
    last, trailer := s[..e], s[e + 2..];
    SizeExact(last, 0);
  }

  /** Whatever is decoded completely was framed that way. */
  lemma {:induction false} OnlyWireDecodes(s: string) returns (chunks: seq<Chunk>, last: string, trailer: string)
    requires Decode(s).Complete?
    ensures Framed(chunks, last) && s == Wire(chunks, last, trailer) && Decode(s).out == Payload(chunks)
    decreases |s|
  {
    hide First, IsChunk, IsLine, SizeOf, Spells;
    match First(s)
    case Stop(v) =>
      last, trailer := LastIsZero(s);
      chunks := [];
    case Take(data, next) =>
      var c := FirstIsChunk(s);
      chunks, last, trailer := OnlyWireDecodes(s[next..]);
      assert ([c] + chunks)[1..] == chunks;
      chunks := [c] + chunks;
  }

  /**
   The decoder accepts the framed bodies with exactly their payloads, and otherwise only what made a position
   overflow.
   */
  lemma DecodeExact(s: string, out: string)
    requires |s| < MAX_STRING
    ensures Decoded(s) == Stopped(Complete(out), 0) <==>
      exists chunks, last, trailer :: Framed(chunks, last) && s == Wire(chunks, last, trailer) && out == Payload(chunks)
  {
    DecodedExactly(s);
    hide Decoded;
    if Decoded(s) == Stopped(Complete(out), 0) {
      var chunks, last, trailer := OnlyWireDecodes(s);
    }
    if chunks, last, trailer :| Framed(chunks, last) && s == Wire(chunks, last, trailer) && out == Payload(chunks) {
      DecodesWire(chunks, last, trailer);
    }
  }

  // ---- sizes can be written, and short ones do not overflow ----------------------------

  function HexText(n: nat): (r: string)
    ensures r != [] && forall i :: 0 <= i < |r| ==> IsHex(r[i])
  {
    if n < 16 then [HexChar(n)] else HexText(n / 16) + [HexChar(n % 16)]
  }

  lemma {:induction false} HexTextValue(n: nat)
    requires n < WORD
    ensures SizeValue(HexText(n)) == Some(n)
  {
    var r := HexText(n);
    if n < 16 {
      assert r[..0] == [];
    } else {
      HexTextValue(n / 16);
      assert r[..|r| - 1] == HexText(n / 16);
    }
  }

  lemma NoLineBreak(line: string)
    requires '\r' !in line
    ensures IsLine(line)
  {
    var s := line + CRLF;
    assert s[|line|..|line| + 2] == CRLF;
    assert At(s, CRLF, |line|);
    forall i: nat | i < |line|
      ensures !At(s, CRLF, i)
    {
      assert s[i] == line[i] && s[i..i + 2][0] == s[i];
    }
    hide At;
  }

  lemma HexTextLine(n: nat)
    requires n < WORD
    ensures IsLine(HexText(n)) && SizeOf(HexText(n)) == Some(n)
  {
    var line := HexText(n);
    assert forall i :: 0 <= i < |line| ==> line[i] != '\r' && line[i] != ';';
    hide HexText, IsLine, SizeValue;
    HexTextValue(n);
    NoLineBreak(line);
    assert line[..IndexOf(line, ';')] == line;
  }

  /** Every payload cut into non-empty pieces has a wire form, so nothing above is vacuous. */
  lemma ChunkExists(data: string)
    requires data != [] && |data| < WORD
    ensures IsChunk(Chunk(HexText(|data|), data, CRLF))
  {
    var line := HexText(|data|);
    HexTextLine(|data|);
    hide HexText, IsLine, SizeValue, Spells;
    SizeExact(line, |data|);
  }

  function HexCount(s: string): nat {
    if s == [] then 0 else HexCount(s[..|s| - 1]) + if IsHex(s[|s| - 1]) then 1 else 0
  }

  lemma {:induction false} HexBound(s: string)
    requires SizeValue(s).Some?
    ensures SizeValue(s).value < Power16(HexCount(s))
  {
    if s != [] {
      HexBound(s[..|s| - 1]);
    }
  }

  lemma {:induction false} Power16Grows(m: nat, n: nat)
    requires m <= n
    ensures Power16(m) <= Power16(n)
  {
    if m < n {
      Power16Grows(m, n - 1);
    }
  }

  /** Sizes of fewer than 16 hex digits stay below a 16th of the word, far from overflow. */
  lemma ShortSizes(line: string)
    requires SizeOf(line).Some? && HexCount(line[..IndexOf(line, ';')]) < 16
    ensures SizeOf(line).value < WORD / 16
  {
    var digits := line[..IndexOf(line, ';')];
    HexBound(digits);
    Power16Grows(HexCount(digits), 15);
    assert Power16(5) == 0x10_0000;
    assert Power16(10) == 0x100_0000_0000;
    assert Power16(15) == 0x1000_0000_0000_0000;
  }

  /** The size line at this position, if there is one, has fewer than 16 hex digits. */
  predicate ShortLine(raw: string, pos: nat)
    requires pos <= |raw|
  {
    var lineEnd := Find(raw, CRLF, pos);
    lineEnd >= 0 ==> var line := raw[pos..lineEnd]; HexCount(line[..IndexOf(line, ';')]) < 16
  }

  lemma ShortTurn(raw: string, pos: nat)
    requires pos <= |raw| && |raw| < MAX_STRING && ShortLine(raw, pos)
    ensures var t := TurnAt(raw, pos); t.Go? ==> !t.wrapped
  {
    hide SizeOf, At, HexCount;
    FindBound(raw, CRLF, pos);
    var lineEnd := Find(raw, CRLF, pos);
    if lineEnd >= 0 && SizeOf(raw[pos..lineEnd]).Some? {
      ShortSizes(raw[pos..lineEnd]);
    }
  }

  /** As long as every size line has fewer than 16 hex digits, no position overflows. */
  lemma {:induction false} ShortSizesNeverWrap(raw: string, n: nat)
    requires |raw| < MAX_STRING
    requires forall k: nat :: k < n && After(raw, k).Running? ==> ShortLine(raw, After(raw, k).pos)
    ensures After(raw, n).wraps == 0
  {
    hide TurnAt, ShortLine;
    if n > 0 {
      ShortSizesNeverWrap(raw, n - 1);
      if After(raw, n - 1).Running? {
        ShortTurn(raw, After(raw, n - 1).pos);
      }
    }
  }

  // ---- sizes that overflow ----------------------------------------------------------------

  lemma LineTurn(line: string, size: nat, rest: string)
    requires IsLine(line) && SizeOf(line) == Some(size) && size > 0
    requires |line| + 2 + |rest| < MAX_STRING
    ensures var raw := line + CRLF + rest;
      var next := (|line| + 2 + size + 2) % WORD;
      TurnAt(raw, 0) == if next > |raw| then Halt(NeedMore([]))
                        else Go(Substring(raw, |line| + 2, size), next, |line| + 2 + size + 2 >= WORD)
  {
    LineThen(line, rest);
    hide IsLine, SizeOf, At;
  }

  lemma ZeroTurn(line: string, tail: string)
    requires IsLine(line)
    ensures var raw := line + CRLF + ("0\r\n" + tail);
      |line| + 2 <= |raw| && TurnAt(raw, |line| + 2) == Halt(Complete([]))
  {
    var raw, pos := line + CRLF + ("0\r\n" + tail), |line| + 2;
    assert raw[pos..] == "0" + CRLF + tail;
    NoLineBreak("0");
    LineThen("0", tail);
    FindShift(raw, CRLF, pos);
    assert raw[pos..pos + 1] == "0";
    ZeroSize();
    hide IsLine, SizeOf, At;
  }

  lemma ZeroSize()
    ensures SizeOf("0") == Some(0)
  {
    assert "0"[..0] == "";
    assert SizeValue("") == Some(0);
  }

  /** A size that leads `back` bytes beyond 2^64. */
  lemma WrapTurn(line: string, size: nat, rest: string, back: nat)
    requires IsLine(line) && SizeOf(line) == Some(size) && 0 < size
    requires |line| + 2 + size + 2 == WORD + back && |line| + 2 + |rest| <= WORD - 1000 && back <= |line| + 2
    requires |line| + 2 + |rest| < MAX_STRING && |rest| <= size
    ensures TurnAt(line + CRLF + rest, 0) == Go(rest, back, true)
  {
    var raw := line + CRLF + rest;
    LineTurn(line, size, rest);
    assert raw[|line| + 2..] == rest;
    hide TurnAt, IsLine, SizeOf;
  }

  /**
   A size of 2^64 - 2 sends the position back to the data of its own chunk: a body
   comes out complete, with the framing in it, and again complete but longer with
   one more byte.
   */
  lemma WrappedBody(tail: string)
    requires |tail| < MAX_STRING - 100
    ensures Decoded(HexText(WORD - 2) + CRLF + ("0\r\n" + tail)) == Stopped(Complete("0\r\n" + tail), 1)
  {
    var line, rest := HexText(WORD - 2), "0\r\n" + tail;
    HexTextLine(WORD - 2);
    WordPower();
    HexTextLength(WORD - 2, 15);
    hide HexText, TurnAt, IsLine, SizeOf, Decoded, Power16;
    WrapTurn(line, WORD - 2, rest, |line| + 2);
    ZeroTurn(line, tail);
    TwoTurns(line + CRLF + rest, |line| + 2, rest);
  }

  lemma TwoTurns(raw: string, pos: nat, out: string)
    requires pos <= |raw| && TurnAt(raw, 0) == Go(out, pos, true) && TurnAt(raw, pos) == Halt(Complete([]))
    ensures Decoded(raw) == Stopped(Complete(out), 1)
  {
    NoTurns(raw);
    hide After, TurnAt, Decoded;
    AfterTurn(raw, 0);
    assert "" + out == out && out + [] == out;
    AfterTurn(raw, 1);
    DecodedIs(raw, 2);
  }

  lemma {:induction false} HexTextLength(n: nat, k: nat)
    requires Power16(k) <= n < Power16(k + 1)
    ensures |HexText(n)| == k + 1
  {
    if k > 0 {
      assert Power16(k + 1) == 16 * Power16(k) && Power16(k) == 16 * Power16(k - 1);
      HexTextLength(n / 16, k - 1);
    }
  }

  lemma WordPower()
    ensures Power16(15) == WORD / 16 && Power16(16) == WORD
  {
    assert Power16(5) == 0x10_0000;
    assert Power16(10) == 0x100_0000_0000;
    assert Power16(15) == 0x1000_0000_0000_0000;
  }

  lemma BackToStart()
    ensures TurnAt(HexText(WORD - 20) + CRLF, 0) == Go("", 0, true)
  {
    var line := HexText(WORD - 20);
    HexTextLine(WORD - 20);
    WordPower();
    HexTextLength(WORD - 20, 15);
    hide HexText, TurnAt, IsLine, SizeOf, Power16;
    WrapTurn(line, WORD - 20, "", 0);
    assert line + CRLF + "" == line + CRLF;
  }

  /** A size of 2^64 - 20 on the first line sends the position back to the start: the loop never ends. */
  lemma {:induction false} EndlessLoop(n: nat)
    ensures After(HexText(WORD - 20) + CRLF, n).Running? && After(HexText(WORD - 20) + CRLF, n).pos == 0
  {
    var raw := HexText(WORD - 20) + CRLF;
    NoTurns(raw);
    hide HexText, TurnAt, After;
    if n > 0 {
      EndlessLoop(n - 1);
      BackToStart();
      AfterTurn(raw, n - 1);
    }
  }
}
