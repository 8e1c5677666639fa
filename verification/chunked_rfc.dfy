/**
 The chunked bodies of section 7.1 of RFC 9112, and which of the accepted texts they
 are.
 */
module ChunkedRfc {
  import opened Text
  import opened Chunked
  import opened ChunkedFraming

  // ---- section 7.1 of RFC 9112 --------------------------------------------------------------

  predicate IsTokenChar(c: char) { IsAlnum(c) || c in "!#$%&'*+-.^_`|~" }

  predicate IsToken(s: string) { s != "" && forall i :: 0 <= i < |s| ==> IsTokenChar(s[i]) }

  predicate AllBlank(s: string) { forall i :: 0 <= i < |s| ==> IsBlank(s[i]) }

  /** Visible characters, and the bytes of obs-text. */
  predicate IsVisible(c: char) { '!' <= c <= '~' || 128 as char <= c <= 255 as char }

  /** The rest of a quoted-string, its opening quote read. */
  predicate QuotedRest(s: string) {
    if s == "" then false
    else if s[0] == '"' then |s| == 1
    else if s[0] == '\\' then |s| >= 2 && (IsBlank(s[1]) || IsVisible(s[1])) && QuotedRest(s[2..])
    else (IsBlank(s[0]) || IsVisible(s[0])) && QuotedRest(s[1..])
  }

  predicate IsQuoted(s: string) { s != "" && s[0] == '"' && QuotedRest(s[1..]) }

  /** `BWS ";" BWS name [ BWS "=" BWS value ]` */
  datatype Extension = Extension(before: string, after: string, name: string, value: Option<ExtensionValue>)

  datatype ExtensionValue = ExtensionValue(before: string, after: string, text: string)

  predicate ValidExtension(e: Extension) {
    && AllBlank(e.before) && AllBlank(e.after) && IsToken(e.name)
    && (e.value.Some? ==>
        AllBlank(e.value.value.before) && AllBlank(e.value.value.after)
          && (IsToken(e.value.value.text) || IsQuoted(e.value.value.text)))
  }

  function ExtensionText(e: Extension): string {
    e.before + ";" + e.after + e.name
    + if e.value.Some? then e.value.value.before + "=" + e.value.value.after + e.value.value.text else ""
  }

  function ExtensionsText(es: seq<Extension>): string {
    if es == [] then "" else ExtensionText(es[0]) + ExtensionsText(es[1..])
  }

  ghost predicate ValidExtensions(es: seq<Extension>) { forall e :: e in es ==> ValidExtension(e) }

  /** chunk-size [ chunk-ext ], with the size n. */
  ghost predicate RfcLine(line: string, n: nat) {
    exists size, es :: size != "" && AllHex(size) && ValidExtensions(es) && line == size + ExtensionsText(es)
      && HexValue(size) == n
  }

  /** `field-name ":" OWS field-value OWS` */
  predicate IsFieldLine(f: string) {
    var colon := IndexOf(f, ':');
    colon < |f| && IsToken(f[..colon]) && forall i :: colon < i < |f| ==> IsBlank(f[i]) || IsVisible(f[i])
  }

  function FieldsText(fields: seq<string>): string {
    if fields == [] then "" else fields[0] + CRLF + FieldsText(fields[1..])
  }

  ghost predicate RfcTrailer(trailer: string) {
    exists fields :: (forall f :: f in fields ==> IsFieldLine(f)) && trailer == FieldsText(fields) + CRLF
  }

  ghost predicate RfcChunk(c: Chunk) { c.data != "" && c.end == CRLF && RfcLine(c.line, |c.data|) }

  /** A chunked-body of RFC 9112: chunks, the last-chunk, the trailer section and an empty line. */
  ghost predicate RfcBody(chunks: seq<Chunk>, last: string, trailer: string) {
    (forall c :: c in chunks ==> RfcChunk(c)) && RfcLine(last, 0) && RfcTrailer(trailer)
  }

  lemma {:induction false} QuotedHasNoBreak(s: string)
    requires QuotedRest(s)
    ensures '\r' !in s
    decreases |s|
  {
    if s[0] == '"' {
    } else if s[0] == '\\' {
      QuotedHasNoBreak(s[2..]);
      assert s == [s[0], s[1]] + s[2..];
    } else {
      QuotedHasNoBreak(s[1..]);
      assert s == [s[0]] + s[1..];
    }
  }

  lemma TokenHasNoBreak(s: string)
    requires IsToken(s)
    ensures '\r' !in s
  {
    assert !IsTokenChar('\r');
    hide IsTokenChar;
  }

  lemma BlankHasNoBreak(s: string)
    requires AllBlank(s)
    ensures '\r' !in s && ';' !in s
  {
  }

  lemma ExtensionHasNoBreak(e: Extension)
    requires ValidExtension(e)
    ensures '\r' !in ExtensionText(e)
  {
    BlankHasNoBreak(e.before);
    BlankHasNoBreak(e.after);
    TokenHasNoBreak(e.name);
    if e.value.Some? {
      var v := e.value.value;
      BlankHasNoBreak(v.before);
      BlankHasNoBreak(v.after);
      if IsToken(v.text) {
        TokenHasNoBreak(v.text);
      } else {
        QuotedHasNoBreak(v.text[1..]);
        assert v.text == [v.text[0]] + v.text[1..];
      }
    }
    hide IsToken, AllBlank, IsQuoted;
  }

  lemma {:induction false} ExtensionsHaveNoBreak(es: seq<Extension>)
    requires ValidExtensions(es)
    ensures '\r' !in ExtensionsText(es)
  {
    hide ValidExtension, ExtensionText;
    if es != [] {
      ExtensionHasNoBreak(es[0]);
      ExtensionsHaveNoBreak(es[1..]);
    }
  }

  lemma {:induction false} NumeralOfBlanks(size: string, blanks: string)
    requires AllHex(size) && AllBlank(blanks)
    ensures SizeChars(size + blanks) && Numeral(size + blanks) == HexValue(size)
    decreases |size|, |blanks|
  {
    var s := size + blanks;
    if blanks != "" {
      var front := blanks[..|blanks| - 1];
      assert s[..|s| - 1] == size + front;
      NumeralOfBlanks(size, front);
    } else if size != "" {
      assert s == size;
      var front := size[..|size| - 1];
      NumeralOfBlanks(front, "");
      assert front + "" == front;
    }
  }

  /** What stands before the first semicolon: the size and the blanks of the first extension. */
  lemma DigitsOfRfcLine(size: string, es: seq<Extension>)
    requires AllHex(size) && ValidExtensions(es)
    ensures var line := size + ExtensionsText(es);
      line[..IndexOf(line, ';')] == size + if es == [] then "" else es[0].before
  {
    var line := size + ExtensionsText(es);
    assert forall i :: 0 <= i < |size| ==> size[i] != ';';
    if es == [] {
      assert line == size;
    } else {
      var e := es[0];
      assert e in es;
      BlankHasNoBreak(e.before);
      var tail := ExtensionText(e)[|e.before| + 1..] + ExtensionsText(es[1..]);
      assert ExtensionText(e) == e.before + (";" + ExtensionText(e)[|e.before| + 1..]);
      assert line == (size + e.before) + (";" + tail);
      hide ExtensionText, ExtensionsText, AllHex, AllBlank;
      FirstSemicolon(size + e.before, tail);
    }
  }

  lemma FirstSemicolon(head: string, tail: string)
    requires ';' !in head
    ensures var line := head + (";" + tail); line[..IndexOf(line, ';')] == head
  {
    var line := head + (";" + tail);
    assert line[|head|] == ';';
    assert forall i :: 0 <= i < |head| ==> line[i] == head[i];
  }

  lemma RfcTextSpells(size: string, es: seq<Extension>)
    requires size != "" && AllHex(size) && ValidExtensions(es) && HexValue(size) < WORD
    ensures IsLine(size + ExtensionsText(es)) && Spells(size + ExtensionsText(es), HexValue(size))
  {
    var line := size + ExtensionsText(es);
    var blanks := if es == [] then "" else es[0].before;
    FirstBlanks(es);
    HexHasNoBreak(size);
    hide *;
    ExtensionsHaveNoBreak(es);
    NoLineBreak(line);
    DigitsOfRfcLine(size, es);
    NumeralOfBlanks(size, blanks);
    DigitsSpell(line, size + blanks);
  }

  lemma DigitsSpell(line: string, digits: string)
    requires line[..IndexOf(line, ';')] == digits && digits != "" && SizeChars(digits) && Numeral(digits) < WORD
    ensures Spells(line, Numeral(digits))
  {
    hide Numeral;
  }

  lemma FirstBlanks(es: seq<Extension>)
    requires ValidExtensions(es)
    ensures AllBlank(if es == [] then "" else es[0].before)
  {
    assert es != [] ==> es[0] in es;
  }

  lemma HexHasNoBreak(s: string)
    requires AllHex(s)
    ensures '\r' !in s
  {
  }

  /** A size line of the standard is read as its size, if that fits 64 bits. */
  lemma RfcLineSpells(line: string, n: nat)
    requires RfcLine(line, n) && n < WORD
    ensures IsLine(line) && Spells(line, n)
  {
    var size: string, es: seq<Extension> :|
      size != "" && AllHex(size) && ValidExtensions(es) && line == size + ExtensionsText(es) && HexValue(size) == n;
    hide *;
    RfcTextSpells(size, es);
  }

  lemma RfcIsFramed(chunks: seq<Chunk>, last: string, trailer: string)
    requires RfcBody(chunks, last, trailer) && forall c :: c in chunks ==> |c.data| < WORD
    ensures Framed(chunks, last)
  {
    forall c | c in chunks
      ensures IsChunk(c)
    {
      RfcLineSpells(c.line, |c.data|);
    }
    RfcLineSpells(last, 0);
  }

  lemma {:induction false} DataInWire(chunks: seq<Chunk>, last: string, trailer: string, c: Chunk)
    requires c in chunks
    ensures |c.data| <= |Wire(chunks, last, trailer)|
  {
    if c != chunks[0] {
      DataInWire(chunks[1..], last, trailer, c);
    }
  }

  /** Every chunked body of the standard is decoded, to its data. */
  lemma RfcDecodes(chunks: seq<Chunk>, last: string, trailer: string)
    requires RfcBody(chunks, last, trailer) && |Wire(chunks, last, trailer)| < MAX_STRING
    ensures Framed(chunks, last)
    ensures Decoded(Wire(chunks, last, trailer)) == Stopped(Complete(Payload(chunks)), 0)
  {
    hide RfcBody, Wire, Framed, Decoded;
    forall c | c in chunks
      ensures |c.data| < WORD
    {
      DataInWire(chunks, last, trailer, c);
    }
    RfcIsFramed(chunks, last, trailer);
    DecodesWire(chunks, last, trailer);
    DecodedExactly(Wire(chunks, last, trailer));
  }

  /** A text has one framing. */
  lemma {:induction false} OneFraming(c1: seq<Chunk>, l1: string, t1: string, c2: seq<Chunk>, l2: string, t2: string)
    requires Framed(c1, l1) && Framed(c2, l2) && Wire(c1, l1, t1) == Wire(c2, l2, t2)
    ensures c1 == c2 && l1 == l2 && t1 == t2
  {
    hide First, IsLine, Spells, Find;
    var s := Wire(c1, l1, t1);
    if c1 == [] {
      FirstOfLast(l1, t1);
      if c2 != [] {
        StartsWithChunk(c2, l2, t2);
      }
      LineThen(l1, t1);
      LineThen(l2, t2);
      assert t1 == s[|l1| + 2..] && t2 == s[|l2| + 2..];
    } else if c2 == [] {
      FirstOfLast(l2, t2);
      StartsWithChunk(c1, l1, t1);
    } else {
      StartsWithChunk(c1, l1, t1);
      StartsWithChunk(c2, l2, t2);
      OneFraming(c1[1..], l1, t1, c2[1..], l2, t2);
    }
  }

  /** The first chunk can be told from the text. */
  lemma StartsWithChunk(chunks: seq<Chunk>, last: string, trailer: string)
    requires Framed(chunks, last) && chunks != []
    ensures var s := Wire(chunks, last, trailer);
      var line := Find(s, CRLF, 0);
      && First(s).Take? && s[First(s).next..] == Wire(chunks[1..], last, trailer)
      && 0 <= line && line + 2 <= First(s).next - 2
      && chunks[0] == Chunk(s[..line], First(s).data, s[First(s).next - 2..First(s).next])
  {
    var c, rest := chunks[0], Wire(chunks[1..], last, trailer);
    var s := Wire(chunks, last, trailer);
    assert s == c.line + CRLF + (c.data + c.end + rest);
    FirstOfChunk(c, rest);
    LineThen(c.line, c.data + c.end + rest);
    assert s == (c.line + CRLF + c.data) + c.end + rest;
    hide First, IsLine, Spells, Find;
  }

  /**
   Of the texts the decoder accepts, exactly those are chunked bodies of the standard
   whose size lines have hex digits only before well-formed extensions, spell the size
   itself and not that plus a multiple of 2^64, whose data end in a line break, and
   whose trailer consists of field lines and an empty line.
   */
  lemma RfcExactly(chunks: seq<Chunk>, last: string, trailer: string)
    requires Framed(chunks, last) && |Wire(chunks, last, trailer)| < MAX_STRING
    ensures
      (exists cs, l, t :: RfcBody(cs, l, t) && Wire(cs, l, t) == Wire(chunks, last, trailer))
      <==>
      (forall c :: c in chunks ==> c.end == CRLF && RfcLine(c.line, |c.data|)) && RfcLine(last, 0)
        && RfcTrailer(trailer)
  {
    hide Wire, RfcLine, RfcTrailer;
    if cs, l, t :| RfcBody(cs, l, t) && Wire(cs, l, t) == Wire(chunks, last, trailer) {
      RfcDecodes(cs, l, t);
      OneFraming(cs, l, t, chunks, last, trailer);
    }
    if (forall c :: c in chunks ==> c.end == CRLF && RfcLine(c.line, |c.data|)) && RfcLine(last, 0)
      && RfcTrailer(trailer) {
      assert RfcBody(chunks, last, trailer);
    }
  }

  lemma OneChunk(c: Chunk)
    requires c.line == HexText(|c.data|) && c.data != "" && |c.end| == 2 && |c.data| < MAX_STRING - 100
    ensures Framed([c], "0") && Payload([c]) == c.data && |Wire([c], "0", CRLF)| < MAX_STRING
  {
    HexTextLine(|c.data|);
    ZeroSize();
    NoLineBreak("0");
    SizeExact("0", 0);
    SizeExact(c.line, |c.data|);
    WordPower();
    HexTextShort(|c.data|, 16);
    hide HexText, IsLine, Spells, SizeOf, Power16;
    assert [c][1..] == [];
    assert c.data + [] == c.data;
  }

  /** A chunk whose data end in two other bytes is accepted too, although the standard has no such body. */
  lemma AnyTwoBytesEndData(data: string, end: string)
    requires data != "" && |end| == 2 && end != CRLF && |data| < MAX_STRING - 100
    ensures var wire := Wire([Chunk(HexText(|data|), data, end)], "0", CRLF);
      && Decoded(wire) == Stopped(Complete(data), 0)
      && !exists cs, l, t :: RfcBody(cs, l, t) && Wire(cs, l, t) == wire
  {
    var c := Chunk(HexText(|data|), data, end);
    OneChunk(c);
    hide HexText, IsLine, Spells, SizeOf, Decoded, RfcBody, Wire, Framed, Payload;
    DecodesWire([c], "0", CRLF);
    DecodedExactly(Wire([c], "0", CRLF));
    RfcExactly([c], "0", CRLF);
    assert c in [c];
  }

  lemma {:induction false} HexTextShort(n: nat, k: nat)
    requires n < Power16(k) && k > 0
    ensures |HexText(n)| <= k
  {
    if n >= 16 {
      HexTextShort(n / 16, k - 1);
    }
  }
}
