/**
 Well-formed UTF-8 in, well-formed UTF-8 out: the strings the parser of
 src/core/Json.cpp builds from a well-formed text.
 */
module JsonUtf8 {
  import opened Text
  import opened JsonValue
  import opened JsonParse
  import opened Utf8

  /** Every string and every key, at any depth. */
  predicate Utf8Value(v: Value) {
    match v
    case Str(s) => WellFormed(s)
    case Arr(items) => forall i :: 0 <= i < |items| ==> Utf8Value(items[i])
    case Obj(members) => forall i :: 0 <= i < |members| ==> WellFormed(members[i].key) && Utf8Value(members[i].value)
    case _ => true
  }

  /** An ASCII byte is never part of a longer character. */
  lemma AsciiStep(q: State, s: string)
    requires s != [] && s[0] as int < 0x80 && Run(q, s) == Boundary
    ensures q == Boundary && WellFormed(s[1..])
  {
    if q != Boundary {
      BadForever(s[1..]);
    }
  }

  lemma {:induction false} AsciiPrefix(a: string, s: string)
    requires WellFormed(a + s) && forall i :: 0 <= i < |a| ==> a[i] as int < 0x80
    ensures WellFormed(s)
    decreases |a|
  {
    if a == [] {
      assert a + s == s;
    } else {
      AsciiStep(Boundary, a + s);
      assert (a + s)[1..] == a[1..] + s;
      AsciiPrefix(a[1..], s);
    }
  }

  lemma {:induction false} SkipWsUtf8(s: string)
    requires WellFormed(s)
    ensures WellFormed(SkipWs(s))
    decreases |s|
  {
    if s != [] && IsWs(s[0]) {
      AsciiStep(Boundary, s);
      SkipWsUtf8(s[1..]);
    }
  }

  lemma Hex4Utf8(s: string)
    requires WellFormed(s) && ParseHex4(s).Ok?
    ensures WellFormed(ParseHex4(s).rest)
  {
    assert s == s[..4] + s[4..];
    AsciiPrefix(s[..4], s[4..]);
  }

  lemma AppendUtf8(out: string, cp: nat)
    requires WellFormed(out) && cp <= 0x10FFFF
    ensures WellFormed(out + Encode(cp))
  {
    RunConcat(Boundary, out, Encode(cp));
    EncodeExact(cp);
  }

  /**
   The bytes read so far and the bytes still to read are always in step: `out`
   stops inside a character exactly where the text does, and escapes only occur
   between characters.
   */
  lemma {:induction false} CharsUtf8(s: string, out: string)
    requires Run(Run(Boundary, out), s) == Boundary && ParseChars(s, out).Ok?
    ensures WellFormed(ParseChars(s, out).v) && WellFormed(ParseChars(s, out).rest)
    decreases |s|
  {
    var q := Run(Boundary, out);
    if s[0] == '"' {
      AsciiStep(q, s);
    } else if s[0] == '\\' {
      AsciiStep(q, s);
      assert s[1] == 'u' || Unescape(s[1]).Some?;
      assert s[1..][0] == s[1] && s[1..][1..] == s[2..];
      AsciiStep(Boundary, s[1..]);
      if s[1] == 'u' {
        UnicodeUtf8(s[2..], out);
      } else {
        RunConcat(Boundary, out, [Unescape(s[1]).value]);
        Run1(Boundary, Unescape(s[1]).value);
        CharsUtf8(s[2..], out + [Unescape(s[1]).value]);
      }
    } else {
      RunConcat(Boundary, out, [s[0]]);
      Run1(q, s[0]);
      CharsUtf8(s[1..], out + [s[0]]);
    }
  }

  lemma {:induction false} UnicodeUtf8(s: string, out: string)
    requires WellFormed(out) && WellFormed(s) && ParseUnicode(s, out).Ok?
    ensures WellFormed(ParseUnicode(s, out).v) && WellFormed(ParseUnicode(s, out).rest)
    decreases |s|
  {
    var h := ParseHex4(s);
    Hex4Utf8(s);
    if High(h.v) && |h.rest| >= 2 && h.rest[0] == '\\' && h.rest[1] == 'u' && Low(ParseHex4(h.rest[2..]).v) {
      var l := ParseHex4(h.rest[2..]);
      assert h.rest == ['\\', 'u'] + h.rest[2..];
      AsciiPrefix(['\\', 'u'], h.rest[2..]);
      Hex4Utf8(h.rest[2..]);
      AppendUtf8(out, Combine(h.v, l.v));
      CharsUtf8(l.rest, out + Encode(Combine(h.v, l.v)));
    } else {
      AppendUtf8(out, h.v);
      CharsUtf8(h.rest, out + Encode(h.v));
    }
  }

  lemma StringUtf8(s: string)
    requires WellFormed(s) && ParseString(s).Ok?
    ensures WellFormed(ParseString(s).v) && WellFormed(ParseString(s).rest)
  {
    AsciiStep(Boundary, s);
    CharsUtf8(s[1..], "");
  }

  lemma NumberUtf8(s: string)
    requires WellFormed(s) && ParseNumber(s).Ok?
    ensures WellFormed(ParseNumber(s).rest) && Utf8Value(ParseNumber(s).v)
  {
    ParseNumSound(s);
    NumTextAscii(ParseNum(s).v);
    hide ParseNum, NumText, ValidNum;
    AsciiPrefix(NumText(ParseNum(s).v), ParseNum(s).rest);
  }

  lemma NumTextAscii(n: Num)
    requires ValidNum(n)
    ensures Ascii(NumText(n))
  {
    var sign, fraction, exponent := if n.negative then "-" else "", FractionText(n.fraction), ExponentText(n.exponent);
    assert Ascii(sign) && Ascii(n.whole);
    assert Ascii(fraction) && Ascii(exponent);
    assert NumText(n) == sign + (n.whole + (fraction + exponent));
    hide *;
    AsciiJoin(fraction, exponent);
    AsciiJoin(n.whole, fraction + exponent);
    AsciiJoin(sign, n.whole + (fraction + exponent));
  }

  predicate Ascii(s: string) { forall i :: 0 <= i < |s| ==> s[i] as int < 0x80 }

  lemma AsciiJoin(s: string, t: string)
    requires Ascii(s) && Ascii(t)
    ensures Ascii(s + t)
  {
  }

  lemma LiteralUtf8(s: string, literal: string, v: Value)
    requires WellFormed(s) && ParseLiteral(s, literal, v).Ok?
    requires forall i :: 0 <= i < |literal| ==> literal[i] as int < 0x80
    ensures WellFormed(ParseLiteral(s, literal, v).rest)
  {
    assert s == literal + s[|literal|..];
    AsciiPrefix(literal, s[|literal|..]);
  }

  lemma {:induction false} ValueUtf8(s: string, depth: nat, maxDepth: nat)
    requires WellFormed(s) && ParseValue(s, depth, maxDepth).Ok?
    ensures var r := ParseValue(s, depth, maxDepth); Utf8Value(r.v) && WellFormed(r.rest)
    decreases |s|, 0
  {
    hide ParseElements, ParseMembers, ParseNumber, ParseString, SkipWs;
    if s[0] == 'n' {
      LiteralUtf8(s, "null", Null);
    } else if s[0] == 't' {
      LiteralUtf8(s, "true", Bool(true));
    } else if s[0] == 'f' {
      LiteralUtf8(s, "false", Bool(false));
    } else if s[0] == '"' {
      StringUtf8(s);
    } else if s[0] == '[' || s[0] == '{' {
      AsciiStep(Boundary, s);
      SkipWsUtf8(s[1..]);
      var t := SkipWs(s[1..]);
      if Starts(t, ']') || Starts(t, '}') {
        AsciiStep(Boundary, t);
      }
      if s[0] == '[' && !Starts(t, ']') {
        ElementsUtf8(t, [], depth, maxDepth);
      } else if s[0] == '{' && !Starts(t, '}') {
        MembersUtf8(t, [], depth, maxDepth);
      }
    } else {
      NumberUtf8(s);
    }
  }

  lemma {:induction false} ElementsUtf8(s: string, items: seq<Value>, depth: nat, maxDepth: nat)
    requires WellFormed(s) && ParseElements(s, items, depth, maxDepth).Ok? && Utf8Value(Arr(items))
    ensures var r := ParseElements(s, items, depth, maxDepth); Utf8Value(r.v) && WellFormed(r.rest)
    decreases |s|, 1
  {
    hide ParseValue, SkipWs;
    var v := ParseValue(SkipWs(s), depth + 1, maxDepth);
    SkipWsUtf8(s);
    ValueUtf8(SkipWs(s), depth + 1, maxDepth);
    SkipWsUtf8(v.rest);
    var t := SkipWs(v.rest);
    AsciiStep(Boundary, t);
    assert Utf8Value(Arr(items + [v.v]));
    if Starts(t, ',') {
      ElementsUtf8(t[1..], items + [v.v], depth, maxDepth);
    }
  }

  lemma KeyUtf8(s: string)
    requires WellFormed(s) && ParseKey(s).Ok?
    ensures WellFormed(ParseKey(s).v) && WellFormed(ParseKey(s).rest)
  {
    SkipWsUtf8(s);
    StringUtf8(SkipWs(s));
    SkipWsUtf8(ParseString(SkipWs(s)).rest);
    AsciiStep(Boundary, SkipWs(ParseString(SkipWs(s)).rest));
  }

  lemma {:induction false} MembersUtf8(s: string, members: seq<Member>, depth: nat, maxDepth: nat)
    requires WellFormed(s) && ParseMembers(s, members, depth, maxDepth).Ok? && Utf8Value(Obj(members))
    ensures var r := ParseMembers(s, members, depth, maxDepth); Utf8Value(r.v) && WellFormed(r.rest)
    decreases |s|, 1
  {
    hide ParseValue, SkipWs, ParseKey;
    var k := ParseKey(s);
    KeyUtf8(s);
    SkipWsUtf8(k.rest);
    var v := ParseValue(SkipWs(k.rest), depth + 1, maxDepth);
    ValueUtf8(SkipWs(k.rest), depth + 1, maxDepth);
    SkipWsUtf8(v.rest);
    var t := SkipWs(v.rest);
    AsciiStep(Boundary, t);
    var read := SetMember(members, k.v, v.v);
    assert Utf8Value(Obj(read));
    if Starts(t, ',') {
      MembersUtf8(t[1..], read, depth, maxDepth);
    }
  }

  /** The theorem for whole documents. */
  lemma DocumentUtf8(text: string, maxDepth: nat)
    requires WellFormed(text) && ParseDocument(text, maxDepth).Some?
    ensures Utf8Value(ParseDocument(text, maxDepth).value)
  {
    SkipWsUtf8(text);
    ValueUtf8(SkipWs(text), 0, maxDepth);
  }
}
