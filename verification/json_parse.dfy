/**
 What the recursive-descent parser of src/core/Json.cpp computes, as functions
 from the unread text to a value and the text left over.  `JsonParser.Parser`
 implements them with a cursor; `JsonGrammar` proves them exact.
 */
module JsonParse {
  import opened Text
  import opened JsonValue
  import Utf8

  datatype Parsed<+T> = Ok(v: T, rest: string) | Fail

  predicate IsWs(c: char) { c == ' ' || c == '\t' || c == '\n' || c == '\r' }

  function SkipWs(s: string): (r: string)
    ensures |r| <= |s|
    ensures r != [] ==> !IsWs(r[0])
  {
    if s != [] && IsWs(s[0]) then SkipWs(s[1..]) else s
  }

  /** peek() == c, where the end of the text matches nothing. */
  predicate Starts(s: string, c: char) { s != [] && s[0] == c }

  // ---- strings --------------------------------------------------------------

  predicate IsHex4(h: string) { |h| == 4 && AllHex(h) }

  lemma Hex4Bound(h: string)
    requires IsHex4(h)
    ensures HexValue(h) == 4096 * HexDigit(h[0]) + 256 * HexDigit(h[1]) + 16 * HexDigit(h[2]) + HexDigit(h[3])
    ensures HexValue(h) <= 0xFFFF
  {
    var h3, h2, h1 := h[..3], h[..2], h[..1];
    assert h3[..2] == h2 && h2[..1] == h1 && h1[..0] == [];
    assert HexValue(h1) == HexDigit(h[0]);
    assert HexValue(h2) == 16 * HexValue(h1) + HexDigit(h[1]);
    assert HexValue(h3) == 16 * HexValue(h2) + HexDigit(h[2]);
  }

  function ParseHex4(s: string): (r: Parsed<nat>)
    ensures r.Ok? ==> r.v <= 0xFFFF && |r.rest| + 4 == |s|
  {
    if |s| >= 4 && AllHex(s[..4]) then
      Hex4Bound(s[..4]);
      Ok(HexValue(s[..4]), s[4..])
    else Fail
  }

  predicate High(cp: int) { 0xD800 <= cp <= 0xDBFF }

  predicate Low(cp: int) { 0xDC00 <= cp <= 0xDFFF }

  /** The code point of a UTF-16 surrogate pair. */
  function Combine(high: int, low: int): (cp: int)
    requires High(high) && Low(low)
    ensures 0x10000 <= cp <= 0x10FFFF
  {
    0x10000 + (high - 0xD800) * 0x400 + (low - 0xDC00)
  }

  /** The two-character escapes of section 7 of RFC 8259. */
  function Unescape(c: char): Option<char> {
    match c
    case '"' => Some('"')
    case '\\' => Some('\\')
    case '/' => Some('/')
    case 'b' => Some(8 as char)
    case 'f' => Some(12 as char)
    case 'n' => Some('\n')
    case 'r' => Some('\r')
    case 't' => Some('\t')
    case _ => None
  }

  /** The body of a string after its opening quote, with `out` already read. */
  function ParseChars(s: string, out: string): (r: Parsed<string>)
    ensures r.Ok? ==> |r.rest| < |s|
    decreases |s|
  {
    if s == [] then Fail
    else if s[0] == '"' then Ok(out, s[1..])
    else if s[0] == '\\' then
      if |s| < 2 then Fail
      else if s[1] == 'u' then ParseUnicode(s[2..], out)
      else
        var e := Unescape(s[1]);
        if e.None? then Fail else ParseChars(s[2..], out + [e.value])
    else if s[0] < ' ' then Fail
    else ParseChars(s[1..], out + [s[0]])
  }

  /** After "\u": four digits, and the second half of a pair if one follows. */
  function ParseUnicode(s: string, out: string): (r: Parsed<string>)
    ensures r.Ok? ==> |r.rest| < |s|
    decreases |s|
  {
    var h := ParseHex4(s);
    if h.Fail? then Fail
    else if High(h.v) && |h.rest| >= 2 && h.rest[0] == '\\' && h.rest[1] == 'u' then
      var l := ParseHex4(h.rest[2..]);
      if l.Fail? then Fail
      else if Low(l.v) then ParseChars(l.rest, out + Utf8.Encode(Combine(h.v, l.v)))
      else ParseChars(h.rest, out + Utf8.Encode(h.v))
    else ParseChars(h.rest, out + Utf8.Encode(h.v))
  }

  function ParseString(s: string): (r: Parsed<string>)
    ensures r.Ok? ==> |r.rest| < |s|
  {
    if Starts(s, '"') then ParseChars(s[1..], "") else Fail
  }

  // ---- numbers --------------------------------------------------------------

  function TakeDigits(s: string): Parsed<string> {
    var n := DigitRun(s);
    if n == 0 then Fail else Ok(s[..n], s[n..])
  }

  function ParseWhole(s: string): Parsed<string> {
    if Starts(s, '0') then Ok("0", s[1..]) else TakeDigits(s)
  }

  function ParseFraction(s: string): Parsed<Option<string>> {
    if Starts(s, '.') then
      var d := TakeDigits(s[1..]);
      if d.Fail? then Fail else Ok(Some(d.v), d.rest)
    else Ok(None, s)
  }

  /** An optional '+' or '-'. */
  function SignOf(s: string): string { if Starts(s, '+') || Starts(s, '-') then s[..1] else "" }

  function ParseExponent(s: string): Parsed<Option<Exp>> {
    if Starts(s, 'e') || Starts(s, 'E') then
      var sign := SignOf(s[1..]);
      var d := TakeDigits(s[1 + |sign|..]);
      if d.Fail? then Fail else Ok(Some(Exp(s[0], sign, d.v)), d.rest)
    else Ok(None, s)
  }

  function ParseNum(s: string): Parsed<Num> {
    var negative := Starts(s, '-');
    var whole := ParseWhole(if negative then s[1..] else s);
    if whole.Fail? then Fail else
    var fraction := ParseFraction(whole.rest);
    if fraction.Fail? then Fail else
    var exponent := ParseExponent(fraction.rest);
    if exponent.Fail? then Fail else
    Ok(Num(negative, whole.v, fraction.v, exponent.v), exponent.rest)
  }

  lemma WholeSound(s: string)
    requires ParseWhole(s).Ok?
    ensures var w := ParseWhole(s).v; w != "" && AllDigits(w) && (w[0] == '0' ==> w == "0")
    ensures s == ParseWhole(s).v + ParseWhole(s).rest
  {
    if !Starts(s, '0') {
      assert s[..DigitRun(s)][0] == s[0];
    }
  }

  lemma FractionSound(s: string)
    requires ParseFraction(s).Ok?
    ensures var f := ParseFraction(s).v; f.Some? ==> f.value != "" && AllDigits(f.value)
    ensures s == FractionText(ParseFraction(s).v) + ParseFraction(s).rest
  {
    if Starts(s, '.') {
      assert s == "." + s[1..];
    }
  }

  lemma TakeDigitsSound(s: string)
    requires TakeDigits(s).Ok?
    ensures TakeDigits(s).v != "" && AllDigits(TakeDigits(s).v) && s == TakeDigits(s).v + TakeDigits(s).rest
  {
  }

  lemma SignSound(s: string)
    ensures SignOf(s) == "" || SignOf(s) == "+" || SignOf(s) == "-"
    ensures |SignOf(s)| <= |s| && s == SignOf(s) + s[|SignOf(s)|..]
  {
  }

  lemma ExponentSound(s: string)
    requires ParseExponent(s).Ok?
    ensures var e := ParseExponent(s).v; e.Some? ==> ValidExp(e.value)
    ensures s == ExponentText(ParseExponent(s).v) + ParseExponent(s).rest
  {
    hide TakeDigits, SignOf, AllDigits;
    if Starts(s, 'e') || Starts(s, 'E') {
      var t := s[1..];
      var sign := SignOf(t);
      SignSound(t);
      assert s == [s[0]] + t && s[1 + |sign|..] == t[|sign|..];
      var d := TakeDigits(t[|sign|..]);
      TakeDigitsSound(t[|sign|..]);
      Regroup(sign, d.v, d.rest);
      Regroup([s[0]], sign + d.v, d.rest);
    }
  }

  /** The literal read is the text consumed, and it is well formed. */
  lemma ParseNumSound(s: string)
    requires ParseNum(s).Ok?
    ensures ValidNum(ParseNum(s).v) && s == NumText(ParseNum(s).v) + ParseNum(s).rest
    ensures |ParseNum(s).rest| < |s|
  {
    var sign := if Starts(s, '-') then "-" else "";
    var whole := ParseWhole(s[|sign|..]);
    var fraction := ParseFraction(whole.rest);
    var exponent := ParseExponent(fraction.rest);
    var e, f := ExponentText(exponent.v), FractionText(fraction.v);
    assert s == sign + s[|sign|..];
    WholeSound(s[|sign|..]);
    FractionSound(whole.rest);
    ExponentSound(fraction.rest);
    hide ParseWhole, ParseFraction, ParseExponent, AllDigits;
    Regroup(f, e, exponent.rest);
    Regroup(whole.v, f + e, exponent.rest);
    Regroup(sign, whole.v + (f + e), exponent.rest);
  }

  /**
   A literal without a fraction or exponent that fits 64 bits is an integer;
   anything else is a double, including integers too large for int64.
   */
  function NumValue(n: Num): Value
    requires ValidNum(n)
  {
    if HasPoint(n) then Real(DoubleOf(n))
    else
      var magnitude: int := DecimalValue(n.whole);
      var i := if n.negative then -magnitude else magnitude;
      if FitsInt64(i) then Integer(i) else Real(DoubleOf(n.(fraction := Some("0"))))
  }

  /** strtod: a number beyond the range of doubles becomes infinity. */
  function DoubleOf(n: Num): Double
    requires ValidNum(n) && HasPoint(n)
  {
    if Overflows(n) then NonFinite else Finite(n)
  }

  // ---- values ---------------------------------------------------------------

  function ParseLiteral(s: string, literal: string, v: Value): Parsed<Value> {
    if literal <= s then Ok(v, s[|literal|..]) else Fail
  }

  function ParseNumber(s: string): (r: Parsed<Value>)
    ensures r.Ok? ==> |r.rest| < |s|
  {
    var n := ParseNum(s);
    if n.Fail? then Fail
    else
      ParseNumSound(s);
      Ok(NumValue(n.v), n.rest)
  }

  function ParseValue(s: string, depth: nat, maxDepth: nat): (r: Parsed<Value>)
    ensures r.Ok? ==> |r.rest| < |s|
    decreases |s|, 0
  {
    if depth > maxDepth || s == [] then Fail
    else if s[0] == 'n' then ParseLiteral(s, "null", Null)
    else if s[0] == 't' then ParseLiteral(s, "true", Bool(true))
    else if s[0] == 'f' then ParseLiteral(s, "false", Bool(false))
    else if s[0] == '"' then
      var t := ParseString(s);
      if t.Fail? then Fail else Ok(Str(t.v), t.rest)
    else if s[0] == '[' then
      var t := SkipWs(s[1..]);
      if Starts(t, ']') then Ok(Arr([]), t[1..]) else ParseElements(t, [], depth, maxDepth)
    else if s[0] == '{' then
      var t := SkipWs(s[1..]);
      if Starts(t, '}') then Ok(Obj([]), t[1..]) else ParseMembers(t, [], depth, maxDepth)
    else ParseNumber(s)
  }

  /** The loop of parseArray, with `items` already read. */
  function ParseElements(s: string, items: seq<Value>, depth: nat, maxDepth: nat): (r: Parsed<Value>)
    ensures r.Ok? ==> |r.rest| < |s|
    decreases |s|, 1
  {
    var v := ParseValue(SkipWs(s), depth + 1, maxDepth);
    if v.Fail? then Fail
    else
      var t := SkipWs(v.rest);
      if Starts(t, ',') then ParseElements(t[1..], items + [v.v], depth, maxDepth)
      else if Starts(t, ']') then Ok(Arr(items + [v.v]), t[1..])
      else Fail
  }

  /** Up to and including the colon of a member. */
  function ParseKey(s: string): (r: Parsed<string>)
    ensures r.Ok? ==> |r.rest| < |s|
  {
    var k := ParseString(SkipWs(s));
    if k.Fail? then Fail
    else
      var t := SkipWs(k.rest);
      if Starts(t, ':') then Ok(k.v, t[1..]) else Fail
  }

  /** The loop of parseObject, with `members` already read. */
  function ParseMembers(s: string, members: seq<Member>, depth: nat, maxDepth: nat): (r: Parsed<Value>)
    ensures r.Ok? ==> |r.rest| < |s|
    decreases |s|, 1
  {
    var k := ParseKey(s);
    if k.Fail? then Fail
    else
      var v := ParseValue(SkipWs(k.rest), depth + 1, maxDepth);
      if v.Fail? then Fail
      else
        var t := SkipWs(v.rest);
        var read := SetMember(members, k.v, v.v);
        if Starts(t, ',') then ParseMembers(t[1..], read, depth, maxDepth)
        else if Starts(t, '}') then Ok(Obj(read), t[1..])
        else Fail
  }

  /** parseDocument: one value, surrounded by white space only. */
  function ParseDocument(text: string, maxDepth: nat): Option<Value> {
    var v := ParseValue(SkipWs(text), 0, maxDepth);
    if v.Ok? && SkipWs(v.rest) == [] then Some(v.v) else None
  }

  datatype Limits = Limits(maxDepth: nat, maxLength: nat)

  /** json::tryParse, without the error text. */
  function Parse(text: string, limits: Limits): Option<Value> {
    if |text| > limits.maxLength then None else ParseDocument(text, limits.maxDepth)
  }

  // ---- what every parse result looks like ------------------------------------

  /** Objects come out with distinct keys, nesting within the limit. */
  lemma {:induction false} ParsedIsTidy(s: string, depth: nat, maxDepth: nat)
    requires ParseValue(s, depth, maxDepth).Ok?
    ensures KeysDiffer(ParseValue(s, depth, maxDepth).v)
    ensures depth <= maxDepth && FitsDepth(ParseValue(s, depth, maxDepth).v, maxDepth - depth)
    decreases |s|, 0
  {
    if s[0] == '[' && !Starts(SkipWs(s[1..]), ']') {
      ElementsTidy(SkipWs(s[1..]), [], depth, maxDepth);
    } else if s[0] == '{' && !Starts(SkipWs(s[1..]), '}') {
      MembersTidy(SkipWs(s[1..]), [], depth, maxDepth);
    }
  }

  lemma {:induction false} ElementsTidy(s: string, items: seq<Value>, depth: nat, maxDepth: nat)
    requires depth <= maxDepth && ParseElements(s, items, depth, maxDepth).Ok?
    requires forall i :: 0 <= i < |items| ==> KeysDiffer(items[i]) && FitsDepth(items[i], maxDepth - depth - 1)
    ensures var v := ParseElements(s, items, depth, maxDepth).v; KeysDiffer(v) && FitsDepth(v, maxDepth - depth)
    decreases |s|, 1
  {
    hide ParseValue, SkipWs;
    var v := ParseValue(SkipWs(s), depth + 1, maxDepth);
    ParsedIsTidy(SkipWs(s), depth + 1, maxDepth);
    if Starts(SkipWs(v.rest), ',') {
      ElementsTidy(SkipWs(v.rest)[1..], items + [v.v], depth, maxDepth);
    }
  }

  predicate GoodMembers(members: seq<Member>, room: int) {
    && UniqueKeys(members)
    && forall i :: 0 <= i < |members| ==> KeysDiffer(members[i].value) && FitsDepth(members[i].value, room)
  }

  lemma SetKeepsGood(members: seq<Member>, key: string, v: Value, room: nat)
    requires GoodMembers(members, room) && KeysDiffer(v) && FitsDepth(v, room)
    ensures GoodMembers(SetMember(members, key, v), room)
    ensures KeysDiffer(Obj(SetMember(members, key, v))) && FitsDepth(Obj(SetMember(members, key, v)), room + 1)
  {
  }

  lemma {:induction false} MembersTidy(s: string, members: seq<Member>, depth: nat, maxDepth: nat)
    requires depth <= maxDepth && ParseMembers(s, members, depth, maxDepth).Ok?
    requires GoodMembers(members, maxDepth - depth - 1)
    ensures var v := ParseMembers(s, members, depth, maxDepth).v; KeysDiffer(v) && FitsDepth(v, maxDepth - depth)
    decreases |s|, 1
  {
    hide ParseValue, ParseKey, SkipWs, SetMember;
    var k := ParseKey(s);
    var v := ParseValue(SkipWs(k.rest), depth + 1, maxDepth);
    ParsedIsTidy(SkipWs(k.rest), depth + 1, maxDepth);
    SetKeepsGood(members, k.v, v.v, maxDepth - depth - 1);
    if Starts(SkipWs(v.rest), ',') {
      MembersTidy(SkipWs(v.rest)[1..], SetMember(members, k.v, v.v), depth, maxDepth);
    }
  }
}
