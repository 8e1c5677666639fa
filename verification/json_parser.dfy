/**
 The cursor-based parser of src/core/Json.cpp: a position that moves over the
 text, buffers that grow, and a failure that abandons the parse.  Each method
 is proved against the function of `JsonParse` of the same name.
 */
module JsonParser {
  import opened Text
  import opened JsonValue
  import JP = JsonParse
  import Utf8

  /** `r` is what the specification read, and the cursor stands where it left off. */
  predicate Agrees<T(==)>(spec: JP.Parsed<T>, r: Option<T>, rest: string) {
    if spec.Ok? then r == Some(spec.v) && rest == spec.rest else r == None
  }

  class Parser {
    const text: string
    const maxDepth: nat
    var pos: nat

    ghost predicate Valid()
      reads this
    {
      pos <= |text|
    }

    /** The text still to be read. */
    ghost function Rest(): string
      requires Valid()
      reads this
    {
      text[pos..]
    }

    constructor (text: string, maxDepth: nat)
      ensures Valid() && this.text == text && this.maxDepth == maxDepth && Rest() == text
    {
      this.text := text;
      this.maxDepth := maxDepth;
      this.pos := 0;
    }

    /** peek() == c */
    predicate At(c: char)
      requires Valid()
      reads this
      ensures At(c) == JP.Starts(Rest(), c)
    {
      pos < |text| && text[pos] == c
    }

    method SkipWhitespace()
      requires Valid()
      modifies this`pos
      ensures Valid() && Rest() == JP.SkipWs(old(Rest()))
    {
      while pos < |text| && JP.IsWs(text[pos])
        invariant Valid() && JP.SkipWs(Rest()) == JP.SkipWs(old(Rest()))
      {
        assert Rest()[1..] == text[pos + 1..];
        pos := pos + 1;
      }
    }

    method ConsumeLiteral(literal: string, v: Value) returns (r: Option<Value>)
      requires Valid()
      modifies this`pos
      ensures Valid() && Agrees(JP.ParseLiteral(old(Rest()), literal, v), r, Rest())
    {
      if |text| - pos < |literal| || text[pos..pos + |literal|] != literal {
        return None;
      }
      assert Rest()[..|literal|] == literal && Rest()[|literal|..] == text[pos + |literal|..];
      pos := pos + |literal|;
      return Some(v);
    }

    method ParseHex4() returns (r: Option<nat>)
      requires Valid()
      modifies this`pos
      ensures Valid() && Agrees(JP.ParseHex4(old(Rest())), r, Rest())
    {
      if pos + 4 > |text| {
        return None;
      }
      ghost var s, start := Rest(), pos;
      var value := 0;
      for i := 0 to 4
        invariant pos == start + i && Rest() == s[i..]
        invariant AllHex(s[..i]) && value == HexValue(s[..i])
      {
        var c := text[pos];
        assert c == s[i] && s[..i + 1] == s[..i] + [c];
        pos := pos + 1;
        if !IsHex(c) {
          assert s[..4][i] == c;
          return None;
        }
        assert s[..i + 1][..i] == s[..i];
        value := value * 16 + HexDigit(c);
      }
      return Some(value);
    }

    /**
     One \u escape, the "\u" already read.  A high surrogate looks ahead for its
     other half and moves the cursor back when that is not what follows.
     */
    method ParseUnicodeEscape(out: string) returns (r: Option<string>)
      requires Valid()
      modifies this`pos
      ensures Valid() && (r.Some? ==> old(pos) <= pos)
      ensures r.Some? ==> JP.ParseUnicode(old(Rest()), out) == JP.ParseChars(Rest(), r.value)
      ensures r.None? ==> JP.ParseUnicode(old(Rest()), out).Fail?
    {
      var first := ParseHex4();
      if first.None? {
        return None;
      }
      var cp := first.value;
      if JP.High(cp) && pos + 1 < |text| && text[pos] == '\\' && text[pos + 1] == 'u' {
        var saved := pos;
        pos := pos + 2;
        assert Rest() == text[saved..][2..];
        var low := ParseHex4();
        if low.None? {
          return None;
        }
        if JP.Low(low.value) {
          cp := JP.Combine(cp, low.value);
        } else {
          pos := saved;
        }
      }
      return Some(out + Utf8.Encode(cp));
    }

    /** What follows a backslash inside a string, the backslash included. */
    method ParseEscape(out: string) returns (r: Option<string>)
      requires Valid() && pos < |text| && text[pos] == '\\'
      modifies this`pos
      ensures Valid() && (r.Some? ==> old(pos) < pos)
      ensures r.Some? ==> JP.ParseChars(old(Rest()), out) == JP.ParseChars(Rest(), r.value)
      ensures r.None? ==> JP.ParseChars(old(Rest()), out).Fail?
    {
      ghost var s := Rest();
      pos := pos + 1;
      if pos >= |text| {
        return None;
      }
      var esc := text[pos];
      pos := pos + 1;
      assert s[2..] == Rest() && s[1] == esc;
      if esc == 'u' {
        r := ParseUnicodeEscape(out);
      } else {
        var e := JP.Unescape(esc);
        r := if e.None? then None else Some(out + [e.value]);
      }
    }

    method ParseString() returns (r: Option<string>)
      requires Valid()
      modifies this`pos
      ensures Valid() && Agrees(JP.ParseString(old(Rest())), r, Rest())
    {
      if !At('"') {
        return None;
      }
      assert Rest()[1..] == text[pos + 1..];
      pos := pos + 1;
      ghost var spec := JP.ParseChars(Rest(), "");
      var out := "";
      while true
        invariant Valid() && JP.ParseChars(Rest(), out) == spec
        decreases |text| - pos
      {
        if pos >= |text| {
          return None;
        }
        var c := text[pos];
        ghost var s := Rest();
        assert s[1..] == text[pos + 1..];
        if c == '"' {
          pos := pos + 1;
          return Some(out);
        }
        if c == '\\' {
          var more := ParseEscape(out);
          if more.None? {
            return None;
          }
          out := more.value;
          continue;
        }
        if c < ' ' {
          return None;
        }
        out := out + [c];
        pos := pos + 1;
      }
    }

    method SkipDigits()
      requires Valid()
      modifies this`pos
      ensures Valid() && pos == old(pos) + DigitRun(old(Rest()))
    {
      ghost var start := pos;
      while pos < |text| && IsDigit(text[pos])
        invariant start <= pos && Valid()
        invariant pos + DigitRun(Rest()) == start + DigitRun(text[start..])
      {
        assert Rest()[1..] == text[pos + 1..];
        pos := pos + 1;
      }
    }

    /** The digits of a fraction or an exponent: at least one. */
    method TakeDigits() returns (r: Option<string>)
      requires Valid()
      modifies this`pos
      ensures Valid() && Agrees(JP.TakeDigits(old(Rest())), r, Rest())
    {
      if pos >= |text| || !IsDigit(text[pos]) {
        return None;
      }
      var start := pos;
      SkipDigits();
      assert text[start..][..pos - start] == text[start..pos] && text[start..][pos - start..] == text[pos..];
      return Some(text[start..pos]);
    }

    /** Step over one character. */
    method Advance()
      requires Valid() && pos < |text|
      modifies this`pos
      ensures Valid() && pos == old(pos) + 1 && Rest() == old(Rest())[1..]
    {
      pos := pos + 1;
    }

    method ParseWhole() returns (r: Option<string>)
      requires Valid()
      modifies this`pos
      ensures Valid() && Agrees(JP.ParseWhole(old(Rest())), r, Rest())
    {
      if pos >= |text| {
        return None;
      }
      if At('0') {
        Advance();
        return Some("0");
      }
      r := TakeDigits();
    }

    /** An optional fraction; `None` is failure. */
    method ParseFraction() returns (r: Option<Option<string>>)
      requires Valid()
      modifies this`pos
      ensures Valid() && Agrees(JP.ParseFraction(old(Rest())), r, Rest())
    {
      if !At('.') {
        return Some(None);
      }
      Advance();
      var digits := TakeDigits();
      return if digits.None? then None else Some(digits);
    }

    /** An optional exponent; `None` is failure. */
    method ParseExponent() returns (r: Option<Option<Exp>>)
      requires Valid()
      modifies this`pos
      ensures Valid() && Agrees(JP.ParseExponent(old(Rest())), r, Rest())
    {
      hide JP.TakeDigits;
      if !(At('e') || At('E')) {
        return Some(None);
      }
      ghost var s := Rest();
      var mark := text[pos];
      Advance();
      var sign := "";
      if At('+') || At('-') {
        sign := [text[pos]];
        assert Rest()[..1] == sign;
        Advance();
      }
      assert sign == JP.SignOf(s[1..]) && Rest() == s[1 + |sign|..];
      var digits := TakeDigits();
      return if digits.None? then None else Some(Some(Exp(mark, sign, digits.value)));
    }

    /** parseNumber up to the point where the literal has been delimited. */
    method ParseNum() returns (r: Option<Num>)
      requires Valid()
      modifies this`pos
      ensures Valid() && Agrees(JP.ParseNum(old(Rest())), r, Rest())
    {
      hide JP.ParseWhole, JP.ParseFraction, JP.ParseExponent;
      var negative := At('-');
      if negative {
        Advance();
      }
      var whole := ParseWhole();
      if whole.None? {
        return None;
      }
      var fraction := ParseFraction();
      if fraction.None? {
        return None;
      }
      var exponent := ParseExponent();
      if exponent.None? {
        return None;
      }
      return Some(Num(negative, whole.value, fraction.value, exponent.value));
    }

    method ParseNumber() returns (r: Option<Value>)
      requires Valid()
      modifies this`pos
      ensures Valid() && Agrees(JP.ParseNumber(old(Rest())), r, Rest())
    {
      ghost var s := Rest();
      var num := ParseNum();
      if num.None? {
        return None;
      }
      JP.ParseNumSound(s);
      return Some(JP.NumValue(num.value));
    }

    method ParseValue(depth: nat) returns (r: Option<Value>)
      requires Valid()
      modifies this`pos
      ensures Valid() && Agrees(JP.ParseValue(old(Rest()), depth, maxDepth), r, Rest())
      decreases |text| - pos, 1
    {
      hide JP.ParseElements, JP.ParseMembers, JP.ParseNumber, JP.ParseString, JP.SkipWs;
      if depth > maxDepth {
        return None;
      }
      if pos >= |text| {
        return None;
      }
      match text[pos] {
        case 'n' => r := ConsumeLiteral("null", Null);
        case 't' => r := ConsumeLiteral("true", Bool(true));
        case 'f' => r := ConsumeLiteral("false", Bool(false));
        case '"' =>
          var s := ParseString();
          r := if s.None? then None else Some(Str(s.value));
        case '[' => r := ParseArray(depth);
        case '{' => r := ParseObject(depth);
        case _ => r := ParseNumber();
      }
    }

    method ParseArray(depth: nat) returns (r: Option<Value>)
      requires Valid() && JP.Starts(Rest(), '[') && depth <= maxDepth
      modifies this`pos
      ensures Valid() && Agrees(JP.ParseValue(old(Rest()), depth, maxDepth), r, Rest())
      decreases |text| - pos, 0
    {
      hide JP.SkipWs, JP.ParseNumber, JP.ParseMembers, JP.ParseString, JP.ParseLiteral;
      Advance();
      SkipWhitespace();
      if At(']') {
        Advance();
        return Some(Arr([]));
      }
      ghost var spec := JP.ParseElements(Rest(), [], depth, maxDepth);
      hide JP.ParseValue;
      var items: seq<Value> := [];
      while true
        invariant Valid() && old(pos) < pos && JP.ParseElements(Rest(), items, depth, maxDepth) == spec
        decreases |text| - pos
      {
        SkipWhitespace();
        var item := ParseValue(depth + 1);
        if item.None? {
          return None;
        }
        SkipWhitespace();
        items := items + [item.value];
        if At(',') {
          Advance();
          continue;
        }
        if At(']') {
          Advance();
          return Some(Arr(items));
        }
        return None;
      }
    }

    /** The key of a member, up to and including the colon. */
    method ParseKey() returns (r: Option<string>)
      requires Valid()
      modifies this`pos
      ensures Valid() && Agrees(JP.ParseKey(old(Rest())), r, Rest())
    {
      SkipWhitespace();
      if !At('"') {
        return None;
      }
      var key := ParseString();
      if key.None? {
        return None;
      }
      SkipWhitespace();
      if !At(':') {
        return None;
      }
      Advance();
      return key;
    }

    method ParseObject(depth: nat) returns (r: Option<Value>)
      requires Valid() && JP.Starts(Rest(), '{') && depth <= maxDepth
      modifies this`pos
      ensures Valid() && Agrees(JP.ParseValue(old(Rest()), depth, maxDepth), r, Rest())
      decreases |text| - pos, 0
    {
      hide JP.SkipWs, JP.ParseNumber, JP.ParseElements, JP.ParseString, JP.ParseLiteral, JP.ParseKey, SetMember;
      Advance();
      SkipWhitespace();
      if At('}') {
        Advance();
        return Some(Obj([]));
      }
      ghost var spec := JP.ParseMembers(Rest(), [], depth, maxDepth);
      hide JP.ParseValue;
      var members: seq<Member> := [];
      while true
        invariant Valid() && old(pos) < pos && JP.ParseMembers(Rest(), members, depth, maxDepth) == spec
        decreases |text| - pos
      {
        var key := ParseKey();
        if key.None? {
          return None;
        }
        SkipWhitespace();
        var value := ParseValue(depth + 1);
        if value.None? {
          return None;
        }
        members := Set(members, key.value, value.value);
        SkipWhitespace();
        if At(',') {
          Advance();
          continue;
        }
        if At('}') {
          Advance();
          return Some(Obj(members));
        }
        return None;
      }
    }

    method ParseDocument() returns (r: Option<Value>)
      requires Valid() && pos == 0
      modifies this`pos
      ensures Valid() && r == JP.ParseDocument(text, maxDepth)
    {
      assert Rest() == text;
      SkipWhitespace();
      var v := ParseValue(0);
      if v.None? {
        return None;
      }
      SkipWhitespace();
      if pos != |text| {
        return None;
      }
      return v;
    }
  }

  /** json::tryParse. */
  method TryParse(text: string, limits: JP.Limits) returns (r: Option<Value>)
    ensures r == JP.Parse(text, limits)
  {
    if |text| > limits.maxLength {
      return None;
    }
    var parser := new Parser(text, limits.maxDepth);
    r := parser.ParseDocument();
  }
}
