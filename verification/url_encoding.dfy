/**
 Percent encoding and query strings (urlEncode, urlDecode and parseQuery in
 src/net/Url.cpp, split in src/core/StringUtils.cpp).
 */
module UrlEncoding {
  import opened Text

  /** What a std::string holds. */
  predicate Bytes(s: string) { forall i :: 0 <= i < |s| ==> s[i] as int < 256 }

  function UpperHexChar(n: nat): (c: char)
    requires n < 16
    ensures IsHex(c) && HexDigit(c) == n && c != '%' && c != '+'
  {
    if n < 10 then (n + '0' as int) as char else (n - 10 + 'A' as int) as char
  }

  predicate Unreserved(c: char) { IsAlnum(c) || c == '-' || c == '_' || c == '.' || c == '~' }

  function EncodeChar(c: char): string {
    if Unreserved(c) then [c]
    else ['%', UpperHexChar(c as int / 16 % 16), UpperHexChar(c as int % 16)]
  }

  function Encode(text: string): string {
    if text == "" then "" else EncodeChar(text[0]) + Encode(text[1..])
  }

  /** A percent sign and two digits stand at the front. */
  predicate EscapeAhead(s: string) { |s| > 2 && s[0] == '%' && IsHex(s[1]) && IsHex(s[2]) }

  function Decode(text: string): string
    decreases |text|
  {
    if text == "" then ""
    else if text[0] == '+' then [' '] + Decode(text[1..])
    else if EscapeAhead(text) then [(16 * HexDigit(text[1]) + HexDigit(text[2])) as char] + Decode(text[3..])
    else [text[0]] + Decode(text[1..])
  }

  method UrlEncode(text: string) returns (out: string)
    ensures out == Encode(text)
  {
    out := "";
    assert text[0..] == text;
    for i := 0 to |text|
      invariant out + Encode(text[i..]) == Encode(text)
    {
      assert text[i..][1..] == text[i + 1..];
      Regroup(out, EncodeChar(text[i]), Encode(text[i + 1..]));
      out := out + EncodeChar(text[i]);
    }
  }

  method UrlDecode(text: string) returns (out: string)
    ensures out == Decode(text)
  {
    out := "";
    var i := 0;
    assert text[0..] == text;
    while i < |text|
      invariant 0 <= i <= |text|
      invariant out + Decode(text[i..]) == Decode(text)
    {
      ghost var s, was := text[i..], out;
      assert s[1..] == text[i + 1..];
      if text[i] == '+' {
        out := out + [' '];
        i := i + 1;
        Regroup(was, [' '], Decode(text[i..]));
      } else if text[i] == '%' && i + 2 < |text| && IsHex(text[i + 1]) && IsHex(text[i + 2]) {
        assert s[3..] == text[i + 3..] && EscapeAhead(s);
        var c := (16 * HexDigit(text[i + 1]) + HexDigit(text[i + 2])) as char;
        out := out + [c];
        i := i + 3;
        Regroup(was, [c], Decode(text[i..]));
      } else {
        assert !EscapeAhead(s);
        out := out + [text[i]];
        i := i + 1;
        Regroup(was, [text[i - 1]], Decode(text[i..]));
      }
    }
  }

  // ---- decoding undoes encoding ---------------------------------------------------------

  lemma DecodeChar(c: char, rest: string)
    requires c as int < 256
    ensures Decode(EncodeChar(c) + rest) == [c] + Decode(rest)
  {
    var code := EncodeChar(c);
    assert (code + rest)[|code|..] == rest;
    if !Unreserved(c) {
      assert 16 * (c as int / 16 % 16) + c as int % 16 == c as int;
    }
    hide UpperHexChar;
  }

  /** Every byte string comes back from its encoding. */
  lemma {:induction false} DecodeEncode(text: string)
    requires Bytes(text)
    ensures Decode(Encode(text)) == text
  {
    if text != "" {
      DecodeEncode(text[1..]);
      DecodeChar(text[0], Encode(text[1..]));
      assert text == [text[0]] + text[1..];
    }
  }

  /** So different byte strings have different encodings. */
  lemma EncodeInjective(a: string, b: string)
    requires Bytes(a) && Bytes(b) && Encode(a) == Encode(b)
    ensures a == b
  {
    DecodeEncode(a);
    DecodeEncode(b);
    hide Encode, Decode;
  }

  /** Nothing in an encoding has a meaning of its own in a URL or a query. */
  lemma {:induction false} EncodedIsPlain(text: string)
    ensures forall i :: 0 <= i < |Encode(text)| ==>
      Unreserved(Encode(text)[i]) || Encode(text)[i] == '%'
    ensures '&' !in Encode(text) && '=' !in Encode(text) && '+' !in Encode(text) && ' ' !in Encode(text)
  {
    if text != "" {
      EncodedIsPlain(text[1..]);
      CharIsPlain(text[0]);
    }
    hide Encode, EncodeChar;
  }

  lemma CharIsPlain(c: char)
    ensures forall i :: 0 <= i < |EncodeChar(c)| ==> Unreserved(EncodeChar(c)[i]) || EncodeChar(c)[i] == '%'
  {
  }

  // ---- queries --------------------------------------------------------------------------

  /** split with skipEmpty: the pieces between the delimiters that hold something. */
  function Pieces(text: string, delimiter: char): seq<string>
    decreases |text|
  {
    var i := IndexOf(text, delimiter);
    var first := if i == 0 then [] else [text[..i]];
    if i < |text| then first + Pieces(text[i + 1..], delimiter) else first
  }

  method SplitNonEmpty(text: string, delimiter: char) returns (parts: seq<string>)
    ensures parts == Pieces(text, delimiter)
  {
    hide IndexOf;
    parts := [];
    var start := 0;
    assert text[0..] == text;
    while true
      invariant 0 <= start <= |text|
      invariant parts + Pieces(text[start..], delimiter) == Pieces(text, delimiter)
      decreases |text| - start
    {
      var rest := text[start..];
      var pos := IndexOf(rest, delimiter);
      var piece := rest[..pos];
      ghost var was, first := parts, if pos == 0 then [] else [piece];
      if piece != "" {
        parts := parts + [piece];
      }
      assert parts == was + first;
      if pos == |rest| {
        return;
      }
      assert rest[pos + 1..] == text[start + pos + 1..];
      Regrouped(was, first, Pieces(rest[pos + 1..], delimiter));
      start := start + pos + 1;
    }
  }

  lemma Regrouped(a: seq<string>, b: seq<string>, c: seq<string>)
    ensures (a + b) + c == a + (b + c)
  {
  }

  /** A name without an equals sign has the empty value. */
  function PairOf(part: string): (string, string) {
    var eq := IndexOf(part, '=');
    if eq == |part| then (Decode(part), "") else (Decode(part[..eq]), Decode(part[eq + 1..]))
  }

  function PairsOf(parts: seq<string>): seq<(string, string)> {
    if parts == [] then [] else [PairOf(parts[0])] + PairsOf(parts[1..])
  }

  function ParseQuery(query: string): seq<(string, string)> { PairsOf(Pieces(query, '&')) }

  method ReadQuery(query: string) returns (pairs: seq<(string, string)>)
    ensures pairs == ParseQuery(query)
  {
    hide Pieces, Decode, IndexOf;
    var parts := SplitNonEmpty(query, '&');
    pairs := [];
    assert parts[0..] == parts;
    for i := 0 to |parts|
      invariant pairs + PairsOf(parts[i..]) == PairsOf(parts)
    {
      assert parts[i..][1..] == parts[i + 1..];
      var eq := IndexOf(parts[i], '=');
      if eq == |parts[i]| {
        var key := UrlDecode(parts[i]);
        pairs := pairs + [(key, "")];
      } else {
        var key := UrlDecode(parts[i][..eq]);
        var value := UrlDecode(parts[i][eq + 1..]);
        pairs := pairs + [(key, value)];
      }
    }
  }

  function PairText(pair: (string, string)): string { Encode(pair.0) + "=" + Encode(pair.1) }

  /** The query that spells these pairs. */
  function QueryText(pairs: seq<(string, string)>): string {
    if pairs == [] then ""
    else if |pairs| == 1 then PairText(pairs[0])
    else PairText(pairs[0]) + "&" + QueryText(pairs[1..])
  }

  lemma FirstOccurrence(front: string, c: char, rest: string)
    requires c !in front
    ensures IndexOf(front, c) == |front|
    ensures IndexOf(front + [c] + rest, c) == |front|
  {
    var s := front + [c] + rest;
    assert s[|front|] == c;
    assert forall i :: 0 <= i < |front| ==> s[i] == front[i];
  }

  lemma PairReadsBack(pair: (string, string))
    requires Bytes(pair.0) && Bytes(pair.1)
    ensures PairOf(PairText(pair)) == pair && PairText(pair) != "" && '&' !in PairText(pair)
  {
    var key, value := Encode(pair.0), Encode(pair.1);
    EncodedIsPlain(pair.0);
    EncodedIsPlain(pair.1);
    DecodeEncode(pair.0);
    DecodeEncode(pair.1);
    hide Encode, Decode, IndexOf;
    FirstOccurrence(key, '=', value);
    assert key + "=" + value == key + ['='] + value;
    assert PairText(pair)[|key| + 1..] == value && PairText(pair)[..|key|] == key;
  }

  lemma FirstPiece(piece: string, rest: string)
    requires piece != "" && '&' !in piece
    ensures Pieces(piece, '&') == [piece]
    ensures Pieces(piece + "&" + rest, '&') == [piece] + Pieces(rest, '&')
  {
    FirstOccurrence(piece, '&', rest);
    hide IndexOf;
    var s := piece + "&" + rest;
    assert s == piece + ['&'] + rest;
    assert piece[..|piece|] == piece && s[..|piece|] == piece && s[|piece| + 1..] == rest;
  }

  /** Whatever names and values, in whatever order and however often: the query that spells them reads back as them. */
  lemma {:induction false} QueryRoundTrip(pairs: seq<(string, string)>)
    requires forall i :: 0 <= i < |pairs| ==> Bytes(pairs[i].0) && Bytes(pairs[i].1)
    ensures ParseQuery(QueryText(pairs)) == pairs
  {
    hide PairText, PairOf, Bytes;
    if pairs == [] {
      assert Pieces("", '&') == [];
    } else {
      hide Pieces;
      PairReadsBack(pairs[0]);
      var piece := PairText(pairs[0]);
      if |pairs| == 1 {
        FirstPiece(piece, "");
        assert [piece][0] == piece && [piece][1..] == [];
        assert PairsOf([piece]) == [pairs[0]];
        assert pairs == [pairs[0]];
      } else {
        var rest := QueryText(pairs[1..]);
        FirstPiece(piece, rest);
        QueryRoundTrip(pairs[1..]);
        assert ([piece] + Pieces(rest, '&'))[1..] == Pieces(rest, '&');
        assert pairs == [pairs[0]] + pairs[1..];
      }
    }
  }

  // ---- what decoding does to other texts ------------------------------------------------------

  lemma DecodeShortens(text: string)
    ensures |Decode(text)| <= |text|
    decreases |text|
  {
    if text != "" {
      DecodeShortens(text[1..]);
      if EscapeAhead(text) {
        DecodeShortens(text[3..]);
      }
    }
  }

  /** Nothing to decode: no plus, and no percent sign with two digits behind it. */
  predicate Literal(text: string) {
    '+' !in text && forall i :: 0 <= i < |text| ==> !EscapeAhead(text[i..])
  }

  lemma LiteralTail(text: string)
    requires text != ""
    ensures Literal(text) <==> text[0] != '+' && !EscapeAhead(text) && Literal(text[1..])
  {
    assert text[0..] == text;
    assert forall i :: 0 < i < |text| ==> text[i..] == text[1..][i - 1..];
    assert forall i :: 0 <= i < |text| - 1 ==> text[1..][i..] == text[i + 1..];
    assert '+' in text[1..] ==> '+' in text;
    hide EscapeAhead;
    if '+' in text && text[0] != '+' {
      var k :| 0 <= k < |text| && text[k] == '+';
      assert text[1..][k - 1] == '+';
    }
  }

  /** Decoding leaves a text alone exactly if it holds no plus and no complete escape; a percent sign alone stays. */
  lemma {:induction false} DecodeFixedExactly(text: string)
    ensures Decode(text) == text <==> Literal(text)
    decreases |text|
  {
    if text != "" {
      LiteralTail(text);
      hide Literal;
      DecodeFixedExactly(text[1..]);
      assert text == [text[0]] + text[1..];
      if text[0] == '+' {
        assert Decode(text)[0] == ' ';
      } else if EscapeAhead(text) {
        DecodeShortens(text[3..]);
      } else {
        assert Decode(text)[1..] == Decode(text[1..]);
      }
    } else {
      assert Literal("");
    }
  }

  /** The encoding of HTML forms: a blank is a plus, and digits are in lower case. */
  function FormEncode(text: string): string {
    if text == "" then ""
    else (if text[0] == ' ' then "+"
          else if Unreserved(text[0]) then [text[0]]
          else ['%', HexChar(text[0] as int / 16 % 16), HexChar(text[0] as int % 16)]) + FormEncode(text[1..])
  }

  /** It is decoded as well. */
  lemma {:induction false} DecodeForm(text: string)
    requires Bytes(text)
    ensures Decode(FormEncode(text)) == text
  {
    if text != "" {
      var c, rest := text[0], FormEncode(text[1..]);
      hide Decode;
      DecodeForm(text[1..]);
      assert text == [c] + text[1..];
      FormChar(c, rest);
    }
  }

  lemma FormChar(c: char, rest: string)
    requires c as int < 256
    ensures c == ' ' ==> Decode("+" + rest) == [c] + Decode(rest)
    ensures c != ' ' && Unreserved(c) ==> Decode([c] + rest) == [c] + Decode(rest)
    ensures c != ' ' && !Unreserved(c) ==>
      Decode(['%', HexChar(c as int / 16 % 16), HexChar(c as int % 16)] + rest) == [c] + Decode(rest)
  {
    var high, low := HexChar(c as int / 16 % 16), HexChar(c as int % 16);
    assert ("+" + rest)[1..] == rest && ([c] + rest)[1..] == rest && (['%', high, low] + rest)[3..] == rest;
    assert 16 * (c as int / 16 % 16) + c as int % 16 == c as int;
    hide HexChar;
  }
}
