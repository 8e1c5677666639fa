/**
 What the escapes of a JSON string stand for (parseString in src/core/Json.cpp),
 told by the bytes of the parsed string alone: section 7 of RFC 8259.
 */
module JsonEscapes {
  import opened Text
  import opened JsonValue
  import opened JsonParse
  import opened Utf8
  import G = JsonGrammar

  /** The bytes of exactly one character, the one with this code point. */
  predicate Carries(s: string, cp: int) { 1 <= |s| <= 4 && WellFormed(s) && Utf8.Decode(s) == cp }

  lemma QuotedParses(tokens: seq<G.Token>, maxDepth: nat)
    requires G.ValidTokens(tokens)
    ensures ParseDocument(G.SpellString(tokens, ""), maxDepth) == Some(Str(G.StringMeaning(tokens)))
  {
    var d := G.Document("", G.Quoted(tokens), "");
    assert "" + G.SpellString(tokens, "") == G.SpellString(tokens, "");
    hide G.SpellString, G.StringMeaning, G.ValidTokens;
    assert G.Derives(d, G.SpellString(tokens, ""), maxDepth);
    hide ParseDocument;
    G.DocumentParses(d, G.SpellString(tokens, ""), maxDepth);
  }

  // ---- \u escapes ---------------------------------------------------------------------

  lemma SpellOne(t: G.Token)
    ensures G.SpellString([t], "") == ['"'] + G.SpellToken(t, ['"'])
  {
    var k := ['"'] + "";
    assert [t][1..] == [] && k == ['"'];
    assert G.SpellTokens([t], k) == G.SpellToken(t, G.SpellTokens([], k));
    hide G.SpellToken;
  }

  lemma SpellTwo(t: G.Token, u: G.Token)
    ensures G.SpellString([t, u], "") == ['"'] + G.SpellToken(t, G.SpellToken(u, ['"']))
  {
    var k := ['"'] + "";
    assert [t, u][1..] == [u] && [u][1..] == [] && k == ['"'];
    assert G.SpellTokens([t, u], k) == G.SpellToken(t, G.SpellTokens([u], k));
    assert G.SpellTokens([u], k) == G.SpellToken(u, G.SpellTokens([], k));
    hide G.SpellToken;
  }

  lemma OneUnit(hex: string)
    requires IsHex4(hex)
    ensures G.ValidTokens([G.Uni(hex)]) && HexValue(hex) <= 0xFFFF
    ensures G.StringMeaning([G.Uni(hex)]) == Encode(HexValue(hex))
    ensures G.SpellString([G.Uni(hex)], "") == "\"\\u" + hex + "\""
  {
    Hex4Bound(hex);
    hide HexValue;
    var tokens := [G.Uni(hex)];
    assert tokens[1..] == [];
    assert Encode(HexValue(hex)) + [] == Encode(HexValue(hex));
    SpellOne(tokens[0]);
    assert "\"\\u" + hex + "\"" == ['"'] + (['\\', 'u'] + (hex + ['"']));
  }

  lemma TwoUnits(first: string, second: string)
    requires IsHex4(first) && IsHex4(second)
    ensures G.ValidTokens([G.Uni(first), G.Uni(second)]) && HexValue(first) <= 0xFFFF && HexValue(second) <= 0xFFFF
    ensures var a, b := HexValue(first), HexValue(second);
      G.StringMeaning([G.Uni(first), G.Uni(second)])
      == if High(a) && Low(b) then Encode(Combine(a, b)) else Encode(a) + Encode(b)
    ensures G.SpellString([G.Uni(first), G.Uni(second)], "") == "\"\\u" + first + "\\u" + second + "\""
  {
    Hex4Bound(first);
    Hex4Bound(second);
    hide HexValue, Encode, AllHex, IsHex4, G.StringMeaning, G.SpellTokens;
    BothValid(first, second);
    MeaningOfTwo(first, second);
    SpellTwo(G.Uni(first), G.Uni(second));
    assert "\"\\u" + first + "\\u" + second + "\""
        == ['"'] + (['\\', 'u'] + (first + (['\\', 'u'] + (second + ['"']))));
  }

  lemma BothValid(first: string, second: string)
    requires IsHex4(first) && IsHex4(second)
    ensures G.ValidTokens([G.Uni(first), G.Uni(second)])
  {
    hide IsHex4;
  }

  lemma MeaningOfTwo(first: string, second: string)
    requires IsHex4(first) && IsHex4(second) && G.ValidTokens([G.Uni(first), G.Uni(second)])
    ensures var a, b := HexValue(first), HexValue(second);
      a <= 0xFFFF && b <= 0xFFFF
      && G.StringMeaning([G.Uni(first), G.Uni(second)])
         == if High(a) && Low(b) then Encode(Combine(a, b)) else Encode(a) + Encode(b)
  {
    Hex4Bound(first);
    Hex4Bound(second);
    OneUnit(second);
    hide HexValue, Encode, IsHex4;
    var tokens := [G.Uni(first), G.Uni(second)];
    assert tokens[1..] == [G.Uni(second)] && tokens[2..] == [];
    if High(HexValue(first)) && Low(HexValue(second)) {
      var unit := Encode(Combine(HexValue(first), HexValue(second)));
      assert unit + [] == unit;
    }
  }

  /**
   One escape with four hex digits, in either case, is read as the character with
   that number; half of a pair on its own is read as U+FFFD.
   */
  lemma UnitIsItsCodePoint(hex: string, maxDepth: nat)
    requires IsHex4(hex)
    ensures var v := ParseDocument("\"\\u" + hex + "\"", maxDepth);
      && v.Some? && v.value.Str?
      && Carries(v.value.s, if 0xD800 <= HexValue(hex) <= 0xDFFF then 0xFFFD else HexValue(hex))
  {
    OneUnit(hex);
    hide G.StringMeaning, G.SpellString, G.ValidTokens, HexValue, ParseDocument, Encode, WellFormed, Decode, IsHex4;
    QuotedParses([G.Uni(hex)], maxDepth);
    EncodeExact(HexValue(hex));
  }

  /** Every code point beyond the first 65536 is read from the escapes of its two UTF-16 halves. */
  lemma PairIsItsCodePoint(cp: nat, first: string, second: string, maxDepth: nat)
    requires 0x10000 <= cp <= 0x10FFFF && IsHex4(first) && IsHex4(second)
    requires HexValue(first) == 0xD800 + (cp - 0x10000) / 0x400
    requires HexValue(second) == 0xDC00 + (cp - 0x10000) % 0x400
    ensures var v := ParseDocument("\"\\u" + first + "\\u" + second + "\"", maxDepth);
      v.Some? && v.value.Str? && Carries(v.value.s, cp)
  {
    TwoUnits(first, second);
    HalvesOf(cp);
    hide G.StringMeaning, G.SpellString, G.ValidTokens, HexValue, ParseDocument, Encode, WellFormed, Decode, IsHex4;
    QuotedParses([G.Uni(first), G.Uni(second)], maxDepth);
    EncodeExact(cp);
  }

  lemma HalvesOf(cp: nat)
    requires 0x10000 <= cp <= 0x10FFFF
    ensures var a, b := 0xD800 + (cp - 0x10000) / 0x400, 0xDC00 + (cp - 0x10000) % 0x400;
      High(a) && Low(b) && Combine(a, b) == cp
  {
  }

  /** Two escapes that are no pair are read one by one, each as above: the look-ahead takes nothing away. */
  lemma NoPairIsTwoCharacters(first: string, second: string, maxDepth: nat)
    requires IsHex4(first) && IsHex4(second)
    requires !(0xD800 <= HexValue(first) <= 0xDBFF && 0xDC00 <= HexValue(second) <= 0xDFFF)
    ensures var v := ParseDocument("\"\\u" + first + "\\u" + second + "\"", maxDepth);
      && v.Some? && v.value.Str?
      && exists a, b :: v.value.s == a + b
           && Carries(a, if 0xD800 <= HexValue(first) <= 0xDFFF then 0xFFFD else HexValue(first))
           && Carries(b, if 0xD800 <= HexValue(second) <= 0xDFFF then 0xFFFD else HexValue(second))
  {
    TwoUnits(first, second);
    hide G.StringMeaning, G.SpellString, G.ValidTokens, HexValue, ParseDocument, Encode, WellFormed, Decode, IsHex4;
    QuotedParses([G.Uni(first), G.Uni(second)], maxDepth);
    EncodeExact(HexValue(first));
    EncodeExact(HexValue(second));
    assert Carries(Encode(HexValue(first)), if Surrogate(HexValue(first)) then 0xFFFD else HexValue(first));
  }

  // ---- two-character escapes -------------------------------------------------------------

  /** Which character is written as a backslash and c. */
  predicate Writes(c: char, code: int) {
    || (c == '"' && code == 0x22) || (c == '\\' && code == 0x5C) || (c == '/' && code == 0x2F)
    || (c == 'b' && code == 0x08) || (c == 'f' && code == 0x0C) || (c == 'n' && code == 0x0A)
    || (c == 'r' && code == 0x0D) || (c == 't' && code == 0x09)
  }

  lemma ShortEscape(c: char, code: nat, maxDepth: nat)
    requires Writes(c, code)
    ensures ParseDocument(['"', '\\', c, '"'], maxDepth) == Some(Str([code as char]))
  {
    var tokens := [G.Esc(c)];
    assert Unescape(c) == Some(code as char);
    assert tokens[1..] == [] && G.ValidTokens(tokens);
    assert G.StringMeaning(tokens) == [code as char] + G.StringMeaning([]) == [code as char];
    SpellOne(tokens[0]);
    hide *;
    QuotedParses(tokens, maxDepth);
  }

  /** And no other character may follow a backslash. */
  lemma NoOtherEscape(c: char, rest: string, maxDepth: nat)
    requires c != 'u' && forall code :: !Writes(c, code)
    ensures ParseDocument(['"', '\\', c] + rest, maxDepth).None?
  {
    assert !Writes(c, 0x22) && !Writes(c, 0x5C) && !Writes(c, 0x2F) && !Writes(c, 0x08);
    assert !Writes(c, 0x0C) && !Writes(c, 0x0A) && !Writes(c, 0x0D) && !Writes(c, 0x09);
    assert Unescape(c) == None;
    var text := ['"', '\\', c] + rest;
    assert SkipWs(text) == text;
    assert ParseChars(text[1..], "") == Fail;
  }
}
