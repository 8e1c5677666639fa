/**
 The printer of src/core/Json.cpp: what it writes, the loops that write it, and
 the proof that parsing undoes printing.
 */
module JsonPrint {
  import opened Text
  import opened JsonValue
  import opened JsonParse
  import G = JsonGrammar
  import Utf8

  // ---- what is written ----------------------------------------------------------

  function EscapeChar(c: char): string {
    match c
    case '"' => "\\\""
    case '\\' => "\\\\"
    case '\n' => "\\n"
    case '\r' => "\\r"
    case '\t' => "\\t"
    case _ =>
      if c as int == 8 then "\\b"
      else if c as int == 12 then "\\f"
      else if c < ' ' then ['\\', 'u', '0', '0', HexChar(c as int / 16), HexChar(c as int % 16)]
      else [c]
  }

  function EscapeAll(s: string): string {
    if s == [] then [] else EscapeChar(s[0]) + EscapeAll(s[1..])
  }

  function Escape(s: string): string { ['"'] + (EscapeAll(s) + ['"']) }

  function Spaces(n: nat): string { seq(n, _ => ' ') }

  /** A line break and indentation, or nothing when printing compactly. */
  function NewLine(indent: int): string { if indent >= 0 then "\n" else "" }

  function Pad(indent: int, depth: nat): string {
    if indent >= 0 then Spaces(Product(indent, depth)) else ""
  }

  function Product(a: nat, b: nat): nat { a * b }

  function Colon(indent: int): string { if indent >= 0 then ": " else ":" }

  function IntText(i: int): string { if i < 0 then "-" + DecimalText(-i) else DecimalText(i) }

  /** Infinities and NaN have no JSON form and print as null. */
  function FormatDouble(d: Double): string { if d.NonFinite? then "null" else NumText(d.literal) }

  function Dump(v: Value, indent: int, depth: nat): string
    decreases v, 0
  {
    match v
    case Null => "null"
    case Bool(b) => if b then "true" else "false"
    case Integer(i) => IntText(i)
    case Real(d) => FormatDouble(d)
    case Str(s) => Escape(s)
    case Arr(items) =>
      if items == [] then "[]"
      else "[" + (NewLine(indent) + (DumpItems(items, indent, depth) + (Pad(indent, depth) + "]")))
    case Obj(members) =>
      if members == [] then "{}"
      else "{" + (NewLine(indent) + (DumpMembers(members, indent, depth) + (Pad(indent, depth) + "}")))
  }

  /** The lines of an array: every item but the last is followed by a comma. */
  function DumpItems(items: seq<Value>, indent: int, depth: nat): string
    decreases items, 1
  {
    if items == [] then []
    else DumpItem(items[0], |items| > 1, indent, depth) + DumpItems(items[1..], indent, depth)
  }

  function DumpItem(item: Value, comma: bool, indent: int, depth: nat): string
    decreases item, 1
  {
    Pad(indent, depth + 1) + (Dump(item, indent, depth + 1) + ((if comma then "," else "") + NewLine(indent)))
  }

  function DumpMembers(members: seq<Member>, indent: int, depth: nat): string
    decreases members, 1
  {
    if members == [] then []
    else DumpMember(members[0], |members| > 1, indent, depth) + DumpMembers(members[1..], indent, depth)
  }

  function DumpMember(m: Member, comma: bool, indent: int, depth: nat): string
    decreases m, 1
  {
    KeyText(m.key, indent, depth) + (Dump(m.value, indent, depth + 1) + ((if comma then "," else "") + NewLine(indent)))
  }

  function KeyText(key: string, indent: int, depth: nat): string {
    Pad(indent, depth + 1) + (Escape(key) + Colon(indent))
  }

  /** Value::dump; a negative indent gives the compact form. */
  function DumpText(v: Value, indent: int): string { Dump(v, indent, 0) }

  // ---- the loops -------------------------------------------------------------------

  lemma {:induction false} EscapeAllSnoc(s: string, c: char)
    ensures EscapeAll(s + [c]) == EscapeAll(s) + EscapeChar(c)
    decreases |s|
  {
    if s == [] {
      assert (s + [c])[1..] == [];
      assert EscapeChar(c) + [] == EscapeChar(c);
    } else {
      assert (s + [c])[1..] == s[1..] + [c];
      EscapeAllSnoc(s[1..], c);
    }
  }

  method EscapeInto(out: string, text: string) returns (r: string)
    ensures r == out + Escape(text)
  {
    r := out + ['"'];
    for i := 0 to |text|
      invariant r == out + (['"'] + EscapeAll(text[..i]))
    {
      r := r + EscapeChar(text[i]);
      EscapeAllSnoc(text[..i], text[i]);
      assert text[..i + 1] == text[..i] + [text[i]];
    }
    assert text[..|text|] == text;
    r := r + ['"'];
  }

  method DumpInto(out: string, v: Value, indent: int, depth: nat) returns (r: string)
    ensures r == out + Dump(v, indent, depth)
    decreases v, 1
  {
    hide DumpItems, DumpMembers, Pad, NewLine, Escape, IntText, FormatDouble;
    match v
    case Null => r := out + "null";
    case Bool(b) => r := out + if b then "true" else "false";
    case Integer(i) => r := out + IntText(i);
    case Real(d) => r := out + FormatDouble(d);
    case Str(s) => r := EscapeInto(out, s);
    case Arr(items) =>
      if items == [] {
        return out + "[]";
      }
      r := DumpItemsInto(out + "[" + NewLine(indent), items, indent, depth);
      r := r + Pad(indent, depth) + "]";
      ListBuilt(out, "[", NewLine(indent), DumpItems(items, indent, depth), Pad(indent, depth), "]");
    case Obj(members) =>
      if members == [] {
        return out + "{}";
      }
      r := DumpMembersInto(out + "{" + NewLine(indent), members, indent, depth);
      r := r + Pad(indent, depth) + "}";
      ListBuilt(out, "{", NewLine(indent), DumpMembers(members, indent, depth), Pad(indent, depth), "}");
  }

  lemma ListBuilt(out: string, open: string, nl: string, lines: string, pad: string, close: string)
    ensures (((out + open + nl) + lines) + pad) + close == out + (open + (nl + (lines + (pad + close))))
  {
  }

  /** The loop of the Array case of dumpInto. */
  method DumpItemsInto(out: string, items: seq<Value>, indent: int, depth: nat) returns (r: string)
    ensures r == out + DumpItems(items, indent, depth)
    decreases items, 0
  {
    hide Dump, Pad, NewLine, DumpItem;
    r := out;
    var i := 0;
    while i < |items|
      invariant 0 <= i <= |items|
      invariant r + DumpItems(items[i..], indent, depth) == out + DumpItems(items, indent, depth)
    {
      ghost var before := r;
      r := DumpInto(r + Pad(indent, depth + 1), items[i], indent, depth + 1);
      if i + 1 < |items| {
        r := r + ",";
      }
      r := r + NewLine(indent);
      ItemBuilt(before, items[i], i + 1 < |items|, indent, depth);
      assert items[i..][1..] == items[i + 1..];
      Regroup(before, DumpItem(items[i], i + 1 < |items|, indent, depth), DumpItems(items[i + 1..], indent, depth));
      i := i + 1;
    }
    assert items[i..] == [];
  }

  lemma ItemBuilt(out: string, item: Value, comma: bool, indent: int, depth: nat)
    ensures var r := (out + Pad(indent, depth + 1)) + Dump(item, indent, depth + 1);
            (if comma then r + "," else r) + NewLine(indent) == out + DumpItem(item, comma, indent, depth)
  {
    hide Dump, Pad, NewLine;
  }

  /** The loop of the Object case of dumpInto. */
  method DumpMembersInto(out: string, members: seq<Member>, indent: int, depth: nat) returns (r: string)
    ensures r == out + DumpMembers(members, indent, depth)
    decreases members, 0
  {
    hide Dump, Pad, NewLine, Colon, Escape, DumpMember;
    r := out;
    var i := 0;
    while i < |members|
      invariant 0 <= i <= |members|
      invariant r + DumpMembers(members[i..], indent, depth) == out + DumpMembers(members, indent, depth)
    {
      ghost var before, m := r, members[i];
      r := EscapeInto(r + Pad(indent, depth + 1), members[i].key);
      r := DumpInto(r + Colon(indent), members[i].value, indent, depth + 1);
      if i + 1 < |members| {
        r := r + ",";
      }
      r := r + NewLine(indent);
      MemberBuilt(before, m, i + 1 < |members|, indent, depth);
      assert members[i..][1..] == members[i + 1..];
      Regroup(before, DumpMember(m, i + 1 < |members|, indent, depth), DumpMembers(members[i + 1..], indent, depth));
      i := i + 1;
    }
    assert members[i..] == [];
  }

  lemma MemberBuilt(out: string, m: Member, comma: bool, indent: int, depth: nat)
    ensures var key := ((out + Pad(indent, depth + 1)) + Escape(m.key)) + Colon(indent);
            var r := key + Dump(m.value, indent, depth + 1);
            (if comma then r + "," else r) + NewLine(indent) == out + DumpMember(m, comma, indent, depth)
  {
    hide Dump, Pad, NewLine, Colon, Escape;
  }

  // ---- the printed text as a derivation of the grammar -------------------------------

  function TokenOf(c: char): G.Token {
    match c
    case '"' => G.Esc('"')
    case '\\' => G.Esc('\\')
    case '\n' => G.Esc('n')
    case '\r' => G.Esc('r')
    case '\t' => G.Esc('t')
    case _ =>
      if c as int == 8 then G.Esc('b')
      else if c as int == 12 then G.Esc('f')
      else if c < ' ' then G.Uni(['0', '0', HexChar(c as int / 16), HexChar(c as int % 16)])
      else G.Raw(c)
  }

  function TokensOf(s: string): seq<G.Token> {
    if s == [] then [] else [TokenOf(s[0])] + TokensOf(s[1..])
  }

  /** Each escape written stands for the character it escapes, and none is half a pair. */
  lemma TokenOfExact(c: char)
    ensures G.ValidToken(TokenOf(c))
    ensures TokenOf(c).Uni? ==> HexValue(TokenOf(c).hex) == c as int < 0x20
    ensures TokenOf(c).Raw? ==> TokenOf(c).c == c
    ensures TokenOf(c).Esc? ==> Unescape(TokenOf(c).c) == Some(c)
  {
    if TokenOf(c).Uni? {
      Hex4Bound(TokenOf(c).hex);
    }
  }

  lemma {:induction false} TokensOfValid(s: string)
    ensures G.ValidTokens(TokensOf(s))
  {
    hide TokenOf, G.ValidToken;
    if s != [] {
      TokenOfExact(s[0]);
      TokensOfValid(s[1..]);
    }
  }

  lemma {:induction false} TokensOfExact(s: string)
    ensures G.ValidTokens(TokensOf(s)) && G.StringMeaning(TokensOf(s)) == s
    decreases |s|
  {
    if s != [] {
      hide TokenOf, G.ValidToken, G.ValidTokens;
      TokensOfValid(s);
      TokenOfExact(s[0]);
      TokensOfExact(s[1..]);
      assert TokensOf(s)[1..] == TokensOf(s[1..]);
      assert s == [s[0]] + s[1..];
    }
  }

  lemma EscapeCharSpelling(c: char, k: string)
    ensures EscapeChar(c) + k == G.SpellToken(TokenOf(c), k)
  {
    if TokenOf(c).Uni? {
      var hex := TokenOf(c).hex;
      assert EscapeChar(c) == ['\\', 'u'] + hex;
      Regroup(['\\', 'u'], hex, k);
    }
  }

  lemma {:induction false} EscapeSpelling(s: string, k: string)
    ensures EscapeAll(s) + k == G.SpellTokens(TokensOf(s), k)
    decreases |s|
  {
    hide EscapeChar, TokenOf, G.SpellToken;
    if s == [] {
      assert EscapeAll(s) + k == k;
    } else {
      EscapeSpelling(s[1..], k);
      assert TokensOf(s)[1..] == TokensOf(s[1..]);
      Regroup(EscapeChar(s[0]), EscapeAll(s[1..]), k);
      EscapeCharSpelling(s[0], EscapeAll(s[1..]) + k);
    }
  }

  lemma QuotedSpelling(s: string, k: string)
    ensures Escape(s) + k == G.SpellString(TokensOf(s), k)
  {
    EscapeSpelling(s, ['"'] + k);
    Regroup(EscapeAll(s), ['"'], k);
    Regroup(['"'], EscapeAll(s) + ['"'], k);
  }

  function NumOf(i: int): Num { Num(i < 0, DecimalText(if i < 0 then -i else i), None, None) }

  function TreeOf(v: Value, indent: int, depth: nat): G.Node
    decreases v, 0
  {
    match v
    case Null => G.Literal(Null)
    case Bool(b) => G.Literal(v)
    case Integer(i) => G.Number(NumOf(i))
    case Real(d) => if d.NonFinite? then G.Literal(Null) else G.Number(d.literal)
    case Str(s) => G.Quoted(TokensOf(s))
    case Arr(items) => if items == [] then G.EmptyArray("") else G.Array(ElementsOf(items, indent, depth))
    case Obj(members) => if members == [] then G.EmptyObject("") else G.Object(MembersOf(members, indent, depth))
  }

  function ElementsOf(items: seq<Value>, indent: int, depth: nat): G.Elements
    requires items != []
    decreases items, 1
  {
    var before := NewLine(indent) + Pad(indent, depth + 1);
    var node := TreeOf(items[0], indent, depth + 1);
    if |items| == 1 then G.LastElement(before, node, NewLine(indent) + Pad(indent, depth))
    else G.MoreElements(before, node, "", ElementsOf(items[1..], indent, depth))
  }

  function KeyOf(key: string, indent: int, depth: nat): G.Key {
    G.Key(NewLine(indent) + Pad(indent, depth + 1), TokensOf(key), "", if indent >= 0 then " " else "")
  }

  function MembersOf(members: seq<Member>, indent: int, depth: nat): G.Members
    requires members != []
    decreases members, 1
  {
    var m := members[0];
    var node := TreeOf(m.value, indent, depth + 1);
    if |members| == 1 then G.LastMember(KeyOf(m.key, indent, depth), node, NewLine(indent) + Pad(indent, depth))
    else G.MoreMembers(KeyOf(m.key, indent, depth), node, "", MembersOf(members[1..], indent, depth))
  }

  lemma {:induction false} DumpSpelling(v: Value, indent: int, depth: nat, k: string)
    ensures Dump(v, indent, depth) + k == G.Spell(TreeOf(v, indent, depth), k)
    decreases v, 2
  {
    if v.Arr? && v.items != [] {
      ArraySpelling(v.items, indent, depth, k);
    } else if v.Obj? && v.members != [] {
      ObjectSpelling(v.members, indent, depth, k);
    } else {
      LeafSpelling(v, indent, depth, k);
    }
  }

  lemma LeafSpelling(v: Value, indent: int, depth: nat, k: string)
    requires !(v.Arr? && v.items != []) && !(v.Obj? && v.members != [])
    ensures Dump(v, indent, depth) + k == G.Spell(TreeOf(v, indent, depth), k)
  {
    hide Escape, TokensOf, G.SpellString;
    match v
    case Str(s) => QuotedSpelling(s, k);
    case Arr(_) => assert "[]" + k == ['['] + ("" + ([']'] + k));
    case Obj(_) => assert "{}" + k == ['{'] + ("" + (['}'] + k));
    case _ =>
  }

  /** A line break, the lines of the elements, and the closing bracket on its own line. */
  function ArrayTail(items: seq<Value>, indent: int, depth: nat): string {
    NewLine(indent) + (DumpItems(items, indent, depth) + (Pad(indent, depth) + "]"))
  }

  function ObjectTail(members: seq<Member>, indent: int, depth: nat): string {
    NewLine(indent) + (DumpMembers(members, indent, depth) + (Pad(indent, depth) + "}"))
  }

  lemma {:induction false} ArraySpelling(items: seq<Value>, indent: int, depth: nat, k: string)
    requires items != []
    ensures Dump(Arr(items), indent, depth) + k == G.Spell(TreeOf(Arr(items), indent, depth), k)
    decreases items, 1
  {
    assert Dump(Arr(items), indent, depth) == ['['] + ArrayTail(items, indent, depth);
    assert TreeOf(Arr(items), indent, depth) == G.Array(ElementsOf(items, indent, depth));
    hide ArrayTail, Dump, TreeOf, ElementsOf, G.SpellElements;
    ItemsSpelling(items, indent, depth, k);
    Regroup(['['], ArrayTail(items, indent, depth), k);
  }

  lemma {:induction false} ObjectSpelling(members: seq<Member>, indent: int, depth: nat, k: string)
    requires members != []
    ensures Dump(Obj(members), indent, depth) + k == G.Spell(TreeOf(Obj(members), indent, depth), k)
    decreases members, 1
  {
    assert Dump(Obj(members), indent, depth) == ['{'] + ObjectTail(members, indent, depth);
    assert TreeOf(Obj(members), indent, depth) == G.Object(MembersOf(members, indent, depth));
    hide ObjectTail, Dump, TreeOf, MembersOf, G.SpellMembers;
    MembersSpelling(members, indent, depth, k);
    Regroup(['{'], ObjectTail(members, indent, depth), k);
  }

  /** The last line of a list, in the order printed and in the order of the grammar. */
  lemma LastLine(nl: string, head: string, text: string, pad: string, close: string, k: string)
    ensures (nl + ((head + (text + ("" + nl))) + (pad + close))) + k
      == (nl + head) + (text + ((nl + pad) + (close + k)))
  {
  }

  /** Any other line, followed by `rest`. */
  lemma InnerLine(nl: string, head: string, text: string, rest: string, end: string, k: string)
    ensures (nl + (((head + (text + ("," + nl))) + rest) + end)) + k
         == (nl + head) + (text + ("" + ([','] + ((nl + (rest + end)) + k))))
  {
  }

  lemma {:induction false} ItemsSpelling(items: seq<Value>, indent: int, depth: nat, k: string)
    requires items != []
    ensures ArrayTail(items, indent, depth) + k == G.SpellElements(ElementsOf(items, indent, depth), k)
    decreases items, 0
  {
    hide Dump, Pad, NewLine, TreeOf, G.Spell;
    var es, nl, pad := ElementsOf(items, indent, depth), NewLine(indent), Pad(indent, depth);
    var head, text := Pad(indent, depth + 1), Dump(items[0], indent, depth + 1);
    var after := es.after + G.ElementEnd(es, k);
    DumpSpelling(items[0], indent, depth + 1, after);
    assert G.SpellElements(es, k) == (nl + head) + (text + after);
    if |items| == 1 {
      assert DumpItems(items, indent, depth) == head + (text + ("" + nl));
      LastLine(nl, head, text, pad, "]", k);
    } else {
      ItemsSpelling(items[1..], indent, depth, k);
      assert DumpItems(items, indent, depth) == (head + (text + ("," + nl))) + DumpItems(items[1..], indent, depth);
      InnerLine(nl, head, text, DumpItems(items[1..], indent, depth), pad + "]", k);
    }
  }

  lemma KeySpelling(key: string, indent: int, depth: nat, body: string)
    ensures (NewLine(indent) + KeyText(key, indent, depth)) + body == G.SpellKey(KeyOf(key, indent, depth), body)
  {
    var nl, pad, e, c := NewLine(indent), Pad(indent, depth + 1), Escape(key), Colon(indent);
    var space := if indent >= 0 then " " else "";
    assert c + body == "" + ([':'] + (space + body));
    QuotedSpelling(key, c + body);
    hide Escape, Pad, NewLine;
    Regroup(nl, pad + (e + c), body);
    Regroup(pad, e + c, body);
    Regroup(e, c, body);
    Regroup(nl, pad, e + (c + body));
  }

  lemma {:induction false} MembersSpelling(members: seq<Member>, indent: int, depth: nat, k: string)
    requires members != []
    ensures ObjectTail(members, indent, depth) + k == G.SpellMembers(MembersOf(members, indent, depth), k)
    decreases members, 0
  {
    hide Dump, Pad, NewLine, TreeOf, KeyText, KeyOf, G.Spell, G.SpellKey;
    var ms, nl, pad := MembersOf(members, indent, depth), NewLine(indent), Pad(indent, depth);
    var m := members[0];
    var head, text := KeyText(m.key, indent, depth), Dump(m.value, indent, depth + 1);
    var after := ms.after + G.MemberEnd(ms, k);
    DumpSpelling(m.value, indent, depth + 1, after);
    KeySpelling(m.key, indent, depth, text + after);
    assert G.SpellMembers(ms, k) == (nl + head) + (text + after);
    if |members| == 1 {
      assert DumpMembers(members, indent, depth) == head + (text + ("" + nl));
      LastLine(nl, head, text, pad, "}", k);
    } else {
      MembersSpelling(members[1..], indent, depth, k);
      assert DumpMembers(members, indent, depth)
        == (head + (text + ("," + nl))) + DumpMembers(members[1..], indent, depth);
      InnerLine(nl, head, text, DumpMembers(members[1..], indent, depth), pad + "}", k);
    }
  }
}
