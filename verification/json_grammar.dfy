/**
 The JSON grammar of sections 2 to 7 of RFC 8259 as concrete syntax trees, and
 the proof that the parser accepts exactly the texts they spell.

 Spelling is written with a continuation: `Spell(n, k)` is the text of `n`
 followed by the text `k`.
 */
module JsonGrammar {
  import opened Text
  import opened JsonValue
  import opened JsonParse
  import Utf8

  // ---- trees ----------------------------------------------------------------

  /** One character of a string: as itself, a two-character escape, or \uXXXX. */
  datatype Token = Raw(c: char) | Esc(c: char) | Uni(hex: string)

  datatype Node =
    | Literal(v: Value)
    | Number(num: Num)
    | Quoted(tokens: seq<Token>)
    | EmptyArray(ws: string)
    | Array(elements: Elements)
    | EmptyObject(ws: string)
    | Object(members: Members)

  /** Array elements, each with the white space around it. */
  datatype Elements =
    | LastElement(before: string, node: Node, after: string)
    | MoreElements(before: string, node: Node, after: string, tail: Elements)

  /** `ws` key `ws` : `ws` */
  datatype Key = Key(before: string, tokens: seq<Token>, beforeColon: string, afterColon: string)

  datatype Members =
    | LastMember(key: Key, node: Node, after: string)
    | MoreMembers(key: Key, node: Node, after: string, tail: Members)

  datatype Document = Document(before: string, node: Node, after: string)

  // ---- well-formedness --------------------------------------------------------

  /** Blanks, tabs, line feeds and carriage returns. */
  predicate AllWs(ws: string) {
    forall i :: 0 <= i < |ws| ==> ws[i] == ' ' || ws[i] == '\t' || ws[i] == '\n' || ws[i] == '\r'
  }

  predicate ValidToken(t: Token) {
    match t
    case Raw(c) => c >= ' ' && c != '"' && c != '\\'
    case Esc(c) => Unescape(c).Some?
    case Uni(hex) => IsHex4(hex)
  }

  predicate ValidTokens(ts: seq<Token>) { forall i :: 0 <= i < |ts| ==> ValidToken(ts[i]) }

  predicate ValidKey(k: Key) {
    AllWs(k.before) && ValidTokens(k.tokens) && AllWs(k.beforeColon) && AllWs(k.afterColon)
  }

  predicate ValidNode(n: Node) {
    match n
    case Literal(v) => v == Null || v == Bool(true) || v == Bool(false)
    case Number(num) => ValidNum(num)
    case Quoted(ts) => ValidTokens(ts)
    case EmptyArray(ws) => AllWs(ws)
    case Array(es) => ValidElements(es)
    case EmptyObject(ws) => AllWs(ws)
    case Object(ms) => ValidMembers(ms)
  }

  predicate ValidElements(es: Elements) {
    AllWs(es.before) && ValidNode(es.node) && AllWs(es.after) && (es.MoreElements? ==> ValidElements(es.tail))
  }

  predicate ValidMembers(ms: Members) {
    ValidKey(ms.key) && ValidNode(ms.node) && AllWs(ms.after) && (ms.MoreMembers? ==> ValidMembers(ms.tail))
  }

  predicate ValidDocument(d: Document) { AllWs(d.before) && ValidNode(d.node) && AllWs(d.after) }

  // ---- spelling ---------------------------------------------------------------

  function SpellToken(t: Token, k: string): string {
    match t
    case Raw(c) => [c] + k
    case Esc(c) => ['\\', c] + k
    case Uni(hex) => ['\\', 'u'] + (hex + k)
  }

  function SpellTokens(ts: seq<Token>, k: string): string {
    if ts == [] then k else SpellToken(ts[0], SpellTokens(ts[1..], k))
  }

  function SpellString(ts: seq<Token>, k: string): string { ['"'] + SpellTokens(ts, ['"'] + k) }

  function Word(v: Value): string {
    if v == Null then "null" else if v == Bool(true) then "true" else "false"
  }

  function SpellKey(key: Key, k: string): string {
    key.before + SpellString(key.tokens, key.beforeColon + ([':'] + (key.afterColon + k)))
  }

  function Spell(n: Node, k: string): string
    decreases n, 2
  {
    match n
    case Literal(v) => Word(v) + k
    case Number(num) => NumText(num) + k
    case Quoted(ts) => SpellString(ts, k)
    case EmptyArray(ws) => ['['] + (ws + ([']'] + k))
    case Array(es) => ['['] + SpellElements(es, k)
    case EmptyObject(ws) => ['{'] + (ws + (['}'] + k))
    case Object(ms) => ['{'] + SpellMembers(ms, k)
  }

  function SpellElements(es: Elements, k: string): string
    decreases es, 1
  {
    es.before + Spell(es.node, es.after + ElementEnd(es, k))
  }

  /** The comma or bracket behind an element, and all that follows. */
  function ElementEnd(es: Elements, k: string): string
    decreases es, 0
  {
    if es.MoreElements? then [','] + SpellElements(es.tail, k) else [']'] + k
  }

  function SpellMembers(ms: Members, k: string): string
    decreases ms, 1
  {
    SpellKey(ms.key, Spell(ms.node, ms.after + MemberEnd(ms, k)))
  }

  function MemberEnd(ms: Members, k: string): string
    decreases ms, 0
  {
    if ms.MoreMembers? then [','] + SpellMembers(ms.tail, k) else ['}'] + k
  }

  function SpellDocument(d: Document): string { d.before + Spell(d.node, d.after) }

  // ---- meaning ----------------------------------------------------------------

  /** A \uD800-\uDBFF directly followed by a \uDC00-\uDFFF. */
  predicate PairAt(ts: seq<Token>)
    requires ValidTokens(ts)
  {
    |ts| >= 2 && ts[0].Uni? && ts[1].Uni? && High(HexValue(ts[0].hex)) && Low(HexValue(ts[1].hex))
  }

  /** The string a token list stands for. */
  function StringMeaning(ts: seq<Token>): string
    requires ValidTokens(ts)
  {
    if ts == [] then []
    else if PairAt(ts) then
      Utf8.Encode(Combine(HexValue(ts[0].hex), HexValue(ts[1].hex))) + StringMeaning(ts[2..])
    else
      (match ts[0]
       case Raw(c) => [c]
       case Esc(c) => [Unescape(c).value]
       case Uni(hex) => Hex4Bound(hex); Utf8.Encode(HexValue(hex))) + StringMeaning(ts[1..])
  }

  function Meaning(n: Node): Value
    requires ValidNode(n)
    decreases n
  {
    match n
    case Literal(v) => v
    case Number(num) => NumValue(num)
    case Quoted(ts) => Str(StringMeaning(ts))
    case EmptyArray(_) => Arr([])
    case Array(es) => Arr(ElementsMeaning(es))
    case EmptyObject(_) => Obj([])
    case Object(ms) => Obj(MembersMeaning(ms, []))
  }

  function ElementsMeaning(es: Elements): seq<Value>
    requires ValidElements(es)
    decreases es
  {
    [Meaning(es.node)] + if es.MoreElements? then ElementsMeaning(es.tail) else []
  }

  /** Later members win over earlier ones with the same key. */
  function MembersMeaning(ms: Members, before: seq<Member>): seq<Member>
    requires ValidMembers(ms)
    decreases ms
  {
    var now := SetMember(before, StringMeaning(ms.key.tokens), Meaning(ms.node));
    if ms.MoreMembers? then MembersMeaning(ms.tail, now) else now
  }

  /** How many levels of arrays and objects lie below the root of a tree. */
  predicate Nested(n: Node, room: int)
    decreases n
  {
    && 0 <= room
    && (n.Array? ==> NestedElements(n.elements, room - 1))
    && (n.Object? ==> NestedMembers(n.members, room - 1))
  }

  predicate NestedElements(es: Elements, room: int)
    decreases es
  {
    Nested(es.node, room) && (es.MoreElements? ==> NestedElements(es.tail, room))
  }

  predicate NestedMembers(ms: Members, room: int)
    decreases ms
  {
    Nested(ms.node, room) && (ms.MoreMembers? ==> NestedMembers(ms.tail, room))
  }

  // ---- completeness: every spelled tree is parsed to its meaning ---------------

  lemma {:induction false} SkipWsOver(ws: string, k: string)
    requires AllWs(ws)
    ensures SkipWs(ws + k) == SkipWs(k)
    decreases |ws|
  {
    if ws == [] {
      assert ws + k == k;
    } else {
      assert (ws + k)[1..] == ws[1..] + k;
      SkipWsOver(ws[1..], k);
    }
  }

  lemma {:induction false} DigitRunOver(d: string, k: string)
    requires AllDigits(d) && (k != [] ==> !IsDigit(k[0]))
    ensures DigitRun(d + k) == |d|
    decreases |d|
  {
    if d == [] {
      assert d + k == k;
    } else {
      assert (d + k)[1..] == d[1..] + k;
      DigitRunOver(d[1..], k);
    }
  }

  lemma TakeDigitsOver(d: string, k: string)
    requires d != [] && AllDigits(d) && (k != [] ==> !IsDigit(k[0]))
    ensures TakeDigits(d + k) == Ok(d, k)
  {
    DigitRunOver(d, k);
    assert (d + k)[..|d|] == d && (d + k)[|d|..] == k;
  }

  /** What may follow a number without being taken for part of it. */
  predicate EndsNumber(k: string) {
    k != [] ==> !IsDigit(k[0]) && k[0] != '.' && k[0] != 'e' && k[0] != 'E'
  }

  lemma ExponentOver(e: Option<Exp>, k: string)
    requires (e.Some? ==> ValidExp(e.value)) && EndsNumber(k)
    ensures ParseExponent(ExponentText(e) + k) == Ok(e, k)
  {
    if e.None? {
      assert ExponentText(e) + k == k;
    } else {
      var x := e.value;
      var d := x.digits + k;
      Regroup(x.sign, x.digits, k);
      Regroup([x.mark], x.sign + x.digits, k);
      ExponentSlices(x.mark, x.sign, d);
      TakeDigitsOver(x.digits, k);
      assert ExponentText(e) + k == [x.mark] + (x.sign + d);
      hide *;
      ExponentStep([x.mark] + (x.sign + d), x, k);
    }
  }

  lemma ExponentStep(s: string, x: Exp, k: string)
    requires s != [] && s[0] == x.mark && (x.mark == 'e' || x.mark == 'E')
    requires SignOf(s[1..]) == x.sign && |x.sign| < |s| && TakeDigits(s[1 + |x.sign|..]) == Ok(x.digits, k)
    ensures ParseExponent(s) == Ok(Some(x), k)
  {
    hide SignOf, TakeDigits;
  }

  lemma ExponentSlices(mark: char, sign: string, d: string)
    requires (sign == "" || sign == "+" || sign == "-") && d != [] && IsDigit(d[0])
    ensures var s := [mark] + (sign + d); SignOf(s[1..]) == sign && s[1 + |sign|..] == d
  {
    var s := [mark] + (sign + d);
    assert s[1..] == sign + d;
    if sign != "" {
      assert (sign + d)[..1] == sign;
    }
  }

  lemma FractionOver(f: Option<string>, k: string)
    requires f.Some? ==> f.value != "" && AllDigits(f.value)
    requires k != [] ==> !IsDigit(k[0]) && k[0] != '.'
    ensures ParseFraction(FractionText(f) + k) == Ok(f, k)
  {
    if f.Some? {
      assert (FractionText(f) + k)[1..] == f.value + k;
      TakeDigitsOver(f.value, k);
    } else {
      assert FractionText(f) + k == k;
    }
  }

  lemma NumberOver(n: Num, k: string)
    requires ValidNum(n) && EndsNumber(k)
    ensures ParseNum(NumText(n) + k) == Ok(n, k)
  {
    var e, f, sign := ExponentText(n.exponent), FractionText(n.fraction), if n.negative then "-" else "";
    NumberShape(n, k);
    assert (n.whole + (f + (e + k)))[0] == n.whole[0];
    assert Starts(NumText(n) + k, '-') == n.negative && |sign| == if n.negative then 1 else 0;
    WholeOver(n.whole, f + (e + k));
    FractionOver(n.fraction, e + k);
    ExponentOver(n.exponent, k);
    hide *;
    NumberStep(NumText(n) + k, f + (e + k), e + k, n, k);
  }

  /** parseNumber, part by part. */
  lemma NumberStep(s: string, afterWhole: string, afterFraction: string, n: Num, k: string)
    requires Starts(s, '-') == n.negative
    requires ParseWhole(if n.negative then s[1..] else s) == Ok(n.whole, afterWhole)
    requires ParseFraction(afterWhole) == Ok(n.fraction, afterFraction)
    requires ParseExponent(afterFraction) == Ok(n.exponent, k)
    ensures ParseNum(s) == Ok(n, k)
  {
    hide ParseWhole, ParseFraction, ParseExponent;
  }

  /** The text of a number cut at its parts, and what each part ends before. */
  lemma NumberShape(n: Num, k: string)
    requires ValidNum(n) && EndsNumber(k)
    ensures var e, f, sign := ExponentText(n.exponent), FractionText(n.fraction), if n.negative then "-" else "";
            && NumText(n) + k == sign + (n.whole + (f + (e + k)))
            && (if n.negative then (NumText(n) + k)[1..] else NumText(n) + k) == n.whole + (f + (e + k))
            && (e + k != [] ==> !IsDigit((e + k)[0]) && (e + k)[0] != '.')
            && (f + (e + k) != [] ==> !IsDigit((f + (e + k))[0]))
  {
    var e, f, sign := ExponentText(n.exponent), FractionText(n.fraction), if n.negative then "-" else "";
    Regroup(f, e, k);
    Regroup(n.whole, f + e, k);
    Regroup(sign, n.whole + (f + e), k);
    assert e != [] ==> (e + k)[0] == n.exponent.value.mark;
    assert e == [] ==> e + k == k;
    assert f == [] ==> f + (e + k) == e + k;
    assert f != [] ==> (f + (e + k))[0] == '.';
  }

  lemma WholeOver(w: string, k: string)
    requires w != "" && AllDigits(w) && (w[0] == '0' ==> w == "0") && (k != [] ==> !IsDigit(k[0]))
    ensures ParseWhole(w + k) == Ok(w, k)
  {
    if w[0] == '0' {
      assert (w + k)[1..] == k;
    } else {
      TakeDigitsOver(w, k);
    }
  }

  lemma Hex4Over(hex: string, k: string)
    requires IsHex4(hex)
    ensures ParseHex4(hex + k) == Ok(HexValue(hex), k)
  {
    assert (hex + k)[..4] == hex && (hex + k)[4..] == k;
  }

  /**
   The token list is read back whole.  In the \u case the parser looks ahead at
   the next escape and backs out unless it completes a pair; either way it goes
   on exactly where the tokens go on.
   */
  lemma {:induction false} TokensOver(ts: seq<Token>, k: string, out: string)
    requires ValidTokens(ts)
    ensures ParseChars(SpellTokens(ts, ['"'] + k), out) == Ok(out + StringMeaning(ts), k)
    decreases |ts|, 1
  {
    var s := SpellTokens(ts, ['"'] + k);
    if ts == [] {
      assert s[1..] == k && out + [] == out;
    } else if ts[0].Uni? {
      UnicodeOver(ts, k, out);
    } else {
      var c := if ts[0].Raw? then ts[0].c else Unescape(ts[0].c).value;
      assert s[if ts[0].Raw? then 1 else 2..] == SpellTokens(ts[1..], ['"'] + k);
      TokensOver(ts[1..], k, out + [c]);
      Regroup(out, [c], StringMeaning(ts[1..]));
    }
  }

  lemma {:induction false} UnicodeOver(ts: seq<Token>, k: string, out: string)
    requires ValidTokens(ts) && ts != [] && ts[0].Uni?
    ensures ParseChars(SpellTokens(ts, ['"'] + k), out) == Ok(out + StringMeaning(ts), k)
    decreases |ts|, 0
  {
    var s, rest := SpellTokens(ts, ['"'] + k), SpellTokens(ts[1..], ['"'] + k);
    var hex := ts[0].hex;
    assert s[2..] == hex + rest;
    Hex4Over(hex, rest);
    Hex4Bound(hex);
    NextEscape(ts, k);
    if PairAt(ts) {
      var unit := Utf8.Encode(Combine(HexValue(hex), HexValue(ts[1].hex)));
      TokensOver(ts[2..], k, out + unit);
      Regroup(out, unit, StringMeaning(ts[2..]));
    } else {
      TokensOver(ts[1..], k, out + Utf8.Encode(HexValue(hex)));
      Regroup(out, Utf8.Encode(HexValue(hex)), StringMeaning(ts[1..]));
    }
  }

  /** What the look-ahead sees: the next token, if that is a \u escape, and nothing otherwise. */
  lemma NextEscape(ts: seq<Token>, k: string)
    requires ValidTokens(ts) && ts != []
    ensures var rest := SpellTokens(ts[1..], ['"'] + k);
            if |ts| >= 2 && ts[1].Uni? then
              |rest| >= 2 && rest[0] == '\\' && rest[1] == 'u'
              && ParseHex4(rest[2..]) == Ok(HexValue(ts[1].hex), SpellTokens(ts[2..], ['"'] + k))
            else
              !(|rest| >= 2 && rest[0] == '\\' && rest[1] == 'u')
  {
    var rest := SpellTokens(ts[1..], ['"'] + k);
    if |ts| >= 2 {
      assert ts[1..][0] == ts[1] && ts[1..][1..] == ts[2..];
      if ts[1].Uni? {
        var rest2 := SpellTokens(ts[2..], ['"'] + k);
        assert rest[2..] == ts[1].hex + rest2;
        Hex4Over(ts[1].hex, rest2);
      }
    }
  }

  lemma StringOver(ts: seq<Token>, k: string)
    requires ValidTokens(ts)
    ensures ParseString(SpellString(ts, k)) == Ok(StringMeaning(ts), k)
  {
    assert SpellString(ts, k)[1..] == SpellTokens(ts, ['"'] + k);
    TokensOver(ts, k, "");
    assert "" + StringMeaning(ts) == StringMeaning(ts);
  }

  lemma KeyOver(key: Key, k: string)
    requires ValidKey(key)
    ensures ParseKey(SpellKey(key, k)) == Ok(StringMeaning(key.tokens), key.afterColon + k)
  {
    var t := [':'] + (key.afterColon + k);
    SkipWsOver(key.before, SpellString(key.tokens, key.beforeColon + t));
    StringOver(key.tokens, key.beforeColon + t);
    SkipWsOver(key.beforeColon, t);
    assert t[1..] == key.afterColon + k;
  }

  /** The first character of a spelled value, which is what parseValue switches on. */
  lemma FirstChar(n: Node, k: string)
    requires ValidNode(n)
    ensures Spell(n, k) != [] && !IsWs(Spell(n, k)[0]) && Spell(n, k)[0] != ']' && Spell(n, k)[0] != '}'
    ensures n.Number? ==> Spell(n, k)[0] == '-' || IsDigit(Spell(n, k)[0])
  {
    if n.Number? {
      assert NumText(n.num)[0] == if n.num.negative then '-' else n.num.whole[0];
    }
  }

  lemma {:induction false} NodeOver(n: Node, k: string, depth: nat, maxDepth: nat)
    requires ValidNode(n) && Nested(n, maxDepth - depth) && EndsNumber(k)
    ensures ParseValue(Spell(n, k), depth, maxDepth) == Ok(Meaning(n), k)
    decreases n, 1
  {
    if n.Array? {
      ArrayOver(n.elements, k, depth, maxDepth);
    } else if n.Object? {
      ObjectOver(n.members, k, depth, maxDepth);
    } else {
      LeafOver(n, k, depth, maxDepth);
    }
  }

  lemma LeafOver(n: Node, k: string, depth: nat, maxDepth: nat)
    requires ValidNode(n) && depth <= maxDepth && EndsNumber(k) && !n.Array? && !n.Object?
    ensures ParseValue(Spell(n, k), depth, maxDepth) == Ok(Meaning(n), k)
  {
    hide ParseElements, ParseMembers, ParseNum, NumText, NumValue, SpellTokens, ParseString, StringMeaning, SkipWs;
    var s := Spell(n, k);
    FirstChar(n, k);
    match n
    case Literal(v) =>
      assert s[..|Word(v)|] == Word(v) && s[|Word(v)|..] == k;
    case Number(num) =>
      NumberOver(num, k);
    case Quoted(ts) =>
      StringOver(ts, k);
      assert s[0] == '"';
    case EmptyArray(ws) =>
      assert s[1..] == ws + ([']'] + k) && ([']'] + k)[1..] == k;
      SkipWsAt(ws, [']'] + k);
    case EmptyObject(ws) =>
      assert s[1..] == ws + (['}'] + k) && (['}'] + k)[1..] == k;
      SkipWsAt(ws, ['}'] + k);
  }

  lemma SkipWsAt(ws: string, k: string)
    requires AllWs(ws) && k != [] && !IsWs(k[0])
    ensures SkipWs(ws + k) == k
  {
    SkipWsOver(ws, k);
  }

  /** How parseValue enters an array or an object that is not empty. */
  lemma EnterStep(s: string, depth: nat, maxDepth: nat)
    requires depth <= maxDepth && s != []
    ensures s[0] == '[' && !Starts(SkipWs(s[1..]), ']') ==>
      ParseValue(s, depth, maxDepth) == ParseElements(s[1..], [], depth, maxDepth)
    ensures s[0] == '{' && !Starts(SkipWs(s[1..]), '}') ==>
      ParseValue(s, depth, maxDepth) == ParseMembers(s[1..], [], depth, maxDepth)
  {
    hide ParseElements, ParseMembers;
    ElementsSkip(s[1..], [], depth, maxDepth);
    MembersSkip(s[1..], [], depth, maxDepth);
  }

  /** White space is skipped before looking for the closing bracket, and again in the loop. */
  lemma ElementsSkip(s: string, items: seq<Value>, depth: nat, maxDepth: nat)
    ensures ParseElements(SkipWs(s), items, depth, maxDepth) == ParseElements(s, items, depth, maxDepth)
  {
    assert SkipWs(SkipWs(s)) == SkipWs(s);
  }

  lemma MembersSkip(s: string, members: seq<Member>, depth: nat, maxDepth: nat)
    ensures ParseMembers(SkipWs(s), members, depth, maxDepth) == ParseMembers(s, members, depth, maxDepth)
  {
    assert SkipWs(SkipWs(s)) == SkipWs(s);
    assert ParseKey(SkipWs(s)) == ParseKey(s);
  }

  lemma {:induction false} ArrayOver(es: Elements, k: string, depth: nat, maxDepth: nat)
    requires ValidElements(es) && Nested(Array(es), maxDepth - depth)
    ensures ParseValue(Spell(Array(es), k), depth, maxDepth) == Ok(Meaning(Array(es)), k)
    decreases es, 1
  {
    var t := SpellElements(es, k);
    var s := ['['] + t;
    assert Spell(Array(es), k) == s && s[1..] == t && Meaning(Array(es)) == Arr(ElementsMeaning(es));
    var next := ElementEnd(es, k);
    assert t == es.before + Spell(es.node, es.after + next);
    FirstChar(es.node, es.after + next);
    SkipWsAt(es.before, Spell(es.node, es.after + next));
    assert NestedElements(es, maxDepth - depth - 1);
    assert !Starts(SkipWs(t), ']');
    hide *;
    ElementsOver(es, k, [], depth, maxDepth);
    EnterStep(s, depth, maxDepth);
    assert [] + ElementsMeaning(es) == ElementsMeaning(es);
  }

  lemma {:induction false} ObjectOver(ms: Members, k: string, depth: nat, maxDepth: nat)
    requires ValidMembers(ms) && Nested(Object(ms), maxDepth - depth)
    ensures ParseValue(Spell(Object(ms), k), depth, maxDepth) == Ok(Meaning(Object(ms)), k)
    decreases ms, 1
  {
    var t := SpellMembers(ms, k);
    var s := ['{'] + t;
    assert Spell(Object(ms), k) == s && s[1..] == t && Meaning(Object(ms)) == Obj(MembersMeaning(ms, []));
    var next := MemberEnd(ms, k);
    KeyStart(ms.key, Spell(ms.node, ms.after + next));
    assert NestedMembers(ms, maxDepth - depth - 1);
    assert !Starts(SkipWs(t), '}');
    hide *;
    MembersOver(ms, k, [], depth, maxDepth);
    EnterStep(s, depth, maxDepth);
  }

  lemma KeyStart(key: Key, k: string)
    requires ValidKey(key)
    ensures Starts(SkipWs(SpellKey(key, k)), '"')
  {
    SkipWsAt(key.before, SpellString(key.tokens, key.beforeColon + ([':'] + (key.afterColon + k))));
  }

  /** What follows a value inside an array or an object cannot be part of a number. */
  lemma AfterValue(after: string, next: string)
    requires AllWs(after) && next != [] && next[0] in ",]}"
    ensures EndsNumber(after + next) && SkipWs(after + next) == next
  {
    SkipWsOver(after, next);
    assert (after + next)[0] == if after != [] then after[0] else next[0];
  }

  /** One turn of the loop of parseArray, which reads `v` and then stands at `next`. */
  lemma ElementStep(s: string, items: seq<Value>, depth: nat, maxDepth: nat, v: Value, after: string)
    requires ParseValue(SkipWs(s), depth + 1, maxDepth) == Ok(v, after)
    ensures var next := SkipWs(after);
            && (Starts(next, ',') ==>
              ParseElements(s, items, depth, maxDepth) == ParseElements(next[1..], items + [v], depth, maxDepth))
            && (Starts(next, ']') ==> ParseElements(s, items, depth, maxDepth) == Ok(Arr(items + [v]), next[1..]))
  {
    hide ParseValue, SkipWs;
  }

  /** One turn of the loop of parseObject. */
  lemma MemberStep(s: string, before: seq<Member>, depth: nat, maxDepth: nat, key: string, v: Value, after: string)
    requires ParseKey(s).Ok? && ParseKey(s).v == key
    requires ParseValue(SkipWs(ParseKey(s).rest), depth + 1, maxDepth) == Ok(v, after)
    ensures var next, read := SkipWs(after), SetMember(before, key, v);
            && (Starts(next, ',') ==>
              ParseMembers(s, before, depth, maxDepth) == ParseMembers(next[1..], read, depth, maxDepth))
            && (Starts(next, '}') ==> ParseMembers(s, before, depth, maxDepth) == Ok(Obj(read), next[1..]))
  {
    hide ParseValue, SkipWs, ParseKey, SetMember;
  }

  /** Where the cursor stands around the first element. */
  lemma ElementShape(es: Elements, k: string)
    requires ValidElements(es)
    ensures SkipWs(SpellElements(es, k)) == Spell(es.node, es.after + ElementEnd(es, k))
    ensures EndsNumber(es.after + ElementEnd(es, k)) && SkipWs(es.after + ElementEnd(es, k)) == ElementEnd(es, k)
    ensures Starts(ElementEnd(es, k), if es.MoreElements? then ',' else ']')
    ensures ElementEnd(es, k)[1..] == if es.MoreElements? then SpellElements(es.tail, k) else k
  {
    FirstChar(es.node, es.after + ElementEnd(es, k));
    SkipWsAt(es.before, Spell(es.node, es.after + ElementEnd(es, k)));
    AfterValue(es.after, ElementEnd(es, k));
  }

  /** The definitions of this module, one level down an element list. */
  lemma ElementUnfold(es: Elements, room: int)
    requires ValidElements(es) && NestedElements(es, room)
    ensures ValidNode(es.node) && Nested(es.node, room) && room >= 0
    ensures es.MoreElements? ==> ValidElements(es.tail) && NestedElements(es.tail, room)
    ensures ElementsMeaning(es) == [Meaning(es.node)] + if es.MoreElements? then ElementsMeaning(es.tail) else []
  {
  }

  lemma {:induction false} ElementsOver(es: Elements, k: string, items: seq<Value>, depth: nat, maxDepth: nat)
    requires ValidElements(es) && NestedElements(es, maxDepth - depth - 1)
    ensures ParseElements(SpellElements(es, k), items, depth, maxDepth) == Ok(Arr(items + ElementsMeaning(es)), k)
    decreases es, 0
  {
    hide *;
    ElementUnfold(es, maxDepth - depth - 1);
    ElementShape(es, k);
    var m := Meaning(es.node);
    NodeOver(es.node, es.after + ElementEnd(es, k), depth + 1, maxDepth);
    ElementStep(SpellElements(es, k), items, depth, maxDepth, m, es.after + ElementEnd(es, k));
    if es.MoreElements? {
      ElementsOver(es.tail, k, items + [m], depth, maxDepth);
      assert (items + [m]) + ElementsMeaning(es.tail) == items + ElementsMeaning(es);
    } else {
      assert items + [m] == items + ElementsMeaning(es);
    }
  }

  /** Where the cursor stands around the first member. */
  lemma MemberShape(ms: Members, k: string)
    requires ValidMembers(ms)
    ensures var at := ParseKey(SpellMembers(ms, k));
            at.Ok? && at.v == StringMeaning(ms.key.tokens)
            && SkipWs(at.rest) == Spell(ms.node, ms.after + MemberEnd(ms, k))
    ensures EndsNumber(ms.after + MemberEnd(ms, k)) && SkipWs(ms.after + MemberEnd(ms, k)) == MemberEnd(ms, k)
    ensures Starts(MemberEnd(ms, k), if ms.MoreMembers? then ',' else '}')
    ensures MemberEnd(ms, k)[1..] == if ms.MoreMembers? then SpellMembers(ms.tail, k) else k
  {
    var body := Spell(ms.node, ms.after + MemberEnd(ms, k));
    FirstChar(ms.node, ms.after + MemberEnd(ms, k));
    SkipWsAt(ms.key.afterColon, body);
    AfterValue(ms.after, MemberEnd(ms, k));
    KeyOver(ms.key, body);
    hide ParseKey, SpellKey, Spell, StringMeaning, SkipWs;
  }

  lemma MemberUnfold(ms: Members, before: seq<Member>, room: int)
    requires ValidMembers(ms) && NestedMembers(ms, room)
    ensures ValidNode(ms.node) && Nested(ms.node, room) && room >= 0 && ValidTokens(ms.key.tokens)
    ensures ms.MoreMembers? ==> ValidMembers(ms.tail) && NestedMembers(ms.tail, room)
    ensures var read := SetMember(before, StringMeaning(ms.key.tokens), Meaning(ms.node));
            MembersMeaning(ms, before) == if ms.MoreMembers? then MembersMeaning(ms.tail, read) else read
  {
  }

  lemma {:induction false} MembersOver(ms: Members, k: string, before: seq<Member>, depth: nat, maxDepth: nat)
    requires ValidMembers(ms) && NestedMembers(ms, maxDepth - depth - 1)
    ensures ParseMembers(SpellMembers(ms, k), before, depth, maxDepth) == Ok(Obj(MembersMeaning(ms, before)), k)
    decreases ms, 0
  {
    hide *;
    MemberUnfold(ms, before, maxDepth - depth - 1);
    MemberShape(ms, k);
    var name := StringMeaning(ms.key.tokens);
    NodeOver(ms.node, ms.after + MemberEnd(ms, k), depth + 1, maxDepth);
    MemberStep(SpellMembers(ms, k), before, depth, maxDepth, name, Meaning(ms.node), ms.after + MemberEnd(ms, k));
    if ms.MoreMembers? {
      MembersOver(ms.tail, k, SetMember(before, name, Meaning(ms.node)), depth, maxDepth);
    }
  }

  // ---- soundness: every parse is the reading of some tree ----------------------

  lemma {:induction false} WsSkipped(s: string) returns (ws: string)
    ensures AllWs(ws) && s == ws + SkipWs(s)
    decreases |s|
  {
    if s != [] && IsWs(s[0]) {
      var w := WsSkipped(s[1..]);
      ws := [s[0]] + w;
    } else {
      ws := [];
    }
  }

  lemma Hex4Sound(s: string) returns (hex: string)
    requires ParseHex4(s).Ok?
    ensures IsHex4(hex) && s == hex + ParseHex4(s).rest && ParseHex4(s).v == HexValue(hex)
  {
    hex := s[..4];
  }

  lemma {:induction false} CharsSound(s: string, out: string) returns (ts: seq<Token>)
    requires ParseChars(s, out).Ok?
    ensures ValidTokens(ts) && s == SpellTokens(ts, ['"'] + ParseChars(s, out).rest)
    decreases |s|
  {
    if s[0] == '"' {
      ts := [];
    } else {
      if s[0] != '\\' {
        assert s == [s[0]] + s[1..];
        var tail := CharsSound(s[1..], out + [s[0]]);
        ts := [Raw(s[0])] + tail;
      } else if s[1] != 'u' {
        assert s == ['\\', s[1]] + s[2..];
        var tail := CharsSound(s[2..], out + [Unescape(s[1]).value]);
        ts := [Esc(s[1])] + tail;
      } else {
        ts := UnicodeSound(s, out);
      }
    }
  }

  lemma {:induction false} UnicodeSound(s: string, out: string) returns (ts: seq<Token>)
    requires ParseChars(s, out).Ok? && |s| >= 2 && s[0] == '\\' && s[1] == 'u'
    ensures ValidTokens(ts) && s == SpellTokens(ts, ['"'] + ParseChars(s, out).rest)
    decreases |s|, 0
  {
    var h := ParseHex4(s[2..]);
    var hex := Hex4Sound(s[2..]);
    assert s == ['\\', 'u'] + (hex + h.rest);
    if High(h.v) && |h.rest| >= 2 && h.rest[0] == '\\' && h.rest[1] == 'u' && Low(ParseHex4(h.rest[2..]).v) {
      var l := ParseHex4(h.rest[2..]);
      var hex2 := Hex4Sound(h.rest[2..]);
      assert h.rest == ['\\', 'u'] + (hex2 + l.rest);
      var tail := CharsSound(l.rest, out + Utf8.Encode(Combine(h.v, l.v)));
      ts := [Uni(hex)] + ([Uni(hex2)] + tail);
      assert ts[1..] == [Uni(hex2)] + tail && ts[1..][1..] == tail;
    } else {
      var tail := CharsSound(h.rest, out + Utf8.Encode(h.v));
      ts := [Uni(hex)] + tail;
      assert ts[1..] == tail;
    }
  }

  lemma StringSound(s: string) returns (ts: seq<Token>)
    requires ParseString(s).Ok?
    ensures ValidTokens(ts) && s == SpellString(ts, ParseString(s).rest)
  {
    ts := CharsSound(s[1..], "");
    assert s == ['"'] + s[1..];
  }

  lemma KeySound(s: string) returns (key: Key)
    requires ParseKey(s).Ok?
    ensures ValidKey(key) && s == SpellKey(key, SkipWs(ParseKey(s).rest))
  {
    var before := WsSkipped(s);
    var k := ParseString(SkipWs(s));
    var ts := StringSound(SkipWs(s));
    var mid := WsSkipped(k.rest);
    var t := SkipWs(k.rest);
    var after := WsSkipped(t[1..]);
    assert t == [':'] + t[1..];
    key := Key(before, ts, mid, after);
  }

  lemma {:induction false} ValueSound(s: string, depth: nat, maxDepth: nat) returns (n: Node)
    requires ParseValue(s, depth, maxDepth).Ok?
    ensures ValidNode(n) && Nested(n, maxDepth - depth) && s == Spell(n, ParseValue(s, depth, maxDepth).rest)
    decreases |s|, 0
  {
    if s[0] == '[' && !Starts(SkipWs(s[1..]), ']') {
      EnterStep(s, depth, maxDepth);
      assert s == ['['] + s[1..];
      hide ParseValue, ParseElements, SpellElements, NestedElements, ValidElements;
      var es := ElementsSound(s[1..], [], depth, maxDepth);
      n := Array(es);
    } else if s[0] == '{' && !Starts(SkipWs(s[1..]), '}') {
      EnterStep(s, depth, maxDepth);
      assert s == ['{'] + s[1..];
      hide ParseValue, ParseMembers, SpellMembers, NestedMembers, ValidMembers;
      var ms := MembersSound(s[1..], [], depth, maxDepth);
      n := Object(ms);
    } else {
      n := LeafSound(s, depth, maxDepth);
    }
  }

  lemma LeafSound(s: string, depth: nat, maxDepth: nat) returns (n: Node)
    requires ParseValue(s, depth, maxDepth).Ok?
    requires s[0] == '[' ==> Starts(SkipWs(s[1..]), ']')
    requires s[0] == '{' ==> Starts(SkipWs(s[1..]), '}')
    ensures ValidNode(n) && Nested(n, maxDepth - depth) && s == Spell(n, ParseValue(s, depth, maxDepth).rest)
  {
    hide ParseElements, ParseMembers, ParseNum, NumText, SpellString, ParseString, SkipWs;
    var r := ParseValue(s, depth, maxDepth);
    if s[0] in "ntf" {
      n := Literal(r.v);
      assert s == Word(r.v) + r.rest;
    } else if s[0] == '"' {
      var ts := StringSound(s);
      n := Quoted(ts);
    } else if s[0] == '[' || s[0] == '{' {
      var t := SkipWs(s[1..]);
      var ws := WsSkipped(s[1..]);
      assert t == [t[0]] + t[1..];
      assert s == [s[0]] + (ws + t);
      n := if s[0] == '[' then EmptyArray(ws) else EmptyObject(ws);
    } else {
      ParseNumSound(s);
      n := Number(ParseNum(s).v);
    }
  }

  lemma {:induction false} ElementsSound(s: string, items: seq<Value>, depth: nat, maxDepth: nat) returns (es: Elements)
    requires ParseElements(s, items, depth, maxDepth).Ok?
    ensures ValidElements(es) && NestedElements(es, maxDepth - depth - 1)
    ensures s == SpellElements(es, ParseElements(s, items, depth, maxDepth).rest)
    decreases |s|, 1
  {
    hide ParseElements, ParseValue, SkipWs, Spell, Nested, ValidNode;
    ElementParts(s, items, depth, maxDepth);
    var before := WsSkipped(s);
    var v := ParseValue(SkipWs(s), depth + 1, maxDepth);
    var n := ValueSound(SkipWs(s), depth + 1, maxDepth);
    var after := WsSkipped(v.rest);
    var t := SkipWs(v.rest);
    assert t == [t[0]] + t[1..];
    if t[0] == ',' {
      var tail := ElementsSound(t[1..], items + [v.v], depth, maxDepth);
      es := MoreElements(before, n, after, tail);
    } else {
      es := LastElement(before, n, after);
    }
  }

  /** A successful turn of the loop of parseArray, taken apart. */
  lemma ElementParts(s: string, items: seq<Value>, depth: nat, maxDepth: nat)
    requires ParseElements(s, items, depth, maxDepth).Ok?
    ensures ParseValue(SkipWs(s), depth + 1, maxDepth).Ok?
    ensures var v := ParseValue(SkipWs(s), depth + 1, maxDepth);
            var next := SkipWs(v.rest);
            (Starts(next, ',')
             && ParseElements(s, items, depth, maxDepth) == ParseElements(next[1..], items + [v.v], depth, maxDepth))
            || (Starts(next, ']') && ParseElements(s, items, depth, maxDepth) == Ok(Arr(items + [v.v]), next[1..]))
  {
    hide ParseValue, SkipWs;
  }

  /** A successful turn of the loop of parseObject, taken apart. */
  lemma MemberParts(s: string, before: seq<Member>, depth: nat, maxDepth: nat)
    requires ParseMembers(s, before, depth, maxDepth).Ok?
    ensures ParseKey(s).Ok? && ParseValue(SkipWs(ParseKey(s).rest), depth + 1, maxDepth).Ok?
    ensures var v := ParseValue(SkipWs(ParseKey(s).rest), depth + 1, maxDepth);
            var next, read := SkipWs(v.rest), SetMember(before, ParseKey(s).v, v.v);
            (Starts(next, ',')
             && ParseMembers(s, before, depth, maxDepth) == ParseMembers(next[1..], read, depth, maxDepth))
            || (Starts(next, '}') && ParseMembers(s, before, depth, maxDepth) == Ok(Obj(read), next[1..]))
  {
    hide ParseValue, SkipWs, ParseKey, SetMember;
  }

  lemma {:induction false} MembersSound(s: string, before: seq<Member>, depth: nat, maxDepth: nat) returns (ms: Members)
    requires ParseMembers(s, before, depth, maxDepth).Ok?
    ensures ValidMembers(ms) && NestedMembers(ms, maxDepth - depth - 1)
    ensures s == SpellMembers(ms, ParseMembers(s, before, depth, maxDepth).rest)
    decreases |s|, 1
  {
    hide ParseMembers, ParseValue, ParseKey, SetMember, SkipWs, SpellKey, Spell, Nested, ValidNode;
    MemberParts(s, before, depth, maxDepth);
    var key := KeySound(s);
    var k := ParseKey(s);
    var v := ParseValue(SkipWs(k.rest), depth + 1, maxDepth);
    var n := ValueSound(SkipWs(k.rest), depth + 1, maxDepth);
    var after := WsSkipped(v.rest);
    var t := SkipWs(v.rest);
    assert t == [t[0]] + t[1..];
    if t[0] == ',' {
      var tail := MembersSound(t[1..], SetMember(before, k.v, v.v), depth, maxDepth);
      ms := MoreMembers(key, n, after, tail);
    } else {
      ms := LastMember(key, n, after);
    }
  }

  // ---- the two together ---------------------------------------------------------

  /** `d` spells `text` and nests at most `maxDepth` levels. */
  predicate Derives(d: Document, text: string, maxDepth: nat) {
    ValidDocument(d) && Nested(d.node, maxDepth) && SpellDocument(d) == text
  }

  lemma DocumentParses(d: Document, text: string, maxDepth: nat)
    requires Derives(d, text, maxDepth)
    ensures ParseDocument(text, maxDepth) == Some(Meaning(d.node))
  {
    SkipWsOver(d.before, Spell(d.node, d.after));
    FirstChar(d.node, d.after);
    NodeOver(d.node, d.after, 0, maxDepth);
    assert d.after + [] == d.after;
    SkipWsOver(d.after, []);
  }

  lemma DocumentSound(text: string, maxDepth: nat) returns (d: Document)
    requires ParseDocument(text, maxDepth).Some?
    ensures Derives(d, text, maxDepth)
  {
    var before := WsSkipped(text);
    var v := ParseValue(SkipWs(text), 0, maxDepth);
    var n := ValueSound(SkipWs(text), 0, maxDepth);
    var after := WsSkipped(v.rest);
    assert v.rest == after;
    d := Document(before, n, after);
  }

  /**
   The parser succeeds exactly on the texts of the grammar with at most
   `maxDepth` levels of nesting, and returns what the derivation means.
   */
  lemma ParserIsExact(text: string, maxDepth: nat)
    ensures ParseDocument(text, maxDepth).Some? <==> exists d :: Derives(d, text, maxDepth)
    ensures forall d :: Derives(d, text, maxDepth) ==> ParseDocument(text, maxDepth) == Some(Meaning(d.node))
  {
    forall d | Derives(d, text, maxDepth)
      ensures ParseDocument(text, maxDepth) == Some(Meaning(d.node))
    {
      DocumentParses(d, text, maxDepth);
    }
    if ParseDocument(text, maxDepth).Some? {
      var d := DocumentSound(text, maxDepth);
    }
  }

  /** The grammar is unambiguous in meaning: a text has one value, however it is derived. */
  lemma OneMeaning(d: Document, e: Document, m: nat)
    requires Derives(d, SpellDocument(e), m) && Derives(e, SpellDocument(e), m)
    ensures Meaning(d.node) == Meaning(e.node)
  {
    DocumentParses(d, SpellDocument(e), m);
    DocumentParses(e, SpellDocument(e), m);
  }

  lemma {:induction false} DeeperNode(n: Node, low: int, high: int)
    requires Nested(n, low) && low <= high
    ensures Nested(n, high)
    decreases n
  {
    if n.Array? {
      DeeperElements(n.elements, low - 1, high - 1);
    } else if n.Object? {
      DeeperMembers(n.members, low - 1, high - 1);
    }
  }

  lemma {:induction false} DeeperElements(es: Elements, low: int, high: int)
    requires NestedElements(es, low) && low <= high
    ensures NestedElements(es, high)
    decreases es
  {
    DeeperNode(es.node, low, high);
    if es.MoreElements? {
      DeeperElements(es.tail, low, high);
    }
  }

  lemma {:induction false} DeeperMembers(ms: Members, low: int, high: int)
    requires NestedMembers(ms, low) && low <= high
    ensures NestedMembers(ms, high)
    decreases ms
  {
    DeeperNode(ms.node, low, high);
    if ms.MoreMembers? {
      DeeperMembers(ms.tail, low, high);
    }
  }

  /** The depth limit only decides whether a text is accepted, never what it means. */
  lemma LimitOnlyRejects(text: string, low: nat, high: nat)
    requires low <= high && ParseDocument(text, low).Some?
    ensures ParseDocument(text, high) == ParseDocument(text, low)
  {
    var d := DocumentSound(text, low);
    DeeperNode(d.node, low, high);
    DocumentParses(d, text, low);
    DocumentParses(d, text, high);
  }
}
