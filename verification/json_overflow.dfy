/**
 Numbers beyond the range of doubles (parseNumber, formatDouble and dumpInto in
 src/core/Json.cpp): strtod makes them infinite, and an infinity prints as null.
 Exactly the texts without such a number, in a member that counts, come through.
 */
module JsonOverflow {
  import opened Text
  import opened JsonValue
  import opened JsonParse
  import opened JsonPrint
  import opened JsonRoundTrip
  import opened G = JsonGrammar

  // ---- what a number stands for -----------------------------------------------------

  /** A power of ten, also with a negative exponent. */
  function Scale(e: int): real {
    if e >= 0 then Power(10, e) as real else 1.0 / Power(10, -e) as real
  }

  function Scaled(digits: nat, e: int): real { digits as real * Scale(e) }

  /** The number that a literal of the grammar stands for. */
  function Quantity(n: Num): real
    requires ValidNum(n)
  {
    if n.negative then -Magnitude(n) else Magnitude(n)
  }

  function Magnitude(n: Num): real
    requires ValidNum(n)
  {
    Scaled(DecimalValue(n.whole + FractionDigits(n)), ExponentValue(n) - |FractionDigits(n)|)
  }

  /**
   Parsing keeps the number, as an integer or as the literal of a double; only what is too large for a double is lost.
   */
  lemma NumValueKeeps(n: Num)
    requires ValidNum(n)
    ensures match NumValue(n)
      case Integer(i) => i as real == Quantity(n)
      case Real(Finite(l)) => Quantity(l) == Quantity(n)
      case Real(NonFinite) => Quantity(n) >= TOO_LARGE as real || -Quantity(n) >= TOO_LARGE as real
      case _ => false
  {
    if HasPoint(n) {
      OverflowIsLarge(n);
    } else {
      WholeQuantity(n);
      OverflowIsLarge(n.(fraction := Some("0")));
    }
    hide Overflows, Quantity, TOO_LARGE, Power;
  }

  lemma WholeQuantity(n: Num)
    requires ValidNum(n) && !HasPoint(n)
    ensures ValidNum(n.(fraction := Some("0")))
    ensures var i: int := DecimalValue(n.whole); Quantity(n) == (if n.negative then -i else i) as real
    ensures Quantity(n.(fraction := Some("0"))) == Quantity(n)
  {
    assert n.whole + "" == n.whole;
    assert (n.whole + "0")[..|n.whole|] == n.whole;
    assert Power(10, 0) == 1 && Power(10, 1) == 10;
    assert DecimalValue(n.whole + "0") == 10 * DecimalValue(n.whole);
    assert AllDigits("0");
    hide Power, DecimalValue;
  }

  lemma OverflowIsLarge(n: Num)
    requires ValidNum(n)
    ensures Overflows(n) ==> Quantity(n) >= TOO_LARGE as real || -Quantity(n) >= TOO_LARGE as real
  {
    var digits, e := DecimalValue(n.whole + FractionDigits(n)), ExponentValue(n) - |FractionDigits(n)|;
    hide DecimalValue, ExponentValue, TOO_LARGE, Scaled, ReachesBound;
    BoundScaled(digits, e);
  }

  lemma BoundScaled(digits: nat, e: int)
    ensures ReachesBound(digits, e) ==> Scaled(digits, e) >= TOO_LARGE as real
  {
    hide Power, TOO_LARGE;
    if e < 0 {
      Divides(digits, TOO_LARGE, Power(10, -e));
    } else {
      assert digits as real * Power(10, e) as real == (digits * Power(10, e)) as real;
    }
  }

  lemma Divides(a: nat, b: nat, p: nat)
    requires p >= 1
    ensures a >= b * p ==> a as real * (1.0 / p as real) >= b as real
  {
    var r := 1.0 / p as real;
    assert p as real * r == 1.0;
    if a >= b * p {
      assert a as real >= (b * p) as real == b as real * p as real;
      assert a as real * r >= (b as real * p as real) * r == b as real * (p as real * r);
    }
  }

  // ---- the numbers that stay -------------------------------------------------------

  predicate NumFits(n: Num)
    requires ValidNum(n)
  {
    !NumValue(n).Real? || NumValue(n).d.Finite?
  }

  predicate HasKey(ms: Members, key: string)
    requires ValidMembers(ms)
    decreases ms
  {
    StringMeaning(ms.key.tokens) == key || (ms.MoreMembers? && HasKey(ms.tail, key))
  }

  /** No number overflows, except below members whose key comes again later in the same object. */
  predicate Fits(n: Node)
    requires ValidNode(n)
    decreases n
  {
    match n
    case Number(num) => NumFits(num)
    case Array(es) => ElementsFit(es)
    case Object(ms) => MembersFit(ms)
    case _ => true
  }

  predicate ElementsFit(es: Elements)
    requires ValidElements(es)
    decreases es
  {
    Fits(es.node) && (es.MoreElements? ==> ElementsFit(es.tail))
  }

  predicate MembersFit(ms: Members)
    requires ValidMembers(ms)
    decreases ms
  {
    && (Fits(ms.node) || (ms.MoreMembers? && HasKey(ms.tail, StringMeaning(ms.key.tokens))))
    && (ms.MoreMembers? ==> MembersFit(ms.tail))
  }

  lemma {:induction false} FitsExactly(n: Node)
    requires ValidNode(n)
    ensures AllFinite(Meaning(n)) <==> Fits(n)
    decreases n
  {
    match n
    case Literal(v) =>
    case Number(num) =>
    case Quoted(ts) =>
    case EmptyArray(_) =>
    case EmptyObject(_) =>
    case Array(es) =>
      ElementsFitExactly(es);
    case Object(ms) =>
      MembersFitExactly(ms, []);
  }

  lemma {:induction false} ElementsFitExactly(es: Elements)
    requires ValidElements(es)
    ensures AllFinite(Arr(ElementsMeaning(es))) <==> ElementsFit(es)
    decreases es
  {
    hide Fits, Meaning;
    FitsExactly(es.node);
    var head := Meaning(es.node);
    var all := ElementsMeaning(es);
    if es.MoreElements? {
      ElementsFitExactly(es.tail);
      FiniteCons(head, ElementsMeaning(es.tail));
    } else {
      FiniteCons(head, []);
    }
  }

  lemma FiniteCons(v: Value, items: seq<Value>)
    ensures AllFinite(Arr([v] + items)) <==> AllFinite(v) && AllFinite(Arr(items))
  {
    assert ([v] + items)[0] == v;
    assert forall i :: 0 <= i < |items| ==> ([v] + items)[i + 1] == items[i];
  }

  /** The members read so far are finite, or will be replaced. */
  ghost predicate Settled(before: seq<Member>, ms: Members)
    requires ValidMembers(ms)
  {
    forall i :: 0 <= i < |before| ==> AllFinite(before[i].value) || HasKey(ms, before[i].key)
  }

  lemma {:induction false} MembersFitExactly(ms: Members, before: seq<Member>)
    requires ValidMembers(ms) && UniqueKeys(before)
    ensures AllFinite(Obj(MembersMeaning(ms, before))) <==> MembersFit(ms) && Settled(before, ms)
    decreases ms
  {
    hide Fits, Meaning, StringMeaning, AllFinite, SetMember;
    FitsExactly(ms.node);
    var key, v := StringMeaning(ms.key.tokens), Meaning(ms.node);
    var now := SetMember(before, key, v);
    SetPlaces(before, key, v);
    if ms.MoreMembers? {
      MembersFitExactly(ms.tail, now);
      SettledNow(ms, before);
    } else {
      LastSettled(ms, before);
    }
  }

  /** What `set` does, place by place. */
  lemma SetPlaces(members: seq<Member>, key: string, v: Value)
    requires UniqueKeys(members)
    ensures var now := SetMember(members, key, v);
      && UniqueKeys(now) && |members| <= |now|
      && (exists i :: 0 <= i < |now| && now[i] == Member(key, v))
      && (forall i :: 0 <= i < |members| && members[i].key != key ==> now[i] == members[i])
      && (forall i :: 0 <= i < |now| ==>
        now[i] == Member(key, v) || (i < |members| && now[i] == members[i] && members[i].key != key))
  {
    var at, now := IndexOfKey(members, key), SetMember(members, key, v);
    assert now[if at < 0 then |members| else at] == Member(key, v);
  }

  lemma SettledNow(ms: Members, before: seq<Member>)
    requires ValidMembers(ms) && ms.MoreMembers? && UniqueKeys(before)
    requires Fits(ms.node) <==> AllFinite(Meaning(ms.node))
    ensures var now := SetMember(before, StringMeaning(ms.key.tokens), Meaning(ms.node));
      MembersFit(ms.tail) && Settled(now, ms.tail) <==> MembersFit(ms) && Settled(before, ms)
  {
    hide Fits, Meaning, StringMeaning, AllFinite, SetMember;
    var key, v := StringMeaning(ms.key.tokens), Meaning(ms.node);
    var now := SetMember(before, key, v);
    SetPlaces(before, key, v);
    if Settled(now, ms.tail) {
      forall i | 0 <= i < |before| ensures AllFinite(before[i].value) || HasKey(ms, before[i].key) {
        assert before[i].key != key ==> now[i] == before[i];
      }
    }
    if MembersFit(ms) && Settled(before, ms) {
      forall i | 0 <= i < |now| ensures AllFinite(now[i].value) || HasKey(ms.tail, now[i].key) {
      }
    }
  }

  lemma LastSettled(ms: Members, before: seq<Member>)
    requires ValidMembers(ms) && !ms.MoreMembers? && UniqueKeys(before)
    requires Fits(ms.node) <==> AllFinite(Meaning(ms.node))
    ensures var now := SetMember(before, StringMeaning(ms.key.tokens), Meaning(ms.node));
      AllFinite(Obj(now)) <==> MembersFit(ms) && Settled(before, ms)
  {
    hide Fits, Meaning, StringMeaning, SetMember;
    var key, v := StringMeaning(ms.key.tokens), Meaning(ms.node);
    var now := SetMember(before, key, v);
    SetPlaces(before, key, v);
    assert AllFinite(Obj(now)) <==> forall i :: 0 <= i < |now| ==> AllFinite(now[i].value);
    hide AllFinite;
    if forall i :: 0 <= i < |now| ==> AllFinite(now[i].value) {
      forall i | 0 <= i < |before| ensures AllFinite(before[i].value) || HasKey(ms, before[i].key) {
        assert before[i].key != key ==> now[i] == before[i];
      }
    }
  }

  // ---- what comes through ---------------------------------------------------------------

  /** What a document parses to is canonical exactly if no number that counts overflows. */
  lemma ParsedIsCanonical(d: Document, text: string, maxDepth: nat)
    requires Derives(d, text, maxDepth)
    ensures ParseDocument(text, maxDepth).Some?
    ensures KeysDiffer(ParseDocument(text, maxDepth).value) && FitsDepth(ParseDocument(text, maxDepth).value, maxDepth)
    ensures Canonical(ParseDocument(text, maxDepth).value) <==> Fits(d.node)
  {
    DocumentParses(d, text, maxDepth);
    FitsExactly(d.node);
    ParsedIsTidy(SkipWs(text), 0, maxDepth);
    CanonicalIs(ParseDocument(text, maxDepth).value);
  }

  /** A parsed document, printed and parsed again, is unchanged exactly if no number that counts overflows. */
  lemma ParsePrintParse(d: Document, text: string, indent: int, maxDepth: nat)
    requires Derives(d, text, maxDepth)
    ensures ParseDocument(text, maxDepth).Some?
    ensures ParseDocument(DumpText(ParseDocument(text, maxDepth).value, indent), maxDepth)
      == ParseDocument(text, maxDepth)
      <==> Fits(d.node)
  {
    ParsedIsCanonical(d, text, maxDepth);
    hide *;
    var v := ParseDocument(text, maxDepth).value;
    PrintedTextParses(v, indent, maxDepth);
    NormalIsCanonical(v);
    if Canonical(v) {
      CanonicalIsNormal(v);
    }
  }

  // ---- an input that does not ----------------------------------------------------------

  lemma {:induction false} TwosBelowTens(k: nat)
    ensures Power(2, 3 * k) <= Power(10, k)
  {
    if k > 0 {
      TwosBelowTens(k - 1);
      assert Power(2, 3 * k - 2) == 2 * Power(2, 3 * k - 3);
      assert Power(2, 3 * k - 1) == 2 * Power(2, 3 * k - 2);
    }
  }

  lemma {:induction false} PowerGrows(base: nat, m: nat, n: nat)
    requires base >= 1 && m <= n
    ensures Power(base, m) <= Power(base, n)
  {
    if m < n {
      PowerGrows(base, m, n - 1);
      assert base * Power(base, n - 1) >= Power(base, n - 1);
    }
  }

  lemma {:induction false} PowerAdds(base: nat, m: nat, n: nat)
    ensures Power(base, m + n) == Power(base, m) * Power(base, n)
  {
    if m > 0 {
      PowerStep(base, m);
      PowerStep(base, m + n);
      hide Power;
      PowerAdds(base, m - 1, n);
      Associates(base, Power(base, m - 1), Power(base, n));
    } else {
      assert Power(base, 0) == 1;
    }
  }

  lemma PowerStep(base: nat, m: nat)
    requires m > 0
    ensures Power(base, m) == base * Power(base, m - 1)
  {
  }

  lemma Associates(a: nat, x: nat, y: nat)
    ensures a * (x * y) == (a * x) * y
  {
  }

  lemma LargeIsTooLarge(e: nat)
    requires e >= 342
    ensures Power(10, e) >= TOO_LARGE
  {
    TwosBelowTens(342);
    PowerGrows(2, 1024, 1026);
    PowerGrows(10, 342, e);
    PowerAdds(2, 54, 970);
    Power54();
    hide Power;
  }

  lemma Power54()
    ensures Power(2, 54) == 0x40_0000_0000_0000
  {
    assert Power(2, 10) == 0x400;
    assert Power(2, 20) == 0x10_0000;
    assert Power(2, 30) == 0x4000_0000;
    assert Power(2, 40) == 0x100_0000_0000;
    assert Power(2, 54) == 0x40_0000_0000_0000;
  }

  const HUGE: Num := Num(false, "1", None, Some(Exp('e', "", "999")))

  lemma HugeOverflows()
    ensures ValidNum(HUGE) && Overflows(HUGE) && NumText(HUGE) == "1e999"
  {
    assert "1" + "" == "1";
    HugeParts();
    hide Power, TOO_LARGE, DecimalValue, ExponentValue;
    LargeIsTooLarge(999);
  }

  lemma HugeParts()
    ensures ValidNum(HUGE) && DecimalValue("1") == 1 && ExponentValue(HUGE) == 999
  {
    hide Power;
    assert "1"[..0] == "" && "999"[..2] == "99" && "99"[..1] == "9" && "9"[..0] == "";
    assert DecimalValue("") == 0 && DecimalValue("9") == 9 && DecimalValue("99") == 99 && DecimalValue("999") == 999;
  }

  /** 1e999 parses to an infinity, which prints as null, which parses to null. */
  lemma HugeIsLost(indent: int, maxDepth: nat)
    ensures ParseDocument("1e999", maxDepth) == Some(Real(NonFinite))
    ensures ParseDocument(DumpText(Real(NonFinite), indent), maxDepth) == Some(Null)
  {
    HugeOverflows();
    hide Power, Overflows;
    var d := Document("", Number(HUGE), "");
    assert NumText(HUGE) + "" == "1e999" && "" + "1e999" == "1e999";
    assert Derives(d, "1e999", maxDepth);
    DocumentParses(d, "1e999", maxDepth);
    PrintedTextParses(Real(NonFinite), indent, maxDepth);
  }
}
