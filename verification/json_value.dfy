/**
 The JSON value type of src/core/Json.cpp and its member table.
 */
module JsonValue {
  import opened Text

  type Int64 = i: int | FitsInt64(i)

  /** A JSON number literal, split as section 6 of RFC 8259 splits it. */
  datatype Num = Num(negative: bool, whole: string, fraction: Option<string>, exponent: Option<Exp>)

  /** `mark` is 'e' or 'E', `sign` is empty, "+" or "-". */
  datatype Exp = Exp(mark: char, sign: string, digits: string)

  predicate ValidExp(e: Exp) {
    (e.mark == 'e' || e.mark == 'E') && (e.sign == "" || e.sign == "+" || e.sign == "-")
    && e.digits != "" && AllDigits(e.digits)
  }

  predicate ValidNum(n: Num) {
    && n.whole != "" && AllDigits(n.whole) && (n.whole[0] == '0' ==> n.whole == "0")
    && (n.fraction.Some? ==> n.fraction.value != "" && AllDigits(n.fraction.value))
    && (n.exponent.Some? ==> ValidExp(n.exponent.value))
  }

  predicate HasPoint(n: Num) { n.fraction.Some? || n.exponent.Some? }

  function FractionText(fraction: Option<string>): string {
    if fraction.Some? then "." + fraction.value else ""
  }

  function ExponentText(exponent: Option<Exp>): string {
    if exponent.Some? then [exponent.value.mark] + (exponent.value.sign + exponent.value.digits) else ""
  }

  function NumText(n: Num): string {
    (if n.negative then "-" else "") + (n.whole + (FractionText(n.fraction) + ExponentText(n.exponent)))
  }

  function Power(base: nat, e: nat): (r: nat)
    ensures base >= 1 ==> r >= 1
  {
    if e == 0 then 1 else base * Power(base, e - 1)
  }

  /** 2^1024 - 2^970, half way from the largest double to 2^1024: from here on strtod rounds to infinity. */
  const TOO_LARGE: nat := 0x3F_FFFF_FFFF_FFFF * Power(2, 970)

  function FractionDigits(n: Num): string { if n.fraction.Some? then n.fraction.value else "" }

  function ExponentValue(n: Num): int
    requires ValidNum(n)
  {
    if n.exponent.None? then 0
    else
      var e: int := DecimalValue(n.exponent.value.digits);
      if n.exponent.value.sign == "-" then -e else e
  }

  /** The number is too large for a double: its digits, times a power of ten, reach the bound. */
  predicate Overflows(n: Num)
    requires ValidNum(n)
  {
    ReachesBound(DecimalValue(n.whole + FractionDigits(n)), ExponentValue(n) - |FractionDigits(n)|)
  }

  predicate ReachesBound(digits: nat, e: int) {
    if e >= 0 then digits * Power(10, e) >= TOO_LARGE else digits >= TOO_LARGE * Power(10, -e)
  }

  /** A literal that reads back as a finite floating point number. */
  type DoubleLiteral = n: Num | ValidNum(n) && HasPoint(n) && !Overflows(n) witness Zero()

  function Zero(): (n: Num)
    ensures ValidNum(n) && HasPoint(n) && !Overflows(n)
  {
    assert "0" + "0" == "00" && "00"[..1] == "0" && "0"[..0] == "";
    assert DecimalValue("") == 0 && DecimalValue("0") == 0 && DecimalValue("00") == 0;
    SmallNumber(0, 1);
    Num(false, "0", Some("0"), None)
  }

  lemma SmallNumber(digits: nat, places: nat)
    requires digits < TOO_LARGE
    ensures digits < TOO_LARGE * Power(10, places)
  {
    var p := Power(10, places);
    assert TOO_LARGE * p == TOO_LARGE + TOO_LARGE * (p - 1);
  }

  /**
   A double, carried as the literal that prints it: strtod and "%.17g" are
   calls into the C library.  `NonFinite` stands for the infinities and NaN.
   */
  datatype Double = NonFinite | Finite(literal: DoubleLiteral)

  datatype Value =
    | Null
    | Bool(b: bool)
    | Integer(i: Int64)
    | Real(d: Double)
    | Str(s: string)
    | Arr(items: seq<Value>)
    | Obj(members: seq<Member>)

  /** Objects are vectors of pairs: insertion order is kept. */
  datatype Member = Member(key: string, value: Value)

  predicate UniqueKeys(members: seq<Member>) {
    forall i, j :: 0 <= i < j < |members| ==> members[i].key != members[j].key
  }

  /** The first position holding `key`, or -1. */
  function IndexOfKey(members: seq<Member>, key: string): (r: int)
    ensures -1 <= r < |members|
    ensures r >= 0 ==> members[r].key == key && forall i :: 0 <= i < r ==> members[i].key != key
    ensures r < 0 ==> forall i :: 0 <= i < |members| ==> members[i].key != key
  {
    if members == [] then -1
    else if members[0].key == key then 0
    else
      var r := IndexOfKey(members[1..], key);
      if r < 0 then -1 else r + 1
  }

  function FindMember(members: seq<Member>, key: string): Option<Value> {
    var at := IndexOfKey(members, key);
    if at < 0 then None else Some(members[at].value)
  }

  /** Replace the first member with this key, or append one. */
  function SetMember(members: seq<Member>, key: string, value: Value): (r: seq<Member>)
    ensures UniqueKeys(members) ==> UniqueKeys(r)
    ensures |members| <= |r|
  {
    var at := IndexOfKey(members, key);
    if at < 0 then members + [Member(key, value)] else members[at := Member(key, value)]
  }

  /** Value::find: an absent key, and any value that is not an object, give nothing. */
  function Lookup(v: Value, key: string): Option<Value> {
    if v.Obj? then FindMember(v.members, key) else None
  }

  /** What `set` stores is what `find` returns, and no other key is disturbed. */
  lemma FindAfterSet(members: seq<Member>, key: string, value: Value, other: string)
    ensures FindMember(SetMember(members, key, value), other)
         == if other == key then Some(value) else FindMember(members, other)
  {
    var after, at := SetMember(members, key, value), IndexOfKey(members, key);
    forall k | 0 <= k < |members| && k != at
      ensures after[k] == members[k]
    {
    }
    var i, j := IndexOfKey(members, other), IndexOfKey(after, other);
    if other != key && i >= 0 {
      assert after[i].key == other;
    }
    if other == key {
      assert after[if at >= 0 then at else |members|].key == key;
    }
    if 0 <= j < |members| && j != at {
      assert members[j].key == other;
    }
  }

  /** The loop of Value::set over the member vector. */
  method Set(members: seq<Member>, key: string, value: Value) returns (r: seq<Member>)
    ensures r == SetMember(members, key, value)
  {
    var i := 0;
    while i < |members|
      invariant 0 <= i <= |members|
      invariant forall k :: 0 <= k < i ==> members[k].key != key
    {
      if members[i].key == key {
        return members[i := Member(key, value)];
      }
      i := i + 1;
    }
    return members + [Member(key, value)];
  }

  // ---- values a printed text can carry -------------------------------------

  /** No double is infinite or NaN, at any depth. */
  predicate AllFinite(v: Value) {
    match v
    case Real(d) => d.Finite?
    case Arr(items) => forall i :: 0 <= i < |items| ==> AllFinite(items[i])
    case Obj(members) => forall i :: 0 <= i < |members| ==> AllFinite(members[i].value)
    case _ => true
  }

  /** No object repeats a key, at any depth. */
  predicate KeysDiffer(v: Value) {
    match v
    case Arr(items) => forall i :: 0 <= i < |items| ==> KeysDiffer(items[i])
    case Obj(members) => UniqueKeys(members) && forall i :: 0 <= i < |members| ==> KeysDiffer(members[i].value)
    case _ => true
  }

  /** No object repeats a key and no double is infinite or NaN, at any depth. */
  predicate Canonical(v: Value) {
    match v
    case Real(d) => d.Finite?
    case Arr(items) => forall i :: 0 <= i < |items| ==> Canonical(items[i])
    case Obj(members) => UniqueKeys(members) && forall i :: 0 <= i < |members| ==> Canonical(members[i].value)
    case _ => true
  }

  lemma {:induction false} CanonicalIs(v: Value)
    ensures Canonical(v) <==> AllFinite(v) && KeysDiffer(v)
    decreases v
  {
    match v
    case Arr(items) =>
      forall i | 0 <= i < |items| ensures Canonical(items[i]) <==> AllFinite(items[i]) && KeysDiffer(items[i]) {
        CanonicalIs(items[i]);
      }
    case Obj(members) =>
      forall i | 0 <= i < |members|
        ensures Canonical(members[i].value) <==> AllFinite(members[i].value) && KeysDiffer(members[i].value)
      {
        CanonicalIs(members[i].value);
      }
    case _ =>
  }

  /** Every node sits at most `room` levels below this one. */
  predicate FitsDepth(v: Value, room: int) {
    0 <= room &&
    match v
    case Arr(items) => forall i :: 0 <= i < |items| ==> FitsDepth(items[i], room - 1)
    case Obj(members) => forall i :: 0 <= i < |members| ==> FitsDepth(members[i].value, room - 1)
    case _ => true
  }
}
