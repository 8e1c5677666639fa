/**
 Byte-string helpers shared by the other modules (src/core/StringUtils.cpp).

 A `string` stands for a C++ std::string: each char is one byte.  Nothing below
 depends on a char being smaller than 256, so every result also holds for the
 byte strings the program really sees.
 */
module Text {

  datatype Option<+T> = None | Some(value: T)

  /** One more than the largest number that 64 bits hold. */
  const WORD: int := 0x1_0000_0000_0000_0000

  // ---- character classes, in the C locale --------------------------------

  predicate IsSpace(c: char) { c == ' ' || '\t' <= c <= '\r' }

  predicate IsDigit(c: char) { '0' <= c <= '9' }

  predicate IsAlpha(c: char) { 'a' <= c <= 'z' || 'A' <= c <= 'Z' }

  predicate IsAlnum(c: char) { IsAlpha(c) || IsDigit(c) }

  function LowerChar(c: char): char {
    if 'A' <= c <= 'Z' then c + (32 as char) else c
  }

  function UpperChar(c: char): char {
    if 'a' <= c <= 'z' then c - (32 as char) else c
  }

  function Lower(s: string): (r: string)
    ensures |r| == |s| && forall i :: 0 <= i < |s| ==> r[i] == LowerChar(s[i])
  {
    seq(|s|, i requires 0 <= i < |s| => LowerChar(s[i]))
  }

  function Upper(s: string): (r: string)
    ensures |r| == |s| && forall i :: 0 <= i < |s| ==> r[i] == UpperChar(s[i])
  {
    seq(|s|, i requires 0 <= i < |s| => UpperChar(s[i]))
  }

  lemma LowerIdempotent(s: string)
    ensures Lower(Lower(s)) == Lower(s)
  {
    assert forall i :: 0 <= i < |s| ==> Lower(Lower(s))[i] == Lower(s)[i];
  }

  // ---- trimming -----------------------------------------------------------

  function TrimLeft(s: string): (r: string)
    ensures |r| <= |s| && r == s[|s| - |r|..]
    ensures r == [] || !IsSpace(r[0])
    ensures forall i :: 0 <= i < |s| - |r| ==> IsSpace(s[i])
  {
    if s != [] && IsSpace(s[0]) then TrimLeft(s[1..]) else s
  }

  function TrimRight(s: string): (r: string)
    ensures |r| <= |s| && r == s[..|r|]
    ensures r == [] || !IsSpace(r[|r| - 1])
    ensures forall i :: |r| <= i < |s| ==> IsSpace(s[i])
  {
    if s != [] && IsSpace(s[|s| - 1]) then TrimRight(s[..|s| - 1]) else s
  }

  function Trim(s: string): string { TrimRight(TrimLeft(s)) }

  /** Text that trimming leaves alone. */
  predicate Trimmed(s: string) {
    s != [] ==> !IsSpace(s[0]) && !IsSpace(s[|s| - 1])
  }

  lemma TrimExact(s: string)
    ensures Trimmed(Trim(s))
    ensures Trim(s) == s <==> Trimmed(s)
  {
    var l := TrimLeft(s);
    if Trim(s) != [] {
      assert Trim(s)[0] == l[0];
    }
  }

  // ---- searching ----------------------------------------------------------

  /** `pat` occurs in `s` at index `i`. */
  predicate At(s: string, pat: string, i: nat) {
    i + |pat| <= |s| && s[i..i + |pat|] == pat
  }

  /** std::string::find: the first occurrence at or after `from`, or -1. */
  function Find(s: string, pat: string, from: nat): (r: int)
    ensures r < 0 ==> r == -1 && forall i: nat :: from <= i ==> !At(s, pat, i)
    ensures r >= 0 ==> from <= r && At(s, pat, r) && forall i: nat :: from <= i < r ==> !At(s, pat, i)
    decreases |s| - from
  {
    if from + |pat| > |s| then -1
    else if At(s, pat, from) then from
    else Find(s, pat, from + 1)
  }

  predicate Contains(s: string, pat: string) { Find(s, pat, 0) >= 0 }

  /** The index of the first `c`, or |s| when there is none. */
  function IndexOf(s: string, c: char): (r: nat)
    ensures r <= |s|
    ensures forall i :: 0 <= i < r ==> s[i] != c
    ensures r < |s| ==> s[r] == c
  {
    if s == [] || s[0] == c then 0 else 1 + IndexOf(s[1..], c)
  }

  /** The index of the last `c`, or -1 when there is none. */
  function LastIndexOf(s: string, c: char): (r: int)
    ensures -1 <= r < |s|
    ensures forall i :: r < i < |s| ==> s[i] != c
    ensures r >= 0 ==> s[r] == c
  {
    if s == [] then -1
    else if s[|s| - 1] == c then |s| - 1
    else LastIndexOf(s[..|s| - 1], c)
  }

  // ---- hexadecimal digits ---------------------------------------------------

  predicate IsHex(c: char) { IsDigit(c) || 'a' <= c <= 'f' || 'A' <= c <= 'F' }

  function HexDigit(c: char): (n: nat)
    requires IsHex(c)
    ensures n < 16
  {
    if IsDigit(c) then c as int - '0' as int
    else if 'a' <= c then c as int - 'a' as int + 10
    else c as int - 'A' as int + 10
  }

  function HexChar(n: nat): (c: char)
    requires n < 16
    ensures IsHex(c) && HexDigit(c) == n
  {
    if n < 10 then (n + '0' as int) as char else (n - 10 + 'a' as int) as char
  }

  predicate AllHex(h: string) { forall i :: 0 <= i < |h| ==> IsHex(h[i]) }

  function HexValue(h: string): nat
    requires AllHex(h)
  {
    if h == [] then 0 else 16 * HexValue(h[..|h| - 1]) + HexDigit(h[|h| - 1])
  }

  function Power16(n: nat): (r: nat)
    ensures r >= 1
  {
    if n == 0 then 1 else 16 * Power16(n - 1)
  }

  // ---- names ----------------------------------------------------------------

  /** TestMetadata::qualifiedName. */
  function QualifiedName(suite: string, name: string): string { if suite == "" then name else suite + "." + name }

  lemma Regroup(a: string, b: string, c: string)
    ensures (a + b) + c == a + (b + c)
  {
  }

  // ---- decimal integers ---------------------------------------------------

  predicate AllDigits(s: string) { forall i :: 0 <= i < |s| ==> IsDigit(s[i]) }

  function DigitValue(c: char): nat
    requires IsDigit(c)
  {
    c as int - '0' as int
  }

  function DecimalValue(s: string): nat
    requires AllDigits(s)
  {
    if s == [] then 0 else 10 * DecimalValue(s[..|s| - 1]) + DigitValue(s[|s| - 1])
  }

  /** std::to_string of a non-negative integer. */
  function DecimalText(n: nat): (r: string)
    ensures r != [] && AllDigits(r) && DecimalValue(r) == n
    ensures r[0] == '0' ==> r == "0"
  {
    var last := ('0' as int + n % 10) as char;
    if n < 10 then [last]
    else
      var front := DecimalText(n / 10);
      assert (front + [last])[..|front|] == front;
      front + [last]
  }

  const INT64_MIN: int := -0x8000_0000_0000_0000
  const INT64_MAX: int := 0x7FFF_FFFF_FFFF_FFFF

  predicate FitsInt64(i: int) { INT64_MIN <= i <= INT64_MAX }

  /** The longest run of digits at the front of `s`. */
  function DigitRun(s: string): (r: nat)
    ensures r <= |s| && AllDigits(s[..r])
    ensures r < |s| ==> !IsDigit(s[r])
  {
    if s == [] || !IsDigit(s[0]) then 0
    else
      var n := DigitRun(s[1..]);
      assert forall i :: 0 < i < n + 1 ==> s[i] == s[1..][i - 1];
      1 + n
  }

  /** The part of a std::string that c_str() shows to a C function. */
  function CString(s: string): string { s[..IndexOf(s, '\0')] }

  /**
   strings::parseInt: trim, then strtoll in base 10 on the C string, which must
   be consumed whole and in range.  strtoll reads no digits from an empty C string,
   which is what stands before a leading NUL, so nothing is left over and the value is 0.
   */
  function ParseInt(text: string): Option<int> {
    var trimmed := Trim(text);
    if trimmed == [] then None
    else
      var c := TrimLeft(CString(trimmed));
      var signed := c != [] && (c[0] == '-' || c[0] == '+');
      var digits := if signed then c[1..] else c;
      if digits == [] then (if CString(trimmed) == [] then Some(0) else None)
      else if DigitRun(digits) < |digits| then None
      else
        var n: int := DecimalValue(digits[..DigitRun(digits)]);
        var value := if signed && c[0] == '-' then -n else n;
        if FitsInt64(value) then Some(value) else None
  }

  /** Reading back what std::to_string printed. */
  lemma ParseIntOfDecimalText(n: nat)
    requires n <= INT64_MAX
    ensures ParseInt(DecimalText(n)) == Some(n)
  {
    hide DecimalText, ParseInt;
    ParseIntOfDigits("", DecimalText(n));
    assert "" + DecimalText(n) == DecimalText(n);
  }

  /** What a sign and digits stand for, if 64 bits hold it. */
  function SignedValue(sign: string, digits: string): Option<int>
    requires AllDigits(digits)
  {
    var n: int := DecimalValue(digits);
    var value := if sign == "-" then -n else n;
    if FitsInt64(value) then Some(value) else None
  }

  predicate IsSign(sign: string) { sign == "" || sign == "+" || sign == "-" }

  /** Decimal digits, leading zeros included, with an optional sign and nothing behind them. */
  lemma ParseIntOfDigits(sign: string, digits: string)
    requires IsSign(sign) && digits != "" && AllDigits(digits)
    ensures ParseInt(sign + digits) == SignedValue(sign, digits)
  {
    var t := sign + digits;
    assert t[|t| - 1] == digits[|digits| - 1] && t[|sign|..] == digits;
    assert t[0] == if sign == "" then digits[0] else sign[0];
    assert Trimmed(t) && '\0' !in t && (sign != "" ==> t[1..] == digits) && (sign == "" ==> t == digits);
    hide Trimmed, DecimalValue, AllDigits, DigitRun;
    ParseIntOfClean(t);
    DigitsToEnd(digits);
  }

  /** Without blanks around it and without a NUL, the text itself is looked at. */
  lemma ParseIntOfClean(t: string)
    requires t != "" && Trimmed(t) && '\0' !in t
    ensures var signed := t[0] == '-' || t[0] == '+';
      var digits := if signed then t[1..] else t;
      var run := DigitRun(digits);
      ParseInt(t) ==
        if digits == "" || run < |digits| then None
        else SignedValue(if signed then t[..1] else "", digits[..run])
  {
    TrimExact(t);
    CleanText(t);
    hide Trim, TrimLeft, CString, DigitRun, DecimalValue;
  }

  lemma CleanText(t: string)
    requires t != "" && !IsSpace(t[0]) && '\0' !in t
    ensures CString(t) == t && TrimLeft(t) == t
  {
    assert IndexOf(t, '\0') == |t|;
  }

  lemma {:induction false} DigitsToEnd(digits: string)
    requires AllDigits(digits)
    ensures DigitRun(digits) == |digits| && digits[..|digits|] == digits
  {
    if digits != "" {
      DigitsToEnd(digits[1..]);
    }
  }

  /** Blanks on either side do not matter. */
  lemma ParseIntTrims(text: string)
    ensures ParseInt(text) == ParseInt(Trim(text))
  {
    TrimExact(text);
    TrimExact(Trim(text));
    hide Trim, TrimLeft, CString, DigitRun, DecimalValue;
  }

  /** Anything else behind the digits makes the text no number. */
  lemma ParseIntOfGarbage(sign: string, digits: string, rest: string)
    requires IsSign(sign) && AllDigits(digits) && rest != "" && !IsDigit(rest[0]) && (digits == "" ==> sign == "")
    requires digits == "" ==> !IsSpace(rest[0]) && rest[0] != '-' && rest[0] != '+'
    requires !IsSpace(rest[|rest| - 1]) && '\0' !in rest
    ensures ParseInt(sign + digits + rest) == None
  {
    var t := sign + digits + rest;
    GarbageIsClean(sign, digits, rest);
    hide ParseInt, Trimmed, DigitRun, DecimalValue, AllDigits;
    ParseIntOfClean(t);
    DigitsStop(digits, rest);
  }

  lemma GarbageIsClean(sign: string, digits: string, rest: string)
    requires IsSign(sign) && AllDigits(digits) && rest != "" && (digits == "" ==> sign == "")
    requires digits == "" ==> !IsSpace(rest[0]) && rest[0] != '-' && rest[0] != '+'
    requires !IsSpace(rest[|rest| - 1]) && '\0' !in rest
    ensures var t := sign + digits + rest;
      && t != "" && Trimmed(t) && '\0' !in t
      && ((t[0] == '-' || t[0] == '+') <==> sign != "")
      && (sign != "" ==> t[1..] == digits + rest) && (sign == "" ==> t == digits + rest)
  {
    var t := sign + digits + rest;
    assert t[|t| - 1] == rest[|rest| - 1];
    assert t[0] == if sign != "" then sign[0] else if digits != "" then digits[0] else rest[0];
    assert '\0' !in sign && '\0' !in digits;
    assert t == sign + (digits + rest);
  }

  lemma {:induction false} DigitsStop(digits: string, rest: string)
    requires AllDigits(digits) && rest != "" && !IsDigit(rest[0])
    ensures DigitRun(digits + rest) == |digits|
  {
    if digits != "" {
      DigitsStop(digits[1..], rest);
      assert (digits + rest)[1..] == digits[1..] + rest;
    } else {
      assert digits + rest == rest;
    }
  }
}
