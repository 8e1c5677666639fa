/**
 Test identifiers (src/core/Ids.cpp): a 64-bit hash, and its rendering in 16 digits.
 */
module Ids {
  import opened Text

  const OFFSET_BASIS: int := 1469598103934665603
  const PRIME: int := 1099511628211

  /** Numbers that std::uint64_t holds. */
  type Word = n: int | 0 <= n < WORD

  // ---- the hash -----------------------------------------------------------------------

  /** Exclusive or, bit by bit. */
  function Xor(a: nat, b: nat): (r: nat)
    decreases a + b
  {
    if a == 0 && b == 0 then 0 else (a + b) % 2 + 2 * Xor(a / 2, b / 2)
  }

  function ByteOf(c: char): nat { c as int % 256 }

  function HashStep(hash: nat, c: char): Word { (Xor(hash, ByteOf(c)) * PRIME) % WORD }

  function Fnv1a64(text: string): Word {
    if text == "" then OFFSET_BASIS else HashStep(Fnv1a64(text[..|text| - 1]), text[|text| - 1])
  }

  method ComputeHash(text: string) returns (hash: Word)
    ensures hash == Fnv1a64(text)
  {
    hash := OFFSET_BASIS;
    for i := 0 to |text|
      invariant hash == Fnv1a64(text[..i])
    {
      assert text[..i + 1][..i] == text[..i];
      var mixed := Xor(hash, ByteOf(text[i]));
      hash := (mixed * PRIME) % WORD;
    }
    assert text[..|text|] == text;
  }

  lemma Halves(bit: nat, x: nat)
    requires bit < 2
    ensures (bit + 2 * x) % 2 == bit && (bit + 2 * x) / 2 == x
  {
  }

  lemma XorParts(a: nat, b: nat)
    ensures Xor(a, b) % 2 == (a + b) % 2 && Xor(a, b) / 2 == Xor(a / 2, b / 2)
  {
    var x := Xor(a / 2, b / 2);
    assert a == 0 && b == 0 ==> x == 0;
    assert Xor(a, b) == (a + b) % 2 + 2 * x;
    hide Xor;
    Halves((a + b) % 2, x);
  }

  lemma SameHalves(y: nat, x: nat, a: nat, b: nat)
    requires y % 2 == (x + b) % 2 && x % 2 == (a + b) % 2 && y / 2 == a / 2
    ensures y == a
  {
  }

  lemma {:induction false} XorUndoes(a: nat, b: nat)
    ensures Xor(Xor(a, b), b) == a
    decreases a + b
  {
    if a != 0 || b != 0 {
      hide Xor;
      XorUndoes(a / 2, b / 2);
      XorParts(a, b);
      var x := Xor(a, b);
      XorParts(x, b);
      SameHalves(Xor(x, b), x, a, b);
    }
  }

  lemma {:induction false} XorCommutes(a: nat, b: nat)
    ensures Xor(a, b) == Xor(b, a)
    decreases a + b
  {
    if a != 0 || b != 0 {
      XorCommutes(a / 2, b / 2);
    }
  }

  /** The result needs no more bits than the operands. */
  lemma {:induction false} XorBound(a: nat, b: nat, bits: nat)
    requires a < Power2(bits) && b < Power2(bits)
    ensures Xor(a, b) < Power2(bits)
    decreases a + b
  {
    if a != 0 || b != 0 {
      XorBound(a / 2, b / 2, bits - 1);
    }
  }

  function Power2(n: nat): (r: nat)
    ensures r >= 1
  {
    if n == 0 then 1 else 2 * Power2(n - 1)
  }

  lemma Power64()
    ensures Power2(64) == WORD && Power2(8) == 256
  {
    assert Power2(8) == 256;
    assert Power2(16) == 0x1_0000;
    assert Power2(24) == 0x100_0000;
    assert Power2(32) == 0x1_0000_0000;
    assert Power2(40) == 0x100_0000_0000;
    assert Power2(48) == 0x1_0000_0000_0000;
    assert Power2(56) == 0x100_0000_0000_0000;
  }

  /** The multiplier is odd: this is its inverse, modulo the word. */
  const INVERSE: int := 14886173955864302971
  const CARRIED: int := 887285111055

  lemma InverseOfPrime()
    ensures PRIME * INVERSE == 1 + CARRIED * WORD
  {
  }

  /** Multiplying by the prime, modulo the word, can be undone. */
  lemma MultiplyUndone(x: Word)
    ensures (x * PRIME % WORD) * INVERSE % WORD == x
  {
    InverseOfPrime();
    var q, r := x * PRIME / WORD, x * PRIME % WORD;
    assert x * PRIME == q * WORD + r;
    assert r * INVERSE == x + (x * CARRIED - q * INVERSE) * WORD;
  }

  /** For a fixed character, a step never maps two hashes to one. */
  lemma StepKeepsHashesApart(g: Word, h: Word, c: char)
    ensures HashStep(g, c) == HashStep(h, c) ==> g == h
  {
    var a, b := Xor(g, ByteOf(c)), Xor(h, ByteOf(c));
    XorInWord(g, c);
    XorInWord(h, c);
    MultiplyUndone(a);
    MultiplyUndone(b);
    XorUndoes(g, ByteOf(c));
    XorUndoes(h, ByteOf(c));
    hide Xor;
  }

  lemma XorInWord(g: Word, c: char)
    ensures Xor(g, ByteOf(c)) < WORD
  {
    Power64();
    hide Power2, Xor;
    XorBound(g, ByteOf(c), 64);
  }

  /** For a fixed hash, a step maps two different bytes to different hashes. */
  lemma StepKeepsBytesApart(h: Word, c: char, d: char)
    ensures HashStep(h, c) == HashStep(h, d) ==> ByteOf(c) == ByteOf(d)
  {
    var a, b := Xor(h, ByteOf(c)), Xor(h, ByteOf(d));
    XorInWord(h, c);
    XorInWord(h, d);
    MultiplyUndone(a);
    MultiplyUndone(b);
    XorCommutes(h, ByteOf(c));
    XorCommutes(h, ByteOf(d));
    XorUndoes(ByteOf(c), h);
    XorUndoes(ByteOf(d), h);
    hide Xor;
  }

  /** A difference in the hash survives every common suffix. */
  lemma {:induction false} SuffixKeepsApart(a: string, b: string, suffix: string)
    requires Fnv1a64(a) != Fnv1a64(b)
    ensures Fnv1a64(a + suffix) != Fnv1a64(b + suffix)
    decreases |suffix|
  {
    if suffix == "" {
      assert a + suffix == a && b + suffix == b;
    } else {
      var front, c := suffix[..|suffix| - 1], suffix[|suffix| - 1];
      SuffixKeepsApart(a, b, front);
      assert (a + suffix)[..|a + suffix| - 1] == a + front && (a + suffix)[|a + suffix| - 1] == c;
      assert (b + suffix)[..|b + suffix| - 1] == b + front && (b + suffix)[|b + suffix| - 1] == c;
      StepKeepsHashesApart(Fnv1a64(a + front), Fnv1a64(b + front), c);
    }
  }

  /** Texts of one length that differ in exactly one byte have different hashes. */
  lemma OneByteApart(a: string, b: string, i: nat)
    requires |a| == |b| && i < |a| && ByteOf(a[i]) != ByteOf(b[i])
    requires a[..i] == b[..i] && a[i + 1..] == b[i + 1..]
    ensures Fnv1a64(a) != Fnv1a64(b)
  {
    hide Fnv1a64, HashStep;
    var p := a[..i];
    StepKeepsBytesApart(Fnv1a64(p), a[i], b[i]);
    LastStep(p, a[i]);
    LastStep(p, b[i]);
    SuffixKeepsApart(p + [a[i]], p + [b[i]], a[i + 1..]);
    assert a == p + [a[i]] + a[i + 1..] && b == p + [b[i]] + b[i + 1..];
  }

  lemma LastStep(p: string, c: char)
    ensures Fnv1a64(p + [c]) == HashStep(Fnv1a64(p), c)
  {
    hide HashStep;
    assert (p + [c])[..|p|] == p;
  }

  // ---- the rendering ---------------------------------------------------------------------

  const DIGITS: string := "0123456789abcdef"

  /** The last `n` hexadecimal digits. */
  function Hex(h: nat, n: nat): (r: string)
    ensures |r| == n
  {
    if n == 0 then "" else Hex(h / 16, n - 1) + [DIGITS[h % 16]]
  }

  function DigitOf(c: char): nat {
    if '0' <= c <= '9' then c as int - '0' as int
    else if 'a' <= c <= 'f' then c as int - 'a' as int + 10
    else 0
  }

  function Decode(s: string): nat {
    if s == "" then 0 else 16 * Decode(s[..|s| - 1]) + DigitOf(s[|s| - 1])
  }

  lemma {:induction false} HexDecodes(h: nat, n: nat)
    requires h < Power16(n)
    ensures Decode(Hex(h, n)) == h
  {
    if n > 0 {
      var r := Hex(h, n);
      assert r[..n - 1] == Hex(h / 16, n - 1) && r[n - 1] == DIGITS[h % 16];
      hide Hex, DIGITS, DigitOf;
      HexDecodes(h / 16, n - 1);
      DigitDecodes(h % 16);
    }
  }

  lemma DigitDecodes(d: nat)
    requires d < 16
    ensures DigitOf(DIGITS[d]) == d
  {
  }

  lemma {:induction false} HexAt(h: nat, n: nat, i: nat)
    requires i < n
    ensures Hex(h, n)[i] == DIGITS[(h / Power16(n - 1 - i)) % 16]
  {
    hide DIGITS;
    if i < n - 1 {
      HexAt(h / 16, n - 1, i);
      ShiftTwice(h, Power16(n - 2 - i));
      assert Hex(h, n)[i] == Hex(h / 16, n - 1)[i];
      assert Power16(n - 1 - i) == 16 * Power16(n - 2 - i);
      hide Hex, Power16;
    } else {
      assert Power16(0) == 1;
    }
  }

  lemma ShiftTwice(h: nat, m: nat)
    requires m >= 1
    ensures h / 16 / m == h / (16 * m)
  {
    var q := h / 16 / m;
    var r := h / 16 % m;
    assert h == 16 * (q * m + r) + h % 16;
    assert h == q * (16 * m) + (16 * r + h % 16);
    assert 0 <= 16 * r + h % 16 < 16 * m;
    DivUnique(h, 16 * m, q, 16 * r + h % 16);
  }

  lemma MultiplyKeepsOrder(a: nat, b: nat, d: nat)
    requires a <= b
    ensures a * d <= b * d
  {
    assert b * d == a * d + (b - a) * d;
  }

  lemma DivUnique(h: nat, d: nat, q: nat, r: nat)
    requires d >= 1 && h == q * d + r && r < d
    ensures h / d == q
  {
    var p := h / d;
    assert h == p * d + h % d;
    Quotients(d, p, h % d, q, r);
  }

  lemma Quotients(d: nat, p: nat, s: nat, q: nat, r: nat)
    requires s < d && r < d && p * d + s == q * d + r
    ensures p == q
  {
    if p < q {
      MultiplyKeepsOrder(p + 1, q, d);
    } else if q < p {
      MultiplyKeepsOrder(q + 1, p, d);
    }
  }

  function Composite(suite: string, name: string): string { suite + "." + name }

  function TestId(suite: string, name: string): (id: string)
    ensures |id| == 16
  {
    Hex(Fnv1a64(Composite(suite, name)), 16)
  }

  /** testId, filling its buffer from the last digit. */
  method ComputeTestId(suite: string, name: string) returns (id: string)
    ensures id == TestId(suite, name)
  {
    hide Fnv1a64;
    var hash := ComputeHash(suite + "." + name);
    var buffer := new char[16];
    var shifted: nat, weight: nat := hash, 1;
    var i := 15;
    while i >= 0
      invariant -1 <= i <= 15
      invariant weight == Power16(15 - i) && shifted == hash / weight
      invariant forall k :: i < k < 16 ==> buffer[k] == DIGITS[(hash / Power16(15 - k)) % 16]
    {
      buffer[i] := DIGITS[shifted % 16];
      ShiftOnce(hash, weight);
      shifted, weight := shifted / 16, 16 * weight;
      i := i - 1;
    }
    id := buffer[..];
    DigitByDigit(hash, id);
  }

  lemma DigitByDigit(h: nat, id: string)
    requires |id| == 16 && forall k :: 0 <= k < 16 ==> id[k] == DIGITS[(h / Power16(15 - k)) % 16]
    ensures id == Hex(h, 16)
  {
    assert |Hex(h, 16)| == 16;
    hide Hex, Power16, DIGITS;
    forall k | 0 <= k < 16
      ensures id[k] == Hex(h, 16)[k]
    {
      HexAt(h, 16, k);
    }
  }

  lemma Distribute(q: nat, r: nat, m: nat)
    requires r <= 15
    ensures (16 * q + r) * m == q * (16 * m) + r * m && r * m <= 15 * m
  {
    MultiplyKeepsOrder(r, 15, m);
  }

  lemma ShiftOnce(h: nat, m: nat)
    requires m >= 1
    ensures h / m / 16 == h / (16 * m)
  {
    var t, s := h / m, h % m;
    assert h == t * m + s;
    var q, r := t / 16, t % 16;
    Distribute(q, r, m);
    DivUnique(h, 16 * m, q, r * m + s);
  }

  lemma Power16Word()
    ensures Power16(16) == WORD
  {
    assert Power16(4) == 0x1_0000;
    assert Power16(8) == 0x1_0000_0000;
    assert Power16(12) == 0x1_0000_0000_0000;
  }

  /** The identifier decodes back to the hash. */
  lemma TestIdDecodes(suite: string, name: string)
    ensures Decode(TestId(suite, name)) == Fnv1a64(Composite(suite, name))
  {
    Power16Word();
    hide Fnv1a64, Power16;
    HexDecodes(Fnv1a64(Composite(suite, name)), 16);
  }

  /** So tests whose composite names differ in exactly one byte have different identifiers. */
  lemma TestIdsDiffer(s1: string, n1: string, s2: string, n2: string, i: nat)
    requires var a, b := Composite(s1, n1), Composite(s2, n2);
      |a| == |b| && i < |a| && ByteOf(a[i]) != ByteOf(b[i]) && a[..i] == b[..i] && a[i + 1..] == b[i + 1..]
    ensures TestId(s1, n1) != TestId(s2, n2)
  {
    OneByteApart(Composite(s1, n1), Composite(s2, n2), i);
    hide Fnv1a64, Hex;
    TestIdDecodes(s1, n1);
    TestIdDecodes(s2, n2);
  }

  /** The second pair moves a word from the name, or several, to the suite. */
  ghost predicate Moved(s1: string, n1: string, s2: string, n2: string) {
    exists m :: s2 == s1 + "." + m && n1 == m + "." + n2
  }

  /** Two pairs have one composite exactly if they are equal, or differ in where the suite ends. */
  lemma CompositesAgreeExactly(s1: string, n1: string, s2: string, n2: string)
    ensures Composite(s1, n1) == Composite(s2, n2) <==>
      (s1 == s2 && n1 == n2) || Moved(s1, n1, s2, n2) || Moved(s2, n2, s1, n1)
  {
    if Moved(s1, n1, s2, n2) {
      MovedAgree(s1, n1, s2, n2);
    }
    if Moved(s2, n2, s1, n1) {
      MovedAgree(s2, n2, s1, n1);
    }
    if Composite(s1, n1) == Composite(s2, n2) {
      if |s1| < |s2| {
        AgreeMoved(s1, n1, s2, n2);
      } else if |s2| < |s1| {
        AgreeMoved(s2, n2, s1, n1);
      } else {
        var a, b := Composite(s1, n1), Composite(s2, n2);
        assert s1 == a[..|s1|] && s2 == b[..|s2|] && n1 == a[|s1| + 1..] && n2 == b[|s2| + 1..];
      }
    }
  }

  lemma MovedAgree(s1: string, n1: string, s2: string, n2: string)
    requires Moved(s1, n1, s2, n2)
    ensures Composite(s1, n1) == Composite(s2, n2)
  {
    var m :| s2 == s1 + "." + m && n1 == m + "." + n2;
    assert s1 + "." + (m + "." + n2) == (s1 + "." + m) + "." + n2;
  }

  lemma AgreeMoved(s1: string, n1: string, s2: string, n2: string)
    requires Composite(s1, n1) == Composite(s2, n2) && |s1| < |s2|
    ensures Moved(s1, n1, s2, n2)
  {
    var c, k := Composite(s1, n1), |s1|;
    var m := s2[k + 1..];
    assert c == s1 + "." + n1 && c == s2 + "." + n2;
    assert s1 == c[..k] && "." == c[k..k + 1] && n1 == c[k + 1..];
    assert s2 == c[..|s2|] && c[k..k + 1] == s2[k..k + 1];
    assert s2 == s2[..k] + s2[k..k + 1] + m;
    assert c[k + 1..] == m + "." + n2;
  }

  /** Names without a dot keep pairs apart, whatever the suites are. */
  lemma DotlessNamesDiffer(s1: string, n1: string, s2: string, n2: string)
    requires '.' !in n1 && '.' !in n2 && Composite(s1, n1) == Composite(s2, n2)
    ensures s1 == s2 && n1 == n2
  {
    CompositesAgreeExactly(s1, n1, s2, n2);
    if Moved(s1, n1, s2, n2) {
      NameHasDot(s1, n1, s2, n2);
    } else if Moved(s2, n2, s1, n1) {
      NameHasDot(s2, n2, s1, n1);
    }
  }

  lemma NameHasDot(s1: string, n1: string, s2: string, n2: string)
    requires Moved(s1, n1, s2, n2)
    ensures '.' in n1
  {
    var m :| s2 == s1 + "." + m && n1 == m + "." + n2;
    assert n1[|m|] == '.';
  }

  /** Such different pairs get one identifier. */
  lemma TestIdsCollide(s1: string, n1: string, s2: string, n2: string)
    requires Moved(s1, n1, s2, n2)
    ensures TestId(s1, n1) == TestId(s2, n2) && (s1, n1) != (s2, n2)
  {
    MovedAgree(s1, n1, s2, n2);
    hide Fnv1a64, Hex;
  }
}
