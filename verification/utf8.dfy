/**
 UTF-8 as defined by RFC 3629, and the encoder of src/core/Json.cpp.
 */
module Utf8 {

  /** Where a reader of UTF-8 stands: between characters, or inside one. */
  datatype State =
    | Boundary   // between two characters
    | Tail1      // one continuation byte to come
    | Tail2
    | Tail3
    | AfterE0    // 0xA0..0xBF, then Tail1
    | AfterED    // 0x80..0x9F, then Tail1
    | AfterF0    // 0x90..0xBF, then Tail2
    | AfterF4    // 0x80..0x8F, then Tail2
    | Bad

  /** One byte, by the grammar of section 4 of RFC 3629. */
  function Step(q: State, c: char): State {
    var b := c as int;
    match q
    case Boundary =>
      if b <= 0x7F then Boundary
      else if 0xC2 <= b <= 0xDF then Tail1
      else if b == 0xE0 then AfterE0
      else if b == 0xED then AfterED
      else if 0xE1 <= b <= 0xEF then Tail2
      else if b == 0xF0 then AfterF0
      else if 0xF1 <= b <= 0xF3 then Tail3
      else if b == 0xF4 then AfterF4
      else Bad
    case Tail1 => if 0x80 <= b <= 0xBF then Boundary else Bad
    case Tail2 => if 0x80 <= b <= 0xBF then Tail1 else Bad
    case Tail3 => if 0x80 <= b <= 0xBF then Tail2 else Bad
    case AfterE0 => if 0xA0 <= b <= 0xBF then Tail1 else Bad
    case AfterED => if 0x80 <= b <= 0x9F then Tail1 else Bad
    case AfterF0 => if 0x90 <= b <= 0xBF then Tail2 else Bad
    case AfterF4 => if 0x80 <= b <= 0x8F then Tail2 else Bad
    case Bad => Bad
  }

  function Run(q: State, s: string): State
    decreases |s|
  {
    if s == [] then q else Run(Step(q, s[0]), s[1..])
  }

  predicate WellFormed(s: string) { Run(Boundary, s) == Boundary }

  lemma {:induction false} RunConcat(q: State, s: string, t: string)
    ensures Run(q, s + t) == Run(Run(q, s), t)
    decreases |s|
  {
    if s == [] {
      assert s + t == t;
    } else {
      assert (s + t)[1..] == s[1..] + t;
      RunConcat(Step(q, s[0]), s[1..], t);
    }
  }

  /** A malformed prefix cannot be repaired by what follows. */
  lemma {:induction false} BadForever(s: string)
    ensures Run(Bad, s) == Bad
    decreases |s|
  {
    if s != [] {
      BadForever(s[1..]);
    }
  }

  predicate Surrogate(cp: int) { 0xD800 <= cp <= 0xDFFF }

  function TwoBytes(c: nat): string
    requires 0x80 <= c <= 0x7FF
  {
    [(0xC0 + c / 0x40) as char, (0x80 + c % 0x40) as char]
  }

  function ThreeBytes(c: nat): string
    requires 0x800 <= c <= 0xFFFF
  {
    [(0xE0 + c / 0x1000) as char, (0x80 + c / 0x40 % 0x40) as char, (0x80 + c % 0x40) as char]
  }

  function FourBytes(c: nat): string
    requires 0x10000 <= c <= 0x10FFFF
  {
    [(0xF0 + c / 0x40000) as char, (0x80 + c / 0x1000 % 0x40) as char, (0x80 + c / 0x40 % 0x40) as char,
     (0x80 + c % 0x40) as char]
  }

  /** appendUtf8: the bytes it appends for a code point. */
  function Encode(cp: nat): string
    requires cp <= 0x10FFFF
  {
    var c := if Surrogate(cp) then 0xFFFD else cp;
    if c <= 0x7F then [c as char]
    else if c <= 0x7FF then TwoBytes(c)
    else if c <= 0xFFFF then ThreeBytes(c)
    else FourBytes(c)
  }

  /** The code point a single encoded character carries (section 3 of RFC 3629). */
  function Decode(s: string): int
    requires 1 <= |s| <= 4
  {
    var b := s[0] as int;
    if |s| == 1 then b
    else if |s| == 2 then (b - 0xC0) * 0x40 + (s[1] as int - 0x80)
    else if |s| == 3 then (b - 0xE0) * 0x1000 + (s[1] as int - 0x80) * 0x40 + (s[2] as int - 0x80)
    else (b - 0xF0) * 0x40000 + (s[1] as int - 0x80) * 0x1000 + (s[2] as int - 0x80) * 0x40 + (s[3] as int - 0x80)
  }

  /**
   appendUtf8 emits exactly one well-formed character, and it carries the code
   point asked for; a lone surrogate becomes U+FFFD.
   */
  lemma EncodeExact(cp: nat)
    requires cp <= 0x10FFFF
    ensures 1 <= |Encode(cp)| <= 4 && WellFormed(Encode(cp))
    ensures Decode(Encode(cp)) == if Surrogate(cp) then 0xFFFD else cp
  {
    var c := if Surrogate(cp) then 0xFFFD else cp;
    if c <= 0x7F {
      Run1(Boundary, c as char);
    } else if c <= 0x7FF {
      TwoBytesExact(c, c / 0x40, c % 0x40);
    } else if c <= 0xFFFF {
      ThreeBytesExact(c, c / 0x1000, c / 0x40 % 0x40, c % 0x40);
    } else {
      FourBytesExact(c, c / 0x40000, c / 0x1000 % 0x40, c / 0x40 % 0x40, c % 0x40);
    }
    hide Run, Decode, TwoBytes, ThreeBytes, FourBytes;
  }

  lemma TwoBytesExact(c: nat, x: nat, y: nat)
    requires 0x80 <= c <= 0x7FF && x == c / 0x40 && y == c % 0x40
    ensures |TwoBytes(c)| == 2 && WellFormed(TwoBytes(c)) && Decode(TwoBytes(c)) == c
  {
    Run2(Boundary, (0xC0 + x) as char, (0x80 + y) as char);
  }

  lemma ThreeBytesExact(c: nat, x: nat, y: nat, z: nat)
    requires 0x800 <= c <= 0xFFFF && !Surrogate(c)
    requires x == c / 0x1000 && y == c / 0x40 % 0x40 && z == c % 0x40
    ensures |ThreeBytes(c)| == 3 && WellFormed(ThreeBytes(c)) && Decode(ThreeBytes(c)) == c
  {
    assert c == x * 0x1000 + y * 0x40 + z;
    Run3(Boundary, (0xE0 + x) as char, (0x80 + y) as char, (0x80 + z) as char);
  }

  lemma SixBitGroups(c: nat)
    ensures c / 0x1000 == c / 0x40 / 0x40 && c / 0x40000 == c / 0x1000 / 0x40
    ensures c == c / 0x40000 * 0x40000 + c / 0x1000 % 0x40 * 0x1000 + c / 0x40 % 0x40 * 0x40 + c % 0x40
  {
  }

  lemma FourBytesExact(c: nat, w: nat, x: nat, y: nat, z: nat)
    requires 0x10000 <= c <= 0x10FFFF
    requires w == c / 0x40000 && x == c / 0x1000 % 0x40 && y == c / 0x40 % 0x40 && z == c % 0x40
    ensures |FourBytes(c)| == 4 && WellFormed(FourBytes(c)) && Decode(FourBytes(c)) == c
  {
    SixBitGroups(c);
    Run4(Boundary, (0xF0 + w) as char, (0x80 + x) as char, (0x80 + y) as char, (0x80 + z) as char);
  }

  lemma Run1(q: State, a: char)
    ensures Run(q, [a]) == Step(q, a)
  {
    assert [a][1..] == [];
  }

  lemma Run2(q: State, a: char, b: char)
    ensures Run(q, [a, b]) == Step(Step(q, a), b)
  {
    assert [a, b][1..] == [b];
    Run1(Step(q, a), b);
  }

  lemma Run3(q: State, a: char, b: char, c: char)
    ensures Run(q, [a, b, c]) == Step(Step(Step(q, a), b), c)
  {
    assert [a, b, c][1..] == [b, c];
    Run2(Step(q, a), b, c);
  }

  lemma Run4(q: State, a: char, b: char, c: char, d: char)
    ensures Run(q, [a, b, c, d]) == Step(Step(Step(Step(q, a), b), c), d)
  {
    assert [a, b, c, d][1..] == [b, c, d];
    Run3(Step(q, a), b, c, d);
  }
}
