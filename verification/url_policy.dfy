/**
 Which URLs may be requested (UrlPolicy and isIpv4Literal in src/net/Url.cpp).
 */
module UrlPolicy {
  import opened Text
  import opened Url

  // ---- dotted addresses ------------------------------------------------------------

  /** The parts of a text between dots; always at least one. */
  function Parts(s: string): (r: seq<string>)
    ensures r != []
  {
    if s == [] then [""]
    else
      var front, c := Parts(s[..|s| - 1]), s[|s| - 1];
      if c == '.' then front + [""] else front[..|front| - 1] + [front[|front| - 1] + [c]]
  }

  predicate IsOctet(part: string) { part != "" && AllDigits(part) && DecimalValue(part) <= 255 }

  /** Four decimal numbers up to 255, between dots; leading zeros are allowed. */
  predicate IsIpv4(host: string) {
    |Parts(host)| == 4 && forall i :: 0 <= i < 4 ==> IsOctet(Parts(host)[i])
  }

  function Octet(host: string, i: nat): nat
    requires IsIpv4(host) && i < 4
  {
    DecimalValue(Parts(host)[i])
  }

  /** What the scan has seen can still become an address. */
  ghost predicate Viable(parts: seq<string>) {
    && 1 <= |parts| <= 4
    && (forall i :: 0 <= i < |parts| - 1 ==> IsOctet(parts[i]))
    && AllDigits(parts[|parts| - 1]) && DecimalValue(parts[|parts| - 1]) <= 255
  }

  lemma DigitsFront(s: string, c: char)
    ensures AllDigits(s + [c]) <==> AllDigits(s) && IsDigit(c)
    ensures AllDigits(s + [c]) ==> DecimalValue(s + [c]) == 10 * DecimalValue(s) + DigitValue(c)
  {
    var t := s + [c];
    assert t[..|s|] == s && t[|s|] == c;
    assert forall i :: 0 <= i < |s| ==> t[i] == s[i];
  }

  lemma PartsStep(s: string, c: char)
    ensures Parts(s + [c]) == if c == '.' then Parts(s) + [""]
                              else Parts(s)[..|Parts(s)| - 1] + [Parts(s)[|Parts(s)| - 1] + [c]]
  {
    assert (s + [c])[..|s|] == s;
  }

  lemma ViableDot(parts: seq<string>)
    requires parts != [] && Viable(parts + [""])
    ensures Viable(parts) && IsOctet(parts[|parts| - 1]) && |parts| <= 3
  {
    var longer := parts + [""];
    assert forall i :: 0 <= i < |parts| ==> longer[i] == parts[i] && IsOctet(longer[i]);
    assert IsOctet(parts[|parts| - 1]);
    hide DecimalValue;
  }

  lemma ViableChar(parts: seq<string>, c: char)
    requires parts != [] && Viable(parts[..|parts| - 1] + [parts[|parts| - 1] + [c]])
    ensures Viable(parts) && IsDigit(c)
  {
    var last := |parts| - 1;
    var longer := parts[..last] + [parts[last] + [c]];
    hide IsOctet, DecimalValue;
    assert forall i :: 0 <= i < last ==> longer[i] == parts[i] && IsOctet(longer[i]);
    assert longer[|longer| - 1] == parts[last] + [c];
    DigitsFront(parts[last], c);
  }

  /** A scan that cannot succeed any more does not recover. */
  lemma ViableBefore(s: string, c: char)
    requires Viable(Parts(s + [c]))
    ensures Viable(Parts(s))
    ensures c == '.' ==> IsOctet(Parts(s)[|Parts(s)| - 1]) && |Parts(s)| <= 3
    ensures c != '.' ==> IsDigit(c)
  {
    PartsStep(s, c);
    hide Parts, Viable, IsOctet;
    if c == '.' {
      ViableDot(Parts(s));
    } else {
      ViableChar(Parts(s), c);
    }
  }

  lemma {:induction false} NeverViableAgain(host: string, i: nat)
    requires i <= |host| && !Viable(Parts(host[..i]))
    ensures !Viable(Parts(host))
    decreases |host| - i
  {
    if i == |host| {
      assert host[..i] == host;
    } else {
      assert host[..i + 1] == host[..i] + [host[i]];
      if Viable(Parts(host[..i + 1])) {
        ViableBefore(host[..i], host[i]);
      } else {
        NeverViableAgain(host, i + 1);
      }
    }
  }

  lemma Ipv4IsViable(host: string)
    ensures IsIpv4(host) <==> Viable(Parts(host)) && |Parts(host)| == 4 && Parts(host)[3] != ""
  {
    hide Parts;
    if Viable(Parts(host)) && |Parts(host)| == 4 && Parts(host)[3] != "" {
      assert IsOctet(Parts(host)[3]);
    }
  }

  lemma ViableStep(s: string, c: char)
    requires Viable(Parts(s))
    requires c == '.' ==> IsOctet(Parts(s)[|Parts(s)| - 1]) && |Parts(s)| <= 3
    requires c != '.' ==> IsDigit(c) && 10 * DecimalValue(Parts(s)[|Parts(s)| - 1]) + DigitValue(c) <= 255
    ensures Viable(Parts(s + [c]))
  {
    PartsStep(s, c);
    hide Parts;
    DigitsFront(Parts(s)[|Parts(s)| - 1], c);
  }

  /** The scan: one pass over the characters, with the number read so far, or -1. */
  method IsIpv4Literal(host: string) returns (ok: bool, octets: seq<nat>)
    ensures ok == IsIpv4(host)
    ensures ok ==> |octets| == 4 && forall i :: 0 <= i < 4 ==> octets[i] == Octet(host, i)
  {
    hide Parts, DecimalValue, IsOctet, Viable, IsIpv4;
    var values: seq<nat>, current := [], -1;
    octets := [];
    EmptyIsViable();
    for i := 0 to |host|
      invariant Viable(Parts(host[..i])) && |Parts(host[..i])| == |values| + 1
      invariant ViableFacts(Parts(host[..i]), values, current)
    {
      var c := host[i];
      ghost var seen := Parts(host[..i]);
      assert host[..i + 1] == host[..i] + [c];
      PartsStep(host[..i], c);
      if IsDigit(c) {
        current := (if current < 0 then 0 else current) * 10 + DigitValue(c);
        DigitStep(host[..i], c, values, current);
        if current > 255 {
          NeverViableAgain(host, i + 1);
          Ipv4IsViable(host);
          return false, [];
        }
      } else if c == '.' {
        DotStep(host[..i], values, current);
        if current < 0 || |values| >= 3 {
          NeverViableAgain(host, i + 1);
          Ipv4IsViable(host);
          return false, [];
        }
        values := values + [current];
        current := -1;
      } else {
        BadStep(host[..i], c);
        NeverViableAgain(host, i + 1);
        Ipv4IsViable(host);
        return false, [];
      }
    }
    assert host[..|host|] == host;
    Ipv4IsViable(host);
    FinalFacts(Parts(host), values, current);
    if current < 0 || |values| != 3 {
      return false, [];
    }
    values := values + [current];
    return true, values;
  }

  /** The scan's variables, in terms of the parts seen. */
  ghost predicate ViableFacts(parts: seq<string>, values: seq<nat>, current: int)
    requires Viable(parts) && |parts| == |values| + 1
  {
    && (forall i :: 0 <= i < |values| ==> AllDigits(parts[i]) && values[i] == DecimalValue(parts[i]))
    && AllDigits(parts[|values|])
    && current == if parts[|values|] == "" then -1 else DecimalValue(parts[|values|])
  }

  lemma EmptyIsViable()
    ensures Viable(Parts("")) && |Parts("")| == 1 && Parts("")[0] == ""
  {
  }

  lemma DigitStep(s: string, c: char, values: seq<nat>, current: int)
    requires Viable(Parts(s)) && |Parts(s)| == |values| + 1 && IsDigit(c)
    requires var last := Parts(s)[|values|];
      AllDigits(last) && current == 10 * (if last == "" then 0 else DecimalValue(last)) + DigitValue(c)
    ensures current <= 255 <==> Viable(Parts(s + [c]))
    ensures |Parts(s + [c])| == |values| + 1
    ensures forall i :: 0 <= i < |values| ==> Parts(s + [c])[i] == Parts(s)[i]
    ensures var now := Parts(s + [c])[|values|]; now != "" && AllDigits(now) && DecimalValue(now) == current
  {
    var last := Parts(s)[|values|];
    PartsStep(s, c);
    DigitsFront(last, c);
    hide Parts;
    if current <= 255 {
      ViableStep(s, c);
    }
  }

  lemma DotStep(s: string, values: seq<nat>, current: int)
    requires Viable(Parts(s)) && |Parts(s)| == |values| + 1
    requires current < 0 <==> Parts(s)[|values|] == ""
    ensures Viable(Parts(s + ['.'])) <==> current >= 0 && |values| < 3
    ensures |Parts(s + ['.'])| == |values| + 2 && Parts(s + ['.'])[|values| + 1] == ""
    ensures forall i :: 0 <= i <= |values| ==> Parts(s + ['.'])[i] == Parts(s)[i]
  {
    PartsStep(s, '.');
    hide Parts;
    if current >= 0 && |values| < 3 {
      ViableStep(s, '.');
    } else if Viable(Parts(s + ['.'])) {
      ViableBefore(s, '.');
    }
  }

  lemma BadStep(s: string, c: char)
    requires c != '.' && !IsDigit(c)
    ensures !Viable(Parts(s + [c]))
  {
    hide Parts, Viable;
    if Viable(Parts(s + [c])) {
      ViableBefore(s, c);
    }
  }

  lemma FinalFacts(parts: seq<string>, values: seq<nat>, current: int)
    requires Viable(parts) && |parts| == |values| + 1 && ViableFacts(parts, values, current)
    ensures |parts| == 4 && parts[3] != "" <==> |values| == 3 && current >= 0
  {
  }

  // ---- the policy --------------------------------------------------------------------

  datatype Policy = Policy(
    allowedSchemes: seq<string>, allowedHosts: seq<string>,
    blockLinkLocal: bool, blockLoopback: bool, blockPrivateNetworks: bool)

  const DEFAULT: Policy := Policy(["http", "https"], [], true, false, false)

  predicate Listed(hosts: seq<string>, host: string) {
    exists i :: 0 <= i < |hosts| && Lower(hosts[i]) == Lower(host)
  }

  /** UrlPolicy::reject returns no reason. */
  predicate Accepts(p: Policy, u: Url) {
    && u.scheme in p.allowedSchemes
    && if p.allowedHosts != [] then Listed(p.allowedHosts, u.host)
       else
         var ipv4 := IsIpv4(u.host);
         && !(p.blockLoopback && (Lower(u.host) == "localhost" || u.host == "::1" || (ipv4 && Octet(u.host, 0) == 127)))
         && !(p.blockLinkLocal && ipv4 && Octet(u.host, 0) == 169 && Octet(u.host, 1) == 254)
         && !(p.blockLinkLocal && "fe80:" <= u.host)
         && !(p.blockPrivateNetworks && ipv4
              && (Octet(u.host, 0) == 10 || (Octet(u.host, 0) == 172 && 16 <= Octet(u.host, 1) <= 31)
                  || (Octet(u.host, 0) == 192 && Octet(u.host, 1) == 168)))
  }

  /** The policy of a registered suite: the host of its base URL, when there is one. */
  function RestrictedTo(base: string): Policy {
    var parsed := Parse(base);
    DEFAULT.(allowedHosts := if parsed.Some? then [parsed.value.host] else [])
  }

  /** Under the policy of a base URL, exactly http and https on the base's host are accepted. */
  lemma RestrictedExactly(base: string, u: Url)
    requires Parse(base).Some?
    ensures Accepts(RestrictedTo(base), u) <==>
      (u.scheme == "http" || u.scheme == "https") && Lower(u.host) == Parse(base).value.host
  {
    ParsedIsWellFormed(base);
    hide Parse;
    var hosts := [Parse(base).value.host];
    assert hosts[0] == Parse(base).value.host;
  }

  lemma {:induction false} PartsPrefix(a: string, b: string)
    requires '.' !in a && a != ""
    ensures Parts(a + ['.'] + b) == [a] + Parts(b)
    decreases |b|
  {
    hide Parts;
    if b == "" {
      PartsOfDotAtEnd(a);
      assert a + ['.'] + b == a + ['.'];
    } else {
      var front, c := b[..|b| - 1], b[|b| - 1];
      assert b == front + [c];
      PartsPrefix(a, front);
      PartsStep(front, c);
      assert a + ['.'] + b == (a + ['.'] + front) + [c];
      PartsStep(a + ['.'] + front, c);
      AppendToLast([a], Parts(front), c);
    }
  }

  lemma PartsOfDotAtEnd(a: string)
    requires '.' !in a && a != ""
    ensures Parts(a + ['.']) == [a] + Parts("")
  {
    assert Parts("") == [""];
    hide Parts;
    PartsOfDotless(a);
    PartsStep(a, '.');
  }

  lemma AppendToLast(a: seq<string>, p: seq<string>, c: char)
    requires p != []
    ensures (a + p)[|a + p| - 1] == p[|p| - 1]
    ensures (a + p)[..|a + p| - 1] + [p[|p| - 1] + [c]] == a + (p[..|p| - 1] + [p[|p| - 1] + [c]])
    ensures (a + p) + [""] == a + (p + [""])
  {
  }

  lemma {:induction false} PartsOfDotless(a: string)
    requires '.' !in a
    ensures Parts(a) == [a]
  {
    if a != "" {
      PartsOfDotless(a[..|a| - 1]);
      assert a[..|a| - 1] + [a[|a| - 1]] == a;
    }
  }

  lemma OctetHasNoDot(a: string)
    requires IsOctet(a)
    ensures '.' !in a && a != ""
  {
  }

  function Dotted(a: string, b: string, c: string, d: string): string {
    a + ['.'] + (b + ['.'] + (c + ['.'] + d))
  }

  lemma PartsOfDotted(a: string, b: string, c: string, d: string)
    requires IsOctet(a) && IsOctet(b) && IsOctet(c) && IsOctet(d)
    ensures Parts(Dotted(a, b, c, d)) == [a, b, c, d]
  {
    OctetHasNoDot(a);
    OctetHasNoDot(b);
    OctetHasNoDot(c);
    OctetHasNoDot(d);
    hide *;
    var tail := c + ['.'] + d;
    PartsPrefix(c, d);
    PartsOfDotless(d);
    DottedParts(a, b, c, d, tail);
  }

  lemma DottedParts(a: string, b: string, c: string, d: string, tail: string)
    requires '.' !in a && a != "" && '.' !in b && b != "" && tail == c + ['.'] + d && Parts(tail) == [c] + [d]
    ensures Parts(Dotted(a, b, c, d)) == [a, b, c, d]
  {
    var rest := b + ['.'] + tail;
    assert Dotted(a, b, c, d) == a + ['.'] + rest;
    hide *;
    PartsPrefix(b, tail);
    PartsPrefix(a, rest);
    assert [a] + ([b] + ([c] + [d])) == [a, b, c, d];
  }

  /** Every spelling of a dotted address is recognised as the address it spells. */
  lemma DottedIsRecognised(a: string, b: string, c: string, d: string)
    requires IsOctet(a) && IsOctet(b) && IsOctet(c) && IsOctet(d)
    ensures var host := Dotted(a, b, c, d);
      IsIpv4(host) && Octet(host, 0) == DecimalValue(a) && Octet(host, 1) == DecimalValue(b)
      && Octet(host, 2) == DecimalValue(c) && Octet(host, 3) == DecimalValue(d)
  {
    hide Parts, DecimalValue, IsOctet, Dotted;
    PartsOfDotted(a, b, c, d);
  }

  /** No dotted decimal spelling of a link-local address passes a policy without a host list that blocks them. */
  lemma LinkLocalRejected(p: Policy, u: Url, a: string, b: string, c: string, d: string)
    requires p.blockLinkLocal && p.allowedHosts == []
    requires IsOctet(a) && IsOctet(b) && IsOctet(c) && IsOctet(d) && DecimalValue(a) == 169 && DecimalValue(b) == 254
    requires u.host == Dotted(a, b, c, d)
    ensures !Accepts(p, u)
  {
    DottedIsRecognised(a, b, c, d);
    hide IsIpv4, Parts, DecimalValue, Dotted, IsOctet;
  }

  /** The address is in a.b.0.0/16 or wider, as the rules name them. */
  predicate Loopback(a: nat) { a == 127 }

  predicate LinkLocal(a: nat, b: nat) { a == 169 && b == 254 }

  predicate PrivateNetwork(a: nat, b: nat) { a == 10 || (a == 172 && 16 <= b <= 31) || (a == 192 && b == 168) }

  /** What a policy without a host list does to a dotted decimal address. */
  lemma AddressAcceptedExactly(p: Policy, u: Url, a: string, b: string, c: string, d: string)
    requires IsOctet(a) && IsOctet(b) && IsOctet(c) && IsOctet(d) && u.host == Dotted(a, b, c, d)
      && p.allowedHosts == []
    ensures Accepts(p, u) <==>
      && u.scheme in p.allowedSchemes
      && !(p.blockLoopback && Loopback(DecimalValue(a)))
      && !(p.blockLinkLocal && LinkLocal(DecimalValue(a), DecimalValue(b)))
      && !(p.blockPrivateNetworks && PrivateNetwork(DecimalValue(a), DecimalValue(b)))
  {
    DottedIsRecognised(a, b, c, d);
    StartsWithDigit(a, b, c, d);
    hide IsIpv4, Parts, DecimalValue, Dotted, IsOctet, Octet;
  }

  lemma StartsWithDigit(a: string, b: string, c: string, d: string)
    requires IsOctet(a)
    ensures var host := Dotted(a, b, c, d);
      Lower(host) != "localhost" && host != "::1" && !("fe80:" <= host)
  {
    var host := Dotted(a, b, c, d);
    assert host[0] == a[0] && IsDigit(a[0]);
    assert Lower(host)[0] == host[0] && "localhost"[0] == 'l' && "::1"[0] == ':' && "fe80:"[0] == 'f';
  }
}
