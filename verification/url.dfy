/**
 URLs: parsing, printing, joining, and the rules about which may be requested
 (src/net/Url.cpp, include/testforge/net/Url.hpp).
 */
module Url {
  import opened Text

  datatype Url = Url(scheme: string, host: string, port: nat, path: string, query: string, fragment: string)

  function DefaultPort(scheme: string): nat {
    if scheme == "https" then 443 else if scheme == "http" then 80 else 0
  }

  // ---- printing -------------------------------------------------------------------

  function RequestTarget(u: Url): string {
    (if u.path == "" then "/" else u.path) + if u.query == "" then "" else "?" + u.query
  }

  /** The port is left out when it is the default of the scheme. */
  predicate PortPrinted(u: Url) { u.port != 0 && u.port != DefaultPort(u.scheme) }

  function Authority(u: Url): string {
    if PortPrinted(u) then u.host + ":" + DecimalText(u.port) else u.host
  }

  function ToString(u: Url): string {
    u.scheme + "://" + Authority(u) + RequestTarget(u) + if u.fragment == "" then "" else "#" + u.fragment
  }

  // ---- parsing --------------------------------------------------------------------

  predicate SchemeChars(s: string) {
    forall i :: 0 <= i < |s| ==> IsAlnum(s[i]) || s[i] == '+' || s[i] == '-' || s[i] == '.'
  }

  /** What stands before the first `c`, and what stands behind it. */
  function Before(s: string, c: char): string { s[..IndexOf(s, c)] }

  function After(s: string, c: char): string
    requires c in s
  {
    s[IndexOf(s, c) + 1..]
  }

  datatype HostPort = HostPort(host: string, port: nat)

  function ParsePort(text: string): Option<nat> {
    var port := ParseInt(text);
    if port.None? || port.value <= 0 || port.value > 65535 then None else Some(port.value)
  }

  /** Host and port; port 0 stands for none given. */
  function ParseHostPort(authority: string): Option<HostPort>
    requires authority != ""
  {
    if authority[0] == '[' then
      if ']' !in authority then None
      else
        var host, tail := authority[1..IndexOf(authority, ']')], After(authority, ']');
        if tail == "" then Some(HostPort(host, 0))
        else if tail[0] != ':' || ParsePort(tail[1..]).None? then None
        else Some(HostPort(host, ParsePort(tail[1..]).value))
    else
      var colon := LastIndexOf(authority, ':');
      if colon < 0 then Some(HostPort(authority, 0))
      else if ParsePort(authority[colon + 1..]).None? then None
      else Some(HostPort(authority[..colon], ParsePort(authority[colon + 1..]).value))
  }

  /** The host and port that `rest`, the part before any fragment, names. */
  function ParseAuthority(rest: string): Option<HostPort> {
    var given := Before(rest, '/');
    var authority := if '@' in given then After(given, '@') else given;
    if authority == "" then None else ParseHostPort(authority)
  }

  function Target(rest: string): string { if '/' in rest then rest[IndexOf(rest, '/')..] else "/" }

  /** The URL made of a scheme and what follows "://". */
  function Assemble(scheme: string, after: string): Option<Url> {
    var rest := Before(after, '#');
    var fragment := if '#' in after then After(after, '#') else "";
    var where := ParseAuthority(rest);
    if where.None? || where.value.host == "" then None
    else
      var target := Target(rest);
      var path := Before(target, '?');
      Some(Url(
        scheme, Lower(where.value.host), if where.value.port == 0 then DefaultPort(scheme) else where.value.port,
        if path == "" then "/" else path, if '?' in target then After(target, '?') else "", fragment))
  }

  function Parse(text: string): Option<Url> {
    var trimmed := Trim(text);
    var schemeEnd := Find(trimmed, "://", 0);
    if trimmed == "" || schemeEnd <= 0 then None
    else
      var scheme, after := Lower(trimmed[..schemeEnd]), trimmed[schemeEnd + 3..];
      if !SchemeChars(scheme) || after == "" then None else Assemble(scheme, after)
  }

  /** parseUrl, with its strings consumed step by step. */
  method ParseUrl(text: string) returns (url: Option<Url>)
    ensures url == Parse(text)
  {
    hide ParseInt, Lower, Trim, LastIndexOf, IndexOf;
    var trimmed := Trim(text);
    if trimmed == "" {
      return None;
    }
    var schemeEnd := Find(trimmed, "://", 0);
    if schemeEnd <= 0 {
      return None;
    }
    var scheme := Lower(trimmed[..schemeEnd]);
    for i := 0 to |scheme|
      invariant SchemeChars(scheme[..i])
    {
      var c := scheme[i];
      if !IsAlnum(c) && c != '+' && c != '-' && c != '.' {
        return None;
      }
    }
    assert scheme[..|scheme|] == scheme;
    var rest := trimmed[schemeEnd + 3..];
    if rest == "" {
      return None;
    }
    assert Parse(text) == Assemble(scheme, rest);
    hide Parse, SchemeChars;
    var parsed := AssembleUrl(scheme, rest);
    return parsed;
  }

  /** The fragment is cut off first. */
  method CutFragment(after: string) returns (rest: string, fragment: string)
    ensures rest == Before(after, '#') && fragment == if '#' in after then After(after, '#') else ""
  {
    hide IndexOf;
    rest, fragment := after, "";
    var hash := IndexOf(rest, '#');
    if hash < |rest| {
      fragment := rest[hash + 1..];
      rest := rest[..hash];
    }
  }

  /** Then the authority is parted from what starts with the first slash, and loses its user information. */
  method CutAuthority(rest: string) returns (authority: string, pathAndQuery: string)
    ensures pathAndQuery == Target(rest)
    ensures ParseAuthority(rest) == if authority == "" then None else ParseHostPort(authority)
  {
    hide IndexOf, ParseHostPort;
    authority, pathAndQuery := rest, "/";
    var slash := IndexOf(rest, '/');
    if slash < |rest| {
      authority := rest[..slash];
      pathAndQuery := rest[slash..];
    }
    assert authority == Before(rest, '/');
    var at := IndexOf(authority, '@');
    if at < |authority| {
      authority := authority[at + 1..];
    }
  }

  method CutQuery(pathAndQuery: string) returns (path: string, query: string)
    ensures path == Before(pathAndQuery, '?') && query == if '?' in pathAndQuery then After(pathAndQuery, '?') else ""
  {
    hide IndexOf;
    path, query := pathAndQuery, "";
    var question := IndexOf(pathAndQuery, '?');
    if question < |pathAndQuery| {
      path := pathAndQuery[..question];
      query := pathAndQuery[question + 1..];
    }
  }

  method AssembleUrl(scheme: string, after: string) returns (url: Option<Url>)
    ensures url == Assemble(scheme, after)
  {
    hide Lower, IndexOf, ParseHostPort, ParseAuthority, Before, After, Target, DefaultPort;
    var rest, fragment := CutFragment(after);
    var authority, pathAndQuery := CutAuthority(rest);
    if authority == "" {
      return None;
    }
    var where := SplitHostPort(authority);
    if where.None? || where.value.host == "" {
      return None;
    }
    var host, port := Lower(where.value.host), where.value.port;
    if port == 0 {
      port := DefaultPort(scheme);
    }
    var path, query := CutQuery(pathAndQuery);
    if path == "" {
      path := "/";
    }
    return Some(Url(scheme, host, port, path, query, fragment));
  }

  method SplitHostPort(authority: string) returns (where: Option<HostPort>)
    requires authority != ""
    ensures where == ParseHostPort(authority)
  {
    hide ParseInt, LastIndexOf, IndexOf;
    if authority[0] == '[' {
      var close := IndexOf(authority, ']');
      if close == |authority| {
        return None;
      }
      var host, tail := authority[1..close], authority[close + 1..];
      if tail == "" {
        return Some(HostPort(host, 0));
      }
      if tail[0] != ':' {
        return None;
      }
      var port := ParseInt(tail[1..]);
      if port.None? || port.value <= 0 || port.value > 65535 {
        return None;
      }
      return Some(HostPort(host, port.value));
    }
    var colon := LastIndexOf(authority, ':');
    if colon < 0 {
      return Some(HostPort(authority, 0));
    }
    var port := ParseInt(authority[colon + 1..]);
    if port.None? || port.value <= 0 || port.value > 65535 {
      return None;
    }
    return Some(HostPort(authority[..colon], port.value));
  }

  // ---- what every parsed URL looks like ----------------------------------------------

  ghost predicate WellFormed(u: Url) {
    && u.scheme != "" && SchemeChars(u.scheme) && Lower(u.scheme) == u.scheme
    && u.host != "" && Lower(u.host) == u.host && '/' !in u.host && '#' !in u.host
    && u.port <= 65535 && (u.port == 0 ==> DefaultPort(u.scheme) == 0)
    && u.path != "" && u.path[0] == '/' && '?' !in u.path && '#' !in u.path
    && '#' !in u.query
    && (u.fragment != "" ==> !IsSpace(u.fragment[|u.fragment| - 1]))
  }

  lemma LowerKeeps(s: string, c: char)
    requires c !in s && !IsAlpha(c)
    ensures c !in Lower(s)
  {
  }

  lemma HostPortFrom(authority: string)
    requires authority != ""
    ensures ParseHostPort(authority).Some? ==>
      var hp := ParseHostPort(authority).value;
      hp.port <= 65535 && forall i :: 0 <= i < |hp.host| ==> hp.host[i] in authority
  {
    hide ParsePort;
    assert forall t: string :: ParsePort(t).Some? ==> 0 < ParsePort(t).value <= 65535 by {
      forall t: string
        ensures ParsePort(t).Some? ==> 0 < ParsePort(t).value <= 65535
      {
        PortBounds(t);
      }
    }
  }

  lemma PortBounds(t: string)
    ensures ParsePort(t).Some? ==> 0 < ParsePort(t).value <= 65535
  {
    hide ParseInt;
  }

  lemma AuthorityFrom(rest: string)
    ensures ParseAuthority(rest).Some? ==>
      var hp := ParseAuthority(rest).value;
      hp.port <= 65535 && '/' !in hp.host && forall i :: 0 <= i < |hp.host| ==> hp.host[i] in rest
  {
    var given := Before(rest, '/');
    var authority := if '@' in given then After(given, '@') else given;
    assert forall c :: c in authority ==> c in given;
    assert '/' !in given && forall c :: c in given ==> c in rest;
    hide ParseHostPort;
    if authority != "" {
      HostPortFrom(authority);
    }
  }

  lemma TargetFrom(rest: string)
    ensures var t := Target(rest); t != "" && t[0] == '/' && forall c :: c in t ==> c in rest || c == '/'
  {
  }

  lemma AssembledIsWellFormed(scheme: string, after: string)
    requires scheme != "" && SchemeChars(scheme) && Lower(scheme) == scheme
    requires after != "" && !IsSpace(after[|after| - 1])
    ensures Assemble(scheme, after).Some? ==> WellFormed(Assemble(scheme, after).value)
  {
    var rest := Before(after, '#');
    assert '#' !in rest;
    hide ParseAuthority, Target, SchemeChars, Lower, ParseHostPort;
    AuthorityFrom(rest);
    TargetFrom(rest);
    var target := Target(rest);
    assert target != "" && target[0] == '/' && '#' !in target;
    assert '?' !in Before(target, '?');
    hide IndexOf;
    var where := ParseAuthority(rest);
    if where.Some? && where.value.host != "" {
      LowerKeeps(where.value.host, '/');
      LowerKeeps(where.value.host, '#');
      LowerIdempotent(where.value.host);
    }
  }

  /** Every parsed URL has lower-case scheme and host, a rooted path, and parts free of delimiters. */
  lemma ParsedIsWellFormed(text: string)
    ensures Parse(text).Some? ==> WellFormed(Parse(text).value)
  {
    var trimmed := Trim(text);
    TrimExact(text);
    hide Assemble, Trim, WellFormed;
    var schemeEnd := Find(trimmed, "://", 0);
    if trimmed != "" && schemeEnd > 0 {
      assert schemeEnd + 3 <= |trimmed|;
      var scheme, after := Lower(trimmed[..schemeEnd]), trimmed[schemeEnd + 3..];
      LowerIdempotent(trimmed[..schemeEnd]);
      if after != "" && SchemeChars(scheme) {
        AssembledIsWellFormed(scheme, after);
      }
    }
  }
}
