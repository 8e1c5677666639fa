/**
 A URL put together from its components, in the syntax of section 3 of RFC 3986, is
 taken apart into them (parseUrl in src/net/Url.cpp).
 */
module UrlParts {
  import opened Text
  import opened Url
  import opened UrlRoundTrip

  /** Every component but scheme and host may be missing. */
  datatype Parts = Parts(
    scheme: string, user: Option<string>, host: string, port: Option<nat>,
    path: string, query: Option<string>, fragment: Option<string>)

  predicate Without(s: string, delimiters: string) { forall i :: 0 <= i < |s| ==> s[i] !in delimiters }

  /** No component holds a delimiter that belongs to a later one. */
  predicate WellParted(p: Parts) {
    && p.scheme != "" && SchemeChars(p.scheme)
    && (p.user.Some? ==> Without(p.user.value, "@/#"))
    && p.host != "" && Without(p.host, "@/#[:")
    && (p.port.Some? ==> 0 < p.port.value <= 65535)
    && p.path != "" && p.path[0] == '/' && Without(p.path, "?#")
    && (p.query.Some? ==> Without(p.query.value, "#"))
  }

  function UserText(p: Parts): string { if p.user.Some? then p.user.value + "@" else "" }

  function PlaceText(p: Parts): string { if p.port.Some? then p.host + ":" + DecimalText(p.port.value) else p.host }

  function TargetText(p: Parts): string { if p.query.Some? then p.path + "?" + p.query.value else p.path }

  function TailText(p: Parts): string {
    if p.fragment.Some? then TargetText(p) + "#" + p.fragment.value else TargetText(p)
  }

  /** scheme "://" [ user "@" ] host [ ":" port ] path [ "?" query ] [ "#" fragment ] */
  function PartsText(p: Parts): string { p.scheme + "://" + (UserText(p) + PlaceText(p) + TailText(p)) }

  lemma PlaceReads(p: Parts)
    requires WellParted(p)
    ensures PlaceText(p) != "" && '/' !in PlaceText(p) && '#' !in PlaceText(p) && '@' !in PlaceText(p)
    ensures ParseHostPort(PlaceText(p)) == Some(HostPort(p.host, if p.port.Some? then p.port.value else 0))
  {
    assert p.host[0] != '[' && ':' !in p.host && '/' !in p.host && '#' !in p.host && '@' !in p.host;
    hide ParseHostPort, SchemeChars, Without;
    if p.port.Some? {
      SplitPrinted(p.host, p.port.value);
      DigitsOnly(p.port.value, '/');
      DigitsOnly(p.port.value, '#');
      DigitsOnly(p.port.value, '@');
      hide DecimalText;
    } else {
      BareHost(p.host);
    }
  }

  /** The user information is cut off, whatever it is. */
  lemma AuthorityReads(p: Parts)
    requires WellParted(p)
    ensures var a := UserText(p) + PlaceText(p);
      && '/' !in a && '#' !in a
      && ReadAuthority(a) == Some(HostPort(p.host, if p.port.Some? then p.port.value else 0))
  {
    PlaceReads(p);
    if p.user.Some? {
      assert '@' !in p.user.value && '/' !in p.user.value && '#' !in p.user.value;
      SplitHere(p.user.value, '@', PlaceText(p));
      assert UserText(p) + PlaceText(p) == p.user.value + ['@'] + PlaceText(p);
    } else {
      assert UserText(p) + PlaceText(p) == PlaceText(p);
    }
    hide ParseHostPort, PlaceText, Without, SchemeChars;
  }

  lemma TargetReads(p: Parts)
    requires WellParted(p)
    ensures var t := TargetText(p);
      && t != "" && t[0] == '/' && '#' !in t
      && PathOf(t) == p.path && QueryOf(t) == if p.query.Some? then p.query.value else ""
  {
    assert '?' !in p.path && '#' !in p.path && (p.query.Some? ==> '#' !in p.query.value);
    hide SchemeChars, Without;
    if p.query.Some? {
      SplitHere(p.path, '?', p.query.value);
      assert TargetText(p) == p.path + ['?'] + p.query.value;
    } else {
      SplitHere(p.path, '?', "");
    }
    hide IndexOf;
  }

  lemma TailReads(p: Parts)
    requires WellParted(p)
    ensures var t := TailText(p);
      && t != "" && t[0] == '/' && Before(t, '#') == TargetText(p)
      && (if '#' in t then After(t, '#') else "") == if p.fragment.Some? then p.fragment.value else ""
  {
    TargetReads(p);
    hide WellParted, TargetText;
    if p.fragment.Some? {
      SplitHere(TargetText(p), '#', p.fragment.value);
      assert TailText(p) == TargetText(p) + ['#'] + p.fragment.value;
    } else {
      SplitHere(TargetText(p), '#', "");
    }
    hide IndexOf;
  }

  /**
   Every text that is put together from components is parsed into them: scheme and host
   in lower case, the default port of the scheme if none is given, the user information
   dropped, and what is missing empty.
   */
  lemma PartsReadBack(p: Parts)
    requires WellParted(p) && !IsSpace(TailText(p)[|TailText(p)| - 1])
    ensures Parse(PartsText(p)) == Some(Url(
      Lower(p.scheme), Lower(p.host),
      if p.port.Some? then p.port.value
      else if Lower(p.scheme) == "https" then 443 else if Lower(p.scheme) == "http" then 80 else 0,
      p.path,
      if p.query.Some? then p.query.value else "",
      if p.fragment.Some? then p.fragment.value else ""))
  {
    AuthorityReads(p);
    TargetReads(p);
    TailReads(p);
    PortGiven(p);
    var a, t := UserText(p) + PlaceText(p), TailText(p);
    LastOf(a, t);
    hide UserText, PlaceText, TailText, TargetText, ReadAuthority, PathOf, QueryOf, Before, After, Without, Lower;
    hide Parse, Assemble;
    ParseWithScheme(p.scheme, a + t);
    AssembleAt(Lower(p.scheme), a, t);
  }

  lemma PortGiven(p: Parts)
    requires WellParted(p)
    ensures p.host != "" && (p.port.Some? ==> p.port.value != 0)
  {
  }
}
