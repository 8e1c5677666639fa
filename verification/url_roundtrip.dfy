/**
 Printing and parsing URLs undo each other exactly when the host can be printed,
 and joining keeps the place that the base names.
 */
module UrlRoundTrip {
  import opened Text
  import opened Url

  // ---- delimiters in concatenated text ---------------------------------------------

  lemma {:induction false} IndexBehind(a: string, b: string, c: char)
    requires c !in a
    ensures IndexOf(a + b, c) == |a| + IndexOf(b, c)
  {
    if a == [] {
      assert a + b == b;
    } else {
      assert (a + b)[0] == a[0] && (a + b)[1..] == a[1..] + b;
      assert c !in a[1..];
      IndexBehind(a[1..], b, c);
    }
  }

  lemma {:induction false} LastIndexBehind(a: string, b: string, c: char)
    requires c !in b
    ensures LastIndexOf(a + b, c) == LastIndexOf(a, c)
    decreases |b|
  {
    if b == [] {
      assert a + b == a;
    } else {
      assert (a + b)[|a + b| - 1] == b[|b| - 1] && (a + b)[..|a + b| - 1] == a + b[..|b| - 1];
      assert c !in b[..|b| - 1];
      LastIndexBehind(a, b[..|b| - 1], c);
    }
  }

  lemma SplitBehind(a: string, b: string, c: char)
    requires c !in a
    ensures Before(a + b, c) == a + Before(b, c)
    ensures c in b ==> c in a + b && After(a + b, c) == After(b, c)
    ensures c in a + b <==> c in b
  {
    IndexBehind(a, b, c);
    hide IndexOf;
    assert (a + b)[..|a| + IndexOf(b, c)] == a + b[..IndexOf(b, c)];
    if c in b {
      assert (a + b)[|a| + IndexOf(b, c) + 1..] == b[IndexOf(b, c) + 1..];
    }
  }

  lemma SplitHere(b: string, c: char, d: string)
    requires c !in b
    ensures c in b + [c] + d && Before(b + [c] + d, c) == b && After(b + [c] + d, c) == d
    ensures Before(b, c) == b
  {
    var s := b + [c] + d;
    assert s == b + ([c] + d) && ([c] + d)[0] == c && s[|b|] == c;
    IndexBehind(b, [c] + d, c);
    assert s[|b| + 1..] == d;
    assert IndexOf(b, c) == |b|;
  }

  // ---- the authority ----------------------------------------------------------------

  /** The host reads back as itself. */
  predicate HostPrintable(u: Url) {
    '@' !in u.host && (u.host != "" ==> u.host[0] != '[') && (':' in u.host ==> PortPrinted(u))
  }

  lemma PortRoundTrip(port: nat)
    requires 0 < port <= 65535
    ensures ParsePort(DecimalText(port)) == Some(port)
  {
    ParseIntOfDecimalText(port);
    hide ParseInt, DecimalText;
  }

  lemma DigitsOnly(n: nat, c: char)
    requires !IsDigit(c)
    ensures c !in DecimalText(n)
  {
    hide DecimalText;
  }

  /** Splitting "host:port" at the last colon. */
  lemma SplitPrinted(host: string, port: nat)
    requires host != "" && host[0] != '[' && 0 < port <= 65535
    ensures ParseHostPort(host + ":" + DecimalText(port)) == Some(HostPort(host, port))
  {
    var digits := DecimalText(port);
    var authority := host + ":" + digits;
    PortRoundTrip(port);
    DigitsOnly(port, ':');
    hide DecimalText, ParsePort;
    LastIndexBehind(host + ":", digits, ':');
    assert (host + ":")[|host|] == ':' && LastIndexOf(host + ":", ':') == |host|;
    assert authority[0] == host[0];
    assert authority[|host| + 1..] == digits && authority[..|host|] == host;
  }

  lemma BareHost(host: string)
    requires host != "" && host[0] != '[' && ':' !in host
    ensures ParseHostPort(host) == Some(HostPort(host, 0))
  {
  }

  lemma AuthorityRoundTrip(u: Url)
    requires u.host != "" && u.port <= 65535 && HostPrintable(u)
    ensures ParseHostPort(Authority(u)) == Some(HostPort(u.host, if PortPrinted(u) then u.port else 0))
  {
    hide ParseHostPort;
    if PortPrinted(u) {
      SplitPrinted(u.host, u.port);
    } else {
      BareHost(u.host);
    }
  }

  /** The host that a printed authority names, when it names one. */
  function ReadAuthority(authority: string): Option<HostPort> {
    var a := if '@' in authority then After(authority, '@') else authority;
    if a == "" then None else ParseHostPort(a)
  }

  lemma BracketHost(a: string, host: string, tail: string)
    requires a == host + tail && host != "" && a[0] == '[' && ']' !in tail
    ensures ParseHostPort(a).Some? ==> |ParseHostPort(a).value.host| < |host|
  {
    hide ParsePort;
    if ']' in a {
      assert forall p :: |host| <= p < |a| ==> a[p] == tail[p - |host|];
      assert a[IndexOf(a, ']')] == ']';
    }
  }

  lemma ShorterHost(a: string, host: string)
    requires a == host && host != "" && (':' in host || host[0] == '[')
    ensures ParseHostPort(a).Some? ==> |ParseHostPort(a).value.host| < |host|
  {
    hide ParsePort;
    if host[0] == '[' {
      assert host == host + [];
      BracketHost(a, host, []);
    } else {
      assert LastIndexOf(a, ':') >= 0;
    }
  }

  /** A host that cannot be printed never reads back as itself: the host read is shorter. */
  lemma UnprintableHostIsLost(u: Url)
    requires u.host != "" && u.port <= 65535 && !HostPrintable(u)
    ensures ReadAuthority(Authority(u)).Some? ==> |ReadAuthority(Authority(u)).value.host| < |u.host|
  {
    var tail := if PortPrinted(u) then ":" + DecimalText(u.port) else "";
    var authority := u.host + tail;
    assert authority == Authority(u);
    DigitsOnly(u.port, '@');
    DigitsOnly(u.port, ']');
    hide ParseHostPort, DecimalText;
    if '@' in u.host {
      var host := After(u.host, '@');
      FirstAt(u.host, tail, '@');
      assert After(authority, '@') == host + tail;
      if host + tail != "" {
        ReadHost(host, tail, u);
      }
    } else {
      assert '@' !in authority;
      ReadHost(u.host, tail, u);
    }
  }

  lemma FirstAt(a: string, b: string, c: char)
    requires c in a
    ensures c in a + b && After(a + b, c) == After(a, c) + b
  {
    var i := IndexOf(a, c);
    assert a[i] == c && (a + b)[i] == c;
    assert forall j :: 0 <= j < i ==> (a + b)[j] == a[j] != c;
    assert IndexOf(a + b, c) == i;
    assert (a + b)[i + 1..] == a[i + 1..] + b;
  }

  /** Reading back what is left of a host, with its printed port. */
  lemma ReadHost(host: string, tail: string, u: Url)
    requires u.port <= 65535
    requires tail == if PortPrinted(u) then ":" + DecimalText(u.port) else ""
    requires ']' !in tail && |host| <= |u.host| && host + tail != ""
    requires host == u.host ==> host != "" && (host[0] == '[' || (':' in host && tail == ""))
    requires host != u.host ==> |host| < |u.host|
    ensures ParseHostPort(host + tail).Some? ==> |ParseHostPort(host + tail).value.host| < |u.host|
  {
    hide DecimalText, ParseHostPort;
    var a := host + tail;
    if host == "" {
      assert a == tail;
      EmptyHost(tail, u.port);
    } else if host[0] == '[' {
      BracketHost(a, host, tail);
    } else if tail != "" {
      assert a == host + ":" + DecimalText(u.port);
      SplitPrinted(host, u.port);
    } else {
      assert a == host;
      if ':' in host {
        ShorterHost(a, host);
      } else {
        BareHost(host);
      }
    }
  }

  lemma EmptyHost(tail: string, port: nat)
    requires tail == ":" + DecimalText(port) && 0 < port <= 65535
    ensures ParseHostPort(tail).Some? ==> ParseHostPort(tail).value.host == ""
  {
    DigitsOnly(port, ':');
    hide DecimalText, ParsePort;
    LastIndexBehind(":", DecimalText(port), ':');
    assert LastIndexOf(":", ':') == 0;
  }

  // ---- the rest of the URL -------------------------------------------------------------

  /** The path and query that a rooted target stands for. */
  function PathOf(target: string): string { Before(target, '?') }

  function QueryOf(target: string): string { if '?' in target then After(target, '?') else "" }

  /** An authority and a rooted rest, in which a fragment may begin. */
  lemma AssembleAt(scheme: string, authority: string, tail: string)
    requires '/' !in authority && '#' !in authority && tail != "" && tail[0] == '/'
    ensures var read := ReadAuthority(authority);
      var target := Before(tail, '#');
      target != "" && target[0] == '/' &&
      Assemble(scheme, authority + tail) ==
        if read.None? || read.value.host == "" then None
        else Some(Url(scheme, Lower(read.value.host),
                      if read.value.port == 0 then DefaultPort(scheme) else read.value.port,
                      PathOf(target), QueryOf(target), if '#' in tail then After(tail, '#') else ""))
  {
    var target := Before(tail, '#');
    var rest := authority + target;
    assert target != "" && target[0] == '/';
    SplitBehind(authority, tail, '#');
    assert Before(authority + tail, '#') == rest;
    SplitHere(authority, '/', target[1..]);
    assert rest == authority + ['/'] + target[1..];
    IndexBehind(authority, target, '/');
    assert IndexOf(target, '/') == 0;
    assert rest[|authority|..] == target;
    assert Target(rest) == target && ParseAuthority(rest) == ReadAuthority(authority);
    assert PathOf(target) != "";
    hide ParseHostPort, Lower, DefaultPort, ParseAuthority, ReadAuthority, Target, IndexOf;
  }

  lemma SchemeHasNoColon(scheme: string)
    requires SchemeChars(scheme)
    ensures ':' !in scheme && (scheme != "" ==> !IsSpace(scheme[0]))
  {
  }

  lemma {:induction false} FindBehind(a: string, b: string, from: nat)
    requires ':' !in a && |b| >= 3 && b[..3] == "://" && from <= |a|
    ensures Find(a + b, "://", from) == |a|
    decreases |a| - from
  {
    var s := a + b;
    if from == |a| {
      assert s[|a|..|a| + 3] == b[..3];
    } else {
      assert s[from..from + 3][0] == a[from] != "://"[0];
      FindBehind(a, b, from + 1);
    }
  }

  /** Trimmed text of any scheme, in any case. */
  lemma ParseWithScheme(scheme: string, after: string)
    requires scheme != "" && SchemeChars(scheme)
    requires after != "" && !IsSpace(after[|after| - 1])
    ensures Parse(scheme + "://" + after) == Assemble(Lower(scheme), after)
  {
    var text := scheme + "://" + after;
    SchemeHasNoColon(scheme);
    assert text[0] == scheme[0] && text[|text| - 1] == after[|after| - 1];
    TrimExact(text);
    assert text == scheme + ("://" + after);
    assert ("://" + after)[..3] == "://";
    FindBehind(scheme, "://" + after, 0);
    assert text[..|scheme|] == scheme && text[|scheme| + 3..] == after;
    LowerScheme(scheme);
    hide Assemble, Trim, Trimmed, Find, SchemeChars, Lower;
  }

  lemma LowerScheme(scheme: string)
    requires SchemeChars(scheme)
    ensures SchemeChars(Lower(scheme))
  {
  }

  /** Text with trailing blanks parses as the text without them. */
  lemma ParseTrims(text: string)
    ensures Parse(text) == Parse(Trim(text))
  {
    TrimExact(text);
    TrimExact(Trim(text));
    hide Trim, Find, Assemble, SchemeChars;
  }

  // ---- the round trip ----------------------------------------------------------------------

  /** Without a fragment behind it, the path or query must not end in a blank. */
  predicate EndPrintable(u: Url) {
    u.fragment != "" || !IsSpace(RequestTarget(u)[|RequestTarget(u)| - 1])
  }

  predicate Printable(u: Url) { HostPrintable(u) && EndPrintable(u) }

  lemma TargetReadsBack(u: Url)
    requires WellFormed(u)
    ensures var t := RequestTarget(u);
      t != "" && t[0] == '/' && '#' !in t && PathOf(t) == u.path && QueryOf(t) == u.query
  {
    hide Lower, SchemeChars;
    var t := RequestTarget(u);
    if u.query == "" {
      assert t == u.path;
      SplitHere(u.path, '?', "");
    } else {
      assert t == u.path + ['?'] + u.query;
      SplitHere(u.path, '?', u.query);
    }
    hide IndexOf;
  }

  lemma AuthorityIsPlain(u: Url)
    requires WellFormed(u)
    ensures '/' !in Authority(u) && '#' !in Authority(u)
    ensures '@' in Authority(u) <==> '@' in u.host
  {
    DigitsOnly(u.port, '/');
    DigitsOnly(u.port, '#');
    DigitsOnly(u.port, '@');
    hide DecimalText, Lower, SchemeChars;
  }

  /** The host and port of a URL come back from its printed authority exactly when the host is printable. */
  lemma PlaceReadsBack(u: Url)
    requires WellFormed(u)
    ensures var read := ReadAuthority(Authority(u));
      if HostPrintable(u) then
        && read.Some? && read.value.host == u.host
        && (if read.value.port == 0 then DefaultPort(u.scheme) else read.value.port) == u.port
      else read.Some? ==> Lower(read.value.host) != u.host
  {
    AuthorityIsPlain(u);
    hide ParseHostPort, SchemeChars;
    if HostPrintable(u) {
      AuthorityRoundTrip(u);
    } else {
      UnprintableHostIsLost(u);
      hide ReadAuthority, Authority, HostPrintable;
      var read := ReadAuthority(Authority(u));
      assert read.Some? ==> |Lower(read.value.host)| < |u.host|;
    }
  }

  /** Behind a printed scheme and authority, any rooted rest is read as target and fragment. */
  lemma ParsePlaced(u: Url, tail: string)
    requires WellFormed(u) && tail != "" && tail[0] == '/' && !IsSpace(tail[|tail| - 1])
    ensures var p := Parse(u.scheme + "://" + (Authority(u) + tail));
      var target := Before(tail, '#');
      if HostPrintable(u) then
        p == Some(Url(u.scheme, u.host, u.port, PathOf(target), QueryOf(target), if '#' in tail then After(tail, '#')
          else ""))
      else p.Some? ==> p.value.host != u.host
  {
    AuthorityIsPlain(u);
    PlaceReadsBack(u);
    assert u.scheme != "" && SchemeChars(u.scheme) && Lower(u.scheme) == u.scheme;
    assert u.host != "" && Lower(u.host) == u.host;
    hide *;
    ParseWithScheme(u.scheme, Authority(u) + tail);
    AssembleAt(u.scheme, Authority(u), tail);
  }

  function FragmentText(u: Url): string { if u.fragment == "" then "" else "#" + u.fragment }

  lemma PrintedShape(u: Url)
    ensures ToString(u) == u.scheme + "://" + (Authority(u) + (RequestTarget(u) + FragmentText(u)))
    ensures u.fragment == "" ==> ToString(u) == u.scheme + "://" + Authority(u) + RequestTarget(u)
  {
    hide Authority, RequestTarget;
    Regroup(u.scheme + "://" + Authority(u), RequestTarget(u), FragmentText(u));
    Regroup(u.scheme + "://", Authority(u), RequestTarget(u) + FragmentText(u));
  }

  lemma TailSplits(u: Url)
    requires WellFormed(u)
    ensures var tail := RequestTarget(u) + FragmentText(u);
      Before(tail, '#') == RequestTarget(u) && (if '#' in tail then After(tail, '#') else "") == u.fragment
  {
    var target := RequestTarget(u);
    TargetReadsBack(u);
    hide WellFormed, RequestTarget;
    if u.fragment == "" {
      assert target + "" == target;
      SplitHere(target, '#', "");
    } else {
      Regroup(target, ['#'], u.fragment);
      SplitHere(target, '#', u.fragment);
    }
  }

  lemma PrintedReadsBack(u: Url)
    requires WellFormed(u) && EndPrintable(u)
    ensures Parse(ToString(u)) == Some(u) <==> HostPrintable(u)
  {
    TargetReadsBack(u);
    TailSplits(u);
    PrintedShape(u);
    var tail := RequestTarget(u) + FragmentText(u);
    assert tail[0] == '/' && !IsSpace(tail[|tail| - 1]);
    hide *;
    ParsePlaced(u, tail);
  }

  /** A target that lost trailing blanks stands for another path or query. */
  lemma CutTargetDiffers(u: Url, m: nat)
    requires WellFormed(u) && 0 < m < |RequestTarget(u)|
    requires forall i :: m <= i < |RequestTarget(u)| ==> IsSpace(RequestTarget(u)[i])
    ensures var t := RequestTarget(u)[..m]; PathOf(t) != u.path || QueryOf(t) != u.query
  {
    hide Lower, SchemeChars;
    var t := RequestTarget(u)[..m];
    if u.query == "" {
      assert RequestTarget(u) == u.path && '?' !in t;
    } else {
      assert RequestTarget(u)[|u.path|] == '?' && m > |u.path|;
      assert t == u.path + ['?'] + u.query[..m - |u.path| - 1];
      SplitHere(u.path, '?', u.query[..m - |u.path| - 1]);
      assert |QueryOf(t)| < |u.query|;
    }
  }

  /** Trimming printed text never reaches the root of the target. */
  lemma TrimPrinted(front: string, target: string) returns (m: nat)
    requires front != "" && !IsSpace(front[0]) && target != "" && target[0] == '/'
    ensures 0 < m <= |target| && Trim(front + target) == front + target[..m]
    ensures !IsSpace(target[m - 1]) && forall i :: m <= i < |target| ==> IsSpace(target[i])
  {
    var text := front + target;
    assert text[0] == front[0] && text[|front|] == '/';
    assert TrimLeft(text) == text;
    var r := TrimRight(text);
    hide TrimLeft, TrimRight;
    m := |r| - |front|;
    assert r == front + target[..m];
    assert text[|r| - 1] == target[m - 1];
    assert forall i :: m <= i < |target| ==> target[i] == text[|front| + i];
  }

  lemma ParseCut(u: Url, m: nat)
    requires WellFormed(u) && 0 < m <= |RequestTarget(u)| && !IsSpace(RequestTarget(u)[m - 1])
    ensures var cut := RequestTarget(u)[..m];
      var p := Parse(u.scheme + "://" + (Authority(u) + cut));
      p.Some? && p.value.host == u.host ==> p.value.path == PathOf(cut) && p.value.query == QueryOf(cut)
  {
    TargetReadsBack(u);
    hide *;
    var cut := RequestTarget(u)[..m];
    SplitHere(cut, '#', "");
    ParsePlaced(u, cut);
  }

  lemma BlankEndIsLost(u: Url)
    requires WellFormed(u) && !EndPrintable(u)
    ensures Parse(ToString(u)) != Some(u)
  {
    var target := RequestTarget(u);
    SchemeHasNoColon(u.scheme);
    TargetReadsBack(u);
    PrintedShape(u);
    assert IsSpace(target[|target| - 1]) && u.fragment == "" && u.scheme != "";
    hide *;
    var front := u.scheme + "://" + Authority(u);
    assert front[0] == u.scheme[0];
    var m := TrimPrinted(front, target);
    CutTargetDiffers(u, m);
    Regroup(u.scheme + "://", Authority(u), target[..m]);
    ParseTrims(ToString(u));
    ParseCut(u, m);
  }

  /** Parsing what was printed gives the URL back exactly when it is printable. */
  lemma PrintParse(u: Url)
    requires WellFormed(u)
    ensures Parse(ToString(u)) == Some(u) <==> Printable(u)
  {
    hide Parse, ToString, WellFormed, HostPrintable, EndPrintable;
    if EndPrintable(u) {
      PrintedReadsBack(u);
    } else {
      BlankEndIsLost(u);
    }
  }

  /** For every text that parses. */
  lemma ParsePrintParse(text: string)
    ensures match Parse(text) case None => true case Some(u) => Parse(ToString(u)) == Some(u) <==> Printable(u)
  {
    ParsedIsWellFormed(text);
    hide Parse, ToString, WellFormed, Printable;
    if Parse(text).Some? {
      PrintParse(Parse(text).value);
    }
  }

  /** Text without blanks, '@', '[' and ':' where they matter always comes back. */
  lemma PlainHostRoundTrip(u: Url)
    requires WellFormed(u) && ':' !in u.host && '@' !in u.host && '[' !in u.host
    requires forall i :: 0 <= i < |RequestTarget(u)| ==> !IsSpace(RequestTarget(u)[i])
    ensures Parse(ToString(u)) == Some(u)
  {
    assert Printable(u) by {
      assert RequestTarget(u) != "";
    }
    hide Parse, ToString, WellFormed, Printable, RequestTarget;
    PrintParse(u);
  }

  // ---- inputs that do not come back ---------------------------------------------------------

  lemma BracketedReads(host: string)
    requires ']' !in host
    ensures ParseHostPort("[" + host + "]") == Some(HostPort(host, 0))
  {
    var a := "[" + host + "]";
    hide ParsePort, IndexOf;
    IndexBehind("[" + host, "]", ']');
    assert ("[" + host)[0] == '[' && forall i :: 0 <= i < |host| ==> ("[" + host)[i + 1] == host[i];
    FirstIsAtOnce(']');
    assert ']' in a && a[1..|host| + 1] == host && a[|host| + 2..] == "";
  }

  lemma FirstIsAtOnce(c: char)
    ensures IndexOf([c], c) == 0
  {
  }

  lemma Spellings()
    ensures "[" + "::1" + "]" == "[::1]" && ":" + ":" + "1" == "::1" && DecimalText(1) == "1"
    ensures Lower("::1") == "::1" && Lower(":") == ":" && Lower("h") == "h" && Lower("http") == "http"
  {
  }

  lemma Colons()
    ensures ReadAuthority("[::1]") == Some(HostPort("::1", 0)) && ReadAuthority("::1") == Some(HostPort(":", 1))
  {
    hide ParseHostPort, DecimalText, Lower;
    Spellings();
    BracketedReads("::1");
    SplitPrinted(":", 1);
  }

  lemma HttpPlace(authority: string, host: string, port: nat, tail: string)
    requires ReadAuthority(authority) == Some(HostPort(host, port)) && host != "" && Lower(host) == host
    requires '/' !in authority && '#' !in authority
    requires tail != "" && tail[0] == '/' && '#' !in tail && !IsSpace(tail[|tail| - 1])
    ensures Parse("http://" + (authority + tail))
         == Some(Url("http", host, if port == 0 then 80 else port, PathOf(tail), QueryOf(tail), ""))
  {
    hide *;
    HttpFacts();
    NoFragment(tail);
    LastOf(authority, tail);
    ParseWithScheme("http", authority + tail);
    AssembleAt("http", authority, tail);
  }

  lemma HttpFacts()
    ensures Lower("http") == "http" && SchemeChars("http") && DefaultPort("http") == 80 && "http" + "://" == "http://"
  {
  }

  lemma NoFragment(tail: string)
    requires '#' !in tail
    ensures Before(tail, '#') == tail
  {
    SplitHere(tail, '#', "");
  }

  lemma LastOf(a: string, b: string)
    requires b != ""
    ensures a + b != "" && (a + b)[|a + b| - 1] == b[|b| - 1]
  {
  }

  /** Behind a bracketed host, and behind the same host as it is printed. */
  lemma BracketedPlace(tail: string)
    requires tail != "" && tail[0] == '/' && '#' !in tail && !IsSpace(tail[|tail| - 1])
    ensures Parse("http://" + ("[::1]" + tail)) == Some(Url("http", "::1", 80, PathOf(tail), QueryOf(tail), ""))
    ensures Parse("http://" + ("::1" + tail)) == Some(Url("http", ":", 1, PathOf(tail), QueryOf(tail), ""))
  {
    hide *;
    Colons();
    Spellings();
    HttpPlace("[::1]", "::1", 0, tail);
    HttpPlace("::1", ":", 1, tail);
  }

  lemma PlainTarget(path: string)
    requires path != "" && '?' !in path
    ensures PathOf(path) == path && QueryOf(path) == ""
  {
    SplitHere(path, '?', "");
  }

  lemma HttpIsPlain(host: string, path: string)
    requires host != "" && Lower(host) == host && '/' !in host && '#' !in host
    requires path != "" && path[0] == '/' && '?' !in path && '#' !in path
    ensures var u := Url("http", host, 80, path, "", "");
      WellFormed(u) && ToString(u) == "http://" + (host + path) && !PortPrinted(u)
  {
    hide Lower, SchemeChars;
    HttpFacts();
    assert "http" + "://" + host + path + "" == "http://" + (host + path);
  }

  /** The brackets of http://[::1]/ are not printed again, and then a part of the host is read as the port. */
  lemma BracketedHostIsLost()
    ensures var u := Url("http", "::1", 80, "/", "", "");
      && Parse("http://[::1]/") == Some(u) && WellFormed(u) && !HostPrintable(u)
      && ToString(u) == "http://::1/" && Parse(ToString(u)) == Some(Url("http", ":", 1, "/", "", ""))
  {
    hide *;
    BracketedRoot();
    Spellings();
    BracketedTexts();
    PlainTarget("/");
    HttpIsPlain("::1", "/");
    ColonNeedsPort(Url("http", "::1", 80, "/", "", ""));
  }

  lemma BracketedRoot()
    ensures Parse("http://" + ("[::1]" + "/")) == Some(Url("http", "::1", 80, PathOf("/"), QueryOf("/"), ""))
    ensures Parse("http://" + ("::1" + "/")) == Some(Url("http", ":", 1, PathOf("/"), QueryOf("/"), ""))
  {
    assert !IsSpace('/');
    hide *;
    BracketedPlace("/");
  }

  lemma BracketedTexts()
    ensures "http://" + ("[::1]" + "/") == "http://[::1]/" && "http://" + ("::1" + "/") == "http://::1/"
    ensures "http://" + ("::1" + "/x") == "http://::1/x" && "http://" + ("h" + "/ ") == "http://h/ "
  {
  }

  lemma ColonNeedsPort(u: Url)
    requires ':' in u.host && !PortPrinted(u)
    ensures !HostPrintable(u)
  {
  }

  /** A blank before an empty fragment is kept by the first parse, and cut off by the second. */
  lemma BlankEndOfPathIsLost()
    ensures var u := Url("http", "h", 80, "/ ", "", "");
      && Parse("http://h/ #") == Some(u) && WellFormed(u) && HostPrintable(u) && !EndPrintable(u)
      && ToString(u) == "http://h/ " && Parse(ToString(u)) != Some(u)
  {
    var u := Url("http", "h", 80, "/ ", "", "");
    assert HostPrintable(u) && !EndPrintable(u);
    hide *;
    Spellings();
    BracketedTexts();
    HttpIsPlain("h", "/ ");
    BlankBeforeFragment();
    BlankEndIsLost(u);
  }

  lemma BlankBeforeFragment()
    ensures Parse("http://h/ #") == Some(Url("http", "h", 80, "/ ", "", ""))
  {
    hide *;
    HttpFacts();
    Spellings();
    FragmentTexts();
    BareHost("h");
    PlainTarget("/ ");
    LastOf("h", "/ #");
    ParseWithScheme("http", "h" + "/ #");
    AssembleAt("http", "h", "/ #");
  }

  lemma FragmentTexts()
    ensures "http://" + ("h" + "/ #") == "http://h/ #" && !IsSpace('#')
    ensures '#' in "/ #" && Before("/ #", '#') == "/ " && After("/ #", '#') == ""
    ensures ParseHostPort("h") == Some(HostPort("h", 0)) ==> ReadAuthority("h") == Some(HostPort("h", 0))
  {
    assert "/ " + ['#'] + "" == "/ #";
    SplitHere("/ ", '#', "");
    hide ParseHostPort, Before, After, IndexOf;
  }
}
