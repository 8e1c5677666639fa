/**
 Joining a base URL and a path (joinUrl in src/net/Url.cpp).
 */
module UrlJoin {
  import opened Text
  import opened Url
  import opened UrlRoundTrip

  predicate IsAbsolute(path: string) { "http://" <= path || "https://" <= path }

  function StripSlashes(s: string): (r: string)
    ensures r <= s && (r == "" || r[|r| - 1] != '/')
  {
    if s != "" && s[|s| - 1] == '/' then StripSlashes(s[..|s| - 1]) else s
  }

  function Rooted(path: string): string { if path != "" && path[0] == '/' then path else "/" + path }

  /** The joined URL, before it is printed: query and fragment of the base are dropped. */
  function JoinOnto(base: Url, path: string): Url {
    var suffix := Rooted(path);
    base.(path := StripSlashes(base.path) + PathOf(suffix), query := QueryOf(suffix), fragment := "")
  }

  function Join(base: string, path: string): Option<string> {
    if Contains(path, "..") then None
    else if IsAbsolute(path) then (if Parse(path).Some? then Some(path) else None)
    else if Parse(base).None? then None
    else Some(ToString(JoinOnto(Parse(base).value, path)))
  }

  /** joinUrl as it is written. */
  method JoinUrl(base: string, path: string) returns (joined: Option<string>)
    ensures joined == Join(base, path)
  {
    hide Parse, Find, ToString, At, JoinOnto;
    var traversal := Contains(path, "..");
    if traversal {
      return None;
    }
    if "http://" <= path || "https://" <= path {
      var parsed := ParseUrl(path);
      return if parsed.Some? then Some(path) else None;
    }
    var parsedBase := ParseUrl(base);
    if parsedBase.None? {
      return None;
    }
    var result := AppendPath(parsedBase.value, path);
    return Some(ToString(result));
  }

  method AppendPath(base: Url, path: string) returns (joined: Url)
    ensures joined == JoinOnto(base, path)
  {
    hide IndexOf;
    var basePath := base.path;
    while basePath != "" && basePath[|basePath| - 1] == '/'
      invariant StripSlashes(base.path) == StripSlashes(basePath)
      decreases |basePath|
    {
      basePath := basePath[..|basePath| - 1];
    }
    var suffix := path;
    if suffix == "" {
      suffix := "/";
    } else if suffix[0] != '/' {
      suffix := "/" + suffix;
    }
    assert suffix == Rooted(path);
    joined := base;
    var question := IndexOf(suffix, '?');
    if question < |suffix| {
      joined := joined.(query := suffix[question + 1..]);
      suffix := suffix[..question];
    } else {
      joined := joined.(query := "");
    }
    assert suffix == PathOf(Rooted(path)) && joined.query == QueryOf(Rooted(path));
    hide PathOf, QueryOf, Rooted, Before, After;
    joined := joined.(path := basePath + suffix, fragment := "");
  }

  // ---- the joined URL stays where the base is ------------------------------------------

  lemma JoinedTarget(base: Url, path: string)
    requires WellFormed(base)
    ensures var j := JoinOnto(base, path);
      && j.path != "" && j.path[0] == '/' && '?' !in j.path
      && RequestTarget(j) != "" && RequestTarget(j)[0] == '/'
  {
    var suffix := Rooted(path);
    assert suffix[0] == '/';
    assert PathOf(suffix) != "" && PathOf(suffix)[0] == '/';
    hide Lower, SchemeChars;
  }

  /** Printed text of a rooted target parses as what is left when trailing blanks are cut. */
  lemma ParsePlacedBlank(u: Url, target: string) returns (m: nat)
    requires WellFormed(u) && target != "" && target[0] == '/'
    ensures 0 < m <= |target| && !IsSpace(target[m - 1])
    ensures var text := u.scheme + "://" + (Authority(u) + target);
      Parse(text) == Parse(u.scheme + "://" + (Authority(u) + target[..m]))
  {
    SchemeHasNoColon(u.scheme);
    assert u.scheme != "";
    hide *;
    var front := u.scheme + "://" + Authority(u);
    assert front[0] == u.scheme[0];
    m := TrimPrinted(front, target);
    Regroup(u.scheme + "://", Authority(u), target);
    Regroup(u.scheme + "://", Authority(u), target[..m]);
    ParseTrims(front + target);
    ParseTrims(front + target[..m]);
    TrimmedAlready(front + target);
  }

  lemma TrimmedAlready(text: string)
    ensures Trim(Trim(text)) == Trim(text)
  {
    TrimExact(text);
    TrimExact(Trim(text));
    hide *;
  }

  /**
   A path without ".." that is no absolute URL, whatever else it holds, joins to a
   URL with the scheme, host and port of the base, exactly when the base's host is
   printable.
   */
  lemma JoinStaysPut(base: string, path: string)
    requires Parse(base).Some? && !IsAbsolute(path) && Join(base, path).Some?
    ensures var b, p := Parse(base).value, Parse(Join(base, path).value);
      if HostPrintable(b) then
        p.Some? && p.value.scheme == b.scheme && p.value.host == b.host && p.value.port == b.port
      else p.Some? ==> p.value.host != b.host
  {
    ParsedIsWellFormed(base);
    hide Parse, WellFormed;
    var b := Parse(base).value;
    var j := JoinOnto(b, path);
    JoinedTarget(b, path);
    PrintedShape(j);
    Regroup(b.scheme + "://", Authority(b), RequestTarget(j));
    assert ToString(j) == b.scheme + "://" + (Authority(b) + RequestTarget(j));
    assert Join(base, path) == Some(ToString(j));
    hide *;
    var m := ParsePlacedBlank(b, RequestTarget(j));
    var tail := RequestTarget(j)[..m];
    assert tail[0] == '/' && tail[|tail| - 1] == RequestTarget(j)[m - 1];
    ParsePlaced(b, tail);
  }

  /** Without a fragment in the path, nothing at all is lost, unless path or query end in a blank. */
  lemma JoinReadsBack(base: string, path: string)
    requires Parse(base).Some? && !IsAbsolute(path) && Join(base, path).Some? && HostPrintable(Parse(base).value)
    requires '#' !in path
    ensures var j := JoinOnto(Parse(base).value, path); Parse(Join(base, path).value) == Some(j) <==> EndPrintable(j)
  {
    ParsedIsWellFormed(base);
    hide Parse, ToString;
    var b := Parse(base).value;
    var j := JoinOnto(b, path);
    JoinedIsWellFormed(b, path);
    assert HostPrintable(j);
    hide *;
    PrintParse(j);
    assert Printable(j) <==> HostPrintable(j) && EndPrintable(j) by {
      PrintableParts(j);
    }
  }

  lemma PrintableParts(u: Url)
    ensures Printable(u) <==> HostPrintable(u) && EndPrintable(u)
  {
  }

  lemma JoinedIsWellFormed(b: Url, path: string)
    requires WellFormed(b) && '#' !in path
    ensures WellFormed(JoinOnto(b, path))
  {
    JoinedTarget(b, path);
    var suffix, j := Rooted(path), JoinOnto(b, path);
    assert '#' !in suffix;
    hide Lower, SchemeChars;
    assert '#' !in j.path && '#' !in j.query;
  }

  /** Joining to the same bracketed base names another host and port. */
  lemma BracketedBaseMoves()
    ensures Parse("http://[::1]/").Some? && !IsAbsolute("x") && Join("http://[::1]/", "x") == Some("http://::1/x")
    ensures Parse("http://::1/x") == Some(Url("http", ":", 1, "/x", "", ""))
  {
    assert !IsSpace('x');
    hide *;
    Spellings();
    BracketedTexts();
    BracketedHostIsLost();
    BracketedPlace("/x");
    PlainTarget("/x");
    NoTraversal();
    HttpIsPlain("::1", "/x");
    BracketedOnto();
    JoinIs("http://[::1]/", "x");
  }

  lemma JoinIs(base: string, path: string)
    requires !Contains(path, "..") && !IsAbsolute(path) && Parse(base).Some?
    ensures Join(base, path) == Some(ToString(JoinOnto(Parse(base).value, path)))
  {
    hide Parse, Contains, IsAbsolute, JoinOnto, ToString;
  }

  lemma NoTraversal()
    ensures !Contains("x", "..") && !IsAbsolute("x")
  {
  }

  lemma BracketedOnto()
    ensures JoinOnto(Url("http", "::1", 80, "/", "", ""), "x") == Url("http", "::1", 80, "/x", "", "")
  {
    PlainTarget("/x");
    hide PathOf, QueryOf;
    assert Rooted("x") == "/x" && StripSlashes("/") == "" && "" + "/x" == "/x";
  }

  // ---- the path of the joined URL -----------------------------------------------------------

  lemma {:induction false} StripExactly(front: string, slashes: string)
    requires (forall i :: 0 <= i < |slashes| ==> slashes[i] == '/') && (front != "" ==> front[|front| - 1] != '/')
    ensures StripSlashes(front + slashes) == front
    decreases |slashes|
  {
    if slashes == "" {
      assert front + slashes == front;
    } else {
      assert (front + slashes)[..|front + slashes| - 1] == front + slashes[..|slashes| - 1];
      StripExactly(front, slashes[..|slashes| - 1]);
    }
  }

  /** With the slash between base and path written out, whether the path begins with one or not. */
  function WithSlash(path: string): string { if path != "" && path[0] == '/' then path else "/" + path }

  lemma RelativeReads(path: string, query: Option<string>)
    requires '?' !in path
    ensures var relative := if query.Some? then path + "?" + query.value else path;
      PathOf(Rooted(relative)) == WithSlash(path) && QueryOf(Rooted(relative))
        == if query.Some? then query.value else ""
  {
    hide PathOf, QueryOf, Before, After, IndexOf;
    var p := WithSlash(path);
    SlashFirst(path, query);
    PlainOrQuery(p, query);
  }

  lemma SlashFirst(path: string, query: Option<string>)
    requires '?' !in path
    ensures '?' !in WithSlash(path)
    ensures query.Some? ==> Rooted(path + "?" + query.value) == WithSlash(path) + ['?'] + query.value
    ensures Rooted(path) == WithSlash(path)
  {
    if query.Some? && path != "" {
      assert (path + "?" + query.value)[0] == path[0];
    }
    if query.Some? {
      assert "/" + (path + "?" + query.value) == ("/" + path) + ['?'] + query.value;
    }
  }

  lemma PlainOrQuery(p: string, query: Option<string>)
    requires '?' !in p
    ensures query.None? ==> PathOf(p) == p && QueryOf(p) == ""
    ensures query.Some? ==>
      PathOf(p + ['?'] + query.value) == p && QueryOf(p + ['?'] + query.value) == query.value
  {
    SplitHere(p, '?', if query.Some? then query.value else "");
    hide Before, After, IndexOf;
  }

  /**
   The path of the joined URL is that of the base without the slashes at its end, one
   slash, and the path given; the query is the one given, and nothing of the query and
   the fragment of the base is left.
   */
  lemma JoinedExactly(base: string, front: string, slashes: string, path: string, query: Option<string>)
    requires Parse(base).Some? && Parse(base).value.path == front + slashes && HostPrintable(Parse(base).value)
    requires (forall i :: 0 <= i < |slashes| ==> slashes[i] == '/') && (front != "" ==> front[|front| - 1] != '/')
    requires '?' !in path && '#' !in path && (query.Some? ==> '#' !in query.value)
    requires var relative := if query.Some? then path + "?" + query.value else path;
      !IsAbsolute(relative) && Join(base, relative).Some? && EndPrintable(JoinOnto(Parse(base).value, relative))
    ensures var relative := if query.Some? then path + "?" + query.value else path;
      var b := Parse(base).value;
      Parse(Join(base, relative).value)
        == Some(Url(b.scheme, b.host, b.port, front + WithSlash(path), if query.Some? then query.value else "", ""))
  {
    var relative := if query.Some? then path + "?" + query.value else path;
    var b := Parse(base).value;
    assert '#' !in relative;
    hide Parse, Join, EndPrintable, HostPrintable, IsAbsolute;
    JoinReadsBack(base, relative);
    StripExactly(front, slashes);
    RelativeReads(path, query);
    hide StripSlashes, PathOf, QueryOf, Rooted, WithSlash;
  }
}
