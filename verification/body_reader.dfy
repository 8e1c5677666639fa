/**
 The loops that read a response (Impl::perform in src/net/HttpClient.cpp), with
 the socket as a list of byte pieces and how it ends.
 */
module BodyReader {
  import opened Text
  import opened Chunked
  import opened ChunkedFraming

  /** After the last piece the peer has closed the connection, or reading fails. */
  datatype Ending = Closed | Broken

  /** How the end of the body is found. */
  datatype Framing = ByChunks | ByLength(length: nat) | ByClose

  /** `Hangs`: the decoder never stops. */
  datatype Body = Body(text: string) | Truncated(text: string) | BadChunks | Hangs | ReadFailed

  /** The body is known without reading on. */
  predicate Final(f: Framing, buffer: string) {
    match f
    case ByChunks => !Waits(Decoded(buffer))
    case ByLength(n) => |buffer| >= n
    case ByClose => false
  }

  function FinalBody(f: Framing, buffer: string): Body
    requires Final(f, buffer)
  {
    match f
    case ByChunks =>
      (match Decoded(buffer)
       case Running(_, _, _) => Hangs
       case Stopped(v, _) => if v.Complete? then Body(v.out) else BadChunks)
    case ByLength(n) => Body(buffer[..n])
  }

  /** The loop, from a buffer and the pieces still to come. */
  function ReadOn(f: Framing, buffer: string, pieces: seq<string>, ending: Ending, max: nat): Body
    decreases |pieces|
  {
    if Final(f, buffer) then FinalBody(f, buffer)
    else if |buffer| > max then Truncated(buffer[..max])
    else if pieces != [] then ReadOn(f, buffer + pieces[0], pieces[1..], ending, max)
    else if ending == Closed then Body(buffer)
    else ReadFailed
  }

  /** Within these turns the decoder comes to an end, or never. */
  method DecodeBuffer(buffer: string) returns (end: Loop)
    ensures end == Decoded(buffer)
  {
    end := DecodeChunked(buffer, |buffer| + 1);
  }

  method ReadBody(chunked: bool, contentLength: int, first: string, pieces: seq<string>, ending: Ending, max: nat)
    returns (body: Body)
    requires contentLength >= -1
    ensures var f := if chunked then ByChunks else if contentLength >= 0 then ByLength(contentLength) else ByClose;
      body == ReadOn(f, first, pieces, ending, max)
  {
    hide Decoded;
    ghost var f := if chunked then ByChunks else if contentLength >= 0 then ByLength(contentLength) else ByClose;
    var buffer, next, eof := first, 0, false;
    assert pieces[0..] == pieces;
    while true
      invariant next <= |pieces|
      invariant ReadOn(f, first, pieces, ending, max) == ReadOn(f, buffer, pieces[next..], ending, max)
      invariant eof ==> next == |pieces| && ending == Closed && !Final(f, buffer) && |buffer| <= max
      decreases |pieces| - next, !eof
    {
      if chunked {
        var end := DecodeBuffer(buffer);
        match end {
          case Running(_, _, _) => return Hangs;
          case Stopped(v, _) =>
            if v.Malformed? {
              return BadChunks;
            } else if v.Complete? {
              return Body(v.out);
            }
        }
      } else if contentLength >= 0 {
        if |buffer| >= contentLength {
          return Body(buffer[..contentLength]);
        }
      }
      if eof {
        return Body(buffer);
      }
      if |buffer| > max {
        return Truncated(buffer[..max]);
      }
      if next == |pieces| {
        if ending == Broken {
          return ReadFailed;
        }
        eof := true;
      } else {
        assert pieces[next..][1..] == pieces[next + 1..];
        buffer := buffer + pieces[next];
        next := next + 1;
      }
    }
  }

  // ---- the result does not depend on how the bytes were split --------------------------

  function Concat(pieces: seq<string>): string {
    if pieces == [] then "" else pieces[0] + Concat(pieces[1..])
  }

  /** What the bytes as a whole stand for. */
  function Whole(f: Framing, total: string, ending: Ending, max: nat): Body { ReadOn(f, total, [], ending, max) }

  /** A string of the program in which the chunked decoder's position does not overflow. */
  predicate Unwrapped(f: Framing, total: string) {
    |total| < MAX_STRING && (f.ByChunks? ==> Decoded(total).wraps == 0)
  }

  lemma FrontOfUnwrapped(f: Framing, s: string, t: string)
    requires Unwrapped(f, s + t)
    ensures Unwrapped(f, s)
  {
    hide Decoded;
    if f.ByChunks? {
      FrontUnwrapped(s, t);
    }
  }

  /** More bytes do not change a body that is known. */
  lemma FinalStays(f: Framing, s: string, t: string)
    requires Final(f, s) && Unwrapped(f, s + t)
    ensures Final(f, s + t) && FinalBody(f, s + t) == FinalBody(f, s)
  {
    FrontOfUnwrapped(f, s, t);
    hide Decoded;
    match f
    case ByChunks =>
      DecodeExtends(s, t);
    case ByLength(n) =>
      assert (s + t)[..n] == s[..n];
  }

  /** The body is known within the first `n` bytes, or not at all. */
  predicate KnownWithin(f: Framing, total: string, n: nat) {
    Final(f, total) ==> Final(f, if n < |total| then total[..n] else total)
  }

  lemma KnownWithinLater(f: Framing, total: string, m: nat, n: nat)
    requires m <= n && KnownWithin(f, total, m) && Unwrapped(f, total)
    ensures KnownWithin(f, total, n)
  {
    hide Final, FinalBody, Unwrapped;
    if m < |total| && n < |total| && Final(f, total) {
      assert total[..m] + total[m..n] == total[..n] && total[..n] + total[n..] == total;
      FrontOfUnwrapped(f, total[..n], total[n..]);
      FinalStays(f, total[..m], total[m..n]);
    }
  }

  /** Any split gives what the whole gives, if the body is known before it could be cut off. */
  lemma {:induction false} AnySplit(f: Framing, buffer: string, pieces: seq<string>, ending: Ending, max: nat)
    requires KnownWithin(f, buffer + Concat(pieces), max + 1) && Unwrapped(f, buffer + Concat(pieces))
    ensures ReadOn(f, buffer, pieces, ending, max) == Whole(f, buffer + Concat(pieces), ending, max)
    decreases |pieces|
  {
    hide Decoded, Final, FinalBody, Unwrapped;
    var total := buffer + Concat(pieces);
    if Final(f, buffer) {
      FinalStays(f, buffer, Concat(pieces));
    } else if |buffer| > max {
      assert total[..|buffer|] == buffer && total[..max] == buffer[..max];
      assert |buffer| == |total| ==> total == buffer;
      KnownWithinLater(f, total, max + 1, |buffer|);
    } else if pieces != [] {
      assert total == buffer + pieces[0] + Concat(pieces[1..]);
      AnySplit(f, buffer + pieces[0], pieces[1..], ending, max);
    } else {
      assert total == buffer;
    }
  }

  /** Cut behind byte max + 1, a longer body comes out truncated. */
  lemma LateBodyIsCut(f: Framing, total: string, ending: Ending, max: nat)
    requires Final(f, total) && !KnownWithin(f, total, max + 1)
    ensures max + 1 < |total|
    ensures ReadOn(f, total[..max + 1], [total[max + 1..]], ending, max) != Whole(f, total, ending, max)
  {
    hide Final;
  }

  /**
   As long as no position of the decoder overflows: every split of the bytes into
   reads gives the same body exactly when the body is known within max + 1 bytes or
   not at all.
   */
  lemma SplitsAgreeExactly(f: Framing, total: string, ending: Ending, max: nat)
    requires Unwrapped(f, total)
    ensures
      (forall buffer, pieces :: buffer + Concat(pieces) == total ==>
        ReadOn(f, buffer, pieces, ending, max) == Whole(f, total, ending, max))
      <==> KnownWithin(f, total, max + 1)
  {
    hide Unwrapped, Final, FinalBody, ReadOn;
    if KnownWithin(f, total, max + 1) {
      forall buffer, pieces | buffer + Concat(pieces) == total
        ensures ReadOn(f, buffer, pieces, ending, max) == Whole(f, total, ending, max)
      {
        AnySplit(f, buffer, pieces, ending, max);
      }
    } else {
      LateBodyIsCut(f, total, ending, max);
      var buffer, pieces := total[..max + 1], [total[max + 1..]];
      assert Concat(pieces) == pieces[0] + Concat(pieces[1..]) == pieces[0];
      assert buffer + Concat(pieces) == total;
    }
  }

  /** A body whose length is one byte more than is ever read before it is cut: whole in one read, truncated in two. */
  lemma LateLengthIsCut(total: string, ending: Ending, max: nat)
    requires |total| == max + 2
    ensures ReadOn(ByLength(max + 2), total, [], ending, max) == Body(total)
    ensures total[..max + 1] + Concat([total[max + 1..]]) == total
    ensures ReadOn(ByLength(max + 2), total[..max + 1], [total[max + 1..]], ending, max) == Truncated(total[..max])
  {
    var f, front, back := ByLength(max + 2), total[..max + 1], total[max + 1..];
    assert total[..max + 2] == total;
    assert Concat([back]) == back + Concat([]) == back;
    assert front[..max] == total[..max];
  }

  /** A chunked body that is complete after an overflow depends on whether the bytes behind it come in the same read. */
  lemma WrappedSplitsDisagree(total: string, t: string, ending: Ending, max: nat)
    requires |total + t| < MAX_STRING && t != ""
    requires Decoded(total).Stopped? && Decoded(total).verdict.Complete? && Decoded(total).wraps > 0
    ensures ReadOn(ByChunks, total, [t], ending, max) != ReadOn(ByChunks, total + t, [], ending, max)
  {
    WrappedChanges(total, t);
    hide Decoded;
  }

  // ---- what the body is -----------------------------------------------------------------

  /**
   A body that only the end of the stream delimits: all of it if the peer closed the
   connection, nothing but a failure if reading broke off, and the first bytes, up to
   the limit, if it is too long.
   */
  lemma {:induction false} CloseDelimited(buffer: string, pieces: seq<string>, ending: Ending, max: nat)
    ensures var total := buffer + Concat(pieces);
      ReadOn(ByClose, buffer, pieces, ending, max)
        == if |total| > max then Truncated(total[..max])
           else if ending == Closed then Body(total) else ReadFailed
    decreases |pieces|
  {
    var total := buffer + Concat(pieces);
    if |buffer| > max {
      assert total[..max] == buffer[..max];
    } else if pieces != [] {
      assert total == buffer + pieces[0] + Concat(pieces[1..]);
      CloseDelimited(buffer + pieces[0], pieces[1..], ending, max);
    } else {
      assert total == buffer;
    }
  }

  /**
   A body of announced length: its bytes as soon as they are there; what arrived, if
   the peer closed the connection before; a failure, if reading broke off before.
   */
  lemma {:induction false} LengthDelimited(n: nat, buffer: string, pieces: seq<string>, ending: Ending, max: nat)
    requires n <= max || |buffer + Concat(pieces)| <= max
    ensures var total := buffer + Concat(pieces);
      ReadOn(ByLength(n), buffer, pieces, ending, max)
        == if |total| >= n then Body(total[..n])
           else if ending == Closed then Body(total) else ReadFailed
    decreases |pieces|
  {
    var total := buffer + Concat(pieces);
    if |buffer| >= n {
      assert total[..n] == buffer[..n];
    } else if pieces != [] {
      assert total == buffer + pieces[0] + Concat(pieces[1..]);
      LengthDelimited(n, buffer + pieces[0], pieces[1..], ending, max);
    } else {
      assert total == buffer;
    }
  }

  /**
   An unfinished chunked body, as long as no position overflows: what arrived, framing
   and all, if the peer closed the connection; a failure, if reading broke off.
   */
  lemma ChunksUnfinished(buffer: string, pieces: seq<string>, ending: Ending, max: nat)
    requires var total := buffer + Concat(pieces); |total| <= max && Unwrapped(ByChunks, total) && Waits(Decoded(total))
    ensures ReadOn(ByChunks, buffer, pieces, ending, max)
         == if ending == Closed then Body(buffer + Concat(pieces)) else ReadFailed
  {
    hide Unwrapped, Decoded;
    AnySplit(ByChunks, buffer, pieces, ending, max);
  }

  /** A malformed one is refused, wherever the reads are cut. */
  lemma ChunksMalformed(buffer: string, pieces: seq<string>, ending: Ending, max: nat)
    requires var total := buffer + Concat(pieces);
      |total| <= max && Unwrapped(ByChunks, total) && Decoded(total) == Stopped(Malformed, 0)
    ensures ReadOn(ByChunks, buffer, pieces, ending, max) == BadChunks
  {
    hide Unwrapped, Decoded;
    AnySplit(ByChunks, buffer, pieces, ending, max);
  }

  /** In particular for every response no longer than the limit. */
  lemma ShortResponsesSplitFreely(f: Framing, b1: string, p1: seq<string>, b2: string, p2: seq<string>,
                                  ending: Ending, max: nat)
    requires b1 + Concat(p1) == b2 + Concat(p2) && |b1 + Concat(p1)| <= max && Unwrapped(f, b1 + Concat(p1))
    ensures ReadOn(f, b1, p1, ending, max) == ReadOn(f, b2, p2, ending, max)
  {
    hide Unwrapped, Final, FinalBody, ReadOn;
    AnySplit(f, b1, p1, ending, max);
    AnySplit(f, b2, p2, ending, max);
  }

  /** A complete chunked response, however it arrives, is read as its payload. */
  lemma ChunkedResponse(chunks: seq<Chunk>, last: string, trailer: string,
                        buffer: string, pieces: seq<string>, ending: Ending, max: nat)
    requires Framed(chunks, last) && buffer + Concat(pieces) == Wire(chunks, last, trailer)
    requires |Wire(chunks, last, trailer)| < MAX_STRING
    requires |Wire(chunks, last, "")| <= max + 1
    ensures ReadOn(ByChunks, buffer, pieces, ending, max) == Body(Payload(chunks))
  {
    hide Decode, Decoded, Wire, Framed, Payload, ReadOn;
    var total, short := Wire(chunks, last, trailer), Wire(chunks, last, "");
    WireEnds(chunks, last, trailer);
    DecodesWire(chunks, last, trailer);
    DecodesWire(chunks, last, "");
    DecodedExactly(total);
    DecodedExactly(short);
    assert total[..|short|] == short;
    assert |short| == |total| ==> short == total;
    KnownWithinLater(ByChunks, total, |short|, max + 1);
    AnySplit(ByChunks, buffer, pieces, ending, max);
    WholeOfComplete(total, Payload(chunks), ending, max);
  }

  lemma WholeOfComplete(total: string, out: string, ending: Ending, max: nat)
    requires Decoded(total) == Stopped(Complete(out), 0)
    ensures Whole(ByChunks, total, ending, max) == Body(out)
  {
    hide Decoded;
  }

  lemma {:induction false} WireEnds(chunks: seq<Chunk>, last: string, trailer: string)
    ensures Wire(chunks, last, trailer) == Wire(chunks, last, "") + trailer
  {
    if chunks != [] {
      WireEnds(chunks[1..], last, trailer);
    }
  }

  // ---- headers ------------------------------------------------------------------------

  const MAX_HEADER_BYTES: nat := 64 * 1024
  const BLANK_LINE: string := "\r\n\r\n"

  /** The header block, the bytes read beyond it, and the pieces not yet read. */
  datatype Headers = Headers(block: string, extra: string, unread: seq<string>) | TooLong | Unfinished | HeadersFailed

  /** The loop looks for the blank line behind each read, never before the first. */
  function ReadHeadersOn(raw: string, pieces: seq<string>, ending: Ending): Headers
    decreases |pieces|
  {
    if pieces == [] then (if ending == Closed then Unfinished else HeadersFailed)
    else
      var now := raw + pieces[0];
      var headerEnd := Find(now, BLANK_LINE, 0);
      if headerEnd >= 0 then Headers(now[..headerEnd], now[headerEnd + 4..], pieces[1..])
      else if |now| > MAX_HEADER_BYTES then TooLong
      else ReadHeadersOn(now, pieces[1..], ending)
  }

  method ReadHeaders(pieces: seq<string>, ending: Ending) returns (headers: Headers)
    ensures headers == ReadHeadersOn("", pieces, ending)
  {
    var raw, next, headerEnd := "", 0, -1;
    assert pieces[0..] == pieces;
    while headerEnd < 0
      invariant 0 <= next <= |pieces|
      invariant headerEnd < 0 ==> ReadHeadersOn("", pieces, ending) == ReadHeadersOn(raw, pieces[next..], ending)
      invariant headerEnd >= 0 ==> headerEnd + 4 <= |raw|
      invariant headerEnd >= 0 ==>
                ReadHeadersOn("", pieces, ending) == Headers(raw[..headerEnd], raw[headerEnd + 4..], pieces[next..])
      decreases |pieces| - next, headerEnd < 0
    {
      if next == |pieces| {
        return if ending == Closed then Unfinished else HeadersFailed;
      }
      assert pieces[next..][1..] == pieces[next + 1..];
      raw := raw + pieces[next];
      next := next + 1;
      headerEnd := Find(raw, BLANK_LINE, 0);
      if headerEnd < 0 && |raw| > MAX_HEADER_BYTES {
        return TooLong;
      }
    }
    return Headers(raw[..headerEnd], raw[headerEnd + 4..], pieces[next..]);
  }

  /** The header block of the whole stream, and the rest of it, however it was split. */
  lemma {:induction false} HeadersOfStream(raw: string, pieces: seq<string>, ending: Ending)
    requires Find(raw, BLANK_LINE, 0) < 0
    requires var e := Find(raw + Concat(pieces), BLANK_LINE, 0); 0 <= e && e + 4 <= MAX_HEADER_BYTES + 1
    ensures var total := raw + Concat(pieces);
      var e, h := Find(total, BLANK_LINE, 0), ReadHeadersOn(raw, pieces, ending);
      h.Headers? && h.block == total[..e] && e + 4 <= |total| && h.extra + Concat(h.unread) == total[e + 4..]
    decreases |pieces|
  {
    assert raw + [] == raw;
    hide Find, At;
    if pieces != [] {
      var now, rest := raw + pieces[0], Concat(pieces[1..]);
      assert raw + Concat(pieces) == now + rest;
      hide Concat;
      if Find(now, BLANK_LINE, 0) >= 0 {
        FoundNow(now, rest);
      } else {
        NotTooLong(now, rest);
        HeadersOfStream(now, pieces[1..], ending);
      }
    }
  }

  /** A blank line that has arrived is that of the whole stream. */
  lemma FoundNow(now: string, rest: string)
    requires Find(now, BLANK_LINE, 0) >= 0
    ensures var e := Find(now, BLANK_LINE, 0);
      && e == Find(now + rest, BLANK_LINE, 0) && e + 4 <= |now|
      && now[..e] == (now + rest)[..e] && now[e + 4..] + rest == (now + rest)[e + 4..]
  {
    FindBound(now, BLANK_LINE, 0);
    FindInLonger(now, rest, BLANK_LINE, 0);
    hide Find, At;
    var e := Find(now, BLANK_LINE, 0);
    assert now[..e] == (now + rest)[..e];
    assert now[e + 4..] + rest == (now + rest)[e + 4..];
  }

  /** As long as it has not arrived, no more than the bytes before its end were read. */
  lemma NotTooLong(now: string, rest: string)
    requires Find(now, BLANK_LINE, 0) < 0
    requires var e := Find(now + rest, BLANK_LINE, 0); 0 <= e && e + 4 <= MAX_HEADER_BYTES + 1
    ensures |now| <= MAX_HEADER_BYTES
  {
    FindBound(now + rest, BLANK_LINE, 0);
    var e := Find(now + rest, BLANK_LINE, 0);
    hide Find, At;
    if |now| >= e + 4 {
      ThereAlready(now, rest, e);
    }
  }

  lemma ThereAlready(now: string, rest: string, e: nat)
    requires At(now + rest, BLANK_LINE, e) && e + 4 <= |now|
    ensures At(now, BLANK_LINE, e)
  {
    assert now[e..e + 4] == (now + rest)[e..e + 4];
  }

  /** Every split finds the headers exactly when their blank line ends within the limit and one byte. */
  lemma HeadersFoundExactly(total: string, ending: Ending)
    requires Find(total, BLANK_LINE, 0) >= 0
    ensures (forall pieces :: Concat(pieces) == total ==> ReadHeadersOn("", pieces, ending).Headers?)
      <==> Find(total, BLANK_LINE, 0) + 4 <= MAX_HEADER_BYTES + 1
  {
    var e := Find(total, BLANK_LINE, 0);
    assert Find("", BLANK_LINE, 0) < 0;
    FindBound(total, BLANK_LINE, 0);
    hide Find, At, Concat, ReadHeadersOn;
    if e + 4 <= MAX_HEADER_BYTES + 1 {
      forall pieces | Concat(pieces) == total
        ensures ReadHeadersOn("", pieces, ending).Headers?
      {
        assert "" + Concat(pieces) == total;
        HeadersOfStream("", pieces, ending);
      }
    } else {
      var pieces := [total[..e + 3], total[e + 3..]];
      CutInTwo(total, e + 3);
      NotYet(total, e);
      LateIsTooLong(pieces, ending);
    }
  }

  lemma CutInTwo(total: string, k: nat)
    requires k <= |total|
    ensures Concat([total[..k], total[k..]]) == total
  {
    var pieces := [total[..k], total[k..]];
    assert Concat(pieces[1..]) == pieces[1] + Concat([]);
    assert pieces[1] + "" == pieces[1] && pieces[0] + pieces[1] == total;
  }

  lemma LateIsTooLong(pieces: seq<string>, ending: Ending)
    requires pieces != [] && Find(pieces[0], BLANK_LINE, 0) < 0 && |pieces[0]| > MAX_HEADER_BYTES
    ensures ReadHeadersOn("", pieces, ending) == TooLong
  {
    hide Find, At;
    assert "" + pieces[0] == pieces[0];
  }

  /** 64 KiB of header bytes before the blank line: found in one read, too long in two. */
  lemma LateHeadersDisagree(block: string, ending: Ending)
    requires |block| == MAX_HEADER_BYTES && '\r' !in block
    ensures var total := block + BLANK_LINE;
      && ReadHeadersOn("", [total], ending) == Headers(block, "", [])
      && Concat([total]) == Concat([total[..|block| + 3], total[|block| + 3..]]) == total
      && ReadHeadersOn("", [total[..|block| + 3], total[|block| + 3..]], ending) == TooLong
  {
    var total, e := block + BLANK_LINE, |block|;
    LineEndsBlock(block);
    CutInTwo(total, e + 3);
    assert Concat([total]) == total + Concat([]) == total;
    hide Find, At, Concat;
    NotYet(total, e);
    LateIsTooLong([total[..e + 3], total[e + 3..]], ending);
    assert "" + total == total && total[..e] == block && total[e + 4..] == "";
    assert [total][1..] == [];
  }

  lemma LineEndsBlock(block: string)
    requires '\r' !in block
    ensures Find(block + BLANK_LINE, BLANK_LINE, 0) == |block|
  {
    var total := block + BLANK_LINE;
    assert total[|block|..|block| + 4] == BLANK_LINE;
    assert At(total, BLANK_LINE, |block|);
    hide At;
    forall i: nat | i < |block|
      ensures !At(total, BLANK_LINE, i)
    {
      assert total[i] == block[i];
      StartsOtherwise(total, i);
    }
  }

  lemma StartsOtherwise(s: string, i: nat)
    requires i < |s| && s[i] != '\r'
    ensures !At(s, BLANK_LINE, i)
  {
    if i + 4 <= |s| {
      assert s[i..i + 4][0] == s[i];
    }
  }

  /**
   Without a blank line there are no headers: too many bytes are refused, a closed
   connection leaves them unfinished, and a broken one is a failure.
   */
  lemma {:induction false} HeadersNotFound(raw: string, pieces: seq<string>, ending: Ending)
    requires Find(raw + Concat(pieces), BLANK_LINE, 0) < 0 && |raw| <= MAX_HEADER_BYTES
    ensures ReadHeadersOn(raw, pieces, ending)
         == if |raw + Concat(pieces)| > MAX_HEADER_BYTES then TooLong
            else if ending == Closed then Unfinished else HeadersFailed
    decreases |pieces|
  {
    if pieces == [] {
      assert raw + [] == raw;
    } else {
      var now, rest := raw + pieces[0], Concat(pieces[1..]);
      assert raw + Concat(pieces) == now + rest;
      hide Find, At, Concat;
      NotInFront(now, rest);
      if |now| <= MAX_HEADER_BYTES {
        HeadersNotFound(now, pieces[1..], ending);
      }
    }
  }

  lemma NotInFront(now: string, rest: string)
    requires Find(now + rest, BLANK_LINE, 0) < 0
    ensures Find(now, BLANK_LINE, 0) < 0
  {
    if Find(now, BLANK_LINE, 0) >= 0 {
      FindInLonger(now, rest, BLANK_LINE, 0);
    }
  }

  /** One byte short of its end, the blank line is not there yet. */
  lemma NotYet(total: string, e: nat)
    requires e == Find(total, BLANK_LINE, 0) && e + 4 <= |total|
    ensures Find(total[..e + 3], BLANK_LINE, 0) < 0
  {
    var front := total[..e + 3];
    var f := Find(front, BLANK_LINE, 0);
    FindBound(front, BLANK_LINE, 0);
    if f >= 0 {
      assert At(front, BLANK_LINE, f) && front[f..f + 4] == total[f..f + 4];
      assert At(total, BLANK_LINE, f);
    }
  }

  /** Headers and body of one byte stream come out the same for any two ways of splitting it. */
  lemma ResponseSplitsFreely(p1: seq<string>, p2: seq<string>, f: Framing, ending: Ending, max: nat)
    requires Concat(p1) == Concat(p2)
    requires var e := Find(Concat(p1), BLANK_LINE, 0); 0 <= e && e + 4 <= MAX_HEADER_BYTES + 1
    requires var rest := Concat(p1)[Find(Concat(p1), BLANK_LINE, 0) + 4..];
      KnownWithin(f, rest, max + 1) && Unwrapped(f, rest)
    ensures var h1, h2 := ReadHeadersOn("", p1, ending), ReadHeadersOn("", p2, ending);
      && h1.Headers? && h2.Headers? && h1.block == h2.block
      && ReadOn(f, h1.extra, h1.unread, ending, max) == ReadOn(f, h2.extra, h2.unread, ending, max)
  {
    assert Find("", BLANK_LINE, 0) < 0;
    hide Find, At, ReadHeadersOn, ReadOn, Final, Concat, KnownWithin, Whole, Unwrapped;
    var h1, h2 := ReadHeadersOn("", p1, ending), ReadHeadersOn("", p2, ending);
    assert "" + Concat(p1) == Concat(p1) && "" + Concat(p2) == Concat(p2);
    HeadersOfStream("", p1, ending);
    HeadersOfStream("", p2, ending);
    AnySplit(f, h1.extra, h1.unread, ending, max);
    AnySplit(f, h2.extra, h2.unread, ending, max);
  }
}
