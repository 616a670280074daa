/** Whole messages, from the line feed that ends the headers: which body follows, what is reported
    of it, and what the end of the stream means. */
module HttpMessages {
  import opened Words
  import opened HttpBody
  import opened HttpTheorems
  import opened HttpGrammar

  /** Where a parser stands that has read the headers but for their last line feed. */
  function Begin(length: nat, read: nat): Parser {
    Parser(HeadersAlmostDone, length, read, false, false, NoError, false)
  }

  /** The headers are taken: no clash of lengths, and the callback's answer is a known one. */
  predicate Taken(h: Headers, length: nat, read: nat) {
    !(h.chunked && h.hasContentLength) && 0 <= h.answer <= 2 && length <= ULLONG_MAX && read < MAX_HEADER
  }

  /** The connection leaves HTTP after the headers, if the message has no body. */
  predicate Upgrades(h: Headers) {
    h.answer == 2 || if h.upgrade && h.connectionUpgrade then h.isRequest || h.status == 101 else h.isConnect
  }

  /** A CONNECT request has no body, whatever its headers say. */
  predicate Tunnels(h: Headers) { Upgrades(h) && h.isConnect }

  predicate Bodiless(h: Headers) { !h.isRequest && (h.status / 100 == 1 || h.status == 204 || h.status == 304) }

  predicate Counted(length: nat) { 0 < length < ULLONG_MAX }

  /** Which kind of body follows the headers. A length of 2^64 - 1 means that none was given. */
  lemma BodyFollowsIff(h: Headers, length: nat, read: nat)
    requires Taken(h, length, read)
    ensures var r := Step(h, Begin(length, read), LF);
            var s := r.parser.state;
            && r.parser.errno.NoError?
            && (s.ChunkSizeStart? <==> h.answer == 0 && !Tunnels(h) && h.chunked)
            && (s.BodyIdentity? <==> h.answer == 0 && !Tunnels(h) && !h.chunked && Counted(length))
            && (s.BodyEof? <==> h.answer == 0 && !Upgrades(h) && !h.chunked && length == ULLONG_MAX
                                && !h.isRequest && !Bodiless(h))
            && (s.ChunkSizeStart? || s.BodyIdentity? || s.BodyEof? ==>
                  !Stopped(r.parser) && r.outs == [HeadersComplete] && r.parser.contentLength == length
                  && r.parser.nread == 0 && !r.parser.skipBody && r.parser.upgrade == Upgrades(h))
            && (!s.ChunkSizeStart? && !s.BodyIdentity? && !s.BodyEof? ==>
                  (s.NewMessage? || s.Dead?) && r.outs == [HeadersComplete, MessageComplete])
  {
  }

  /** The headers are not taken, and no body follows. */
  lemma HeadersRefused(h: Headers, length: nat, read: nat, ch: byte)
    requires length <= ULLONG_MAX && !(Taken(h, length, read) && ch == LF)
    ensures Sound(Begin(length, read)) && !Step(h, Begin(length, read), ch).parser.errno.NoError?
  {
  }

  // ----- against the standard

  datatype Kind = Empty | Chunks | Length(n: nat) | UntilClose

  /** The message length as section 4.4 of RFC 2616 has it, for messages that are not a response
      to HEAD. */
  function Standard(h: Headers, length: nat): Kind {
    if Bodiless(h) then Empty
    else if h.chunked then Chunks
    else if length == 0 then Empty
    else if length < ULLONG_MAX then Length(length)
    else if h.isRequest then Empty
    else UntilClose
  }

  function Chosen(p: Parser): Kind {
    if p.state.ChunkSizeStart? then Chunks
    else if p.state.BodyIdentity? then Length(p.contentLength)
    else if p.state.BodyEof? then UntilClose
    else Empty
  }

  /** The parser follows the standard but for a response that must not have a body and announces
      one all the same: it waits for that body. */
  lemma FollowsStandardIff(h: Headers, length: nat, read: nat)
    requires Taken(h, length, read) && h.answer == 0 && !Upgrades(h)
    ensures Chosen(Step(h, Begin(length, read), LF).parser) == Standard(h, length)
            <==> !(Bodiless(h) && (h.chunked || Counted(length)))
  {
    BodyFollowsIff(h, length, read);
    hide Step;
  }

  /** Such a response: 204 with a length of five. */
  lemma NoContentWithLength(h: Headers)
    requires h.status == 204 && !h.isRequest && !h.chunked && h.answer == 0 && !Upgrades(h)
    ensures Standard(h, 5).Empty? && Chosen(Step(h, Begin(5, 0), LF).parser) == Length(5)
  {
    BodyFollowsIff(h, 5, 0);
    hide Step;
  }

  // ----- whole messages

  lemma AfterLineFeed(h: Headers, length: nat, read: nat, body: bytes)
    requires Taken(h, length, read)
    ensures Sound(Begin(length, read))
    ensures var r := Step(h, Begin(length, read), LF);
            var f := Feed(h, r.parser, body);
            Feed(h, Begin(length, read), [LF] + body) == Result(f.parser, r.outs + f.outs)
  {
    hide Step, Feed;
    FeedAppend(h, Begin(length, read), [LF], body);
    FeedOne(h, Begin(length, read), LF);
  }

  lemma CountedMessage(h: Headers, length: nat, read: nat, body: bytes, rest: bytes)
    requires Taken(h, length, read) && h.answer == 0 && !Tunnels(h) && !h.chunked && Counted(length) && |body| == length
    ensures Sound(Begin(length, read))
    ensures Feed(h, Begin(length, read), [LF] + (body + rest)).outs
         == [HeadersComplete] + BodyBytes(body) + [MessageComplete]
  {
    AfterLineFeed(h, length, read, body + rest);
    BodyFollowsIff(h, length, read);
    hide Step, Feed;
    IdentityBodyDecodes(h, Step(h, Begin(length, read), LF).parser, body, rest);
  }

  /** A chunked message is complete if and only if a chunked body follows the headers. */
  lemma ChunkedMessageIff(h: Headers, length: nat, read: nat, data: bytes)
    requires Taken(h, length, read) && h.answer == 0 && !Tunnels(h) && h.chunked
    ensures Sound(Begin(length, read))
    ensures MessageComplete in Feed(h, Begin(length, read), [LF] + data).outs
            <==> exists cs, last, e, rest :: ChunkedBody(data, cs, last, e, rest)
    ensures forall cs, last, e, rest | ChunkedBody(data, cs, last, e, rest) ::
              Feed(h, Begin(length, read), [LF] + data).outs
              == [HeadersComplete] + (ReportedAll(cs) + [ChunkHeader(0), ChunkComplete, MessageComplete])
  {
    AfterLineFeed(h, length, read, data);
    BodyFollowsIff(h, length, read);
    var p := Step(h, Begin(length, read), LF).parser;
    hide Step, Feed, ChunkedBody, ReportedAll;
    CompletesIff(h, p, data);
    forall cs, last, e, rest | ChunkedBody(data, cs, last, e, rest)
      ensures Feed(h, p, data).outs == ReportedAll(cs) + [ChunkHeader(0), ChunkComplete, MessageComplete]
    {
      BodyReported(h, p, data, cs, last, e, rest);
    }
  }

  // ----- the end of the stream

  /** All that comes is the body, and the end of the stream completes the message. */
  lemma CloseCompletes(h: Headers, read: nat, body: bytes)
    requires Taken(h, ULLONG_MAX, read) && h.answer == 0 && !Upgrades(h) && !h.chunked && !h.isRequest && !Bodiless(h)
    ensures Sound(Begin(ULLONG_MAX, read))
    ensures var r := Feed(h, Begin(ULLONG_MAX, read), [LF] + body);
            && r.outs == [HeadersComplete] + BodyBytes(body)
            && EndOfStream(r.parser) == Result(r.parser, [MessageComplete]) && r.parser.errno.NoError?
  {
    AfterLineFeed(h, ULLONG_MAX, read, body);
    BodyFollowsIff(h, ULLONG_MAX, read);
    hide Step, Feed;
    FeedBody(h, Step(h, Begin(ULLONG_MAX, read), LF).parser, body);
  }

  /** The parser waits for nothing more. */
  predicate Over(p: Parser) { Stopped(p) || p.state.Dead? || p.state.BodyEof? }

  lemma OverStays(h: Headers, p: Parser, ch: byte)
    requires Sound(p) && Over(p)
    ensures Over(Step(h, p, ch).parser)
  {
  }

  lemma {:induction false} OverForGood(h: Headers, p: Parser, data: bytes)
    requires Sound(p) && Over(p)
    ensures Over(Feed(h, p, data).parser)
    decreases |data|
  {
    if data != [] {
      OverStays(h, p, data[0]);
      hide Step, Over;
      OverForGood(h, Step(h, p, data[0]).parser, data[1..]);
    }
  }

  /** If the parser still waits after `data`, then the end of the stream anywhere before that is
      an error. */
  lemma EndInside(h: Headers, p: Parser, data: bytes, n: nat)
    requires Sound(p) && n <= |data| && !Over(Feed(h, p, data).parser)
    ensures var q := Feed(h, p, data[..n]).parser;
            EndOfStream(q) == Result(q.(errno := InvalidEofState), [])
  {
    hide Feed, Step;
    assert data == data[..n] + data[n..];
    FeedAppend(h, p, data[..n], data[n..]);
    var q := Feed(h, p, data[..n]).parser;
    if Over(q) { OverForGood(h, q, data[n..]); }
  }

  /** A message cut short is told from a whole one: of a counted body, any proper part is an error
      at the end of the stream, and the whole is not. */
  lemma CountedCutShort(h: Headers, length: nat, read: nat, part: bytes)
    requires Taken(h, length, read) && h.answer == 0 && !Tunnels(h) && !h.chunked && Counted(length)
    requires |part| <= length
    ensures Sound(Begin(length, read))
    ensures EndOfStream(Feed(h, Begin(length, read), [LF] + part).parser).parser.errno.NoError? <==> |part| == length
  {
    AfterLineFeed(h, length, read, part);
    BodyFollowsIff(h, length, read);
    var p := Step(h, Begin(length, read), LF).parser;
    hide Step, Feed;
    if |part| < length { FeedBody(h, p, part); } else { FeedBodyToEnd(h, p, part); }
  }

  lemma BeforeLastByte(h: Headers, p: Parser, e: bytes)
    requires Sound(p) && !Stopped(p) && p.state.TrailerStart? && p.nread == 0 && EmptyLine(e)
    ensures !Over(Feed(h, p, e[..|e| - 1]).parser)
  {
    if e == [CR, LF] {
      assert e[..1] == [CR];
      FeedOne(h, p, CR);
    } else {
      FeedNone(h, p);
    }
  }

  /** Up to the last byte of a chunked body the parser waits. */
  lemma {:induction false} WaitsInside(h: Headers, p: Parser, cs: seq<Chunk>, last: Chunk, e: bytes)
    requires AtSize(p) && (forall c <- cs :: WellFormed(c) && c.data != [])
    requires WellFormed(last) && last.data == [] && EmptyLine(e)
    ensures !Over(Feed(h, p, WireAll(cs) + (SizeLine(last) + e[..|e| - 1])).parser)
    decreases |cs|
  {
    hide Feed, Step, Wire, SizeLine, Reported, SizeOk, Value, EmptyLine;
    assert |e| > 0 by { LineNotEmpty(e); }
    var tail := SizeLine(last) + e[..|e| - 1];
    if cs == [] {
      assert WireAll(cs) + tail == tail;
      FeedSizeLine(h, p, last);
      FeedAppend(h, p, SizeLine(last), e[..|e| - 1]);
      BeforeLastByte(h, Feed(h, p, SizeLine(last)).parser, e);
    } else {
      var c := cs[0];
      assert c in cs && forall x <- cs[1..] :: x in cs;
      FeedChunk(h, p, c);
      WaitsInside(h, Feed(h, p, Wire(c)).parser, cs[1..], last, e);
      assert WireAll(cs) + tail == Wire(c) + (WireAll(cs[1..]) + tail);
      FeedAppend(h, p, Wire(c), WireAll(cs[1..]) + tail);
    }
  }

  lemma LineNotEmpty(e: bytes)
    requires EmptyLine(e)
    ensures |e| > 0
  {
  }

  /** A chunked body that ends anywhere before its last byte is an error at the end of the stream. */
  lemma ChunkedCutShort(h: Headers, p: Parser, cs: seq<Chunk>, last: Chunk, e: bytes, n: nat)
    requires AtSize(p) && (forall c <- cs :: WellFormed(c) && c.data != [])
    requires WellFormed(last) && last.data == [] && EmptyLine(e)
    requires n < |WireAll(cs) + (SizeLine(last) + e)|
    ensures var q := Feed(h, p, (WireAll(cs) + (SizeLine(last) + e))[..n]).parser;
            EndOfStream(q).parser.errno.InvalidEofState?
  {
    hide Feed, WireAll, SizeLine, WellFormed;
    var data := WireAll(cs) + (SizeLine(last) + e);
    var init := WireAll(cs) + (SizeLine(last) + e[..|e| - 1]);
    assert init == data[..|data| - 1] && init[..n] == data[..n];
    WaitsInside(h, p, cs, last, e);
    EndInside(h, p, init, n);
  }

  // ----- trailers

  /** The characters of a field name (section 2.2 of RFC 2616): printable, and no separator. */
  predicate NameByte(ch: byte) {
    32 < ch < 127 && ch !in {40, 41, 60, 62, 64, 44, 59, 58, 92, 34, 47, 91, 93, 63, 61, 123, 125}
  }

  /** After the last chunk: an empty line ends the message, a trailer begins with a field name, and
      anything else is an error. */
  lemma TrailerBeginsIff(h: Headers, p: Parser, ch: byte)
    requires Sound(p) && !Stopped(p) && p.state.TrailerStart? && p.nread < MAX_HEADER && ch != CR && ch != LF
    ensures var q := Step(h, p, ch).parser;
            && (q.state.TrailerField? <==> NameByte(ch)) && (q.errno.InvalidHeaderToken? <==> !NameByte(ch))
  {
  }

  // ----- after the message

  /** The connection outlives the message: version 1.1 without close, or an older one that asks for it
      (section 8.1 of RFC 2616). */
  predicate Persists(h: Headers) {
    (h.major >= 1 && h.minor >= 1 && !h.connectionClose) || ((h.major == 0 || h.minor == 0) && h.connectionKeepAlive)
  }

  /** Only the end of the connection would end the body. */
  predicate Unbounded(h: Headers, length: nat) {
    !h.isRequest && !Bodiless(h) && h.answer == 0 && !h.chunked && length == ULLONG_MAX
  }

  /** Ready for the next message, or closed. */
  ghost predicate Ends(p: Parser, ready: bool) {
    p.errno.NoError? && (if ready then p.state.NewMessage? else p.state.Dead?)
  }

  lemma AfterFinish(h: Headers, p: Parser, ready: bool)
    requires p.state == NextMessage(h, p) && p.errno.NoError?
    requires ready <==>
               Persists(h)
               && !(!h.isRequest && !Bodiless(h) && !p.skipBody && !h.chunked && p.contentLength == ULLONG_MAX)
    ensures Ends(p, ready)
  {
  }

  /** After a message of announced length. */
  lemma AfterCounted(h: Headers, length: nat, read: nat, body: bytes)
    requires Taken(h, length, read) && h.answer == 0 && !Tunnels(h) && !h.chunked && Counted(length) && |body| == length
    ensures Sound(Begin(length, read))
    ensures var p := Feed(h, Begin(length, read), [LF] + body).parser;
            Ends(p, Persists(h)) && p.handedOver == Upgrades(h) && p.nread == 0
  {
    AfterLineFeed(h, length, read, body);
    BodyFollowsIff(h, length, read);
    var q := Step(h, Begin(length, read), LF).parser;
    hide Step, Feed;
    IdentityBodyDecodes(h, q, body, []);
    AfterFinish(h, Feed(h, q, body).parser, Persists(h));
  }

  lemma {:induction false} AfterChunks(h: Headers, p: Parser, cs: seq<Chunk>, last: Chunk, e: bytes)
    requires AtSize(p) && (forall c <- cs :: WellFormed(c) && c.data != [])
    requires WellFormed(last) && last.data == [] && EmptyLine(e)
    ensures var q := Feed(h, p, WireAll(cs) + (SizeLine(last) + e)).parser;
            q.state == NextMessage(h, q) && q.errno.NoError? && q.handedOver == p.upgrade && q.nread == |e|
            && q.contentLength == 0 && q.skipBody == p.skipBody
    decreases |cs|
  {
    hide Feed, Step, Wire, SizeLine, Reported, SizeOk, Value, EmptyLine;
    var tail := SizeLine(last) + e;
    if cs == [] {
      assert WireAll(cs) + tail == tail;
      FeedSizeLine(h, p, last);
      FeedAppend(h, p, SizeLine(last), e);
      AfterLastLine(h, Feed(h, p, SizeLine(last)).parser, e);
    } else {
      var c := cs[0];
      assert c in cs && forall x <- cs[1..] :: x in cs;
      FeedChunk(h, p, c);
      AfterChunks(h, Feed(h, p, Wire(c)).parser, cs[1..], last, e);
      assert WireAll(cs) + tail == Wire(c) + (WireAll(cs[1..]) + tail);
      FeedAppend(h, p, Wire(c), WireAll(cs[1..]) + tail);
    }
  }

  lemma AfterLastLine(h: Headers, p: Parser, e: bytes)
    requires Sound(p) && !Stopped(p) && p.state.TrailerStart? && p.nread == 0 && p.contentLength == 0 && EmptyLine(e)
    ensures var q := Feed(h, p, e).parser;
            q.state == NextMessage(h, q) && q.errno.NoError? && q.handedOver == p.upgrade && q.nread == |e|
            && q.contentLength == 0 && q.skipBody == p.skipBody
  {
    hide Feed;
    if e == [CR, LF] {
      assert e == [CR] + [LF];
      FeedAppend(h, p, [CR], [LF]);
      FeedOne(h, p, CR);
      FeedOne(h, Step(h, p, CR).parser, LF);
    } else {
      FeedOne(h, p, LF);
    }
  }

  /** After a chunked message. */
  lemma AfterChunked(h: Headers, length: nat, read: nat, cs: seq<Chunk>, last: Chunk, e: bytes)
    requires Taken(h, length, read) && h.answer == 0 && !Tunnels(h) && h.chunked
    requires (forall c <- cs :: WellFormed(c) && c.data != []) && WellFormed(last) && last.data == [] && EmptyLine(e)
    ensures Sound(Begin(length, read))
    ensures var p := Feed(h, Begin(length, read), [LF] + (WireAll(cs) + (SizeLine(last) + e))).parser;
            Ends(p, Persists(h)) && p.handedOver == Upgrades(h) && p.nread == |e|
  {
    var data := WireAll(cs) + (SizeLine(last) + e);
    AfterLineFeed(h, length, read, data);
    BodyFollowsIff(h, length, read);
    var q := Step(h, Begin(length, read), LF).parser;
    hide Step, Feed, WellFormed, EmptyLine, WireAll, SizeLine;
    AfterChunks(h, q, cs, last, e);
    AfterFinish(h, Feed(h, q, data).parser, Persists(h));
  }

  /** After a message without a body: empty, skipped, or handed over to another protocol. */
  lemma AfterEmpty(h: Headers, length: nat, read: nat)
    requires Taken(h, length, read)
    ensures var p := Step(h, Begin(length, read), LF).parser;
            p.state.NewMessage? || p.state.Dead? ==>
              && Ends(p, Persists(h) && !Unbounded(h, length)) && p.nread == 0
              && (p.handedOver <==> Upgrades(h) && (h.isConnect || h.answer != 0 || !(h.chunked || Counted(length))))
  {
  }

  // ----- what is left for the next message

  /** How many line ends the bytes begin with. */
  function LineEnds(data: bytes): (n: nat)
    ensures n <= |data|
  {
    if data != [] && (data[0] == CR || data[0] == LF) then 1 + LineEnds(data[1..]) else 0
  }

  /** A closed connection: line ends are passed over, as long as headers may be, and anything else is
      refused. */
  lemma {:induction false} ClosedTakes(h: Headers, p: Parser, rest: bytes)
    requires Sound(p) && !Stopped(p) && p.state.Dead? && p.nread <= MAX_HEADER
    ensures var n, most := LineEnds(rest), MAX_HEADER - p.nread;
            var q := Feed(h, p, rest).parser;
            && Consumed(h, p, rest) == (if n <= most then n else most)
            && (q.errno.NoError? <==> n == |rest| <= most)
            && (q.errno.ClosedConnection? <==> n < |rest| && n < most)
    decreases |rest|
  {
    if rest != [] {
      var q := Step(h, p, rest[0]).parser;
      if Stopped(q) {
        FeedStopped(h, q, rest[1..]);
      } else {
        ClosedTakes(h, q, rest[1..]);
      }
    }
  }

  /** What a call makes of the bytes after a whole message: if the connection persists, or goes over to
      another protocol, they are left alone; otherwise all but line ends is refused. */
  ghost predicate LeavesRest(h: Headers, p0: Parser, message: bytes, rest: bytes, stays: bool)
    requires Sound(p0)
  {
    var n := Consumed(h, p0, message + rest);
    var q := Feed(h, p0, message + rest).parser;
    if stays then n == |message| && q.errno.NoError?
    else
      var most := MAX_HEADER - Feed(h, p0, message).parser.nread;
      && n == |message| + (if LineEnds(rest) <= most then LineEnds(rest) else most)
      && (q.errno.ClosedConnection? <==> LineEnds(rest) < |rest| && LineEnds(rest) < most)
  }

  lemma RestAfter(h: Headers, p0: Parser, message: bytes, rest: bytes, ready: bool)
    requires Sound(p0) && message != [] && !Stopped(Feed(h, p0, message[..|message| - 1]).parser)
    requires var p := Feed(h, p0, message).parser; Ends(p, ready) && p.nread <= MAX_HEADER
    ensures LeavesRest(h, p0, message, rest, ready || Feed(h, p0, message).parser.handedOver)
  {
    hide Feed, Step, Consumed;
    var p := Feed(h, p0, message).parser;
    ConsumedAppend(h, p0, message, rest);
    FeedAppend(h, p0, message, rest);
    if ready || p.handedOver {
      FeedStopped(h, p, rest);
      NothingConsumed(h, p, rest);
    } else {
      ClosedTakes(h, p, rest);
    }
  }

  lemma NothingConsumed(h: Headers, p: Parser, rest: bytes)
    requires Sound(p) && Stopped(p)
    ensures Consumed(h, p, rest) == 0
  {
  }

  /** After a message of announced length the next byte is the next message's, or refused. */
  lemma NextAfterCounted(h: Headers, length: nat, read: nat, body: bytes, rest: bytes)
    requires Taken(h, length, read) && h.answer == 0 && !Tunnels(h) && !h.chunked && Counted(length) && |body| == length
    ensures Sound(Begin(length, read))
    ensures LeavesRest(h, Begin(length, read), [LF] + body, rest, Persists(h) || Upgrades(h))
  {
    AfterCounted(h, length, read, body);
    var m := [LF] + body;
    assert m[..|m| - 1] == [LF] + body[..length - 1];
    AfterLineFeed(h, length, read, body[..length - 1]);
    BodyFollowsIff(h, length, read);
    hide Step, Feed, Consumed, LeavesRest;
    FeedBody(h, Step(h, Begin(length, read), LF).parser, body[..length - 1]);
    RestAfter(h, Begin(length, read), m, rest, Persists(h));
  }

  /** And after a chunked one. */
  lemma NextAfterChunked(h: Headers, length: nat, read: nat, cs: seq<Chunk>, last: Chunk, e: bytes, rest: bytes)
    requires Taken(h, length, read) && h.answer == 0 && !Tunnels(h) && h.chunked
    requires (forall c <- cs :: WellFormed(c) && c.data != []) && WellFormed(last) && last.data == [] && EmptyLine(e)
    ensures Sound(Begin(length, read))
    ensures LeavesRest(h, Begin(length, read), [LF] + (WireAll(cs) + (SizeLine(last) + e)), rest,
            Persists(h) || Upgrades(h))
  {
    AfterChunked(h, length, read, cs, last, e);
    LineNotEmpty(e);
    var data := WireAll(cs) + (SizeLine(last) + e);
    var init := WireAll(cs) + (SizeLine(last) + e[..|e| - 1]);
    var m := [LF] + data;
    assert m[..|m| - 1] == [LF] + init;
    AfterLineFeed(h, length, read, init);
    BodyFollowsIff(h, length, read);
    assert |e| <= 2;
    hide Step, Feed, Consumed, LeavesRest, WireAll, SizeLine, WellFormed, EmptyLine;
    WaitsInside(h, Step(h, Begin(length, read), LF).parser, cs, last, e);
    RestAfter(h, Begin(length, read), m, rest, Persists(h));
  }

  /** And after one without a body. */
  lemma NextAfterEmpty(h: Headers, length: nat, read: nat, rest: bytes)
    requires Taken(h, length, read)
    requires var p := Step(h, Begin(length, read), LF).parser; p.state.NewMessage? || p.state.Dead?
    ensures var ready := Persists(h) && !Unbounded(h, length);
            var over := Upgrades(h) && (h.isConnect || h.answer != 0 || !(h.chunked || Counted(length)));
            LeavesRest(h, Begin(length, read), [LF], rest, ready || over)
  {
    AfterEmpty(h, length, read);
    var p := Begin(length, read);
    FeedOne(h, p, LF);
    FeedNone(h, p);
    assert [LF][..0] == [];
    hide Step, Feed, Consumed, LeavesRest;
    RestAfter(h, p, [LF], rest, Persists(h) && !Unbounded(h, length));
  }
}
