/** What the body parser promises, whatever the cuts. */
module HttpTheorems {
  import opened Words
  import opened HttpBody

  // ----- cutting the stream

  /** Only a body byte leads to the state that waits for a chunk's closing CR. */
  lemma AlmostDoneAfterBody(h: Headers, p: Parser, ch: byte)
    requires Sound(p) && !Stopped(p)
    requires Step(h, p, ch).parser.state.ChunkDataAlmostDone? && !Stopped(Step(h, p, ch).parser)
    ensures Step(h, p, ch).outs == [BodyByte(ch)]
  {
    hide OnHeadersAlmostDone, OnTrailerStart, OnTrailerAlmostDone, Finish;
  }

  lemma BreakingByte(h: Headers, p: Parser, ch: byte)
    requires Sound(p) && !Stopped(p) && Broken(Step(h, p, ch).parser)
    ensures p.state.ChunkDataAlmostDone? && Step(h, p, ch).outs == []
  {
    hide OnHeadersAlmostDone, OnTrailerStart, OnTrailerAlmostDone, Finish;
  }

  /** A call that breaks loses nothing exactly when it starts with the byte that breaks it. */
  lemma {:induction false} BrokenCallLoses(h: Headers, p: Parser, data: bytes)
    requires Sound(p) && !Stopped(p) && data != [] && Broken(Feed(h, p, data).parser)
    ensures Broken(Step(h, p, data[0]).parser) ==> Feed(h, p, data).outs == []
    ensures !Broken(Step(h, p, data[0]).parser) ==> TrailingBody(Feed(h, p, data).outs) > 0
    decreases |data|
  {
    hide Step;
    var r := Step(h, p, data[0]);
    var rest := data[1..];
    if Stopped(r.parser) {
      FeedStopped(h, r.parser, rest);
      BreakingByte(h, p, data[0]);
    } else {
      BrokenCallLoses(h, r.parser, rest);
      var more := Feed(h, r.parser, rest).outs;
      if Broken(Step(h, r.parser, rest[0]).parser) {
        BreakingByte(h, r.parser, rest[0]);
        AlmostDoneAfterBody(h, p, data[0]);
        assert r.outs + more == [BodyByte(data[0])];
      } else {
        assert (r.outs + more)[|r.outs + more| - 1] == more[|more| - 1];
      }
    }
  }

  /** Every piece is free of the loss: it does not break, or its first byte breaks it. */
  predicate NothingLost(h: Headers, p: Parser, pieces: seq<bytes>)
    requires Sound(p)
    decreases |pieces|
  {
    pieces == [] || Stopped(p) ||
    (var q := Feed(h, p, pieces[0]).parser;
     (Broken(q) ==> pieces[0] != [] && Broken(Step(h, p, pieces[0][0]).parser)) && NothingLost(h, q, pieces[1..]))
  }

  /** However the stream is cut, the parser ends in the same state. The callbacks see the same
      events and the same body, byte for byte, if and only if no cut piece holds data of a
      broken chunk together with the byte that breaks it. */
  lemma {:induction false} CutsDoNotMatter(h: Headers, p: Parser, pieces: seq<bytes>)
    requires Sound(p)
    requires forall x <- pieces :: x != []
    ensures Calls(h, p, pieces).parser == Feed(h, p, Concat(pieces)).parser
    ensures Calls(h, p, pieces).outs <= Feed(h, p, Concat(pieces)).outs
    ensures Calls(h, p, pieces).outs == Feed(h, p, Concat(pieces)).outs <==> NothingLost(h, p, pieces)
    decreases |pieces|
  {
    hide Step, Sound;
    if pieces != [] {
      var a, rest := pieces[0], pieces[1..];
      var f := Feed(h, p, a);
      var c := Call(h, p, a);
      assert forall x <- rest :: x in pieces;
      CutsDoNotMatter(h, f.parser, rest);
      FeedAppend(h, p, a, Concat(rest));
      var g, d := Feed(h, f.parser, Concat(rest)), Calls(h, f.parser, rest);
      assert a in pieces;
      if Stopped(p) {
        FeedStopped(h, p, a);
      } else if Broken(f.parser) {
        FeedStopped(h, f.parser, Concat(rest));
        BrokenCallLoses(h, p, a);
        assert d.outs == [];
      }
      assert c.outs + d.outs <= f.outs + g.outs;
    }
  }

  /** A stream without a broken chunk does not feel the cuts at all. */
  lemma {:induction false} UnbrokenStreamIsCutFree(h: Headers, p: Parser, pieces: seq<bytes>)
    requires Sound(p) && !Broken(Feed(h, p, Concat(pieces)).parser)
    requires forall x <- pieces :: x != []
    ensures Calls(h, p, pieces) == Feed(h, p, Concat(pieces))
    decreases |pieces|
  {
    hide Step, Sound;
    NeverBroken(h, p, pieces);
    CutsDoNotMatter(h, p, pieces);
  }

  lemma {:induction false} NeverBroken(h: Headers, p: Parser, pieces: seq<bytes>)
    requires Sound(p) && !Broken(Feed(h, p, Concat(pieces)).parser)
    ensures NothingLost(h, p, pieces)
    decreases |pieces|
  {
    hide Step, Sound;
    if pieces != [] {
      var q := Feed(h, p, pieces[0]).parser;
      FeedAppend(h, p, pieces[0], Concat(pieces[1..]));
      if Broken(q) { FeedStopped(h, q, Concat(pieces[1..])); }
      NeverBroken(h, q, pieces[1..]);
    }
  }

  // ----- sizes

  /** The size a line of digits spells, as the table reads them. */
  function Value(digits: bytes): nat {
    if digits == [] then 0 else Value(digits[..|digits| - 1]) * 16 + Digit(digits[|digits| - 1])
  }

  function Digit(ch: byte): nat { if Unhex(ch) < 0 then 0 else Unhex(ch) }

  predicate Digits(s: bytes) { forall ch <- s :: Unhex(ch) >= 0 }

  /** The largest size a chunk may have: sixteen less than what 64 bits could hold. */
  const SIZE_LIMIT: int := ULLONG_MAX - 15

  predicate AtSize(p: Parser) { Sound(p) && !Stopped(p) && p.state.ChunkSizeStart? }

  lemma FirstDigit(h: Headers, p: Parser, ch: byte)
    requires AtSize(p) && Unhex(ch) >= 0
    ensures Step(h, p, ch) == Result(p.(state := ChunkSize, contentLength := Digit(ch), nread := 1), [])
  {
  }

  lemma NextDigit(h: Headers, p: Parser, ch: byte)
    requires Sound(p) && !Stopped(p) && p.state.ChunkSize? && p.nread < MAX_HEADER && Unhex(ch) >= 0
    ensures var v := p.contentLength * 16 + Digit(ch);
      if v < SIZE_LIMIT then Step(h, p, ch) == Result(p.(contentLength := v, nread := p.nread + 1), [])
      else Step(h, p, ch) == Result(p.(nread := p.nread + 1, errno := InvalidContentLength), [])
  {
  }

  /** The digits of a size are taken at their exact value or refused, and refused exactly from
      the limit on. */
  lemma {:induction false} SizeIsExact(h: Headers, p: Parser, digits: bytes)
    requires AtSize(p) && Digits(digits) && 0 < |digits| <= MAX_HEADER
    ensures Value(digits) < SIZE_LIMIT ==>
      Feed(h, p, digits) == Result(p.(state := ChunkSize, contentLength := Value(digits), nread := |digits|), [])
    ensures Value(digits) >= SIZE_LIMIT ==>
      Feed(h, p, digits).parser.errno.InvalidContentLength? && Feed(h, p, digits).outs == []
    decreases |digits|
  {
    hide Feed, Step;
    var n := |digits| - 1;
    var init, last := digits[..n], digits[n];
    assert digits == init + [last] && last in digits;
    FeedAppend(h, p, init, [last]);
    if n == 0 {
      assert init == [];
      FeedNone(h, p);
      FeedOne(h, p, last);
      FirstDigit(h, p, last);
    } else {
      assert forall ch <- init :: ch in digits;
      SizeIsExact(h, p, init);
      var q := Feed(h, p, init).parser;
      if Value(init) < SIZE_LIMIT {
        FeedOne(h, q, last);
        NextDigit(h, q, last);
      } else {
        FeedStopped(h, q, [last]);
      }
    }
  }

  predicate HexDigit(ch: byte) { 48 <= ch <= 57 || 65 <= ch <= 70 || 97 <= ch <= 102 }

  /** What is refused in a size: exactly the bytes below 128 that are no hexadecimal digit. A
      byte from 128 on passes for a zero. */
  lemma RefusedInSize(h: Headers, p: Parser, ch: byte)
    requires AtSize(p)
    ensures Step(h, p, ch).parser.errno.InvalidChunkSize? <==> !HexDigit(ch) && ch < 128
    ensures ch >= 128 ==> Step(h, p, ch) == Step(h, p, 48)
  {
  }

  // ----- chunked bodies

  /** A chunk as it may be written: any spelling of the size, an extension, the data. */
  datatype Chunk = Chunk(digits: bytes, extension: bytes, data: bytes)

  predicate Extension(e: bytes) { e == [] || ((e[0] == SEMICOLON || e[0] == SPACE) && CR !in e) }

  predicate SizeOk(c: Chunk) {
    && c.digits != [] && Digits(c.digits) && Extension(c.extension)
    && |c.digits| + |c.extension| + 2 <= MAX_HEADER && Value(c.digits) < SIZE_LIMIT
  }

  predicate WellFormed(c: Chunk) { SizeOk(c) && Value(c.digits) == |c.data| }

  function SizeLine(c: Chunk): bytes { c.digits + c.extension + [CR, LF] }

  function Wire(c: Chunk): bytes { SizeLine(c) + c.data + [CR, LF] }

  function WireAll(cs: seq<Chunk>): bytes { if cs == [] then [] else Wire(cs[0]) + WireAll(cs[1..]) }

  function Reported(c: Chunk): seq<Out> { [ChunkHeader(|c.data|)] + BodyBytes(c.data) + [ChunkComplete] }

  function ReportedAll(cs: seq<Chunk>): seq<Out> {
    if cs == [] then [] else Reported(cs[0]) + ReportedAll(cs[1..])
  }

  lemma {:induction false} FeedParameters(h: Headers, p: Parser, e: bytes)
    requires Sound(p) && !Stopped(p) && p.state.ChunkParameters? && CR !in e && p.nread + |e| <= MAX_HEADER
    ensures Feed(h, p, e) == Result(p.(nread := p.nread + |e|), [])
    decreases |e|
  {
    if e != [] { FeedParameters(h, Step(h, p, e[0]).parser, e[1..]); }
  }

  lemma FeedExtension(h: Headers, p: Parser, e: bytes)
    requires Sound(p) && !Stopped(p) && p.state.ChunkSize? && Extension(e) && p.nread + |e| < MAX_HEADER
    ensures var r := Feed(h, p, e);
      r.outs == [] && !Stopped(r.parser) && (r.parser.state.ChunkSize? || r.parser.state.ChunkParameters?)
      && r.parser == p.(nread := p.nread + |e|, state := r.parser.state)
  {
    if e != [] { FeedParameters(h, Step(h, p, e[0]).parser, e[1..]); }
  }

  lemma FeedLineEnd(h: Headers, p: Parser)
    requires Sound(p) && !Stopped(p) && (p.state.ChunkSize? || p.state.ChunkParameters?)
    requires p.nread + 2 <= MAX_HEADER
    ensures Feed(h, p, [CR, LF])
         == Result(p.(nread := 0, state := if p.contentLength == 0 then TrailerStart else ChunkData),
                   [ChunkHeader(p.contentLength)])
  {
    assert [CR, LF] == [CR] + [LF];
    FeedAppend(h, p, [CR], [LF]);
    FeedOne(h, p, CR);
    FeedOne(h, Step(h, p, CR).parser, LF);
  }

  /** A size line opens the chunk's data, or the trailers. */
  lemma FeedSizeLine(h: Headers, p: Parser, c: Chunk)
    requires AtSize(p) && SizeOk(c)
    ensures var n := Value(c.digits);
            Feed(h, p, SizeLine(c))
            == Result(p.(nread := 0, contentLength := n, state := if n == 0 then TrailerStart else ChunkData),
                      [ChunkHeader(n)])
  {
    hide Feed, Step;
    SizeIsExact(h, p, c.digits);
    var q := Feed(h, p, c.digits).parser;
    FeedExtension(h, q, c.extension);
    FeedAppend(h, p, c.digits, c.extension);
    var q' := Feed(h, q, c.extension).parser;
    FeedLineEnd(h, q');
    FeedAppend(h, p, c.digits + c.extension, [CR, LF]);
  }

  lemma FeedChunkEnd(h: Headers, p: Parser)
    requires Sound(p) && !Stopped(p) && p.state.ChunkDataAlmostDone?
    ensures Feed(h, p, [CR, LF]) == Result(p.(nread := 0, state := ChunkSizeStart), [ChunkComplete])
  {
    assert [CR, LF] == [CR] + [LF];
    FeedAppend(h, p, [CR], [LF]);
    FeedOne(h, p, CR);
    FeedOne(h, Step(h, p, CR).parser, LF);
  }

  lemma FeedChunk(h: Headers, p: Parser, c: Chunk)
    requires AtSize(p) && WellFormed(c) && c.data != []
    ensures Feed(h, p, Wire(c)) == Result(p.(contentLength := 0), Reported(c))
  {
    hide Feed, Step;
    FeedSizeLine(h, p, c);
    var q := Feed(h, p, SizeLine(c)).parser;
    FeedBodyToEnd(h, q, c.data);
    FeedAppend(h, p, SizeLine(c), c.data);
    var q' := Feed(h, q, c.data).parser;
    FeedChunkEnd(h, q');
    FeedAppend(h, p, SizeLine(c) + c.data, [CR, LF]);
  }

  lemma FeedLast(h: Headers, p: Parser, c: Chunk)
    requires AtSize(p) && WellFormed(c) && c.data == []
    ensures Feed(h, p, SizeLine(c) + [CR, LF])
         == (var q := p.(contentLength := 0);
             Result(q.(nread := 2, state := NextMessage(h, q), handedOver := p.upgrade),
                    [ChunkHeader(0), ChunkComplete, MessageComplete]))
  {
    hide Feed;
    FeedSizeLine(h, p, c);
    var q := Feed(h, p, SizeLine(c)).parser;
    FeedAppend(h, p, SizeLine(c), [CR, LF]);
    assert [CR, LF] == [CR] + [LF];
    FeedAppend(h, q, [CR], [LF]);
    FeedOne(h, q, CR);
    FeedOne(h, Step(h, q, CR).parser, LF);
  }

  /** A chunked body: every chunk is announced with its size, its data arrives byte for byte, and
      the last chunk completes the message. */
  lemma {:induction false} ChunkedBodyDecodes(h: Headers, p: Parser, cs: seq<Chunk>, last: Chunk)
    requires AtSize(p)
    requires forall c <- cs :: WellFormed(c) && c.data != []
    requires WellFormed(last) && last.data == []
    ensures Feed(h, p, WireAll(cs) + (SizeLine(last) + [CR, LF]))
         == (var q := p.(contentLength := 0);
             Result(q.(nread := 2, state := NextMessage(h, q), handedOver := p.upgrade),
                    ReportedAll(cs) + [ChunkHeader(0), ChunkComplete, MessageComplete]))
    decreases |cs|
  {
    hide Feed, Step, Wire, SizeLine, Reported, WellFormed;
    var tail := SizeLine(last) + [CR, LF];
    if cs == [] {
      assert WireAll(cs) + tail == tail;
      FeedLast(h, p, last);
    } else {
      var c := cs[0];
      assert c in cs && forall x <- cs[1..] :: x in cs;
      FeedChunk(h, p, c);
      var q := Feed(h, p, Wire(c)).parser;
      ChunkedBodyDecodes(h, q, cs[1..], last);
      assert WireAll(cs) + tail == Wire(c) + (WireAll(cs[1..]) + tail);
      FeedAppend(h, p, Wire(c), WireAll(cs[1..]) + tail);
    }
  }

  /** After a message that closes the connection no callback is made. */
  lemma {:induction false} DeadIsSilent(h: Headers, p: Parser, data: bytes)
    requires Sound(p) && (Stopped(p) || p.state.Dead?)
    ensures Feed(h, p, data).outs == []
    decreases |data|
  {
    if data != [] { DeadIsSilent(h, Step(h, p, data[0]).parser, data[1..]); }
  }

  /** A body of announced length is the next bytes, as many as announced, and completes the
      message; of what follows nothing is reported. */
  lemma IdentityBodyDecodes(h: Headers, p: Parser, body: bytes, rest: bytes)
    requires Sound(p) && !Stopped(p) && p.state.BodyIdentity? && |body| == p.contentLength
    ensures var q := p.(contentLength := 0);
            Feed(h, p, body).parser == q.(state := NextMessage(h, q), handedOver := p.upgrade)
    ensures Feed(h, p, body + rest).outs == BodyBytes(body) + [MessageComplete]
  {
    hide Feed, Step;
    FeedAppend(h, p, body, rest);
    FeedBodyToEnd(h, p, body);
    DeadIsSilent(h, Feed(h, p, body).parser, rest);
  }

  /** A chunk whose data runs on past its size: in one call its bytes are never reported, in two
      they are. */
  lemma BrokenChunkDependsOnCut(h: Headers, p: Parser, a: byte, b: byte)
    requires Sound(p) && !Stopped(p) && p.state.ChunkData? && p.contentLength == 1 && b != CR
    ensures Calls(h, p, [[a, b]]).outs == []
    ensures Calls(h, p, [[a], [b]]).outs == [BodyByte(a)]
  {
    hide Feed;
    FeedOne(h, p, a);
    var q := Step(h, p, a).parser;
    FeedOne(h, q, b);
    assert [a, b] == [a] + [b];
    FeedAppend(h, p, [a], [b]);
    assert TrailingBody([BodyByte(a)]) == 1 + TrailingBody([]);
    var r := Call(h, p, [a, b]);
    assert [[a, b]][1..] == [] && [[a], [b]][1..] == [[b]] && [[b]][1..] == [];
    assert Calls(h, p, [[a, b]]).outs == r.outs + [];
    assert Calls(h, q, [[b]]).outs == [] + [];
  }
}
