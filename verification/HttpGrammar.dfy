/** Which byte streams the parser takes for a chunked body: exactly those of the grammar below, so
    that what it will do with a stream can be told from the stream alone. */
module HttpGrammar {
  import opened Words
  import opened HttpBody
  import opened HttpTheorems

  // ----- what must have been there for a callback to be made

  lemma LineEnd(h: Headers, p: Parser, data: bytes)
    requires Sound(p) && !Stopped(p) && p.state.ChunkSizeAlmostDone? && Feed(h, p, data).outs != []
    ensures data != [] && data[0] == LF && p.nread + 1 <= MAX_HEADER
  {
    if data[0] != LF || p.nread + 1 > MAX_HEADER { FeedStopped(h, Step(h, p, data[0]).parser, data[1..]); }
  }

  lemma {:induction false} ParameterLine(h: Headers, p: Parser, data: bytes) returns (n: nat)
    requires Sound(p) && !Stopped(p) && p.state.ChunkParameters? && Feed(h, p, data).outs != []
    ensures n + 2 <= |data| && CR !in data[..n] && data[n] == CR && data[n + 1] == LF && p.nread + n + 2 <= MAX_HEADER
    decreases |data|
  {
    var q, rest := Step(h, p, data[0]).parser, data[1..];
    if Stopped(q) { FeedStopped(h, q, rest); }
    if data[0] == CR {
      LineEnd(h, q, rest);
      n := 0;
    } else {
      var m := ParameterLine(h, q, rest);
      n := m + 1;
      assert data[..n] == [data[0]] + rest[..m];
    }
  }

  lemma SizeByte(h: Headers, p: Parser, ch: byte)
    requires Sound(p) && !Stopped(p) && p.state.ChunkSize?
    ensures var r := Step(h, p, ch);
            && r.outs == []
            && (Stopped(r.parser) || (r.parser.nread == p.nread + 1 <= MAX_HEADER
                  && if ch == CR then r.parser.state.ChunkSizeAlmostDone?
                     else if Unhex(ch) == -1 then (ch == SEMICOLON || ch == SPACE) && r.parser.state.ChunkParameters?
                     else r.parser.state.ChunkSize?))
  {
  }

  lemma FeedCons(h: Headers, p: Parser, data: bytes)
    requires Sound(p) && data != []
    ensures var r := Step(h, p, data[0]); Feed(h, p, data).outs == r.outs + Feed(h, r.parser, data[1..]).outs
  {
    hide Step;
  }

  /** The rest of a size line: digits to `m`, an extension to `n`, and the line's end. */
  lemma {:induction false} SizeParts(h: Headers, p: Parser, data: bytes) returns (m: nat, n: nat)
    requires Sound(p) && !Stopped(p) && p.state.ChunkSize? && Feed(h, p, data).outs != []
    ensures m <= n && n + 2 <= |data| && data[n] == CR && data[n + 1] == LF && p.nread + n + 2 <= MAX_HEADER
    ensures Digits(data[..m]) && Extension(data[m..n])
    decreases |data|
  {
    if data == [] { FeedNone(h, p); }
    SizeByte(h, p, data[0]);
    FeedCons(h, p, data);
    hide Step, Feed, Sound;
    var q, rest := Step(h, p, data[0]).parser, data[1..];
    if Stopped(q) { FeedStopped(h, q, rest); }
    if data[0] == CR {
      LineEnd(h, q, rest);
      m, n := 0, 0;
    } else if Unhex(data[0]) == -1 {
      var k := ParameterLine(h, q, rest);
      m, n := 0, k + 1;
      assert data[..n] == [data[0]] + rest[..k];
    } else {
      var m', n' := SizeParts(h, q, rest);
      m, n := m' + 1, n' + 1;
      assert data[..m] == [data[0]] + rest[..m'] && data[m..n] == rest[m'..n'];
    }
  }

  lemma SizeStart(h: Headers, p: Parser, data: bytes) returns (m: nat, n: nat)
    requires AtSize(p) && Feed(h, p, data).outs != []
    ensures data != [] && Unhex(data[0]) >= 0 && m <= n && n + 3 <= |data| && data[n + 1] == CR && data[n + 2] == LF
    ensures n + 3 <= MAX_HEADER && Digits(data[1..][..m]) && Extension(data[1..][m..n])
  {
    if data == [] { FeedNone(h, p); }
    FeedCons(h, p, data);
    hide Feed;
    var q, rest := Step(h, p, data[0]).parser, data[1..];
    if Stopped(q) { FeedStopped(h, q, rest); }
    m, n := SizeParts(h, q, rest);
  }

  /** A callback is made only after a whole size line. */
  lemma FirstLine(h: Headers, p: Parser, data: bytes) returns (c: Chunk)
    requires AtSize(p) && Feed(h, p, data).outs != []
    ensures SizeOk(c) && SizeLine(c) <= data
  {
    hide Feed, Step, Sound, Value;
    var m, n := SizeStart(h, p, data);
    var rest := data[1..];
    c := Chunk(data[..m + 1], rest[m..n], []);
    assert c.digits == [data[0]] + rest[..m];
    assert data[..n + 3] == SizeLine(c);
    assert data == c.digits + data[m + 1..];
    SizeInLimit(h, p, c.digits, data[m + 1..]);
  }

  lemma SizeInLimit(h: Headers, p: Parser, digits: bytes, rest: bytes)
    requires AtSize(p) && Digits(digits) && 0 < |digits| <= MAX_HEADER && Feed(h, p, digits + rest).outs != []
    ensures Value(digits) < SIZE_LIMIT
  {
    hide Feed, Step;
    SizeIsExact(h, p, digits);
    if Value(digits) >= SIZE_LIMIT {
      FeedAppend(h, p, digits, rest);
      FeedStopped(h, Feed(h, p, digits).parser, rest);
    }
  }

  /** After the last size line an empty line is due; a bare line feed passes for one. */
  predicate EmptyLine(e: bytes) { e == [CR, LF] || e == [LF] }

  lemma TrailerLine(h: Headers, p: Parser, data: bytes)
    requires Sound(p) && !Stopped(p) && p.state.TrailerStart? && MessageComplete in Feed(h, p, data).outs
    ensures [CR, LF] <= data || [LF] <= data
  {
    var q, rest := Step(h, p, data[0]).parser, data[1..];
    FeedCons(h, p, data);
    if Stopped(q) { FeedStopped(h, q, rest); }
    if data[0] == CR {
      if rest == [] { FeedNone(h, q); }
      FeedCons(h, q, rest);
      var r := Step(h, q, rest[0]).parser;
      if rest[0] != LF { FeedStopped(h, r, rest[1..]); }
    }
  }

  /** In a chunk's data nothing but body bytes is told before the CR that follows it. */
  lemma ChunkRest(h: Headers, p: Parser, data: bytes)
    requires Sound(p) && !Stopped(p) && p.state.ChunkData? && !(|data| > p.contentLength && data[p.contentLength] == CR)
    ensures MessageComplete !in Feed(h, p, data).outs
    ensures Broken(Feed(h, p, data).parser) <==> |data| > p.contentLength
  {
    var v := p.contentLength;
    hide Feed, Step;
    if |data| < v {
      FeedBody(h, p, data);
    } else {
      var run, rest := data[..v], data[v..];
      FeedBodyToEnd(h, p, run);
      assert data == run + rest;
      FeedAppend(h, p, run, rest);
      var q := Feed(h, p, run).parser;
      if rest == [] {
        FeedNone(h, q);
      } else {
        BreakHere(h, q, rest);
      }
    }
  }

  lemma BreakHere(h: Headers, p: Parser, data: bytes)
    requires Sound(p) && !Stopped(p) && p.state.ChunkDataAlmostDone? && data != [] && data[0] != CR
    ensures Feed(h, p, data).outs == [] && Broken(Feed(h, p, data).parser)
  {
    var q := Step(h, p, data[0]).parser;
    FeedStopped(h, q, data[1..]);
  }

  /** The CR after a chunk's data must be followed by LF. */
  lemma ChunkEnd(h: Headers, p: Parser, data: bytes)
    requires Sound(p) && !Stopped(p) && p.state.ChunkDataAlmostDone? && data != [] && data[0] == CR
    requires |data| == 1 || data[1] != LF
    ensures Feed(h, p, data).outs == [] && !Broken(Feed(h, p, data).parser)
  {
    var q, rest := Step(h, p, CR).parser, data[1..];
    if rest == [] {
      FeedNone(h, q);
    } else {
      FeedStopped(h, Step(h, q, rest[0]).parser, rest[1..]);
    }
  }

  lemma WithData(c: Chunk, data: bytes)
    requires SizeOk(c) && Value(c.digits) == |data|
    ensures WellFormed(c.(data := data)) && SizeLine(c.(data := data)) == SizeLine(c)
  {
    hide Digits, Extension, Value;
  }

  /** A size line is followed by its data and CR LF, or the body neither completes nor goes on. */
  lemma ChunkFollows(h: Headers, p: Parser, c0: Chunk, data: bytes) returns (c: Chunk)
    requires AtSize(p) && SizeOk(c0) && Value(c0.digits) > 0 && SizeLine(c0) <= data
    requires MessageComplete in Feed(h, p, data).outs
    ensures WellFormed(c) && c.data != [] && Wire(c) <= data
  {
    hide Feed, Step, SizeOk, Value;
    var line, v := SizeLine(c0), Value(c0.digits);
    var tail := data[|line|..];
    assert data == line + tail;
    FeedSizeLine(h, p, c0);
    FeedAppend(h, p, line, tail);
    var q := Feed(h, p, line).parser;
    if !(|tail| > v && tail[v] == CR) { ChunkRest(h, q, tail); }
    var run, rest := tail[..v], tail[v..];
    FeedBodyToEnd(h, q, run);
    assert tail == run + rest;
    FeedAppend(h, q, run, rest);
    if |rest| == 1 || rest[1] != LF { ChunkEnd(h, Feed(h, q, run).parser, rest); }
    c := c0.(data := run);
    WithData(c0, run);
    assert Wire(c) == line + run + rest[..2];
    assert data[..|Wire(c)|] == Wire(c);
  }

  lemma NotInReport(c: Chunk)
    ensures MessageComplete !in Reported(c)
  {
  }

  /** Whatever completes a body is chunks and a last chunk. */
  lemma {:induction false} CompletedBody(h: Headers, p: Parser, data: bytes)
    returns (cs: seq<Chunk>, last: Chunk, e: bytes, rest: bytes)
    requires AtSize(p) && MessageComplete in Feed(h, p, data).outs
    ensures ChunkedBody(data, cs, last, e, rest)
    decreases |data|
  {
    hide Feed, Step, SizeOk, Value, Reported;
    var c0 := FirstLine(h, p, data);
    if Value(c0.digits) == 0 {
      var line := SizeLine(c0);
      var tail := data[|line|..];
      assert data == line + tail;
      FeedSizeLine(h, p, c0);
      FeedAppend(h, p, line, tail);
      TrailerLine(h, Feed(h, p, line).parser, tail);
      e := if [CR, LF] <= tail then [CR, LF] else [LF];
      cs, last, rest := [], c0.(data := []), tail[|e|..];
      WithData(c0, []);
      assert tail == e + rest && WireAll(cs) + (SizeLine(last) + (e + rest)) == data;
    } else {
      var c := ChunkFollows(h, p, c0, data);
      var more := data[|Wire(c)|..];
      assert data == Wire(c) + more;
      FeedChunk(h, p, c);
      FeedAppend(h, p, Wire(c), more);
      NotInReport(c);
      cs, last, e, rest := CompletedBody(h, Feed(h, p, Wire(c)).parser, more);
      var tail := SizeLine(last) + (e + rest);
      assert Wire(c) + (WireAll(cs) + tail) == (Wire(c) + WireAll(cs)) + tail;
      assert ([c] + cs)[1..] == cs;
      cs := [c] + cs;
    }
  }

  /** The stream is these chunks, this last chunk and an empty line, and the rest. */
  ghost predicate ChunkedBody(data: bytes, cs: seq<Chunk>, last: Chunk, e: bytes, rest: bytes) {
    && (forall c <- cs :: WellFormed(c) && c.data != []) && WellFormed(last) && last.data == [] && EmptyLine(e)
    && data == WireAll(cs) + (SizeLine(last) + (e + rest))
  }

  lemma LastLine(h: Headers, p: Parser, e: bytes, rest: bytes)
    requires Sound(p) && !Stopped(p) && p.state.TrailerStart? && p.nread == 0 && EmptyLine(e)
    ensures Feed(h, p, e + rest).outs == [ChunkComplete, MessageComplete]
  {
    hide Feed, Step;
    FeedAppend(h, p, e, rest);
    LastBytes(h, p, e);
    DeadIsSilent(h, Feed(h, p, e).parser, rest);
  }

  lemma LastBytes(h: Headers, p: Parser, e: bytes)
    requires Sound(p) && !Stopped(p) && p.state.TrailerStart? && p.nread == 0 && EmptyLine(e)
    ensures var r := Feed(h, p, e);
            r.outs == [ChunkComplete, MessageComplete] && (r.parser.state.NewMessage? || r.parser.state.Dead?)
  {
    hide Feed;
    if e == [CR, LF] {
      assert e == [CR] + [LF];
      FeedAppend(h, p, [CR], [LF]);
      FeedOne(h, p, CR);
      FeedOne(h, Step(h, p, CR).parser, LF);
    } else {
      FeedOne(h, p, LF);
    }
  }

  /** Such a stream is reported chunk by chunk, and of the rest nothing is. */
  lemma {:induction false} BodyReported(h: Headers, p: Parser, data: bytes, cs: seq<Chunk>, last: Chunk, e: bytes,
                                        rest: bytes)
    requires AtSize(p) && ChunkedBody(data, cs, last, e, rest)
    ensures Feed(h, p, data).outs == ReportedAll(cs) + [ChunkHeader(0), ChunkComplete, MessageComplete]
    decreases |cs|
  {
    hide Feed, Step, Wire, SizeLine, Reported, SizeOk, Value, EmptyLine;
    var tail := SizeLine(last) + (e + rest);
    if cs == [] {
      assert data == tail;
      FeedSizeLine(h, p, last);
      FeedAppend(h, p, SizeLine(last), e + rest);
      LastLine(h, Feed(h, p, SizeLine(last)).parser, e, rest);
    } else {
      var c := cs[0];
      assert c in cs && forall x <- cs[1..] :: x in cs;
      FeedChunk(h, p, c);
      var more := WireAll(cs[1..]) + tail;
      assert data == Wire(c) + more;
      BodyReported(h, Feed(h, p, Wire(c)).parser, more, cs[1..], last, e, rest);
      FeedAppend(h, p, Wire(c), more);
    }
  }

  /** The parser completes a chunked body if and only if the stream starts with one. */
  lemma CompletesIff(h: Headers, p: Parser, data: bytes)
    requires AtSize(p)
    ensures MessageComplete in Feed(h, p, data).outs
            <==> exists cs, last, e, rest :: ChunkedBody(data, cs, last, e, rest)
  {
    hide Feed, ChunkedBody;
    if MessageComplete in Feed(h, p, data).outs {
      var cs, last, e, rest := CompletedBody(h, p, data);
    }
    if exists cs, last, e, rest :: ChunkedBody(data, cs, last, e, rest) {
      var cs, last, e, rest :| ChunkedBody(data, cs, last, e, rest);
      BodyReported(h, p, data, cs, last, e, rest);
    }
  }

  // ----- broken chunks

  /** The byte at `k` is not the CR it should be: where the parser breaks off. */
  ghost predicate BreaksAt(h: Headers, p: Parser, data: bytes, k: nat)
    requires Sound(p)
  {
    k < |data| && !Stopped(Feed(h, p, data[..k]).parser) && Broken(Feed(h, p, data[..k + 1]).parser)
  }

  /** Whole chunks, then a chunk whose data is not followed by CR. */
  ghost predicate BrokenBody(data: bytes, cs: seq<Chunk>, c: Chunk) {
    && (forall x <- cs + [c] :: WellFormed(x) && x.data != [])
    && Unended(cs, c) <= data && |Unended(cs, c)| < |data| && data[|Unended(cs, c)|] != CR
  }

  function Unended(cs: seq<Chunk>, c: Chunk): bytes { WireAll(cs) + (SizeLine(c) + c.data) }

  predicate PastChunks(s: State) {
    s.TrailerStart? || s.TrailerAlmostDone? || s.TrailerField? || s.NewMessage? || s.Dead?
  }

  lemma {:induction false} NoBreakPast(h: Headers, p: Parser, data: bytes)
    requires Sound(p) && PastChunks(p.state)
    ensures PastChunks(Feed(h, p, data).parser.state)
    decreases |data|
  {
    if data != [] {
      PastStays(h, p, data[0]);
      hide Step;
      NoBreakPast(h, Step(h, p, data[0]).parser, data[1..]);
    }
  }

  lemma PastStays(h: Headers, p: Parser, ch: byte)
    requires Sound(p) && PastChunks(p.state)
    ensures PastChunks(Step(h, p, ch).parser.state)
  {
    hide OnHeadersAlmostDone;
  }

  /** Only a size line whose data is there and is not followed by CR makes the parser break off. */
  lemma {:induction false} BrokenParts(h: Headers, p: Parser, data: bytes) returns (cs: seq<Chunk>, c: Chunk)
    requires AtSize(p) && Broken(Feed(h, p, data).parser)
    ensures BrokenBody(data, cs, c)
    decreases |data|
  {
    BreakNotFirst(h, p, data);
    hide Feed, Step, SizeOk, Value, Reported;
    var c0 := FirstLine(h, p, data);
    var line, v := SizeLine(c0), Value(c0.digits);
    var tail := data[|line|..];
    assert data == line + tail;
    FeedSizeLine(h, p, c0);
    FeedAppend(h, p, line, tail);
    var q := Feed(h, p, line).parser;
    if v == 0 { NoBreakPast(h, q, tail); }
    if !(|tail| > v && tail[v] == CR) {
      ChunkRest(h, q, tail);
      cs, c := [], c0.(data := tail[..v]);
      WithData(c0, tail[..v]);
      assert WireAll(cs) + (SizeLine(c) + c.data) == data[..|line| + v];
    } else {
      cs, c := BrokenLater(h, p, c0, data);
    }
  }

  lemma BrokenLater(h: Headers, p: Parser, c0: Chunk, data: bytes) returns (cs: seq<Chunk>, c: Chunk)
    requires AtSize(p) && Broken(Feed(h, p, data).parser)
    requires SizeOk(c0) && Value(c0.digits) > 0 && SizeLine(c0) <= data
    requires var e := |SizeLine(c0)| + Value(c0.digits); e < |data| && data[e] == CR
    ensures BrokenBody(data, cs, c)
    decreases |data|, 0
  {
    hide Feed, Step, SizeOk, Value, Reported;
    var line, v := SizeLine(c0), Value(c0.digits);
    var tail := data[|line|..];
    assert data == line + tail;
    FeedSizeLine(h, p, c0);
    FeedAppend(h, p, line, tail);
    var q := Feed(h, p, line).parser;
    var run, rest := tail[..v], tail[v..];
    FeedBodyToEnd(h, q, run);
    assert tail == run + rest;
    FeedAppend(h, q, run, rest);
    if |rest| == 1 || rest[1] != LF { ChunkEnd(h, Feed(h, q, run).parser, rest); }
    var first := c0.(data := run);
    WithData(c0, run);
    var more := rest[2..];
    assert rest == [CR, LF] + more;
    assert data == Wire(first) + more;
    FeedChunk(h, p, first);
    FeedAppend(h, p, Wire(first), more);
    cs, c := BrokenParts(h, Feed(h, p, Wire(first)).parser, more);
    BrokenAfter(first, more, cs, c);
    cs := [first] + cs;
  }

  lemma BrokenAfter(first: Chunk, more: bytes, cs: seq<Chunk>, c: Chunk)
    requires WellFormed(first) && first.data != [] && BrokenBody(more, cs, c)
    ensures BrokenBody(Wire(first) + more, [first] + cs, c)
  {
    hide WellFormed, Wire, SizeLine;
    assert ([first] + cs)[1..] == cs && [first] + cs + [c] == [first] + (cs + [c]);
    var start := WireAll(cs) + (SizeLine(c) + c.data);
    assert Wire(first) + WireAll(cs) + (SizeLine(c) + c.data) == Wire(first) + start;
  }

  lemma BreakNotFirst(h: Headers, p: Parser, data: bytes)
    requires AtSize(p) && Broken(Feed(h, p, data).parser)
    ensures Feed(h, p, data).outs != []
  {
    if data == [] { FeedNone(h, p); }
    BrokenCallLoses(h, p, data);
    hide Feed;
    if Broken(Step(h, p, data[0]).parser) { BreakingByte(h, p, data[0]); }
  }

  lemma {:induction false} UnendedReached(h: Headers, p: Parser, cs: seq<Chunk>, c: Chunk)
    requires AtSize(p) && forall x <- cs + [c] :: WellFormed(x) && x.data != []
    ensures var q := Feed(h, p, Unended(cs, c)).parser; !Stopped(q) && q.state.ChunkDataAlmostDone?
    decreases |cs|
  {
    hide Feed, Step, SizeOk, Wire, SizeLine, Value;
    if cs == [] {
      assert c in cs + [c];
      assert Unended(cs, c) == SizeLine(c) + c.data;
      FeedSizeLine(h, p, c);
      FeedBodyToEnd(h, Feed(h, p, SizeLine(c)).parser, c.data);
      FeedAppend(h, p, SizeLine(c), c.data);
    } else {
      var first := cs[0];
      assert first in cs + [c] && forall x <- cs[1..] + [c] :: x in cs + [c];
      FeedChunk(h, p, first);
      UnendedReached(h, Feed(h, p, Wire(first)).parser, cs[1..], c);
      assert Unended(cs, c) == Wire(first) + Unended(cs[1..], c);
      FeedAppend(h, p, Wire(first), Unended(cs[1..], c));
    }
  }

  lemma BrokenReached(h: Headers, p: Parser, data: bytes, cs: seq<Chunk>, c: Chunk)
    requires AtSize(p) && BrokenBody(data, cs, c)
    ensures BreaksAt(h, p, data, |Unended(cs, c)|)
  {
    hide Feed, Step, Unended, WellFormed;
    var start := Unended(cs, c);
    var k := |start|;
    UnendedReached(h, p, cs, c);
    assert data[..k] == start && data[..k + 1] == start + [data[k]];
    FeedAppend(h, p, start, [data[k]]);
    BreakHere(h, Feed(h, p, start).parser, [data[k]]);
  }

  lemma StaysStopped(h: Headers, p: Parser, data: bytes, i: nat, j: nat)
    requires Sound(p) && i <= j <= |data| && Stopped(Feed(h, p, data[..i]).parser)
    ensures Feed(h, p, data[..j]).parser == Feed(h, p, data[..i]).parser
  {
    hide Feed;
    assert data[..j] == data[..i] + data[i..j];
    FeedAppend(h, p, data[..i], data[i..j]);
    FeedStopped(h, Feed(h, p, data[..i]).parser, data[i..j]);
  }

  /** Where the parser breaks off can be read off the stream. */
  lemma BreaksAtIff(h: Headers, p: Parser, data: bytes, k: nat)
    requires AtSize(p)
    ensures BreaksAt(h, p, data, k) <==> exists cs, c :: BrokenBody(data, cs, c) && |Unended(cs, c)| == k
  {
    hide Feed, Unended, WellFormed;
    if BreaksAt(h, p, data, k) {
      var cs, c := BrokenParts(h, p, data[..k + 1]);
      var i := |Unended(cs, c)|;
      assert BrokenBody(data, cs, c);
      BrokenReached(h, p, data, cs, c);
      if i < k { StaysStopped(h, p, data, i + 1, k); }
    }
    if exists cs, c :: BrokenBody(data, cs, c) && |Unended(cs, c)| == k {
      var cs, c :| BrokenBody(data, cs, c) && |Unended(cs, c)| == k;
      BrokenReached(h, p, data, cs, c);
    }
  }

  /** A piece ends, or the stream begins, at `k`. */
  ghost predicate Boundary(pieces: seq<bytes>, k: nat) {
    exists i :: 0 <= i <= |pieces| && |Concat(pieces[..i])| == k
  }

  lemma {:induction false} ConcatPrefix(pieces: seq<bytes>, i: nat)
    requires 0 < i <= |pieces|
    ensures Concat(pieces[..i]) == pieces[0] + Concat(pieces[1..][..i - 1])
  {
    assert pieces[..i][1..] == pieces[1..][..i - 1];
  }

  lemma BoundaryShifts(pieces: seq<bytes>, k: nat)
    requires pieces != []
    ensures k < |pieces[0]| ==> (Boundary(pieces, k) <==> k == 0)
    ensures k >= |pieces[0]| && pieces[0] != [] ==> (Boundary(pieces, k) <==> Boundary(pieces[1..], k - |pieces[0]|))
  {
    var a := |pieces[0]|;
    assert pieces[..0] == [];
    forall i | 0 < i <= |pieces|
      ensures |Concat(pieces[..i])| == a + |Concat(pieces[1..][..i - 1])|
    {
      ConcatPrefix(pieces, i);
    }
    if k >= a && Boundary(pieces[1..], k - a) {
      var j :| 0 <= j <= |pieces[1..]| && |Concat(pieces[1..][..j])| == k - a;
      assert |Concat(pieces[..j + 1])| == k;
    }
  }

  /** Breaking off in a stream in two parts. */
  lemma BreaksInParts(h: Headers, p: Parser, a: bytes, b: bytes, k: nat)
    requires Sound(p)
    ensures k < |a| ==> (BreaksAt(h, p, a + b, k) <==> BreaksAt(h, p, a, k))
    ensures k >= |a| ==> (BreaksAt(h, p, a + b, k) <==> BreaksAt(h, Feed(h, p, a).parser, b, k - |a|))
  {
    hide Feed;
    var data := a + b;
    if k < |a| {
      assert data[..k] == a[..k] && data[..k + 1] == a[..k + 1];
    } else if k < |data| {
      assert data[..k] == a + b[..k - |a|] && data[..k + 1] == a + b[..k + 1 - |a|];
      FeedAppend(h, p, a, b[..k - |a|]);
      FeedAppend(h, p, a, b[..k + 1 - |a|]);
    }
  }

  /** A call breaks off somewhere if it ends broken, and nowhere else. */
  lemma {:induction false} BreakIsSomewhere(h: Headers, p: Parser, a: bytes) returns (k: nat)
    requires Sound(p) && !Stopped(p) && Broken(Feed(h, p, a).parser)
    ensures BreaksAt(h, p, a, k)
    decreases |a|
  {
    hide Feed, Step;
    if a == [] { FeedNone(h, p); }
    var n := |a| - 1;
    if Stopped(Feed(h, p, a[..n]).parser) {
      StaysStopped(h, p, a, n, n + 1);
      assert a[..n + 1] == a;
      k := BreakIsSomewhere(h, p, a[..n]);
      assert a[..n][..k] == a[..k] && a[..n][..k + 1] == a[..k + 1];
    } else {
      k := n;
      assert a[..k + 1] == a;
    }
  }

  lemma BreakIsFinal(h: Headers, p: Parser, a: bytes, j: nat, k: nat)
    requires Sound(p) && BreaksAt(h, p, a, k)
    ensures Broken(Feed(h, p, a).parser) && (BreaksAt(h, p, a, j) ==> j == k)
  {
    hide Feed;
    StaysStopped(h, p, a, k + 1, |a|);
    assert a[..|a|] == a;
    if BreaksAt(h, p, a, j) {
      if j < k { StaysStopped(h, p, a, j + 1, k); }
      if k < j { StaysStopped(h, p, a, k + 1, j); }
    }
  }

  lemma BreaksFirst(h: Headers, p: Parser, a: bytes)
    requires Sound(p) && !Stopped(p) && a != []
    ensures BreaksAt(h, p, a, 0) <==> Broken(Step(h, p, a[0]).parser)
  {
    hide Step;
    assert a[..0] == [] && a[..1] == [a[0]];
    FeedNone(h, p);
    FeedOne(h, p, a[0]);
  }

  lemma NoBreak(h: Headers, p: Parser, data: bytes, k: nat)
    requires Sound(p) && (Stopped(p) || data == [])
    ensures !BreaksAt(h, p, data, k)
  {
    hide Step;
    if k < |data| { FeedStopped(h, p, data[..k]); }
  }

  /** The byte that breaks the stream, if there is one, is the first of its piece. */
  ghost predicate BreaksAtEdge(h: Headers, p: Parser, pieces: seq<bytes>)
    requires Sound(p)
  {
    forall k: nat | BreaksAt(h, p, Concat(pieces), k) :: Boundary(pieces, k)
  }

  lemma BreaksInPieces(h: Headers, p: Parser, pieces: seq<bytes>, k: nat)
    requires Sound(p) && pieces != [] && pieces[0] != []
    ensures var a, rest := pieces[0], pieces[1..];
            if k < |a| then
              && (BreaksAt(h, p, Concat(pieces), k) <==> BreaksAt(h, p, a, k))
              && (Boundary(pieces, k) <==> k == 0)
            else
              && (BreaksAt(h, p, Concat(pieces), k) <==> BreaksAt(h, Feed(h, p, a).parser, Concat(rest), k - |a|))
              && (Boundary(pieces, k) <==> Boundary(rest, k - |a|))
  {
    hide Feed, Boundary, BreaksAt;
    BreaksInParts(h, p, pieces[0], Concat(pieces[1..]), k);
    BoundaryShifts(pieces, k);
  }

  /** The first piece ends broken: all depends on its first byte. */
  lemma FirstPieceBreaks(h: Headers, p: Parser, pieces: seq<bytes>)
    requires Sound(p) && !Stopped(p) && pieces != [] && pieces[0] != [] && Broken(Feed(h, p, pieces[0]).parser)
    ensures BreaksAtEdge(h, p, pieces) <==> Broken(Step(h, p, pieces[0][0]).parser)
  {
    hide Feed, Step, Boundary, BreaksAt, Concat;
    var a := pieces[0];
    var k0 := BreakIsSomewhere(h, p, a);
    BreaksFirst(h, p, a);
    BreakBound(h, p, a, k0);
    BreaksInPieces(h, p, pieces, k0);
    BreakIsFinal(h, p, a, 0, k0);
    forall k: nat | BreaksAt(h, p, Concat(pieces), k)
      ensures k == k0
    {
      BreaksInPieces(h, p, pieces, k);
      if k < |a| {
        BreakIsFinal(h, p, a, k, k0);
      } else {
        NoBreak(h, Feed(h, p, a).parser, Concat(pieces[1..]), k - |a|);
      }
    }
  }

  lemma BreakBound(h: Headers, p: Parser, data: bytes, k: nat)
    requires Sound(p) && BreaksAt(h, p, data, k)
    ensures k < |data|
  {
  }

  /** The first piece does not: all depends on the others. */
  lemma FirstPiecePasses(h: Headers, p: Parser, pieces: seq<bytes>)
    requires Sound(p) && pieces != [] && pieces[0] != [] && !Broken(Feed(h, p, pieces[0]).parser)
    ensures BreaksAtEdge(h, p, pieces) <==> BreaksAtEdge(h, Feed(h, p, pieces[0]).parser, pieces[1..])
  {
    hide Feed, Step, Boundary, BreaksAt, Concat;
    var a, rest := pieces[0], pieces[1..];
    var q := Feed(h, p, a).parser;
    if BreaksAtEdge(h, q, rest) {
      forall k: nat | BreaksAt(h, p, Concat(pieces), k)
        ensures Boundary(pieces, k)
      {
        BreaksInPieces(h, p, pieces, k);
        if k < |a| { BreakIsFinal(h, p, a, k, k); }
      }
    }
    if BreaksAtEdge(h, p, pieces) {
      forall k: nat | BreaksAt(h, q, Concat(rest), k)
        ensures Boundary(rest, k)
      {
        BreaksInPieces(h, p, pieces, k + |a|);
      }
    }
  }

  lemma {:induction false} NothingLostIff(h: Headers, p: Parser, pieces: seq<bytes>)
    requires Sound(p) && forall x <- pieces :: x != []
    ensures NothingLost(h, p, pieces) <==> BreaksAtEdge(h, p, pieces)
    decreases |pieces|
  {
    hide Feed, Step, Boundary, BreaksAt, BreaksAtEdge;
    if pieces == [] || Stopped(p) {
      EdgeWhenStopped(h, p, pieces);
    } else {
      var a, rest := pieces[0], pieces[1..];
      assert a in pieces && forall x <- rest :: x in pieces;
      NothingLostIff(h, Feed(h, p, a).parser, rest);
      if Broken(Feed(h, p, a).parser) { FirstPieceBreaks(h, p, pieces); } else { FirstPiecePasses(h, p, pieces); }
    }
  }

  lemma EdgeWhenStopped(h: Headers, p: Parser, pieces: seq<bytes>)
    requires Sound(p) && (Stopped(p) || pieces == [])
    ensures BreaksAtEdge(h, p, pieces)
  {
    hide BreaksAt;
    forall k: nat
      ensures !BreaksAt(h, p, Concat(pieces), k)
    {
      NoBreak(h, p, Concat(pieces), k);
    }
  }

  /** The cuts of a chunked body are not felt if and only if, whenever the stream holds a chunk
      whose data is not followed by CR, a piece begins right after that data. */
  lemma CutsFeltIff(h: Headers, p: Parser, pieces: seq<bytes>)
    requires AtSize(p) && forall x <- pieces :: x != []
    ensures Calls(h, p, pieces).outs == Feed(h, p, Concat(pieces)).outs
            <==> forall cs, c | BrokenBody(Concat(pieces), cs, c) :: Boundary(pieces, |Unended(cs, c)|)
  {
    hide Feed, Calls, Boundary, BreaksAt, BrokenBody, Concat, Unended;
    CutsDoNotMatter(h, p, pieces);
    NothingLostIff(h, p, pieces);
    var data := Concat(pieces);
    if BreaksAtEdge(h, p, pieces) {
      forall cs, c | BrokenBody(data, cs, c)
        ensures Boundary(pieces, |Unended(cs, c)|)
      {
        BreaksAtIff(h, p, data, |Unended(cs, c)|);
      }
    }
    if forall cs, c | BrokenBody(data, cs, c) :: Boundary(pieces, |Unended(cs, c)|) {
      forall k: nat | BreaksAt(h, p, data, k)
        ensures Boundary(pieces, k)
      {
        BreaksAtIff(h, p, data, k);
      }
    }
  }
}
