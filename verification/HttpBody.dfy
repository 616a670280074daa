/** The body half of the HTTP parser, one byte at a time: from the line feed that ends the
    headers to the end of the message. */
module HttpBody {
  import opened Words

  const CR: byte := 13
  const LF: byte := 10
  const SEMICOLON: byte := 59
  const SPACE: byte := 32
  const MAX_HEADER: int := 80 * 1024
  const ULLONG_MAX: int := 0xFFFF_FFFF_FFFF_FFFF

  /** `NewMessage` and `TrailerField` are where the model hands over: the first byte of the next
      message, and the first byte of a trailer field. */
  datatype State =
    | HeadersAlmostDone | HeadersDone
    | ChunkSizeStart | ChunkSize | ChunkParameters | ChunkSizeAlmostDone
    | ChunkData | ChunkDataAlmostDone | ChunkDataDone
    | TrailerStart | TrailerAlmostDone | TrailerField
    | BodyIdentity | BodyEof
    | NewMessage | Dead

  datatype Errno =
    | NoError | Strict | HeaderOverflow | ClosedConnection | InvalidHeaderToken
    | UnexpectedContentLength | InvalidEofState | InvalidChunkSize | InvalidContentLength | CbHeadersComplete

  /** What the headers said, and what `on_headers_complete` answers. */
  datatype Headers = Headers(
    isRequest: bool, isConnect: bool, status: nat, major: nat, minor: nat,
    connectionClose: bool, connectionKeepAlive: bool, connectionUpgrade: bool, upgrade: bool,
    chunked: bool, hasContentLength: bool, answer: int)

  datatype Parser = Parser(
    state: State, contentLength: nat, nread: nat, skipBody: bool, upgrade: bool, errno: Errno, handedOver: bool)

  /** What the callbacks see, body bytes one by one. */
  datatype Out = BodyByte(b: byte) | HeadersComplete | ChunkHeader(size: nat) | ChunkComplete | MessageComplete

  datatype Result = Result(parser: Parser, outs: seq<Out>)

  /** The table's upper half is left to its default, zero. */
  function Unhex(ch: byte): (v: int)
    ensures -1 <= v < 16
  {
    if 48 <= ch <= 57 then ch - 48
    else if 65 <= ch <= 70 then ch - 55
    else if 97 <= ch <= 102 then ch - 87
    else if ch >= 128 then 0
    else -1
  }

  predicate Token(ch: byte) {
    48 <= ch <= 57 || 65 <= ch <= 90 || 94 <= ch <= 122
    || ch in {33, 35, 36, 37, 38, 39, 42, 43, 45, 46, 124, 126}
  }

  predicate CountsAsHeader(s: State) {
    !s.ChunkData? && !s.ChunkDataAlmostDone? && !s.ChunkDataDone? && !s.BodyIdentity? && !s.BodyEof?
  }

  predicate Stopped(p: Parser) {
    !p.errno.NoError? || p.handedOver || p.state.NewMessage? || p.state.TrailerField?
  }

  /** What the assertions in the code demand of the length in each state. */
  predicate LengthOk(p: Parser) {
    && p.contentLength <= ULLONG_MAX
    && (p.state.BodyIdentity? || p.state.ChunkData? ==> 0 < p.contentLength < ULLONG_MAX)
    && (p.state.ChunkDataAlmostDone? ==> p.contentLength == 0)
    && (p.state.ChunkSize? || p.state.ChunkParameters? || p.state.ChunkSizeAlmostDone? ==>
          p.contentLength < ULLONG_MAX - 15)
  }

  /** And of the parser between two bytes: a chunk's first digit is the first byte counted. */
  predicate Sound(p: Parser) {
    && LengthOk(p)
    && (p.state.HeadersDone? ==> Stopped(p))
    && (p.state.ChunkSizeStart? && !Stopped(p) ==> p.nread == 0)
  }

  predicate NeedsEof(h: Headers, p: Parser) {
    && !h.isRequest && !(h.status / 100 == 1 || h.status == 204 || h.status == 304 || p.skipBody)
    && !h.chunked && p.contentLength == ULLONG_MAX
  }

  predicate KeepAlive(h: Headers, p: Parser) {
    && (if h.major > 0 && h.minor > 0 then !h.connectionClose else h.connectionKeepAlive)
    && !NeedsEof(h, p)
  }

  function NextMessage(h: Headers, p: Parser): State { if KeepAlive(h, p) then NewMessage else Dead }

  function Fail(p: Parser, e: Errno): Result { Result(p.(errno := e), []) }

  function Finish(h: Headers, p: Parser): (r: Result)
    requires p.contentLength <= ULLONG_MAX
    ensures Sound(r.parser)
    ensures r.parser.state.NewMessage? || r.parser.state.Dead?
  {
    Result(p.(state := NextMessage(h, p), handedOver := p.upgrade), [MessageComplete])
  }

  // ----- the headers' last byte

  function OnHeadersDone(h: Headers, p0: Parser): (r: Result)
    requires LengthOk(p0)
    ensures Sound(r.parser)
    ensures r.parser.handedOver ==> p0.handedOver || r.parser.state.NewMessage? || r.parser.state.Dead?
    ensures !r.parser.state.ChunkDataAlmostDone? && !r.parser.state.ChunkData?
  {
    var p := p0.(nread := 0);
    var hasBody := h.chunked || 0 < p.contentLength < ULLONG_MAX;
    if p.upgrade && (h.isConnect || p.skipBody || !hasBody) then Finish(h, p)
    else if p.skipBody then Result(p.(state := NextMessage(h, p)), [MessageComplete])
    else if h.chunked then Result(p.(state := ChunkSizeStart), [])
    else if p.contentLength == 0 then Result(p.(state := NextMessage(h, p)), [MessageComplete])
    else if p.contentLength != ULLONG_MAX then Result(p.(state := BodyIdentity), [])
    else if !NeedsEof(h, p) then Result(p.(state := NextMessage(h, p)), [MessageComplete])
    else Result(p.(state := BodyEof), [])
  }

  function OnHeadersAlmostDone(h: Headers, p: Parser, ch: byte): (r: Result)
    requires LengthOk(p) && p.state.HeadersAlmostDone?
    ensures Sound(r.parser)
    ensures r.parser.handedOver ==> p.handedOver || r.parser.state.NewMessage? || r.parser.state.Dead?
    ensures !r.parser.state.ChunkDataAlmostDone? && !r.parser.state.ChunkData?
  {
    if ch != LF then Fail(p, Strict)
    else if h.chunked && h.hasContentLength then Fail(p, UnexpectedContentLength)
    else
      var up := if h.upgrade && h.connectionUpgrade then h.isRequest || h.status == 101 else h.isConnect;
      if !(0 <= h.answer <= 2) then
        Result(p.(state := HeadersDone, upgrade := up, errno := CbHeadersComplete), [HeadersComplete])
      else
        var d := OnHeadersDone(h, p.(upgrade := up || h.answer == 2, skipBody := p.skipBody || h.answer != 0));
        d.(outs := [HeadersComplete] + d.outs)
  }

  // ----- chunks

  function OnChunkSize(p: Parser, ch: byte): (r: Result)
    requires LengthOk(p) && p.state.ChunkSize?
    ensures Sound(r.parser)
  {
    if ch == CR then Result(p.(state := ChunkSizeAlmostDone), [])
    else if Unhex(ch) == -1 then
      if ch == SEMICOLON || ch == SPACE then Result(p.(state := ChunkParameters), [])
      else Fail(p, InvalidChunkSize)
    else if (ULLONG_MAX - 16) / 16 < p.contentLength then Fail(p, InvalidContentLength)
    else Result(p.(contentLength := p.contentLength * 16 + Unhex(ch)), [])
  }

  function OnChunkSizeAlmostDone(p: Parser, ch: byte): (r: Result)
    requires LengthOk(p) && p.state.ChunkSizeAlmostDone?
    ensures Sound(r.parser)
  {
    if ch != LF then Fail(p, Strict)
    else
      Result(p.(nread := 0, state := if p.contentLength == 0 then TrailerStart else ChunkData),
             [ChunkHeader(p.contentLength)])
  }

  function OnTrailerAlmostDone(h: Headers, p: Parser, ch: byte): (r: Result)
    requires LengthOk(p) && p.state.TrailerAlmostDone?
    ensures Sound(r.parser)
    ensures var s := r.parser.state;
            s.TrailerStart? || s.TrailerAlmostDone? || s.TrailerField? || s.NewMessage? || s.Dead?
  {
    if ch != LF then Fail(p, Strict)
    else
      var d := Finish(h, p);
      d.(outs := [ChunkComplete] + d.outs)
  }

  function OnTrailerStart(h: Headers, p: Parser, ch: byte): (r: Result)
    requires LengthOk(p) && p.state.TrailerStart?
    ensures Sound(r.parser)
    ensures var s := r.parser.state;
            s.TrailerStart? || s.TrailerAlmostDone? || s.TrailerField? || s.NewMessage? || s.Dead?
  {
    if ch == CR then Result(p.(state := TrailerAlmostDone), [])
    else if ch == LF then OnTrailerAlmostDone(h, p.(state := TrailerAlmostDone), ch)
    else if !Token(ch) then Fail(p, InvalidHeaderToken)
    else Result(p.(state := TrailerField), [])
  }

  // ----- one byte

  function Count(p: Parser): Parser {
    if !CountsAsHeader(p.state) then p
    else if p.nread + 1 > MAX_HEADER then p.(nread := p.nread + 1, errno := HeaderOverflow)
    else p.(nread := p.nread + 1)
  }

  function Dispatch(h: Headers, p: Parser, ch: byte): (r: Result)
    requires LengthOk(p) && !p.state.HeadersDone?
    ensures Sound(r.parser)
  {
    match p.state
    case HeadersAlmostDone => OnHeadersAlmostDone(h, p, ch)
    case ChunkSizeStart =>
      if Unhex(ch) == -1 then Fail(p, InvalidChunkSize)
      else Result(p.(contentLength := Unhex(ch), state := ChunkSize), [])
    case ChunkSize => OnChunkSize(p, ch)
    case ChunkParameters => if ch == CR then Result(p.(state := ChunkSizeAlmostDone), []) else Result(p, [])
    case ChunkSizeAlmostDone => OnChunkSizeAlmostDone(p, ch)
    case ChunkData =>
      var q := p.(contentLength := p.contentLength - 1);
      Result(if q.contentLength == 0 then q.(state := ChunkDataAlmostDone) else q, [BodyByte(ch)])
    case ChunkDataAlmostDone =>
      if ch != CR then Fail(p, Strict) else Result(p.(state := ChunkDataDone), [])
    case ChunkDataDone =>
      if ch != LF then Fail(p, Strict) else Result(p.(nread := 0, state := ChunkSizeStart), [ChunkComplete])
    case TrailerStart => OnTrailerStart(h, p, ch)
    case TrailerAlmostDone => OnTrailerAlmostDone(h, p, ch)
    case TrailerField => Result(p, [])
    case BodyIdentity =>
      var q := p.(contentLength := p.contentLength - 1);
      if q.contentLength > 0 then Result(q, [BodyByte(ch)])
      else
        var d := Finish(h, q);
        d.(outs := [BodyByte(ch)] + d.outs)
    case BodyEof => Result(p, [BodyByte(ch)])
    case NewMessage => Result(p, [])
    case Dead => if ch == CR || ch == LF then Result(p, []) else Fail(p, ClosedConnection)
  }

  /** Counting, then the transition; a stopped parser looks at nothing. */
  function Step(h: Headers, p: Parser, ch: byte): (r: Result)
    requires Sound(p)
    ensures Sound(r.parser)
  {
    if Stopped(p) then Result(p, [])
    else
      var q := Count(p);
      if Stopped(q) then Result(q, []) else Dispatch(h, q, ch)
  }

  function Feed(h: Headers, p: Parser, data: bytes): (r: Result)
    requires Sound(p)
    ensures Sound(r.parser)
    decreases |data|
  {
    if data == [] then Result(p, [])
    else
      var r1 := Step(h, p, data[0]);
      var r2 := Feed(h, r1.parser, data[1..]);
      Result(r2.parser, r1.outs + r2.outs)
  }

  lemma {:induction false} FeedAppend(h: Headers, p: Parser, a: bytes, b: bytes)
    requires Sound(p)
    ensures var x := Feed(h, p, a);
            var y := Feed(h, x.parser, b);
            Feed(h, p, a + b) == Result(y.parser, x.outs + y.outs)
    decreases |a|
  {
    hide Step, Sound;
    if a == [] {
      assert a + b == b;
    } else {
      var r := Step(h, p, a[0]);
      FeedAppend(h, r.parser, a[1..], b);
      assert (a + b)[1..] == a[1..] + b;
      var x := Feed(h, r.parser, a[1..]);
      var y := Feed(h, x.parser, b);
      assert r.outs + (x.outs + y.outs) == (r.outs + x.outs) + y.outs;
    }
  }

  lemma {:induction false} FeedStopped(h: Headers, p: Parser, data: bytes)
    requires Sound(p) && Stopped(p)
    ensures Feed(h, p, data) == Result(p, [])
    decreases |data|
  {
    hide Dispatch;
    if data != [] { FeedStopped(h, p, data[1..]); }
  }

  lemma FeedOne(h: Headers, p: Parser, ch: byte)
    requires Sound(p)
    ensures Feed(h, p, [ch]) == Step(h, p, ch)
  {
    var r := Step(h, p, ch);
    assert [ch][1..] == [] && Feed(h, r.parser, []) == Result(r.parser, []);
  }

  lemma FeedNone(h: Headers, p: Parser)
    requires Sound(p)
    ensures Feed(h, p, []) == Result(p, [])
  {
  }

  function BodyBytes(data: bytes): (r: seq<Out>)
    ensures |r| == |data|
  {
    seq(|data|, i requires 0 <= i < |data| => BodyByte(data[i]))
  }

  lemma BodyBytesAppend(a: bytes, b: bytes)
    ensures BodyBytes(a + b) == BodyBytes(a) + BodyBytes(b)
  {
  }

  predicate InBody(s: State) { s.ChunkData? || s.BodyIdentity? || s.BodyEof? }

  /** A run of body bytes that does not complete the length. */
  lemma {:induction false} FeedBody(h: Headers, p: Parser, data: bytes)
    requires Sound(p) && !Stopped(p) && InBody(p.state)
    requires p.state.BodyEof? || |data| < p.contentLength
    ensures Feed(h, p, data)
         == Result(if p.state.BodyEof? then p else p.(contentLength := p.contentLength - |data|), BodyBytes(data))
    decreases |data|
  {
    if data != [] {
      FeedBody(h, Step(h, p, data[0]).parser, data[1..]);
      assert BodyBytes(data) == [BodyByte(data[0])] + BodyBytes(data[1..]);
    }
  }

  /** A run of body bytes that completes it. */
  lemma FeedBodyToEnd(h: Headers, p: Parser, data: bytes)
    requires Sound(p) && !Stopped(p) && (p.state.ChunkData? || p.state.BodyIdentity?)
    requires |data| == p.contentLength
    ensures Feed(h, p, data)
         == (var q := p.(contentLength := 0);
             if p.state.ChunkData? then Result(q.(state := ChunkDataAlmostDone), BodyBytes(data))
             else Result(q.(state := NextMessage(h, q), handedOver := q.upgrade), BodyBytes(data) + [MessageComplete]))
  {
    hide Feed;
    var n := |data| - 1;
    var q := p.(contentLength := 1);
    FeedBody(h, p, data[..n]);
    assert data == data[..n] + [data[n]];
    FeedAppend(h, p, data[..n], [data[n]]);
    FeedOne(h, q, data[n]);
    BodyBytesAppend(data[..n], [data[n]]);
    assert BodyBytes([data[n]]) == [BodyByte(data[n])];
  }

  // ----- one call

  /** How many bytes one call takes: the byte in error is left, the one that ends the message is not. */
  function Consumed(h: Headers, p: Parser, data: bytes): (n: nat)
    requires Sound(p)
    ensures n <= |data|
    decreases |data|
  {
    if data == [] || Stopped(p) then 0
    else
      var q := Step(h, p, data[0]).parser;
      if !q.errno.NoError? then 0 else 1 + Consumed(h, q, data[1..])
  }

  lemma {:induction false} ConsumedAppend(h: Headers, p: Parser, a: bytes, b: bytes)
    requires Sound(p) && Feed(h, p, a).parser.errno.NoError?
    requires a != [] ==> !Stopped(Feed(h, p, a[..|a| - 1]).parser)
    ensures Consumed(h, p, a + b) == |a| + Consumed(h, Feed(h, p, a).parser, b)
    decreases |a|
  {
    hide Step, Sound;
    if a == [] {
      assert a + b == b;
    } else {
      var q := Step(h, p, a[0]).parser;
      assert (a + b)[1..] == a[1..] + b;
      if Stopped(p) { FeedStopped(h, p, a[..|a| - 1]); }
      if !q.errno.NoError? { FeedStopped(h, q, a[1..]); }
      if |a| > 1 {
        assert a[..|a| - 1][1..] == a[1..][..|a| - 2];
      }
      ConsumedAppend(h, q, a[1..], b);
    }
  }

  /** A call without bytes tells the parser that the stream has ended. */
  function EndOfStream(p: Parser): Result {
    if !p.errno.NoError? then Result(p, [])
    else if p.state.BodyEof? then Result(p, [MessageComplete])
    else if p.state.Dead? || p.state.NewMessage? then Result(p, [])
    else Fail(p, InvalidEofState)
  }

  predicate IsBody(o: Out) { o.BodyByte? }

  function TrailingBody(outs: seq<Out>): (n: nat)
    ensures n <= |outs|
  {
    if outs == [] || !IsBody(outs[|outs| - 1]) then 0 else 1 + TrailingBody(outs[..|outs| - 1])
  }

  /** The end of a chunk's data was not where its size said. */
  predicate Broken(p: Parser) { p.errno.Strict? && p.state.ChunkDataAlmostDone? }

  /** One call of `http_parser_execute` on a non-empty piece. The body bytes of a piece are
      reported when their run ends; on a broken chunk the run never is. */
  function Call(h: Headers, p: Parser, data: bytes): Result
    requires Sound(p)
  {
    var r := Feed(h, p, data);
    if !Stopped(p) && Broken(r.parser) then r.(outs := r.outs[..|r.outs| - TrailingBody(r.outs)]) else r
  }

  function Calls(h: Headers, p: Parser, pieces: seq<bytes>): Result
    requires Sound(p)
    decreases |pieces|
  {
    if pieces == [] then Result(p, [])
    else
      var r1 := Call(h, p, pieces[0]);
      var r2 := Calls(h, r1.parser, pieces[1..]);
      Result(r2.parser, r1.outs + r2.outs)
  }

  function Concat(pieces: seq<bytes>): bytes {
    if pieces == [] then [] else pieces[0] + Concat(pieces[1..])
  }

  lemma TrailingAppend(a: seq<Out>, b: seq<Out>)
    requires forall o <- b :: IsBody(o)
    ensures TrailingBody(a + b) == TrailingBody(a) + |b|
    decreases |b|
  {
    if b == [] {
      assert a + b == a;
    } else {
      var n := |b| - 1;
      TrailingAppend(a, b[..n]);
      assert (a + b)[..|a + b| - 1] == a + b[..n];
    }
  }
}
