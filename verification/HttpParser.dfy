/** `http_parser_execute` from the end of the headers on: a loop over the bytes of one call that
    updates the parser and marks where the body bytes not yet reported begin. */
module HttpParser {
  import opened Words
  import opened HttpBody

  /** A callback as it is made: body bytes in runs. */
  datatype Event = OnBody(data: bytes) | Notify(out: Out)

  function Flat(events: seq<Event>): seq<Out> {
    if events == [] then []
    else Flat(events[..|events| - 1]) + FlatOne(events[|events| - 1])
  }

  function FlatOne(e: Event): seq<Out> { if e.OnBody? then BodyBytes(e.data) else [e.out] }

  lemma FlatSnoc(events: seq<Event>, e: Event)
    ensures Flat(events + [e]) == Flat(events) + FlatOne(e)
  {
    assert (events + [e])[..|events|] == events;
  }

  /** States in which a run of body bytes may be open. */
  predicate Open(s: State) { InBody(s) || s.ChunkDataAlmostDone? }

  /** Body bytes of this call that no callback has seen yet. */
  ghost function Pending(s: State, outs: seq<Out>): (n: nat)
    ensures n <= |outs|
  {
    if Open(s) then TrailingBody(outs) else 0
  }

  function Marked(data: bytes, mark: int, p: nat): seq<Out>
    requires mark <= p <= |data|
  {
    if mark < 0 then [] else BodyBytes(data[mark..p])
  }

  /** Feeding the bytes from `p` to `p'` after those before `p`. */
  lemma Extend(h: Headers, p0: Parser, data: bytes, p: nat, p': nat)
    requires Sound(p0) && p < p' <= |data|
    ensures var r := Feed(h, p0, data[..p]);
            var f := Feed(h, r.parser, data[p..p']);
            && Feed(h, p0, data[..p']) == Result(f.parser, r.outs + f.outs)
            && (f.parser.errno.NoError? && !Stopped(Feed(h, r.parser, data[p..p' - 1]).parser) ==>
                  Consumed(h, r.parser, data[p..]) == p' - p + Consumed(h, f.parser, data[p'..]))
  {
    hide Feed, Consumed, Sound;
    var q := Feed(h, p0, data[..p]).parser;
    FeedAppend(h, p0, data[..p], data[p..p']);
    assert data[..p] + data[p..p'] == data[..p'];
    var run := data[p..p'];
    if Feed(h, q, run).parser.errno.NoError? && !Stopped(Feed(h, q, data[p..p' - 1]).parser) {
      assert run[..|run| - 1] == data[p..p' - 1];
      ConsumedAppend(h, q, run, data[p'..]);
      assert run + data[p'..] == data[p..];
    }
  }

  lemma RunGrows(flat: seq<Out>, e0: seq<Out>, outs: seq<Out>, data: bytes, mark: int, p: nat, p': nat)
    requires -1 <= mark <= p < p' <= |data|
    requires flat + Marked(data, mark, p) == e0 + outs
    ensures flat + Marked(data, if mark < 0 then p else mark, p') == e0 + (outs + BodyBytes(data[p..p']))
  {
    var m := if mark < 0 then p else mark;
    assert data[m..p'] == data[m..p] + data[p..p'];
    BodyBytesAppend(data[m..p], data[p..p']);
    var x, y := Marked(data, mark, p), BodyBytes(data[p..p']);
    assert Marked(data, m, p') == x + y;
    assert flat + (x + y) == (flat + x) + y;
    assert (e0 + outs) + y == e0 + (outs + y);
  }

  /** The first `p` bytes are taken; what they make the callbacks see has been told, but for
      the open run of body bytes from the mark on. */
  ghost predicate Taken(h: Headers, v: Parser, flat: seq<Out>, p0: Parser, e0: seq<Out>, data: bytes, p: int, mark: int)
  {
    && Sound(p0) && Sound(v) && -1 <= mark <= p && 0 <= p <= |data|
    && (mark >= 0 ==> Open(v.state)) && (v.handedOver ==> !Open(v.state))
    && var r := Feed(h, p0, data[..p]);
    && v == r.parser
    && Pending(v.state, r.outs) == (if mark < 0 then 0 else p - mark)
    && flat + Marked(data, mark, p) == e0 + r.outs
    && (v.errno.NoError? ==> Consumed(h, p0, data) == p + Consumed(h, v, data[p..]))
  }

  lemma TakenBounds(h: Headers, v: Parser, flat: seq<Out>, p0: Parser, e0: seq<Out>, data: bytes, p: int, mark: int)
    requires Taken(h, v, flat, p0, e0, data, p, mark)
    ensures Sound(v) && -1 <= mark <= p <= |data|
  {
  }

  function Mark(mark: int, p: nat): int { if mark < 0 then p else mark }

  lemma Begun(h: Headers, p0: Parser, e0: seq<Out>, data: bytes)
    requires Sound(p0) && !Stopped(p0)
    ensures Taken(h, p0, e0, p0, e0, data, 0, -1)
  {
    assert data[..0] == [] && data[0..] == data;
  }

  lemma StoppedCall(h: Headers, p: Parser, data: bytes)
    requires Sound(p) && Stopped(p)
    ensures Call(h, p, data) == Result(p, []) && Consumed(h, p, data) == 0
  {
    FeedStopped(h, p, data);
  }

  /** A run of body bytes that leaves the body open. */
  lemma BodyStays(h: Headers, v: Parser, flat: seq<Out>, p0: Parser, e0: seq<Out>, data: bytes, p: nat, mark: int,
                  p': nat)
    requires Taken(h, v, flat, p0, e0, data, p, mark) && !Stopped(v) && InBody(v.state) && p < p' <= |data|
    requires v.state.BodyEof? || p' - p < v.contentLength
    ensures Taken(h, if v.state.BodyEof? then v else v.(contentLength := v.contentLength - (p' - p)), flat,
                  p0, e0, data, p', Mark(mark, p))
  {
    hide Feed, Consumed, TrailingBody;
    var outs := Feed(h, p0, data[..p]).outs;
    FeedBody(h, v, data[p..p']);
    FeedBody(h, v, data[p..p' - 1]);
    Extend(h, p0, data, p, p');
    RunGrows(flat, e0, outs, data, mark, p, p');
    TrailingAppend(outs, BodyBytes(data[p..p']));
  }

  /** One that completes a chunk's data: still unreported. */
  lemma ChunkFills(h: Headers, v: Parser, flat: seq<Out>, p0: Parser, e0: seq<Out>, data: bytes, p: nat, mark: int,
                   p': nat)
    requires Taken(h, v, flat, p0, e0, data, p, mark) && !Stopped(v) && v.state.ChunkData? && p < p' <= |data|
    requires p' - p == v.contentLength
    ensures Taken(h, v.(contentLength := 0, state := ChunkDataAlmostDone), flat, p0, e0, data, p', Mark(mark, p))
  {
    hide Feed, Consumed, TrailingBody;
    var outs := Feed(h, p0, data[..p]).outs;
    FeedBodyToEnd(h, v, data[p..p']);
    FeedBody(h, v, data[p..p' - 1]);
    Extend(h, p0, data, p, p');
    RunGrows(flat, e0, outs, data, mark, p, p');
    TrailingAppend(outs, BodyBytes(data[p..p']));
  }

  /** One that completes the body: reported, and the message with it. */
  lemma BodyEnds(h: Headers, v: Parser, flat: seq<Out>, p0: Parser, e0: seq<Out>, data: bytes, p: nat, mark: int,
                 p': nat)
    requires Taken(h, v, flat, p0, e0, data, p, mark) && !Stopped(v) && v.state.BodyIdentity? && p < p' <= |data|
    requires p' - p == v.contentLength
    ensures Taken(h, Finish(h, v.(contentLength := 0)).parser,
                  flat + BodyBytes(data[Mark(mark, p)..p']) + [MessageComplete], p0, e0, data, p', -1)
  {
    hide Feed, Consumed, TrailingBody;
    var outs := Feed(h, p0, data[..p]).outs;
    FeedBodyToEnd(h, v, data[p..p']);
    FeedBody(h, v, data[p..p' - 1]);
    Extend(h, p0, data, p, p');
    RunGrows(flat, e0, outs, data, mark, p, p');
    var y := BodyBytes(data[p..p']);
    assert e0 + (outs + y) + [MessageComplete] == e0 + (outs + (y + [MessageComplete]));
  }

  /** The CR after a chunk's data closes the run. */
  lemma RunCloses(h: Headers, v: Parser, flat: seq<Out>, p0: Parser, e0: seq<Out>, data: bytes, p: nat, mark: int)
    requires Taken(h, v, flat, p0, e0, data, p, mark) && !Stopped(v) && p < |data|
    requires v.state.ChunkDataAlmostDone? && data[p] == CR
    ensures Taken(h, v.(state := ChunkDataDone), flat + Marked(data, mark, p), p0, e0, data, p + 1, -1)
  {
    hide Feed, Consumed, TrailingBody;
    var outs := Feed(h, p0, data[..p]).outs;
    assert data[p..p + 1] == [data[p]] && data[p..p] == [];
    FeedOne(h, v, data[p]);
    assert Feed(h, v, []) == Result(v, []) by { FeedNone(h, v); }
    Extend(h, p0, data, p, p + 1);
  }

  /** From a state without body bytes to one with them there is a callback on the way. */
  lemma OpensAfterNotice(h: Headers, v: Parser, ch: byte)
    requires Sound(v) && !Stopped(v) && !Open(v.state) && Open(Step(h, v, ch).parser.state)
    ensures !Stopped(Step(h, v, ch).parser)
    ensures var outs := Step(h, v, ch).outs; outs != [] && !IsBody(outs[|outs| - 1])
  {
    hide OnHeadersAlmostDone, OnTrailerStart, OnTrailerAlmostDone, Finish;
    var q := Count(v);
    if v.state.HeadersAlmostDone? {
      HeadersOpen(h, q, ch);
    }
  }

  lemma HeadersOpen(h: Headers, p: Parser, ch: byte)
    requires LengthOk(p) && p.state.HeadersAlmostDone? && !Stopped(p)
    ensures var r := OnHeadersAlmostDone(h, p, ch);
            Open(r.parser.state) ==> !Stopped(r.parser) && r.outs == [HeadersComplete]
  {
  }

  lemma HandedOverIsClosed(h: Headers, v: Parser, ch: byte)
    requires Sound(v) && !Stopped(v) && !Open(v.state)
    ensures !Broken(Step(h, v, ch).parser)
    ensures Step(h, v, ch).parser.handedOver ==> !Open(Step(h, v, ch).parser.state)
  {
    hide OnHeadersAlmostDone, OnTrailerStart, OnTrailerAlmostDone, Finish;
  }

  /** A byte in a state without body bytes. */
  lemma ByteTaken(h: Headers, v: Parser, flat: seq<Out>, p0: Parser, e0: seq<Out>, data: bytes, p: nat, mark: int)
    requires Taken(h, v, flat, p0, e0, data, p, mark) && !Stopped(v) && p < |data| && !Open(v.state)
    ensures mark == -1
    ensures var r := Step(h, v, data[p]); Taken(h, r.parser, flat + r.outs, p0, e0, data, p + 1, -1)
    ensures var r := Step(h, v, data[p]); !r.parser.errno.NoError? ==> Consumed(h, p0, data) == p
  {
    hide Feed, Step;
    var r := Step(h, v, data[p]);
    var outs := Feed(h, p0, data[..p]).outs;
    assert data[p..p + 1] == [data[p]] && data[p..p] == [];
    FeedOne(h, v, data[p]);
    FeedNone(h, v);
    Extend(h, p0, data, p, p + 1);
    HandedOverIsClosed(h, v, data[p]);
    if Open(r.parser.state) {
      OpensAfterNotice(h, v, data[p]);
      var all := outs + r.outs;
      assert all[|all| - 1] == r.outs[|r.outs| - 1];
    }
    assert (e0 + outs) + r.outs == e0 + (outs + r.outs);
  }

  /** A parser that has stopped, or has seen everything, makes no more callbacks. */
  lemma Settled(h: Headers, v: Parser, flat: seq<Out>, p0: Parser, e0: seq<Out>, data: bytes, p: nat, mark: int)
    requires Taken(h, v, flat, p0, e0, data, p, mark) && (p == |data| || Stopped(v)) && !Broken(v)
    ensures v == Call(h, p0, data).parser && flat + Marked(data, mark, p) == e0 + Call(h, p0, data).outs
    ensures v.errno.NoError? ==> Consumed(h, p0, data) == p
  {
    hide Feed, Step;
    assert data == data[..p] + data[p..];
    FeedAppend(h, p0, data[..p], data[p..]);
    if p == |data| {
      assert data[p..] == [];
      FeedNone(h, v);
    } else {
      FeedStopped(h, v, data[p..]);
    }
  }

  lemma BreakStep(h: Headers, v: Parser, ch: byte)
    requires Sound(v) && !Stopped(v) && v.state.ChunkDataAlmostDone? && ch != CR
    ensures Step(h, v, ch) == Result(v.(errno := Strict), []) && Sound(v.(errno := Strict))
  {
  }

  /** A chunk that does not end where it should: its bytes of this call are never reported. */
  lemma ChunkBreaks(h: Headers, v: Parser, flat: seq<Out>, p0: Parser, e0: seq<Out>, data: bytes, p: nat, mark: int)
    requires Taken(h, v, flat, p0, e0, data, p, mark) && !Stopped(v) && !Stopped(p0) && p < |data|
    requires v.state.ChunkDataAlmostDone? && data[p] != CR
    ensures Call(h, p0, data).parser == v.(errno := Strict)
    ensures flat == e0 + Call(h, p0, data).outs && Consumed(h, p0, data) == p
  {
    hide Feed, Step, Sound;
    BreakStep(h, v, data[p]);
    var outs := Feed(h, p0, data[..p]).outs;
    var w := v.(errno := Strict);
    assert data == data[..p] + data[p..] && data[p..] == [data[p]] + data[p + 1..];
    FeedAppend(h, p0, data[..p], data[p..]);
    FeedAppend(h, v, [data[p]], data[p + 1..]);
    FeedOne(h, v, data[p]);
    FeedStopped(h, w, data[p + 1..]);
    assert Feed(h, p0, data) == Result(w, outs + []);
    assert outs + [] == outs;
    var k := |outs| - TrailingBody(outs);
    assert (e0 + outs)[..|e0| + k] == e0 + outs[..k];
    assert (flat + Marked(data, mark, p))[..|flat|] == flat;
  }

  class Engine {
    const headers: Headers
    var state: State
    var contentLength: nat
    var nread: nat
    var skipBody: bool
    var upgrade: bool
    var errno: Errno
    var handedOver: bool
    var events: seq<Event>

    ghost function View(): Parser
      reads this
    {
      Parser(state, contentLength, nread, skipBody, upgrade, errno, handedOver)
    }

    ghost predicate Valid()
      reads this
    {
      Sound(View())
    }

    /** A parser that has read the headers up to the line feed that ends them. */
    constructor (h: Headers, length: nat, read: nat)
      requires length <= ULLONG_MAX
      ensures Valid() && headers == h && events == []
      ensures View() == Parser(HeadersAlmostDone, length, read, false, false, NoError, false)
    {
      headers := h;
      state, contentLength, nread := HeadersAlmostDone, length, read;
      skipBody, upgrade, errno, handedOver := false, false, NoError, false;
      events := [];
    }

    method Tell(o: Out)
      modifies this`events
      ensures events == old(events) + [Notify(o)]
      ensures Flat(events) == Flat(old(events)) + [o]
    {
      FlatSnoc(events, Notify(o));
      events := events + [Notify(o)];
    }

    method TellBody(data: bytes)
      modifies this`events
      ensures events == old(events) + [OnBody(data)]
      ensures Flat(events) == Flat(old(events)) + BodyBytes(data)
    {
      FlatSnoc(events, OnBody(data));
      events := events + [OnBody(data)];
    }

    /** `s_message_done`. */
    method MessageDone()
      requires contentLength <= ULLONG_MAX
      modifies this`state, this`handedOver, this`events
      ensures View() == Finish(headers, old(View())).parser
      ensures Flat(events) == Flat(old(events)) + [MessageComplete]
    {
      state := NextMessage(headers, Parser(state, contentLength, nread, skipBody, upgrade, errno, handedOver));
      Tell(MessageComplete);
      handedOver := upgrade;
    }

    /** `s_headers_done`. */
    method AfterHeaders()
      requires LengthOk(View())
      modifies this`state, this`nread, this`handedOver, this`events
      ensures View() == OnHeadersDone(headers, old(View())).parser
      ensures Flat(events) == Flat(old(events)) + OnHeadersDone(headers, old(View())).outs
    {
      nread := 0;
      var hasBody := headers.chunked || 0 < contentLength < ULLONG_MAX;
      var p := Parser(state, contentLength, nread, skipBody, upgrade, errno, handedOver);
      if upgrade && (headers.isConnect || skipBody || !hasBody) {
        MessageDone();
      } else if skipBody {
        state := NextMessage(headers, p);
        Tell(MessageComplete);
      } else if headers.chunked {
        state := ChunkSizeStart;
      } else if contentLength == 0 {
        state := NextMessage(headers, p);
        Tell(MessageComplete);
      } else if contentLength != ULLONG_MAX {
        state := BodyIdentity;
      } else if !NeedsEof(headers, p) {
        state := NextMessage(headers, p);
        Tell(MessageComplete);
      } else {
        state := BodyEof;
      }
    }

    /** `s_headers_almost_done` outside the trailers. */
    method EndHeaders(ch: byte)
      requires LengthOk(View()) && state.HeadersAlmostDone?
      modifies this
      ensures View() == OnHeadersAlmostDone(headers, old(View()), ch).parser
      ensures Flat(events) == Flat(old(events)) + OnHeadersAlmostDone(headers, old(View()), ch).outs
    {
      hide Flat, OnHeadersDone;
      if ch != LF {
        errno := Strict;
      } else if headers.chunked && headers.hasContentLength {
        errno := UnexpectedContentLength;
      } else {
        ghost var was := events;
        upgrade :=
          if headers.upgrade && headers.connectionUpgrade then headers.isRequest || headers.status == 101
          else headers.isConnect;
        Tell(HeadersComplete);
        if headers.answer == 0 {
        } else if headers.answer == 1 {
          skipBody := true;
        } else if headers.answer == 2 {
          upgrade := true;
          skipBody := true;
        } else {
          state := HeadersDone;
          errno := CbHeadersComplete;
          return;
        }
        AfterHeaders();
      }
    }

    /** `s_headers_almost_done` in the trailers. */
    method EndTrailers(ch: byte)
      requires LengthOk(View()) && state.TrailerAlmostDone?
      modifies this
      ensures View() == OnTrailerAlmostDone(headers, old(View()), ch).parser
      ensures Flat(events) == Flat(old(events)) + OnTrailerAlmostDone(headers, old(View()), ch).outs
    {
      if ch != LF {
        errno := Strict;
      } else {
        Tell(ChunkComplete);
        MessageDone();
      }
    }

    /** The transitions of one byte in the states that hold no body bytes. */
    method OneByte(ch: byte)
      requires LengthOk(View()) && !state.HeadersDone? && !Open(state)
      modifies this
      ensures View() == Dispatch(headers, old(View()), ch).parser
      ensures Flat(events) == Flat(old(events)) + Dispatch(headers, old(View()), ch).outs
    {
      hide Flat, Finish, OnHeadersAlmostDone, OnTrailerAlmostDone;
      match state {
        case HeadersAlmostDone =>
          EndHeaders(ch);
        case ChunkSizeStart =>
          if Unhex(ch) == -1 {
            errno := InvalidChunkSize;
          } else {
            contentLength := Unhex(ch);
            state := ChunkSize;
          }
        case ChunkSize =>
          if ch == CR {
            state := ChunkSizeAlmostDone;
          } else if Unhex(ch) == -1 {
            if ch == SEMICOLON || ch == SPACE { state := ChunkParameters; } else { errno := InvalidChunkSize; }
          } else if (ULLONG_MAX - 16) / 16 < contentLength {
            errno := InvalidContentLength;
          } else {
            contentLength := contentLength * 16 + Unhex(ch);
          }
        case ChunkParameters =>
          if ch == CR { state := ChunkSizeAlmostDone; }
        case ChunkSizeAlmostDone =>
          if ch != LF {
            errno := Strict;
          } else {
            nread := 0;
            state := if contentLength == 0 then TrailerStart else ChunkData;
            Tell(ChunkHeader(contentLength));
          }
        case ChunkDataDone =>
          if ch != LF {
            errno := Strict;
          } else {
            nread := 0;
            state := ChunkSizeStart;
            Tell(ChunkComplete);
          }
        case TrailerStart =>
          if ch == CR {
            state := TrailerAlmostDone;
          } else if ch == LF {
            state := TrailerAlmostDone;
            EndTrailers(ch);
          } else if !Token(ch) {
            errno := InvalidHeaderToken;
          } else {
            state := TrailerField;
          }
        case TrailerAlmostDone =>
          EndTrailers(ch);
        case TrailerField =>
        case NewMessage =>
        case Dead =>
          if ch != CR && ch != LF { errno := ClosedConnection; }
      }
    }

    method CountHeader()
      modifies this`nread, this`errno
      ensures View() == Count(old(View()))
    {
      if CountsAsHeader(state) {
        nread := nread + 1;
        if nread > MAX_HEADER { errno := HeaderOverflow; }
      }
    }

    method StepByte(ch: byte)
      requires Valid() && !Stopped(View()) && !Open(state)
      modifies this
      ensures View() == Step(headers, old(View()), ch).parser
      ensures Flat(events) == Flat(old(events)) + Step(headers, old(View()), ch).outs
    {
      hide Flat, Dispatch;
      CountHeader();
      if errno.NoError? { OneByte(ch); }
    }

    /** The end of the stream. */
    method Close() returns (n: nat)
      requires Valid()
      modifies this
      ensures Valid() && View() == EndOfStream(old(View())).parser
      ensures Flat(events) == Flat(old(events)) + EndOfStream(old(View())).outs
      ensures n == if errno == old(errno) then 0 else 1
    {
      if !errno.NoError? { return 0; }
      if state.BodyEof? {
        Tell(MessageComplete);
        return 0;
      }
      if state.Dead? || state.NewMessage? { return 0; }
      errno := InvalidEofState;
      return 1;
    }

    method CompleteBody(run: bytes)
      requires contentLength <= ULLONG_MAX
      modifies this
      ensures View() == Finish(headers, old(View())).parser
      ensures Flat(events) == Flat(old(events)) + BodyBytes(run) + [MessageComplete]
    {
      hide Flat, Finish;
      TellBody(run);
      MessageDone();
    }

    /** A run of body bytes: to the end of the piece or of the announced length. */
    method TakeBody(data: bytes, p: nat, mark: int, ghost p0: Parser, ghost e0: seq<Out>) returns (p': nat, mark': int)
      requires Taken(headers, View(), Flat(events), p0, e0, data, p, mark)
      requires p < |data| && !Stopped(View()) && InBody(state)
      modifies this
      ensures p' > p && errno.NoError?
      ensures Taken(headers, View(), Flat(events), p0, e0, data, p', mark')
    {
      ghost var v, flat := View(), Flat(events);
      assert -1 <= mark <= p && contentLength <= ULLONG_MAX;
      assert !state.BodyEof? ==> contentLength > 0;
      hide Taken, Flat, Finish, Sound, LengthOk, BodyBytes, Marked, Feed, Open, NextMessage;
      mark' := if mark < 0 then p else mark;
      if state.BodyEof? {
        p' := |data|;
        BodyStays(headers, v, flat, p0, e0, data, p, mark, p');
      } else {
        var toRead := Min(contentLength, |data| - p);
        contentLength := contentLength - toRead;
        p' := p + toRead;
        if contentLength == 0 {
          if state.ChunkData? {
            state := ChunkDataAlmostDone;
            ChunkFills(headers, v, flat, p0, e0, data, p, mark, p');
          } else {
            BodyEnds(headers, v, flat, p0, e0, data, p, mark, p');
            CompleteBody(data[mark'..p']);
            mark' := -1;
          }
        } else {
          BodyStays(headers, v, flat, p0, e0, data, p, mark, p');
        }
      }
    }

    /** All that the call tells has been told, and it returns `p`. */
    ghost predicate Over(p0: Parser, e0: seq<Out>, data: bytes, p: nat)
      requires Sound(p0)
      reads this
    {
      View() == Call(headers, p0, data).parser && Flat(events) == e0 + Call(headers, p0, data).outs
      && Consumed(headers, p0, data) == p
    }

    /** The byte after a chunk's data. */
    method TakeChunkEnd(data: bytes, p: nat, mark: int, ghost p0: Parser, ghost e0: seq<Out>) returns (ok: bool)
      requires Taken(headers, View(), Flat(events), p0, e0, data, p, mark)
      requires Sound(p0) && !Stopped(p0) && p < |data| && !Stopped(View()) && state.ChunkDataAlmostDone?
      modifies this
      ensures ok ==> errno.NoError? && Valid() && Taken(headers, View(), Flat(events), p0, e0, data, p + 1, -1)
      ensures !ok ==> Valid() && Over(p0, e0, data, p)
    {
      ghost var v, flat := View(), Flat(events);
      assert -1 <= mark <= p && Sound(v);
      hide Taken, Flat, Call, Consumed;
      if data[p] != CR {
        ChunkBreaks(headers, v, flat, p0, e0, data, p, mark);
        errno := Strict;
        return false;
      }
      RunCloses(headers, v, flat, p0, e0, data, p, mark);
      state := ChunkDataDone;
      if mark >= 0 { TellBody(data[mark..p]); }
      return true;
    }

    /** A byte outside the body's data. */
    method TakeByte(data: bytes, p: nat, mark: int, ghost p0: Parser, ghost e0: seq<Out>) returns (ok: bool)
      requires Taken(headers, View(), Flat(events), p0, e0, data, p, mark)
      requires Sound(p0) && !Stopped(p0) && p < |data| && !Stopped(View()) && !Open(state)
      modifies this
      ensures mark == -1
      ensures ok ==> errno.NoError? && Valid() && Taken(headers, View(), Flat(events), p0, e0, data, p + 1, -1)
      ensures !ok ==> Valid() && Over(p0, e0, data, p)
    {
      ghost var v, flat := View(), Flat(events);
      HandedOverIsClosed(headers, v, data[p]);
      ByteTaken(headers, v, flat, p0, e0, data, p, mark);
      hide Taken, Flat, Call, Consumed, Step;
      StepByte(data[p]);
      ok := errno.NoError?;
      if !ok { Settled(headers, View(), Flat(events), p0, e0, data, p + 1, -1); }
    }

    /** The mark left over at the end of the piece. */
    method Flush(data: bytes, p: nat, mark: int, ghost p0: Parser, ghost e0: seq<Out>)
      requires Taken(headers, View(), Flat(events), p0, e0, data, p, mark) && Sound(p0)
      requires errno.NoError? && (p == |data| || Stopped(View()))
      modifies this`events
      ensures Over(p0, e0, data, p)
    {
      assert -1 <= mark <= p <= |data|;
      Settled(headers, View(), Flat(events), p0, e0, data, p, mark);
      hide Taken, Flat, Call, Consumed;
      if mark >= 0 { TellBody(data[mark..p]); }
    }

    /** One call on a piece of the stream. */
    method Execute(data: bytes) returns (n: nat)
      requires Valid() && data != []
      modifies this
      ensures Valid()
      ensures View() == Call(headers, old(View()), data).parser
      ensures Flat(events) == Flat(old(events)) + Call(headers, old(View()), data).outs
      ensures n == Consumed(headers, old(View()), data)
    {
      hide Taken, Flat, Call, Consumed, Sound, Feed, Marked, BodyBytes, InBody;
      ghost var p0, e0 := View(), Flat(events);
      if !errno.NoError? || handedOver || state.NewMessage? || state.TrailerField? {
        StoppedCall(headers, p0, data);
        return 0;
      }
      Begun(headers, p0, e0, data);
      var p: nat, bodyMark: int := 0, -1;
      while p < |data| && !handedOver && !state.NewMessage? && !state.TrailerField?
        invariant -1 <= bodyMark <= p <= |data| && Valid() && errno.NoError?
        invariant Taken(headers, View(), Flat(events), p0, e0, data, p, bodyMark)
        decreases |data| - p
      {
        if InBody(state) {
          p, bodyMark := TakeBody(data, p, bodyMark, p0, e0);
          TakenBounds(headers, View(), Flat(events), p0, e0, data, p, bodyMark);
        } else {
          var ok;
          if state.ChunkDataAlmostDone? {
            ok := TakeChunkEnd(data, p, bodyMark, p0, e0);
          } else {
            ok := TakeByte(data, p, bodyMark, p0, e0);
          }
          if !ok { return p; }
          p, bodyMark := p + 1, -1;
        }
      }
      Flush(data, p, bodyMark, p0, e0);
      return p;
    }
  }
}
