/** Length-prefixed frames over a byte stream that arrives in arbitrary pieces. */
module Framing {
  import opened Words
  import W = KcpWire

  /** The four-byte header, least significant first, and the payload. */
  function Frame(p: bytes): bytes
    requires |p| < TWO31
  {
    W.Encode32(|p|) + p
  }

  /** The length field as the signed 32-bit number the code computes. */
  function Length(b: bytes): int
    requires |b| >= 4
  {
    var u := W.Decode32(b[..4]);
    if u < TWO31 then u else u - TWO32
  }

  /** Payloads handed over, what is left unread, and the code the scan stops with. */
  datatype Scanned = Scanned(packs: seq<bytes>, rest: bytes, code: int)

  /** `handle` is what the handler answers to each payload; anything but zero stops the scan. */
  function Scan(b: bytes, handle: bytes -> int): (s: Scanned)
    decreases |b|
  {
    if |b| < 4 then Scanned([], b, 0)
    else if Length(b) <= 0 then Scanned([], b, -1)
    else if 4 + Length(b) > |b| then Scanned([], b, 0)
    else
      var p := b[4..4 + Length(b)];
      if handle(p) != 0 then Scanned([p], b, handle(p))
      else
        var s := Scan(b[4 + Length(b)..], handle);
        Scanned([p] + s.packs, s.rest, s.code)
  }

  /** A connection: the kept bytes, every payload handed over so far, and whether it is open. */
  datatype Peer = Peer(buf: bytes, handled: seq<bytes>, open: bool)

  /** One read. A negative code closes the connection; any non-zero code keeps all the bytes. A
      read without bytes is passed over. */
  function OnRead(q: Peer, chunk: bytes, handle: bytes -> int): Peer {
    if !q.open || chunk == [] then q
    else
      var b := q.buf + chunk;
      var s := Scan(b, handle);
      Peer(if s.code == 0 then s.rest else b, q.handled + s.packs, s.code >= 0)
  }

  function OnReads(q: Peer, chunks: seq<bytes>, handle: bytes -> int): Peer {
    if chunks == [] then q else OnRead(OnReads(q, chunks[..|chunks| - 1], handle), chunks[|chunks| - 1], handle)
  }

  function New(): Peer { Peer([], [], true) }

  function Concat(chunks: seq<bytes>): bytes {
    if chunks == [] then [] else Concat(chunks[..|chunks| - 1]) + chunks[|chunks| - 1]
  }

  // ----- the loop, in place

  class TcpPeer {
    var buf: bytes
    var open: bool
    var handled: seq<bytes>  // the payloads passed to HandlePack, in order
    const handle: bytes -> int

    ghost function Model(): Peer reads this { Peer(buf, handled, open) }

    constructor (handle: bytes -> int)
      ensures Model() == New() && this.handle == handle
    {
      buf, open, handled := [], true, [];
      this.handle := handle;
    }

    method Unpack(chunk: bytes) returns (code: int)
      modifies this`buf, this`handled
      ensures var b := old(buf) + chunk;
              var s := Scan(b, handle);
              code == s.code && handled == old(handled) + s.packs && buf == if code == 0 then s.rest else b
    {
      hide Scan, Length, W.Decode32;
      buf := buf + chunk;
      ghost var b := buf;
      ghost var packs: seq<bytes> := [];
      var offset := 0;
      Prefixed([], Scan(b, handle));
      assert b[0..] == b;
      while offset + 4 <= |buf|
        invariant 0 <= offset <= |buf| && buf == b && handled == old(handled) + packs
        invariant Scan(b, handle) == Prefix(packs, Scan(b[offset..], handle))
        decreases |buf| - offset
      {
        ghost var here := b[offset..];
        assert buf[offset..offset + 4] == here[..4];
        var u := W.Decode32(buf[offset..offset + 4]);
        var len := if u < TWO31 then u else u - TWO32;
        LengthIs(here, len);
        ScanStep(here, handle);
        if len <= 0 { return -1; }
        if offset + 4 + len > |buf| { break; }
        Slices(b, offset, len);
        offset := offset + 4;
        var p := buf[offset..offset + len];
        handled := handled + [p];
        var r := handle(p);
        if r != 0 { return r; }
        PrefixMore(packs, p, Scan(b[offset + len..], handle));
        packs := packs + [p];
        offset := offset + len;
      }
      ScanStep(b[offset..], handle);
      buf := buf[offset..];
      return 0;
    }

    method Read(chunk: bytes)
      modifies this
      ensures Model() == OnRead(old(Model()), chunk, handle)
    {
      hide Scan;
      if open && chunk != [] {
        var code := Unpack(chunk);
        if code < 0 { open := false; }
      }
    }
  }

  /** `uint8_t(x)`. */
  function Low8(x: nat): byte { x % 0x100 }

  lemma HeaderBytes(len: u32)
    ensures W.Encode32(len) == [Low8(len), Low8(len / 0x100), Low8(len / 0x1_0000), Low8(len / 0x100_0000)]
  {
    assert len / TWO16 / 0x100 == len / 0x100_0000;
  }

  /** Fills the header into the space left for it before the payload; `at` is where that space
      begins. The bytes sent are the frame, and nothing else in the buffer changes. */
  method SendReqAndData(reqbuf: array<byte>, at: nat, len: u32) returns (sent: bytes)
    requires at + 4 + len <= reqbuf.Length && len + 4 < TWO32
    modifies reqbuf
    ensures sent == W.Encode32(len) + old(reqbuf[at + 4..at + 4 + len])
    ensures len < TWO31 ==> sent == Frame(old(reqbuf[at + 4..at + 4 + len]))
    ensures forall i :: 0 <= i < reqbuf.Length && !(at <= i < at + 4) ==> reqbuf[i] == old(reqbuf[i])
  {
    ghost var payload := reqbuf[at + 4..at + 4 + len];
    HeaderBytes(len);
    hide Low8, W.Encode32;
    reqbuf[at] := Low8(len);
    reqbuf[at + 1] := Low8(len / 0x100);
    reqbuf[at + 2] := Low8(len / 0x1_0000);
    reqbuf[at + 3] := Low8(len / 0x100_0000);
    sent := reqbuf[at..at + (len + 4)];
    assert sent[..4] == W.Encode32(len);
    assert sent[4..] == payload;
    assert sent == sent[..4] + sent[4..];
  }

  function Prefix(packs: seq<bytes>, s: Scanned): Scanned { s.(packs := packs + s.packs) }

  lemma Prefixed(packs: seq<bytes>, s: Scanned)
    ensures Prefix([], s) == s
  {
    assert [] + s.packs == s.packs;
  }

  lemma PrefixMore(packs: seq<bytes>, p: bytes, s: Scanned)
    ensures Prefix(packs, Prefix([p], s)) == Prefix(packs + [p], s)
  {
    assert packs + ([p] + s.packs) == packs + [p] + s.packs;
  }

  lemma Slices(b: bytes, o: nat, n: nat)
    requires o + 4 + n <= |b|
    ensures b[o..][4..4 + n] == b[o + 4..o + 4 + n] && b[o..][4 + n..] == b[o + 4 + n..]
  {
  }

  lemma LengthIs(b: bytes, n: int)
    requires |b| >= 4 && n == (if W.Decode32(b[..4]) < TWO31 then W.Decode32(b[..4]) else W.Decode32(b[..4]) - TWO32)
    ensures Length(b) == n
  {
  }

  /** One turn of the loop. */
  lemma ScanStep(b: bytes, handle: bytes -> int)
    ensures |b| < 4 ==> Scan(b, handle) == Scanned([], b, 0)
    ensures |b| >= 4 ==>
              var n := Length(b);
              if n <= 0 then Scan(b, handle) == Scanned([], b, -1)
              else if 4 + n > |b| then Scan(b, handle) == Scanned([], b, 0)
              else
                var p := b[4..4 + n];
                if handle(p) != 0 then Scan(b, handle) == Scanned([p], b, handle(p))
                else Scan(b, handle) == Prefix([p], Scan(b[4 + n..], handle))
  {
    hide Length;
  }

  // ----- how the stream is cut does not matter

  lemma {:induction false} ScanMore(b: bytes, more: bytes, handle: bytes -> int)
    ensures var s := Scan(b, handle);
            var t := Scan(b + more, handle);
            if s.code != 0 then t.packs == s.packs && t.code == s.code
            else
              var u := Scan(s.rest + more, handle);
              t.packs == s.packs + u.packs && t.rest == u.rest && t.code == u.code
    decreases |b|
  {
    hide Length, Scan;
    ScanStep(b, handle);
    ScanStep(b + more, handle);
    if |b| >= 4 {
      LengthLocal(b, more);
      var n := Length(b);
      if 0 < n && 4 + n <= |b| {
        var p := b[4..4 + n];
        assert (b + more)[4..4 + n] == p && (b + more)[4 + n..] == b[4 + n..] + more;
        ScanMore(b[4 + n..], more, handle);
        var s := Scan(b[4 + n..], handle);
        var u := Scan(s.rest + more, handle);
        assert [p] + (s.packs + u.packs) == [p] + s.packs + u.packs;
      }
    }
  }

  lemma LengthLocal(b: bytes, more: bytes)
    requires |b| >= 4
    ensures Length(b + more) == Length(b)
  {
    assert (b + more)[..4] == b[..4];
    hide W.Decode32;
  }

  ghost predicate Same(p: Peer, q: Peer) {
    p.handled == q.handled && p.open == q.open && (p.open ==> p.buf == q.buf)
  }

  /** Two reads do what one read of both pieces does, unless the scan ends with a positive answer. */
  lemma ReadTwice(q: Peer, a: bytes, b: bytes, handle: bytes -> int)
    requires Scan(q.buf + a + b, handle).code <= 0
    ensures Same(OnRead(OnRead(q, a, handle), b, handle), OnRead(q, a + b, handle))
  {
    hide Scan;
    assert q.buf + a + b == q.buf + (a + b);
    assert a == [] ==> a + b == b;
    assert b == [] ==> a + b == a;
    if q.open && a != [] && b != [] {
      ScanMore(q.buf + a, b, handle);
      var s := Scan(q.buf + a, handle);
      var u := Scan(s.rest + b, handle);
      assert q.handled + s.packs + u.packs == q.handled + (s.packs + u.packs);
    }
  }

  lemma SameReads(p: Peer, q: Peer, b: bytes, handle: bytes -> int)
    requires Same(p, q)
    ensures Same(OnRead(p, b, handle), OnRead(q, b, handle))
  {
    hide Scan;
  }

  /** However the stream is cut, the same payloads are handed over in the same order, and an
      open connection keeps the same bytes, unless the scan comes upon a positive answer. */
  lemma {:induction false} CutDoesNotMatter(q: Peer, chunks: seq<bytes>, handle: bytes -> int)
    requires Scan(q.buf + Concat(chunks), handle).code <= 0
    ensures Same(OnReads(q, chunks, handle), OnRead(q, Concat(chunks), handle))
  {
    hide OnRead, Same, Scan;
    if chunks == [] {
      ReadNothing(q, handle);
    } else {
      var n := |chunks| - 1;
      var a, b := Concat(chunks[..n]), chunks[n];
      assert q.buf + (a + b) == q.buf + a + b;
      ScanMore(q.buf + a, b, handle);
      CutDoesNotMatter(q, chunks[..n], handle);
      SameReads(OnReads(q, chunks[..n], handle), OnRead(q, a, handle), b, handle);
      ReadTwice(q, a, b, handle);
      SameTrans(OnReads(q, chunks, handle), OnRead(OnRead(q, a, handle), b, handle),
                OnRead(q, Concat(chunks), handle));
    }
  }

  lemma ReadNothing(q: Peer, handle: bytes -> int)
    ensures Same(q, OnRead(q, [], handle))
  {
  }

  lemma SameTrans(p: Peer, q: Peer, r: Peer)
    requires Same(p, q) && Same(q, r)
    ensures Same(p, r)
  {
  }

  // ----- what was framed is what is handed over

  ghost predicate Sendable(ps: seq<bytes>) { forall i :: 0 <= i < |ps| ==> 0 < |ps[i]| < TWO31 }

  function Frames(ps: seq<bytes>): bytes
    requires Sendable(ps)
  {
    if ps == [] then [] else Frame(ps[0]) + Frames(ps[1..])
  }

  lemma FrameLength(p: bytes, rest: bytes)
    requires 0 < |p| < TWO31
    ensures var b := Frame(p) + rest;
            && |b| >= 4 + |p| && Length(b) == |p| && b[4..4 + |p|] == p && b[4 + |p|..] == rest
  {
    W.Scalar32RoundTrip(|p|);
    hide W.Encode32, W.Decode32;
    var b := Frame(p) + rest;
    assert b[..4] == W.Encode32(|p|);
  }

  /** Whole frames followed by the start of another: the payloads come out, the start stays. */
  lemma {:induction false} ScanFrames(ps: seq<bytes>, tail: bytes, handle: bytes -> int)
    requires Sendable(ps) && (forall i :: 0 <= i < |ps| ==> handle(ps[i]) == 0)
    requires Scan(tail, handle) == Scanned([], tail, 0)
    ensures Scan(Frames(ps) + tail, handle) == Scanned(ps, tail, 0)
    decreases |ps|
  {
    hide Length, Frame;
    if ps == [] {
      assert [] + tail == tail;
    } else {
      var rest := Frames(ps[1..]) + tail;
      assert Frames(ps) + tail == Frame(ps[0]) + rest;
      FrameLength(ps[0], rest);
      assert handle(ps[0]) == 0;
      ScanFrames(ps[1..], tail, handle);
      assert [ps[0]] + ps[1..] == ps;
    }
  }

  lemma UnfinishedFrame(p: bytes, n: nat, handle: bytes -> int)
    requires 0 < |p| < TWO31 && n < |Frame(p)|
    ensures Scan(Frame(p)[..n], handle) == Scanned([], Frame(p)[..n], 0)
  {
    FrameLength(p, []);
    hide W.Encode32, W.Decode32;
    assert Frame(p) + [] == Frame(p);
    if n >= 4 { assert Frame(p)[..n][..4] == Frame(p)[..4]; }
  }

  /** For any payloads and any cutting of their frames and of the first `n` bytes of one more,
      exactly those payloads are handed over, in order, and exactly those `n` bytes are kept. */
  lemma PayloadsArrive(ps: seq<bytes>, next: bytes, n: nat, chunks: seq<bytes>, handle: bytes -> int)
    requires Sendable(ps) && 0 < |next| < TWO31 && n < |Frame(next)|
    requires Concat(chunks) == Frames(ps) + Frame(next)[..n] && forall i :: 0 <= i < |ps| ==> handle(ps[i]) == 0
    ensures OnReads(New(), chunks, handle) == Peer(Frame(next)[..n], ps, true)
  {
    var tail := Frame(next)[..n];
    UnfinishedFrame(next, n, handle);
    ScanFrames(ps, tail, handle);
    assert [] + Concat(chunks) == Concat(chunks);
    CutDoesNotMatter(New(), chunks, handle);
    hide Scan, Frame;
    assert [] + ps == ps;
    if Concat(chunks) == [] { NothingFramed(ps, tail); }
  }

  lemma NothingFramed(ps: seq<bytes>, tail: bytes)
    requires Sendable(ps) && Frames(ps) + tail == []
    ensures ps == [] && tail == []
  {
    FramesSize(ps);
    assert |Frames(ps) + tail| == Size(ps) + |tail|;
  }

  // ----- positive answers

  /** The bytes that the frames of these payloads take up. */
  function Size(packs: seq<bytes>): nat { if packs == [] then 0 else 4 + |packs[0]| + Size(packs[1..]) }

  lemma {:induction false} SizeBound(b: bytes, handle: bytes -> int)
    ensures Size(Scan(b, handle).packs) <= |b|
    decreases |b|
  {
    hide Length, Scan;
    ScanStep(b, handle);
    if |b| >= 4 && 0 < Length(b) && 4 + Length(b) <= |b| {
      var p, rest := b[4..4 + Length(b)], b[4 + Length(b)..];
      SizeBound(rest, handle);
      assert ([p] + Scan(rest, handle).packs)[1..] == Scan(rest, handle).packs;
      assert Size([p]) == 4 + |p| + Size([p][1..]);
    }
  }

  lemma CutSlices(b: bytes, n: nat, e: nat)
    requires 4 + n <= e <= |b|
    ensures b[..e][4..4 + n] == b[4..4 + n] && b[..e][4 + n..] == b[4 + n..][..e - (4 + n)]
  {
  }

  /** A scan that a positive answer stops needs no more than the frames up to it. */
  lemma {:induction false} StopsThere(b: bytes, handle: bytes -> int)
    requires Scan(b, handle).code > 0
    ensures var s := Scan(b, handle);
            && s.packs != [] && Size(s.packs) <= |b|
            && Scan(b[..Size(s.packs)], handle).packs == s.packs && Scan(b[..Size(s.packs)], handle).code == s.code
    decreases |b|
  {
    hide Length, Scan;
    SizeBound(b, handle);
    ScanStep(b, handle);
    var n, packs := Length(b), Scan(b, handle).packs;
    var p, rest, a := b[4..4 + n], b[4 + n..], b[..Size(packs)];
    assert packs[1..] == if handle(p) != 0 then [] else Scan(rest, handle).packs;
    assert Size(packs) == 4 + n + Size(packs[1..]);
    assert b == a + b[Size(packs)..];
    LengthLocal(a, b[Size(packs)..]);
    ScanStep(a, handle);
    CutSlices(b, n, Size(packs));
    if handle(p) == 0 { StopsThere(rest, handle); }
  }

  /** Before the last byte of the frame that a positive answer stops at, nothing stops the scan. */
  lemma NotYetStopped(a: bytes, c: bytes, handle: bytes -> int)
    requires c != [] && Size(Scan(a + c, handle).packs) == |a + c|
    ensures Scan(a, handle).code == 0
  {
    hide Scan;
    ScanMore(a, c, handle);
    SizeBound(a, handle);
  }

  /** If the stream ends with that frame, the cuts are not felt. */
  lemma {:induction false} LastFrameStops(chunks: seq<bytes>, handle: bytes -> int)
    requires var s := Scan(Concat(chunks), handle); s.code > 0 && Size(s.packs) == |Concat(chunks)|
    ensures OnReads(New(), chunks, handle).handled == Scan(Concat(chunks), handle).packs
    decreases |chunks|
  {
    hide Scan;
    if chunks == [] {
      ScanStep([], handle);
    } else {
      var n := |chunks| - 1;
      var a, c := Concat(chunks[..n]), chunks[n];
      if c == [] {
        assert a + c == a;
        LastFrameStops(chunks[..n], handle);
      } else {
        NotYetStopped(a, c, handle);
        assert [] + a == a;
        CutDoesNotMatter(New(), chunks[..n], handle);
        ScanMore(a, c, handle);
        ScanStep([], handle);
        var s := Scan(a, handle);
        assert [] + s.packs == s.packs;
      }
    }
  }

  /** Every cut of the stream hands over what one read of all of it does. */
  ghost predicate SameForEveryCut(b: bytes, handle: bytes -> int) {
    forall chunks :: Concat(chunks) == b ==> OnReads(New(), chunks, handle).handled == Scan(b, handle).packs
  }

  /** The same payloads are handed over for every cut of the stream if and only if no positive
      answer stops the scan before the end of the stream. */
  lemma CutMattersIff(b: bytes, handle: bytes -> int)
    ensures SameForEveryCut(b, handle) <==> !(Scan(b, handle).code > 0 && Size(Scan(b, handle).packs) < |b|)
  {
    hide Scan, OnReads, Concat, Size;
    var s := Scan(b, handle);
    if s.code > 0 && Size(s.packs) < |b| {
      HandedOverTwice(b, handle);
      var e := Size(s.packs);
      ConcatTwo(b[..e], b[e..]);
      assert b[..e] + b[e..] == b;
      assert |s.packs + s.packs| != |s.packs|;
    } else {
      forall chunks | Concat(chunks) == b
        ensures OnReads(New(), chunks, handle).handled == s.packs
      {
        CutUnfelt(chunks, handle);
      }
    }
  }

  lemma CutUnfelt(chunks: seq<bytes>, handle: bytes -> int)
    requires var b := Concat(chunks); !(Scan(b, handle).code > 0 && Size(Scan(b, handle).packs) < |b|)
    ensures OnReads(New(), chunks, handle).handled == Scan(Concat(chunks), handle).packs
  {
    hide Scan, OnReads, Concat;
    var b := Concat(chunks);
    var s := Scan(b, handle);
    SizeBound(b, handle);
    assert [] + b == b && [] + s.packs == s.packs;
    if s.code > 0 {
      LastFrameStops(chunks, handle);
    } else {
      CutDoesNotMatter(New(), chunks, handle);
      ScanStep([], handle);
    }
  }

  lemma ConcatTwo(a: bytes, b: bytes)
    ensures Concat([a, b]) == a + b
  {
    assert [a, b][..1] == [a] && [a][..0] == [];
    assert Concat([a]) == Concat([]) + a;
  }

  lemma HandedOverTwice(b: bytes, handle: bytes -> int)
    requires var s := Scan(b, handle); s.code > 0 && Size(s.packs) < |b|
    ensures var s := Scan(b, handle);
            var e := Size(s.packs);
            OnReads(New(), [b[..e], b[e..]], handle).handled == s.packs + s.packs && s.packs != []
  {
    hide Scan;
    StopsThere(b, handle);
    var s := Scan(b, handle);
    var e := Size(s.packs);
    var chunks := [b[..e], b[e..]];
    var q := OnRead(New(), b[..e], handle);
    assert [] + b[..e] == b[..e] && b[..e] + b[e..] == b && [] + s.packs == s.packs;
    assert q == Peer(b[..e], s.packs, true);
    assert chunks[..1] == [b[..e]] && [b[..e]][..0] == [];
    assert OnReads(New(), [], handle) == New();
    assert OnReads(New(), [b[..e]], handle) == q;
  }

  // ----- positive answers among framed payloads

  /** The first payload that is not answered with zero is answered with a positive number, and
      its frame is not the end of the stream. */
  ghost predicate StopsEarly(ps: seq<bytes>, tail: bytes, handle: bytes -> int) {
    exists i :: 0 <= i < |ps| && handle(ps[i]) > 0 && (forall j :: 0 <= j < i ==> handle(ps[j]) == 0)
                && (i < |ps| - 1 || tail != [])
  }

  lemma {:induction false} FramesSize(ps: seq<bytes>)
    requires Sendable(ps)
    ensures |Frames(ps)| == Size(ps)
    decreases |ps|
  {
    if ps != [] { FramesSize(ps[1..]); }
  }

  lemma {:induction false} SizeSplit(ps: seq<bytes>, i: nat)
    requires i <= |ps|
    ensures Size(ps) == Size(ps[..i]) + Size(ps[i..])
  {
    if i > 0 {
      SizeSplit(ps[1..], i - 1);
      assert ps[..i][1..] == ps[1..][..i - 1] && ps[1..][i - 1..] == ps[i..];
    } else {
      assert ps[i..] == ps;
    }
  }

  /** The scan stops at the first payload that is not answered with zero. */
  lemma {:induction false} ScanStopsAt(ps: seq<bytes>, i: nat, tail: bytes, handle: bytes -> int)
    requires Sendable(ps) && i < |ps| && handle(ps[i]) != 0 && forall j :: 0 <= j < i ==> handle(ps[j]) == 0
    ensures var s := Scan(Frames(ps) + tail, handle); s.packs == ps[..i + 1] && s.code == handle(ps[i])
    decreases i
  {
    hide Scan, Length, Frame;
    var rest := Frames(ps[1..]) + tail;
    assert Frames(ps) + tail == Frame(ps[0]) + rest;
    FrameLength(ps[0], rest);
    ScanStep(Frame(ps[0]) + rest, handle);
    if i > 0 {
      assert handle(ps[0]) == 0;
      ScanStopsAt(ps[1..], i - 1, tail, handle);
      assert [ps[0]] + ps[1..][..i] == ps[..i + 1];
    } else {
      assert [ps[0]] == ps[..1];
    }
  }

  ghost predicate AllZero(ps: seq<bytes>, handle: bytes -> int) { forall i :: 0 <= i < |ps| ==> handle(ps[i]) == 0 }

  lemma FirstAnswer(ps: seq<bytes>, handle: bytes -> int) returns (i: nat)
    ensures i <= |ps| && AllZero(ps[..i], handle) && (i < |ps| ==> handle(ps[i]) != 0)
  {
    i := 0;
    while i < |ps| && handle(ps[i]) == 0
      invariant i <= |ps| && AllZero(ps[..i], handle)
    {
      i := i + 1;
    }
  }

  /** For framed payloads and the start of another frame: the same payloads are handed over for
      every cut if and only if no positively answered payload comes before the stream's end. */
  lemma FramedCutMattersIff(ps: seq<bytes>, tail: bytes, handle: bytes -> int)
    requires Sendable(ps) && Scan(tail, handle) == Scanned([], tail, 0)
    ensures SameForEveryCut(Frames(ps) + tail, handle) <==> !StopsEarly(ps, tail, handle)
  {
    hide Scan, SameForEveryCut;
    var b := Frames(ps) + tail;
    CutMattersIff(b, handle);
    var i := FirstAnswer(ps, handle);
    FramesSize(ps);
    assert forall j :: 0 <= j < i ==> ps[j] == ps[..i][j];
    if i == |ps| {
      assert ps[..i] == ps;
      ScanFrames(ps, tail, handle);
    } else {
      ScanStopsAt(ps, i, tail, handle);
      SizeSplit(ps, i + 1);
      assert ps[i + 1..] != [] ==> Size(ps[i + 1..]) >= 4;
      assert ps[i + 1..] != [] <==> i < |ps| - 1;
      if StopsEarly(ps, tail, handle) {
        var j :| 0 <= j < |ps| && handle(ps[j]) > 0 && (forall l :: 0 <= l < j ==> handle(ps[l]) == 0)
                 && (j < |ps| - 1 || tail != []);
        assert i == j;
      }
    }
  }

  function Times(n: nat, ps: seq<bytes>): seq<bytes> { if n == 0 then [] else Times(n - 1, ps) + ps }

  lemma TimesMore(n: nat, ps: seq<bytes>)
    ensures Times(n + 1, ps) == Times(n, ps) + ps
  {
  }

  lemma ReadAgain(ps: seq<bytes>, p: bytes, q: Peer, t: bytes, c: bytes, handle: bytes -> int)
    requires Sendable(ps + [p]) && AllZero(ps, handle) && handle(p) > 0
    requires q.open && c != [] && q.buf + c == Frames(ps + [p]) + t
    ensures OnRead(q, c, handle) == Peer(Frames(ps + [p]) + t, q.handled + (ps + [p]), true)
  {
    var all := ps + [p];
    assert forall j :: 0 <= j < |ps| ==> all[j] == ps[j];
    ScanStopsAt(all, |ps|, t, handle);
    assert all[..|ps| + 1] == all;
    hide Scan, Frames;
  }

  /** A positive answer keeps the connection open and drops nothing: with every later read all the
      payloads up to the one so answered are handed over again, and none after it ever is. */
  lemma {:induction false} PositiveAnswerRepeats(ps: seq<bytes>, p: bytes, more: seq<bytes>, handle: bytes -> int)
    requires Sendable(ps + [p]) && AllZero(ps, handle) && handle(p) > 0
    requires forall c <- more :: c != []
    ensures OnReads(New(), [Frames(ps + [p])] + more, handle)
         == Peer(Frames(ps + [p]) + Concat(more), Times(1 + |more|, ps + [p]), true)
    decreases |more|
  {
    hide Scan, OnRead, Frames, Sendable, AllZero, Times;
    var all, n := ps + [p], |more|;
    var f := Frames(all);
    var chunks := [f] + more;
    if n == 0 {
      FirstRead(ps, p, handle);
      assert chunks == [f] && f + Concat(more) == f;
    } else {
      var init, c := more[..n - 1], more[n - 1];
      assert c in more && forall x <- init :: x in more;
      PositiveAnswerRepeats(ps, p, init, handle);
      assert chunks[..n] == [f] + init && chunks[n] == c;
      NextRead(ps, p, OnReads(New(), [f] + init, handle), Concat(init), c, n, handle);
    }
  }

  lemma FirstRead(ps: seq<bytes>, p: bytes, handle: bytes -> int)
    requires Sendable(ps + [p]) && AllZero(ps, handle) && handle(p) > 0
    ensures OnReads(New(), [Frames(ps + [p])], handle) == Peer(Frames(ps + [p]), Times(1, ps + [p]), true)
  {
    var f := Frames(ps + [p]);
    FramesSize(ps + [p]);
    hide Scan, OnRead, Frames;
    var none: seq<bytes> := [];
    assert [f][..0] == none && OnReads(New(), none, handle) == New() && [] + f == f + [] == f;
    ReadAgain(ps, p, New(), [], f, handle);
    TimesMore(0, ps + [p]);
  }

  lemma NextRead(ps: seq<bytes>, p: bytes, q: Peer, t: bytes, c: bytes, n: nat, handle: bytes -> int)
    requires Sendable(ps + [p]) && AllZero(ps, handle) && handle(p) > 0 && c != []
    requires q == Peer(Frames(ps + [p]) + t, Times(n, ps + [p]), true)
    ensures OnRead(q, c, handle) == Peer(Frames(ps + [p]) + (t + c), Times(n + 1, ps + [p]), true)
  {
    hide OnRead, Frames, Times;
    assert q.buf + c == Frames(ps + [p]) + (t + c);
    ReadAgain(ps, p, q, t + c, c, handle);
    TimesMore(n, ps + [p]);
  }
}
