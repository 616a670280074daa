/** What the applications at the two ends see: messages in message mode, a byte
    stream in stream mode. */
module KcpMessages {
  import opened Words
  import opened KcpWire
  import opened KcpModel
  import opened KcpLink
  import opened KcpSystem

  // ----- payloads

  lemma Regroup(x: bytes, y: bytes, z: bytes)
    ensures x + (y + z) == (x + y) + z
  {
  }

  lemma {:induction false} PayloadAppend(a: seq<Frag>, b: seq<Frag>)
    ensures Payload(a + b) == Payload(a) + Payload(b)
  {
    if a == [] {
      assert a + b == b;
    } else {
      PayloadAppend(a[1..], b);
      assert (a + b)[1..] == a[1..] + b;
      Regroup(a[0].data, Payload(a[1..]), Payload(b));
    }
  }

  // ----- fragmentation

  lemma FragCountCovers(len: nat, mss: nat)
    requires mss > 0
    ensures len <= FragCount(len, mss) * mss && FragCount(len, mss) >= 1
  {
    if len > mss {
      var q := (len + mss - 1) / mss;
      assert (len + mss - 1) == q * mss + (len + mss - 1) % mss;
    }
  }

  lemma DivideBack(n: nat, m: nat)
    requires m > 0
    ensures n * m / m == n
  {
    var q, rem := n * m / m, n * m % m;
    assert (n - q) * m == rem;
    assert n - q >= 1 ==> (n - q) * m >= m;
    assert n - q <= -1 ==> (n - q) * m <= 0 - m;
  }

  lemma FragCountJustOver(r: nat, mss: nat)
    requires mss > 1
    ensures FragCount(r * mss + 1, mss) == r + 1
  {
    DivideBack(r + 1, mss);
    var len := r * mss + 1;
    assert len + mss - 1 == (r + 1) * mss;
    assert r > 0 ==> r * mss >= mss;
  }

  /** No fewer fragments would do: all but the last are full. */
  lemma FragCountIsLeast(len: nat, mss: nat, n: nat)
    requires mss > 0 && len <= n * mss && n > 0
    ensures FragCount(len, mss) <= n
  {
    if len > mss {
      var q := (len + mss - 1) / mss;
      var r := (len + mss - 1) % mss;
      assert q * mss + r == len + mss - 1;
      assert q > n ==> (q - n - 1) * mss >= 0;
      assert q * mss == n * mss + mss + (q - n - 1) * mss;
    }
  }

  /** Fragments count down to zero and carry the data in order, none over `mss`. */
  lemma {:induction false} SplitShape(data: bytes, mss: nat, count: nat, stream: bool)
    requires count <= 256 && |data| <= count * mss
    ensures var fs := Split(data, mss, count, stream);
            && |fs| == count && Payload(fs) == data
            && forall i :: 0 <= i < count ==> fs[i].frg == (if stream then 0 else count - 1 - i)
    decreases count
  {
    if count > 0 {
      var size := Min(|data|, mss);
      assert |data[size..]| <= (count - 1) * mss by { assert count * mss == (count - 1) * mss + mss; }
      SplitShape(data[size..], mss, count - 1, stream);
      var rest := Split(data[size..], mss, count - 1, stream);
      var f := Frag(if stream then 0 else count - 1, data[..size]);
      assert ([f] + rest)[1..] == rest;
      assert data[..size] + data[size..] == data;
    }
  }

  function Fragmented(m: bytes, mss: nat): seq<Frag>
    requires mss > 0 && FragCount(|m|, mss) < WND_RCV
  {
    Split(m, mss, FragCount(|m|, mss), false)
  }

  ghost predicate Sendable(ms: seq<bytes>, mss: nat) {
    mss > 0 && forall i :: 0 <= i < |ms| ==> FragCount(|ms[i]|, mss) < WND_RCV
  }

  function AllFrags(ms: seq<bytes>, mss: nat): seq<Frag>
    requires Sendable(ms, mss)
  {
    if ms == [] then [] else AllFrags(ms[..|ms| - 1], mss) + Fragmented(ms[|ms| - 1], mss)
  }

  lemma {:induction false} AllFragsSplit(ms: seq<bytes>, i: nat, mss: nat)
    requires Sendable(ms, mss) && i < |ms|
    ensures AllFrags(ms[..i], mss) + Fragmented(ms[i], mss) <= AllFrags(ms, mss)
    ensures AllFrags(ms[..i + 1], mss) == AllFrags(ms[..i], mss) + Fragmented(ms[i], mss)
    decreases |ms|
  {
    hide Fragmented;
    assert ms[..i + 1][..i] == ms[..i];
    if i == |ms| - 1 {
      assert ms[..i + 1] == ms;
    } else {
      var n := |ms| - 1;
      AllFragsSplit(ms[..n], i, mss);
      assert ms[..n][..i] == ms[..i];
    }
  }

  // ----- reading one message off the queue

  lemma {:induction false} CountDown(q: seq<InSeg>, c: nat)
    requires 1 <= c <= |q|
    requires forall i :: 0 <= i < c ==> q[i].frag.frg == c - 1 - i
    ensures MsgCount(q) == c
  {
    if c > 1 { CountDown(q[1..], c - 1); }
  }

  /** If the queue starts with the fragments of `m`, in part or in full, then a message is
      reported exactly when all of them are there, and it is `m`. */
  lemma FirstMessage(q: seq<InSeg>, m: bytes, mss: nat)
    requires mss > 0 && FragCount(|m|, mss) < WND_RCV && q != []
    requires Frags(q) <= Fragmented(m, mss) || Fragmented(m, mss) <= Frags(q)
    ensures HasMsg(q) <==> Fragmented(m, mss) <= Frags(q)
    ensures HasMsg(q) ==> FirstMsg(q) == m && Frags(q[..MsgCount(q)]) == Fragmented(m, mss)
  {
    var c := FragCount(|m|, mss);
    FragCountCovers(|m|, mss);
    SplitShape(m, mss, c, false);
    var fs := Fragmented(m, mss);
    hide Split, FragCount;
    assert q[0].frag == fs[0] by { assert Frags(q)[0] == fs[0]; }
    assert HasMsg(q) <==> |q| >= c;
    if |q| >= c {
      assert Frags(q)[..c] == fs;
      forall i | 0 <= i < c
        ensures q[i].frag.frg == c - 1 - i
      {
        assert Frags(q)[i] == fs[i];
      }
      CountDown(q, c);
      assert Frags(q[..c]) == Frags(q)[..c];
    }
  }

  // ----- message mode

  /** Direction from `x` to `y` in message mode. */
  ghost predicate Messages(x: Node, y: Node)
    requires ValidConfig(x.k.cfg)
  {
    var mss := Mss(x.k.cfg);
    && Sendable(x.sent, mss)
    && x.log + x.k.snd.queue == AllFrags(x.sent, mss)
    && y.got <= x.sent
    && y.taken == AllFrags(y.got, mss)
  }

  lemma SendKeepsMessages(x: Node, y: Node, data: bytes)
    requires ValidConfig(x.k.cfg) && !x.k.cfg.stream && Messages(x, y)
    ensures Messages(OnSend(x, data), y)
  {
    hide Split, FragCount, Mss;
    var x' := OnSend(x, data);
    assert data[0..] == data;
    if Send(x.k, data).code == 0 {
      var n := |x.sent|;
      assert x'.sent[..n] == x.sent && x'.sent[n] == data;
      assert x'.k.snd.queue == x.k.snd.queue + Fragmented(data, Mss(x.k.cfg));
      hide Fragmented;
      assert x'.log + x'.k.snd.queue == x.log + x.k.snd.queue + Fragmented(data, Mss(x.k.cfg));
    }
  }

  /** The queue at the far end continues the read messages with the next one sent. */
  lemma NextMessage(x: Node, y: Node)
    requires ValidConfig(x.k.cfg) && Messages(x, y)
    requires InOrder(y.k.rcv, x.log, y.taken) && y.k.rcv.queue != []
    ensures |y.got| < |x.sent|
    ensures var fs, q := Fragmented(x.sent[|y.got|], Mss(x.k.cfg)), Frags(y.k.rcv.queue);
            q <= fs || fs <= q
  {
    hide AllFrags, Fragmented, Frags, FragCount;
    var mss, i, q := Mss(x.k.cfg), |y.got|, Frags(y.k.rcv.queue);
    var all := AllFrags(x.sent, mss);
    PrefixTrans(y.taken + q, x.log, all);
    assert |q| > 0 && |y.taken| < |all|;
    assert i == |x.sent| ==> y.got == x.sent;
    AllFragsSplit(x.sent, i, mss);
    assert y.got == x.sent[..i];
    hide Sendable;
    PrefixCompare(y.taken, q, Fragmented(x.sent[i], mss), all);
  }

  lemma PrefixTrans(a: seq<Frag>, b: seq<Frag>, c: seq<Frag>)
    requires (exists n: nat :: n <= |b| && a == b[..n]) && b <= c
    ensures a <= c
  {
  }

  lemma PrefixCompare(t: seq<Frag>, a: seq<Frag>, b: seq<Frag>, all: seq<Frag>)
    requires t + a <= all && t + b <= all
    ensures a <= b || b <= a
  {
    assert forall j :: 0 <= j < |a| && j < |b| ==> a[j] == all[|t| + j] == b[j];
  }

  lemma RecvKeepsMessages(x: Node, y: Node, len: int)
    requires ValidConfig(x.k.cfg) && Messages(x, y) && InOrder(y.k.rcv, x.log, y.taken)
    ensures Messages(x, OnRecv(y, len))
  {
    hide Frags, MsgCount, FirstMsg, MoveReady, HasMsg, InOrder, Mss, FragCount, Split;
    var q, y' := y.k.rcv.queue, OnRecv(y, len);
    if y'.got != y.got {
      NextMessage(x, y);
      var i := |y.got|;
      FirstMessage(q, x.sent[i], Mss(x.k.cfg));
      AllFragsSplit(x.sent, i, Mss(x.k.cfg));
      hide AllFrags, Fragmented;
      assert y.got == x.sent[..i] && y'.got == x.sent[..i + 1];
    }
  }

  // ----- either mode: the bytes

  function Concat(ms: seq<bytes>): bytes {
    if ms == [] then [] else Concat(ms[..|ms| - 1]) + ms[|ms| - 1]
  }

  /** How many segments of an unfinished message can be waiting, plus one. */
  function RunLimit(c: Config): nat { if c.stream then 1 else WND_RCV - 1 }

  ghost predicate ShortRuns(c: Config, fs: seq<Frag>) { forall i :: 0 <= i < |fs| ==> fs[i].frg < RunLimit(c) }

  /** Direction from `x` to `y` as a byte stream. */
  ghost predicate Stream(x: Node, y: Node) {
    && Payload(x.log + x.k.snd.queue) == x.fed
    && ShortRuns(x.k.cfg, x.log + x.k.snd.queue)
    && Payload(y.taken) == Concat(y.got)
  }

  lemma ExtendedBytes(k: Kcb, data: bytes)
    requires ValidConfig(k.cfg) && ShortRuns(k.cfg, k.snd.queue)
    ensures Payload(Extended(k, data)) == Payload(k.snd.queue) + data[..Extend(k, |data|)]
    ensures ShortRuns(k.cfg, Extended(k, data))
  {
    var q, e := k.snd.queue, data[..Extend(k, |data|)];
    if k.cfg.stream && q != [] && |q[|q| - 1].data| < Mss(k.cfg) {
      var init, last := q[..|q| - 1], q[|q| - 1];
      assert q == init + [last];
      var grown := Frag(0, last.data + e);
      PayloadAppend(init, [last]);
      PayloadAppend(init, [grown]);
      assert Payload([last]) == last.data + Payload([]) && Payload([grown]) == grown.data + Payload([]);
    }
  }

  lemma SendBytes(k: Kcb, data: bytes)
    requires ValidConfig(k.cfg) && ShortRuns(k.cfg, k.snd.queue)
    ensures var r := Send(k, data);
            && Payload(r.k.snd.queue)
               == Payload(k.snd.queue) + (if r.code == 0 then data else data[..Extend(k, |data|)])
            && r.k.cfg == k.cfg && ShortRuns(k.cfg, r.k.snd.queue)
  {
    hide Split, Extended, Extend, FragCount, Payload;
    ExtendedBytes(k, data);
    var e := Extend(k, |data|);
    var rest := data[e..];
    assert data[..e] + rest == data;
    var count := FragCount(|rest|, Mss(k.cfg));
    FragCountCovers(|rest|, Mss(k.cfg));
    if count < WND_RCV {
      SplitShape(rest, Mss(k.cfg), count, k.cfg.stream);
      PayloadAppend(Extended(k, data), Split(rest, Mss(k.cfg), count, k.cfg.stream));
      assert Payload(k.snd.queue) + data[..e] + rest == Payload(k.snd.queue) + data;
    }
  }

  lemma SendKeepsStream(x: Node, y: Node, data: bytes)
    requires ValidConfig(x.k.cfg) && Stream(x, y)
    ensures Stream(OnSend(x, data), y)
  {
    hide Send, Payload, Extend;
    var x', r := OnSend(x, data), Send(x.k, data);
    var d := if r.code == 0 then data else data[..Extend(x.k, |data|)];
    PayloadAppend(x.log, x.k.snd.queue);
    PayloadAppend(x.log, x'.k.snd.queue);
    assert ShortRuns(x.k.cfg, x.log) && ShortRuns(x.k.cfg, x.k.snd.queue) by {
      ShortParts(x.k.cfg, x.log, x.k.snd.queue);
    }
    SendBytes(x.k, data);
    assert Payload(x.log) + (Payload(x.k.snd.queue) + d) == Payload(x.log) + Payload(x.k.snd.queue) + d;
  }

  lemma ShortParts(c: Config, a: seq<Frag>, b: seq<Frag>)
    requires ShortRuns(c, a + b)
    ensures ShortRuns(c, a) && ShortRuns(c, b)
  {
    assert forall i :: 0 <= i < |a| ==> (a + b)[i] == a[i];
    assert forall i :: 0 <= i < |b| ==> (a + b)[|a| + i] == b[i];
  }

  lemma RecvKeepsStream(x: Node, y: Node, len: int)
    requires Stream(x, y)
    ensures Stream(x, OnRecv(y, len))
  {
    hide Frags, MsgCount, MoveReady, PeekSize, Payload;
    var q, y' := y.k.rcv.queue, OnRecv(y, len);
    PayloadAppend(y.taken, Frags(q[..MsgCount(q)]));
    if y'.got != y.got { assert y'.got[..|y.got|] == y.got; }
  }

  // ----- every run

  ghost predicate App(x: Node, y: Node)
    requires ValidConfig(x.k.cfg)
  {
    Stream(x, y) && (!x.k.cfg.stream ==> Messages(x, y))
  }

  /** A step that moves fragments from the queue to the log, or touches neither. */
  lemma MoveKeepsApp(x: Node, x': Node, y: Node)
    requires ValidConfig(x.k.cfg) && x'.k.cfg == x.k.cfg && App(x, y)
    requires x'.log + x'.k.snd.queue == x.log + x.k.snd.queue && x'.sent == x.sent && x'.fed == x.fed
    ensures App(x', y)
  {
    hide Payload, Sendable, AllFrags, Concat;
  }

  lemma FlushMoves(x: Node, y: Node)
    requires Pair(x, y) && |OnEmit(x, Flush(x.k)).log| + TWO16 <= TWO31
    ensures var x' := OnEmit(x, Flush(x.k)); x'.log + x'.k.snd.queue == x.log + x.k.snd.queue
  {
    hide Has, Frags, FlushState, FlushPackets, SndOk, NoLoss, RcvOk, AcksOk, HonestDatas, HonestAcks, Datagrams;
    if x.k.ctl.updated {
      FlushSendSide(x.k, y.k.rcv, x.log);
      var more, q := Taken(x.k.snd, FlushState(x.k).snd), FlushState(x.k).snd.queue;
      hide Taken;
      assert x.log + more + q == x.log + (more + q);
    } else {
      EmitNothing(x, x.k);
    }
  }

  lemma InputMoves(x: Node, d: bytes)
    requires ValidConfig(x.k.cfg)
    ensures Input(x.k, d).k.snd.queue == x.k.snd.queue
  {
    hide InputSegs, ParseDatagram, HighestAck, GrowCwnd, Skipped, TimeDiff;
    InputKeepsQueue(x.k, ParseDatagram(x.k.cfg.conv, d).pkts);
  }

  /** Both directions, seen from the endpoint that takes the step. */
  lemma StepKeepsApp(x: Node, y: Node, op: Op)
    requires Pair(x, y) && PairInRange(x, y) && PairInRange(StepNode(x, y.net, op), y)
    requires App(x, y) && App(y, x)
    ensures App(StepNode(x, y.net, op), y) && App(y, StepNode(x, y.net, op))
  {
    var x' := StepNode(x, y.net, op);
    match op
    case SendOp(data) =>
      hide Send, Payload, Sendable, AllFrags, Concat, Extend, Fragmented;
      SendKeepsStream(x, y, data);
      if !x.k.cfg.stream { SendKeepsMessages(x, y, data); }
    case RecvOp(len) =>
      RecvSteps(x, y, len);
    case InputOp(d) =>
      hide Input, App;
      if d in y.net { InputMoves(x, d); }
      MoveKeepsApp(x, x', y);
      SameReader(y, x, x');
    case FlushOp =>
      hide Flush, App, Taken;
      FlushMoves(x, y);
      MoveKeepsApp(x, x', y);
      SameReader(y, x, x');
    case UpdateOp(now) =>
      hide App;
      UpdateMoves(x, y, now);
      hide Update;
      MoveKeepsApp(x, x', y);
      SameReader(y, x, x');
  }

  lemma RecvSteps(x: Node, y: Node, len: int)
    requires Pair(x, y) && App(x, y) && App(y, x)
    ensures App(OnRecv(x, len), y) && App(y, OnRecv(x, len))
  {
    hide Recv, Sendable, AllFrags, Payload, ValidConfig;
    var x' := OnRecv(x, len);
    RecvKeepsStream(y, x, len);
    if !y.k.cfg.stream { RecvKeepsMessages(y, x, len); }
    RecvTouches(x, len);
    hide OnRecv;
    MoveKeepsApp(x, x', y);
  }

  lemma RecvTouches(x: Node, len: int)
    ensures var x' := OnRecv(x, len);
            && x'.k.cfg == x.k.cfg && x'.log == x.log && x'.k.snd == x.k.snd && x'.sent == x.sent && x'.fed == x.fed
  {
    hide PeekSize, MoveReady, MsgCount, FirstMsg, Frags;
  }

  lemma UpdateMoves(x: Node, y: Node, now: u32)
    requires Pair(x, y) && |OnEmit(x, Update(x.k, now)).log| + TWO16 <= TWO31
    ensures var x' := OnEmit(x, Update(x.k, now));
            x'.log + x'.k.snd.queue == x.log + x.k.snd.queue && x'.k.cfg == x.k.cfg
  {
    hide Pair, Flush, Taken;
    var c := x.k.ctl.(current := now, updated := true);
    match OnTick(x.k.ctl, x.k.cfg, now)
    case Wait => EmitNothing(x, x.k.(ctl := c));
    case Fire(next) =>
      var x1 := x.(k := x.k.(ctl := c.(tsFlush := next)));
      ClockStep(x, y, c.(tsFlush := next));
      assert OnEmit(x, Update(x.k, now)) == OnEmit(x1, Flush(x1.k));
      FlushMoves(x1, y);
      FlushConfig(x1.k);
  }

  lemma FlushConfig(k: Kcb)
    ensures Flush(k).k.cfg == k.cfg
  {
    hide FlushAdmit, FlushScan, FlushPackets, Congestion, ProbeTimer;
  }

  lemma SameReader(x: Node, y: Node, y': Node)
    requires ValidConfig(x.k.cfg) && App(x, y) && y'.taken == y.taken && y'.got == y.got
    ensures App(x, y')
  {
    hide Payload, Sendable, AllFrags, Concat;
  }

  lemma {:induction false} RunKeepsApp(ca: Config, cb: Config, es: seq<Event>)
    requires ValidConfig(ca) && ValidConfig(cb) && ca.conv == cb.conv
    requires PairInRange(Run(ca, cb, es).a, Run(ca, cb, es).b)
    ensures var s := Run(ca, cb, es); App(s.a, s.b) && App(s.b, s.a)
  {
    if es == [] {
      assert Payload([]) == [] && Concat([]) == [];
    } else {
      hide Pair, StepNode, App;
      var n := |es| - 1;
      var s, e := Run(ca, cb, es[..n]), es[n];
      assert Run(ca, cb, es) == Step(s, e);
      if e.onA {
        LogOnlyGrows(s.a, s.b.net, e.op);
        RunKeepsPair(ca, cb, es[..n]);
        RunKeepsApp(ca, cb, es[..n]);
        StepKeepsApp(s.a, s.b, e.op);
      } else {
        LogOnlyGrows(s.b, s.a.net, e.op);
        RunKeepsPair(ca, cb, es[..n]);
        PairSwap(s.a, s.b);
        RunKeepsApp(ca, cb, es[..n]);
        StepKeepsApp(s.b, s.a, e.op);
      }
    }
  }
}
