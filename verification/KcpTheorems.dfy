/** The guarantees of the transport, for every run of two honest endpoints that use fewer
    than 2^31 sequence numbers less a window. */
module KcpTheorems {
  import opened Words
  import opened KcpWire
  import opened KcpModel
  import opened KcpLink
  import opened KcpSystem
  import opened KcpMessages

  ghost predicate Start(ca: Config, cb: Config) { ValidConfig(ca) && ValidConfig(cb) && ca.conv == cb.conv }

  /** `x` and `y` are the two ends, in either order, of a state some run reaches, with every
      sequence number used so far in range. */
  ghost predicate Peers(x: Node, y: Node) {
    exists es: seq<Event> ::
      && Start(x.k.cfg, y.k.cfg) && PairInRange(x, y)
      && (Sys(x, y) == Run(x.k.cfg, y.k.cfg, es) || Sys(y, x) == Run(y.k.cfg, x.k.cfg, es))
  }

  lemma PeersInvariant(x: Node, y: Node)
    requires Peers(x, y)
    ensures Pair(x, y) && App(x, y) && App(y, x)
  {
    hide Pair, App, Run;
    var es: seq<Event> :|
      && Start(x.k.cfg, y.k.cfg) && PairInRange(x, y)
      && (Sys(x, y) == Run(x.k.cfg, y.k.cfg, es) || Sys(y, x) == Run(y.k.cfg, x.k.cfg, es));
    if Sys(x, y) == Run(x.k.cfg, y.k.cfg, es) {
      RunKeepsPair(x.k.cfg, y.k.cfg, es);
      RunKeepsApp(x.k.cfg, y.k.cfg, es);
    } else {
      RunKeepsPair(y.k.cfg, x.k.cfg, es);
      RunKeepsApp(y.k.cfg, x.k.cfg, es);
      PairSwap(y, x);
    }
  }

  /** Segments enter the receive queue exactly once, in order, with no gap: what has been read
      plus what is queued is a prefix of what the sender numbered. */
  lemma DeliveredInOrderOnce(x: Node, y: Node)
    requires Peers(x, y)
    ensures y.k.rcv.nxt <= |x.log| && y.taken + Frags(y.k.rcv.queue) == x.log[..y.k.rcv.nxt]
  {
    hide Peers, App, Frags;
    PeersInvariant(x, y);
  }

  /** A segment has left the send buffer only if the receiver holds it or passed it on. */
  lemma NothingIsLost(x: Node, y: Node, sn: nat)
    requires Peers(x, y) && sn < |x.log|
    ensures Unacked(x.k.snd, sn) || Has(y.k.rcv, sn)
  {
    hide Peers, App, Has, Unacked, SndOk, RcvOk;
    PeersInvariant(x, y);
  }

  /** Once nothing waits at the sender and the receive queue has room, everything numbered
      has reached the receive queue or the application. */
  lemma DrainedMeansDelivered(x: Node, y: Node)
    requires Peers(x, y)
    requires x.k.snd.buf == [] && |y.k.rcv.queue| < y.k.cfg.rcvWnd
    ensures y.taken + Frags(y.k.rcv.queue) == x.log
  {
    hide Peers, App, Frags;
    PeersInvariant(x, y);
    var r, log := y.k.rcv, x.log;
    RoomMeansNextMissing(y.k.cfg, r, log);
    assert !Unacked(x.k.snd, r.nxt);
    assert log[..|log|] == log;
  }

  lemma RoomMeansNextMissing(cfg: Config, r: Rcv, log: seq<Frag>)
    requires ReorderOk(r.nxt, r.buf, cfg.rcvWnd, log) && Settled(r, cfg.rcvWnd) && |r.queue| < cfg.rcvWnd
    ensures !Has(r, r.nxt)
  {
    assert forall i :: 0 < i < |r.buf| ==> r.buf[0].sn < r.buf[i].sn;
  }

  /** Buffers, windows and numbering in every reachable state. */
  lemma WindowsHold(x: Node, y: Node)
    requires Peers(x, y)
    ensures var snd, rcv, log := x.k.snd, y.k.rcv, x.log;
            && snd.nxt == |log| && snd.una == (if snd.buf == [] then snd.nxt else snd.buf[0].sn)
            && snd.nxt - snd.una <= x.k.cfg.sndWnd
            && (forall i, j :: 0 <= i < j < |snd.buf| ==> snd.buf[i].sn < snd.buf[j].sn)
            && (forall i :: 0 <= i < |snd.buf| ==> snd.una <= snd.buf[i].sn < snd.nxt)
            && (forall i, j :: 0 <= i < j < |rcv.buf| ==> rcv.buf[i].sn < rcv.buf[j].sn)
            && (forall i :: 0 <= i < |rcv.buf| ==> rcv.nxt <= rcv.buf[i].sn < rcv.nxt + y.k.cfg.rcvWnd)
            && |rcv.queue| <= y.k.cfg.rcvWnd
  {
    hide Peers, App, Frags, NoLoss, AcksOk, HonestDatas, HonestAcks;
    PeersInvariant(x, y);
    var snd := x.k.snd;
    forall i | 0 <= i < |snd.buf|
      ensures snd.una <= snd.buf[i].sn
    {
      assert i > 0 ==> snd.buf[0].sn < snd.buf[i].sn;
    }
  }

  /** In message mode the messages read are a prefix of the messages accepted. */
  lemma MessagesArriveInOrder(x: Node, y: Node)
    requires Peers(x, y) && !x.k.cfg.stream
    ensures y.got <= x.sent
  {
    hide Peers, Pair, Sendable, AllFrags;
    PeersInvariant(x, y);
  }

  /** In either mode the bytes read are a prefix of the bytes handed over. */
  lemma BytesArriveInOrder(x: Node, y: Node)
    requires Peers(x, y)
    ensures Concat(y.got) <= x.fed
  {
    hide Peers, Payload, Concat, Frags, Messages;
    PeersInvariant(x, y);
    var log, q, r := x.log, x.k.snd.queue, y.k.rcv;
    assert log == log[..r.nxt] + log[r.nxt..];
    PayloadAppend(log, q);
    PayloadAppend(log[..r.nxt], log[r.nxt..]);
    PayloadAppend(y.taken, Frags(r.queue));
  }

  /** The size reported ahead of a read is the size of the message the read returns. */
  lemma PeekPredictsRead(k: Kcb, len: int)
    requires Recv(k, len).code >= 0
    ensures PeekSize(k.rcv.queue) == Recv(k, len).code == |Recv(k, len).data|
  {
    hide MoveReady, FirstMsg, MsgCount, HasMsg;
  }

  /** When a read is refused, and how: nothing there, no whole message, or too little space. */
  lemma ReadRefusedIff(k: Kcb, len: int)
    ensures var code, q := Recv(k, len).code, k.rcv.queue;
            && (code == -1 <==> q == [])
            && (code == -2 <==> q != [] && PeekSize(q) < 0)
            && (code == -3 <==> PeekSize(q) >= 0 && -PeekSize(q) < len < PeekSize(q))
            && (code < 0 ==> -3 <= code && Recv(k, len).k == k && Recv(k, len).data == [])
  {
    hide MoveReady, FirstMsg, MsgCount, HasMsg;
    if k.rcv.queue == [] { assert PeekSize([]) == -1 by { NoMessage(); } }
  }

  lemma NoMessage()
    ensures PeekSize([]) == -1
  {
  }

  /** A full receive queue always holds a complete message, so a read is possible. */
  lemma FullQueueHasMessage(x: Node, y: Node)
    requires Peers(x, y) && |y.k.rcv.queue| >= y.k.cfg.rcvWnd
    ensures PeekSize(y.k.rcv.queue) >= 0
  {
    hide Peers, Payload, Concat, Messages, FirstMsg;
    PeersInvariant(x, y);
    var r, log := y.k.rcv, x.log;
    var t := |y.taken|;
    assert r.queue[0].frag == Frags(r.queue)[0] == (y.taken + Frags(r.queue))[t] == log[t];
    assert log[t] == (log + x.k.snd.queue)[t];
  }

  /** Every datagram a flush emits fits the mtu; decoding them in order gives exactly the
      pending acknowledgements, then the probes, then the data segments due. */
  lemma FlushEmitsExactly(x: Node, y: Node)
    requires Peers(x, y) && x.k.ctl.updated
    requires PairInRange(StepNode(x, y.net, FlushOp), y)
    ensures var k := x.k;
            var out := Flush(k).out;
            && ParseAll(k.cfg.conv, out) == AckPackets(k) + ProbePackets(k, ProbeTimer(k.ctl)) + FlushScan(k).pkts
            && forall d <- out :: OVERHEAD <= |d| <= k.cfg.mtu && ParseDatagram(k.cfg.conv, d).code == 0
  {
    var k := x.k;
    hide Peers, App, ParseAll, ParseDatagram, Datagrams, FlushState, FlushAdmit, FlushScan, AllValid, Has;
    PeersInvariant(x, y);
    hide SndOk, NoLoss, HonestDatas, HonestAcks, AckPackets, ProbePackets, ProbeTimer, RcvOk;
    FlushSendSide(k, y.k.rcv, x.log);
    FlushHonest(k, x.log + Taken(k.snd, FlushAdmit(k)), y.log);
    DatagramsCarryExactly(k.cfg.conv, k.cfg.mtu, FlushPackets(k));
  }

  /** A refused send leaves the queue as it was, except in stream mode when the last queued
      segment still had room: then that room has been filled. */
  lemma RefusedSendUnchangedIff(k: Kcb, data: bytes)
    requires ValidConfig(k.cfg) && Send(k, data).code != 0
    ensures var q := k.snd.queue;
            Send(k, data).k == k <==> !(k.cfg.stream && q != [] && |q[|q| - 1].data| < Mss(k.cfg))
  {
    hide Split;
    var q := k.snd.queue;
    if k.cfg.stream && q != [] && |q[|q| - 1].data| < Mss(k.cfg) {
      var e := Extend(k, |data|);
      assert FragCount(|data[e..]|, Mss(k.cfg)) >= WND_RCV;
      assert |data| > e && e > 0;
      var q' := Grow(q, data[..e]);
      assert |q'[|q| - 1].data| == |q[|q| - 1].data| + e;
      assert Send(k, data).k.snd.queue == q';
    }
  }

  /** Such a send: the first byte is queued, then more is refused than 127 segments hold, and the
      queued segment has been filled up all the same. */
  lemma RefusedSendGrows(cfg: Config, data: bytes)
    requires ValidConfig(cfg) && cfg.stream && |data| == 129 * Mss(cfg)
    ensures var k := Send(Init(cfg), [7]).k;
            && k.snd.queue == [Frag(0, [7])] && Send(k, data).code == -2
            && Send(k, data).k.snd.queue == [Frag(0, [7] + data[..Mss(cfg) - 1])]
  {
    var mss := Mss(cfg);
    FirstByte(cfg);
    var k := Send(Init(cfg), [7]).k;
    FragCountJustOver(128, mss);
    assert data[mss - 1..] == data[mss - 1..|data|] && 129 * mss - (mss - 1) == 128 * mss + 1;
    hide Init, Split, FragCount;
    assert Extend(k, |data|) == mss - 1;
  }

  lemma FirstByte(cfg: Config)
    requires ValidConfig(cfg) && cfg.stream
    ensures Send(Init(cfg), [7]) == Sent(Init(cfg).(snd := Init(cfg).snd.(queue := [Frag(0, [7])])), 0)
  {
    var one: bytes := [7];
    var mss := Mss(cfg);
    assert one[0..] == one && one[..1] == one;
    assert Split(one, mss, 1, true) == [Frag(0, one)] + Split(one[1..], mss, 0, true);
    hide Split;
  }
}
