/** Two endpoints and a network that may lose, duplicate and reorder datagrams:
    every datagram ever emitted stays deliverable, any number of times or never. */
module KcpSystem {
  import opened Words
  import opened KcpWire
  import opened KcpModel
  import opened KcpLink

  /** An endpoint with its history: `net` the datagrams it emitted, `log` the fragments it
      numbered, `taken` the fragments its application read, `sent` and `got` the messages
      accepted and returned, `fed` the bytes taken over from the application. */
  datatype Node = Node(k: Kcb, net: set<bytes>, log: seq<Frag>, taken: seq<Frag>,
                       sent: seq<bytes>, got: seq<bytes>, fed: bytes)

  datatype Sys = Sys(a: Node, b: Node)

  datatype Op = SendOp(data: bytes) | RecvOp(len: int) | InputOp(datagram: bytes) | FlushOp | UpdateOp(now: u32)

  datatype Event = Event(onA: bool, op: Op)

  function Fresh(cfg: Config): Node { Node(KcpModel.Init(cfg), {}, [], [], [], [], []) }

  function OnEmit(x: Node, e: Emitted): Node {
    x.(k := e.k, net := x.net + (set d | d in e.out), log := x.log + Taken(x.k.snd, e.k.snd))
  }

  function OnRecv(x: Node, len: int): Node {
    var r := Recv(x.k, len);
    if r.code < 0 || len < 0 then x.(k := r.k)
    else
      x.(k := r.k, got := x.got + [r.data],
         taken := x.taken + Frags(x.k.rcv.queue[..MsgCount(x.k.rcv.queue)]))
  }

  function OnSend(x: Node, data: bytes): Node
    requires ValidConfig(x.k.cfg)
  {
    var r := Send(x.k, data);
    if r.code == 0 then x.(k := r.k, sent := x.sent + [data], fed := x.fed + data)
    else x.(k := r.k, fed := x.fed + data[..Extend(x.k, |data|)])
  }

  /** Only datagrams the peer has emitted can arrive. */
  function StepNode(x: Node, peer: set<bytes>, op: Op): (x': Node)
    requires ValidConfig(x.k.cfg)
    ensures x'.k.cfg == x.k.cfg
  {
    match op
    case SendOp(data) => OnSend(x, data)
    case RecvOp(len) => OnRecv(x, len)
    case InputOp(d) => if d in peer then x.(k := Input(x.k, d).k) else x
    case FlushOp => OnEmit(x, Flush(x.k))
    case UpdateOp(now) => OnEmit(x, Update(x.k, now))
  }

  function Step(s: Sys, e: Event): Sys
    requires ValidConfig(s.a.k.cfg) && ValidConfig(s.b.k.cfg)
  {
    if e.onA then s.(a := StepNode(s.a, s.b.net, e.op)) else s.(b := StepNode(s.b, s.a.net, e.op))
  }

  function Run(ca: Config, cb: Config, es: seq<Event>): (s: Sys)
    requires ValidConfig(ca) && ValidConfig(cb)
    ensures s.a.k.cfg == ca && s.b.k.cfg == cb
  {
    if es == [] then Sys(Fresh(ca), Fresh(cb)) else Step(Run(ca, cb, es[..|es| - 1]), es[|es| - 1])
  }

  // ----- the invariant

  /** The direction from `x` to `y`. */
  ghost predicate Half(x: Node, y: Node) {
    Link(x.k.cfg, x.k.snd, y.k.cfg, y.k.rcv, x.log, y.taken, x.net, y.net)
  }

  ghost predicate Pair(x: Node, y: Node) {
    && ValidConfig(x.k.cfg) && ValidConfig(y.k.cfg) && x.k.cfg.conv == y.k.cfg.conv
    && Half(x, y) && Half(y, x)
  }

  ghost predicate PairInRange(x: Node, y: Node) {
    InRange(x.log, y.k.cfg.rcvWnd) && InRange(y.log, x.k.cfg.rcvWnd)
  }

  // ----- ikcp_input

  ghost predicate SendSide(k: Kcb, r: Rcv, log: seq<Frag>) {
    SndOk(k.cfg, k.snd, log) && NoLoss(k.snd, r, log)
  }

  ghost predicate RecvSide(k: Kcb, log: seq<Frag>, taken: seq<Frag>) {
    RcvOk(k.cfg, k.rcv, log, taken) && AcksOk(k.rcv, log)
  }

  lemma InputSegOk(k: Kcb, p: Packet, r: Rcv, log: seq<Frag>, peerLog: seq<Frag>, taken: seq<Frag>)
    requires SendSide(k, r, log) && r.nxt <= |log| < TWO31
    requires RecvSide(k, peerLog, taken) && InRange(peerLog, k.cfg.rcvWnd)
    requires HonestAck(p, r, log) && HonestData(p, peerLog)
    ensures var k' := InputSeg(k, p);
            SendSide(k', r, log) && RecvSide(k', peerLog, taken) && Grows(k.rcv, k'.rcv)
  {
    InputSndOk(k.cfg, k.snd, p, r, log);
    if p.cmd == CMD_PUSH {
      InputPushOk(k.cfg, k.rcv, p, peerLog, taken);
    }
  }

  lemma {:induction false} InputSegsOk(k: Kcb, pkts: seq<Packet>, r: Rcv, log: seq<Frag>, peerLog: seq<Frag>,
                                       taken: seq<Frag>)
    requires SendSide(k, r, log) && r.nxt <= |log| < TWO31
    requires RecvSide(k, peerLog, taken) && InRange(peerLog, k.cfg.rcvWnd)
    requires forall p <- pkts :: HonestAck(p, r, log) && HonestData(p, peerLog)
    ensures var k' := InputSegs(k, pkts);
            SendSide(k', r, log) && RecvSide(k', peerLog, taken) && Grows(k.rcv, k'.rcv)
  {
    hide SendSide, RecvSide, InputSeg, HonestAck, HonestData, Has;
    if pkts != [] {
      var n := |pkts| - 1;
      InputSegsOk(k, pkts[..n], r, log, peerLog, taken);
      var k1 := InputSegs(k, pkts[..n]);
      assert pkts[n] in pkts;
      InputSegOk(k1, pkts[n], r, log, peerLog, taken);
      GrowsTrans(k.rcv, k1.rcv, InputSegs(k, pkts).rcv);
    }
  }

  lemma InputOk(k: Kcb, d: bytes, r: Rcv, log: seq<Frag>, peerLog: seq<Frag>, taken: seq<Frag>)
    requires ValidConfig(k.cfg)
    requires SendSide(k, r, log) && r.nxt <= |log| < TWO31
    requires RecvSide(k, peerLog, taken) && InRange(peerLog, k.cfg.rcvWnd)
    requires forall p <- ParseDatagram(k.cfg.conv, d).pkts :: HonestAck(p, r, log) && HonestData(p, peerLog)
    ensures var k' := Input(k, d).k;
            && SendSide(k', r, log) && RecvSide(k', peerLog, taken) && Grows(k.rcv, k'.rcv) && k'.cfg == k.cfg
            && k'.snd.queue == k.snd.queue
  {
    var pkts := ParseDatagram(k.cfg.conv, d).pkts;
    InputSegsOk(k, pkts, r, log, peerLog, taken);
    InputKeepsQueue(k, pkts);
    hide InputSegs, HighestAck, ParseDatagram, GrowCwnd, RcvOk, SndOk, NoLoss, AcksOk, Grows, Skipped, TimeDiff;
    var k1 := InputSegs(k, pkts);
    var m := HighestAck(pkts);
    if m.MaxAck? {
      SkippedSame(k1.snd.buf, m.sn);
      SameNumbersKeeps(k1.cfg, k1.snd, Skipped(k1.snd.buf, m.sn), r, log);
    }
  }

  lemma {:induction false} InputKeepsQueue(k: Kcb, pkts: seq<Packet>)
    ensures InputSegs(k, pkts).snd.queue == k.snd.queue
  {
    hide InputCtl, InputRcv, AckUna, DropSn, TimeDiff;
    if pkts != [] { InputKeepsQueue(k, pkts[..|pkts| - 1]); }
  }

  // ----- what the two directions need from each other

  lemma GrowsKeepsNoLoss(s: Snd, r: Rcv, r': Rcv, log: seq<Frag>)
    requires NoLoss(s, r, log) && Grows(r, r')
    ensures NoLoss(s, r', log)
  {
    hide Has, Unacked;
  }

  lemma GrowsKeepsAcks(conv: Guid, net: set<bytes>, r: Rcv, r': Rcv, log: seq<Frag>)
    requires HonestAcks(conv, net, r, log) && Grows(r, r')
    ensures HonestAcks(conv, net, r', log)
  {
    hide Has, ParseDatagram;
    forall d, p | d in net && p in ParseDatagram(conv, d).pkts
      ensures HonestAck(p, r', log)
    {
      assert HonestAck(p, r, log);
    }
  }

  /** Replacing the control block of `x` by one that keeps both sides keeps the pair. */
  lemma ReplaceBlock(x: Node, y: Node, x': Node)
    requires Pair(x, y)
    requires x'.k.cfg == x.k.cfg && x'.log == x.log && x'.net == x.net
    requires SendSide(x'.k, y.k.rcv, x.log)
    requires RecvSide(x'.k, y.log, x'.taken) && Grows(x.k.rcv, x'.k.rcv)
    ensures Pair(x', y)
  {
    hide ValidConfig, SndOk, RcvOk, AcksOk, NoLoss, HonestDatas, HonestAcks, Grows;
    GrowsKeepsNoLoss(y.k.snd, x.k.rcv, x'.k.rcv, y.log);
    GrowsKeepsAcks(x.k.cfg.conv, x.net, x.k.rcv, x'.k.rcv, y.log);
  }

  lemma InputStep(x: Node, y: Node, d: bytes)
    requires Pair(x, y) && PairInRange(x, y) && d in y.net
    ensures Pair(x.(k := Input(x.k, d).k), y)
  {
    hide SndOk, NoLoss, AcksOk, HonestData, HonestAck, Input, ParseDatagram, ReorderOk, Settled, ValidConfig;
    assert forall p <- ParseDatagram(x.k.cfg.conv, d).pkts :: HonestAck(p, y.k.rcv, x.log) && HonestData(p, y.log);
    InputOk(x.k, d, y.k.rcv, x.log, y.log, x.taken);
    hide Half, Pair, Grows, InRange;
    ReplaceBlock(x, y, x.(k := Input(x.k, d).k));
  }

  // ----- ikcp_recv

  lemma RecvStep(x: Node, y: Node, len: int)
    requires Pair(x, y) && PairInRange(x, y)
    ensures Pair(OnRecv(x, len), y)
  {
    hide SndOk, NoLoss, HonestAcks, HonestDatas, MoveReady, MsgCount, FirstMsg, PeekSize, Grows, Has, InOrder,
         ReorderOk, Settled;
    var q := x.k.rcv.queue;
    var n := if len < 0 then 0 else MsgCount(q);
    var x' := OnRecv(x, len);
    if Recv(x.k, len).code >= 0 {
      RecvOk(x.k.cfg, x.k.rcv, n, y.log, x.taken);
      assert q[0..] == q && x.taken + Frags(q[..0]) == x.taken;
      AcksSurvive(x.k.rcv, x'.k.rcv, y.log);
      hide Half, Pair, RcvOk, AcksOk;
      ReplaceBlock(x, y, x');
    }
  }

  lemma AcksSurvive(r: Rcv, r': Rcv, log: seq<Frag>)
    requires AcksOk(r, log) && Grows(r, r') && r'.acks == r.acks
    ensures AcksOk(r', log)
  {
    hide Has;
  }

  // ----- ikcp_send

  lemma {:induction false} SplitFits(data: bytes, mss: nat, count: nat, stream: bool)
    requires count <= 256
    ensures |Split(data, mss, count, stream)| == count
    ensures forall i :: 0 <= i < count ==> |Split(data, mss, count, stream)[i].data| <= mss
    decreases count
  {
    if count > 0 { SplitFits(data[Min(|data|, mss)..], mss, count - 1, stream); }
  }

  lemma SendFits(k: Kcb, data: bytes)
    requires ValidConfig(k.cfg) && Fits(k.cfg, k.snd.queue)
    ensures Fits(k.cfg, Send(k, data).k.snd.queue)
  {
    var rest := data[Extend(k, |data|)..];
    assert Fits(k.cfg, Extended(k, data));
    var count := FragCount(|rest|, Mss(k.cfg));
    if count < WND_RCV { SplitFits(rest, Mss(k.cfg), count, k.cfg.stream); }
    hide Split, Extended, Extend, FragCount;
  }

  lemma SendStep(x: Node, y: Node, data: bytes)
    requires Pair(x, y)
    ensures Pair(OnSend(x, data), y)
  {
    SendFits(x.k, data);
    var x' := OnSend(x, data);
    QueueIrrelevant(x.k.rcv, x.k.rcv.queue, x.k.rcv.acks);
    assert x'.k == x.k.(snd := x.k.snd.(queue := x'.k.snd.queue));
    hide Send, Extend, Fits, BufOk, RcvOk, AcksOk, HonestAcks, HonestDatas, Grows, Has, Unacked;
    assert NoLoss(x'.k.snd, y.k.rcv, x.log) by { SameBufSameLoss(x.k.snd, x'.k.snd, y.k.rcv, x.log); }
    hide NoLoss, SndOk, ValidConfig;
    assert SndOk(x'.k.cfg, x'.k.snd, x.log);
    ReplaceBlock(x, y, x');
  }

  lemma SameBufSameLoss(s: Snd, s': Snd, r: Rcv, log: seq<Frag>)
    requires NoLoss(s, r, log) && s'.buf == s.buf
    ensures NoLoss(s', r, log)
  {
    hide Has;
    forall sn | 0 <= sn < |log| && !Has(r, sn)
      ensures Unacked(s', sn)
    {
      assert Unacked(s, sn);
    }
  }

  // ----- ikcp_flush

  lemma {:induction false} ScanHonest(buf: seq<OutSeg>, cfg: Config, c: Ctl, wnd: u32, una: u32)
    ensures forall p <- ScanBuf(buf, cfg, c, wnd, una).pkts ::
              p.cmd == CMD_PUSH && p.una == una
              && exists i :: 0 <= i < |buf| && buf[i].sn == p.sn && buf[i].frag == Frag(p.frg, p.data)
  {
    if buf != [] {
      var n := |buf| - 1;
      ScanHonest(buf[..n], cfg, c, wnd, una);
      SendHonest(buf[n], cfg, c, wnd, una);
      hide SendSeg, WhySend, ScanBuf;
      ScanUnfold(buf, cfg, c, wnd, una);
      forall p <- ScanBuf(buf, cfg, c, wnd, una).pkts
        ensures p.cmd == CMD_PUSH && p.una == una
                && exists i :: 0 <= i < |buf| && buf[i].sn == p.sn && buf[i].frag == Frag(p.frg, p.data)
      {
        if p in ScanBuf(buf[..n], cfg, c, wnd, una).pkts {
          var i :| 0 <= i < n && buf[..n][i].sn == p.sn && buf[..n][i].frag == Frag(p.frg, p.data);
          assert buf[i].sn == p.sn;
        } else {
          assert buf[n].sn == p.sn;
        }
      }
    }
  }

  lemma ScanUnfold(buf: seq<OutSeg>, cfg: Config, c: Ctl, wnd: u32, una: u32)
    requires buf != []
    ensures var n := |buf| - 1;
            var sent := if WhySend(buf[n], cfg, c).Keep? then [] else [DataPacket(SendSeg(buf[n], cfg, c, wnd, una))];
            ScanBuf(buf, cfg, c, wnd, una).pkts == ScanBuf(buf[..n], cfg, c, wnd, una).pkts + sent
  {
    hide SendSeg, WhySend;
  }

  lemma SendHonest(seg: OutSeg, cfg: Config, c: Ctl, wnd: u32, una: u32)
    ensures !WhySend(seg, cfg, c).Keep? ==>
              var p := DataPacket(SendSeg(seg, cfg, c, wnd, una));
              p.cmd == CMD_PUSH && p.una == una && p.sn == seg.sn && seg.frag == Frag(p.frg, p.data)
  {
    hide TimeDiff, Add32;
  }

  lemma BarePackets(k: Kcb, p: Packet)
    requires p in AckPackets(k) + ProbePackets(k, ProbeTimer(k.ctl))
    ensures p.cmd != CMD_PUSH && ValidCmd(p.cmd) && p.data == [] && p.una == k.rcv.nxt
    ensures p.cmd == CMD_ACK ==> exists i :: 0 <= i < |k.rcv.acks| && k.rcv.acks[i].sn == p.sn
  {
    hide ProbeTimer, WndUnused;
    if p in AckPackets(k) {
      var i :| 0 <= i < |k.rcv.acks| && AckPackets(k)[i] == p;
      assert k.rcv.acks[i].sn == p.sn;
    }
  }

  /** Everything a flush emits is honest about the log it leaves and the data it holds. */
  lemma FlushHonest(k: Kcb, log: seq<Frag>, peerLog: seq<Frag>)
    requires ValidConfig(k.cfg) && AcksOk(k.rcv, peerLog)
    requires SndOk(k.cfg, FlushAdmit(k), log)
    ensures AllValid(FlushPackets(k))
    ensures forall i :: 0 <= i < |FlushPackets(k)| ==> OVERHEAD + |FlushPackets(k)[i].data| <= k.cfg.mtu
    ensures forall p <- FlushPackets(k) :: HonestData(p, log) && HonestAck(p, k.rcv, peerLog)
  {
    var bare := AckPackets(k) + ProbePackets(k, ProbeTimer(k.ctl));
    var data := FlushScan(k).pkts;
    ScanHonest(FlushAdmit(k).buf, k.cfg, ProbeTimer(k.ctl), WndUnused(k), k.rcv.nxt);
    forall p <- FlushPackets(k)
      ensures ValidPacket(p) && OVERHEAD + |p.data| <= k.cfg.mtu
      ensures HonestData(p, log) && HonestAck(p, k.rcv, peerLog)
    {
      hide AckPackets, ProbePackets, ProbeTimer, FlushScan, FlushAdmit, WndUnused, Has;
      if p in bare {
        BarePackets(k, p);
      } else {
        assert p in data;
      }
    }
  }

  /** A longer log keeps what was said about the shorter one. */
  lemma LogGrows(cr: Config, r: Rcv, log: seq<Frag>, more: seq<Frag>, taken: seq<Frag>)
    requires RcvOk(cr, r, log, taken) && AcksOk(r, log)
    ensures RcvOk(cr, r, log + more, taken) && AcksOk(r, log + more)
  {
    hide Has, Frags;
    assert (log + more)[..r.nxt] == log[..r.nxt];
  }

  lemma LogGrowsNet(conv: Guid, net: set<bytes>, log: seq<Frag>, more: seq<Frag>)
    requires HonestDatas(conv, net, log)
    ensures HonestDatas(conv, net, log + more)
  {
    hide ParseDatagram;
    forall d, p | d in net && p in ParseDatagram(conv, d).pkts
      ensures HonestData(p, log + more)
    {
      assert HonestData(p, log);
    }
  }

  lemma LogGrowsAcks(conv: Guid, net: set<bytes>, r: Rcv, log: seq<Frag>, more: seq<Frag>)
    requires HonestAcks(conv, net, r, log)
    ensures HonestAcks(conv, net, r, log + more)
  {
    hide ParseDatagram, Has;
    forall d, p | d in net && p in ParseDatagram(conv, d).pkts
      ensures HonestAck(p, r, log + more)
    {
      assert HonestAck(p, r, log);
    }
  }

  /** Datagrams made of honest segments can join the network. */
  lemma EmitHonest(conv: Guid, net: set<bytes>, mtu: nat, pkts: seq<Packet>, log: seq<Frag>, r: Rcv, peerLog: seq<Frag>)
    requires HonestDatas(conv, net, log) && HonestAcks(conv, net, r, peerLog)
    requires AllValid(pkts) && forall i :: 0 <= i < |pkts| ==> OVERHEAD + |pkts[i].data| <= mtu
    requires forall p <- pkts :: HonestData(p, log) && HonestAck(p, r, peerLog)
    ensures var net' := net + (set d | d in Datagrams(conv, mtu, pkts));
            HonestDatas(conv, net', log) && HonestAcks(conv, net', r, peerLog)
  {
    hide ParseDatagram, Has, HonestData, HonestAck, Datagrams, AllValid;
    DatagramsCarryExactly(conv, mtu, pkts);
    var net' := net + (set d | d in Datagrams(conv, mtu, pkts));
    forall d, p | d in net' && p in ParseDatagram(conv, d).pkts
      ensures HonestData(p, log) && HonestAck(p, r, peerLog)
    {
    }
  }

  lemma FlushSendSide(k: Kcb, r: Rcv, log: seq<Frag>)
    requires ValidConfig(k.cfg) && SendSide(k, r, log)
    requires |log + Taken(k.snd, FlushState(k).snd)| + TWO16 <= TWO31
    ensures Taken(k.snd, FlushState(k).snd) == Taken(k.snd, FlushAdmit(k))
    ensures SndOk(k.cfg, FlushAdmit(k), log + Taken(k.snd, FlushAdmit(k)))
    ensures SendSide(FlushState(k), r, log + Taken(k.snd, FlushState(k).snd))
    ensures k.snd.queue == Taken(k.snd, FlushState(k).snd) + FlushState(k).snd.queue
  {
    hide SndOk, NoLoss, ScanBuf, Admit, WndUnused, Congestion, ProbeTimer, Wrap32;
    var c := ProbeTimer(k.ctl);
    var s1 := FlushAdmit(k);
    assert FlushState(k).snd.queue == s1.queue;
    AdmitOk(k.cfg, k.snd, EffectiveWnd(k.cfg, c), WndUnused(k), k.rcv.nxt, c, r, log);
    ScanSame(s1.buf, k.cfg, c, WndUnused(k), k.rcv.nxt);
    SameNumbersKeeps(k.cfg, s1, FlushScan(k).buf, r, log + Taken(k.snd, s1));
  }

  lemma FlushStep(x: Node, y: Node)
    requires Pair(x, y) && x.k.ctl.updated
    requires |OnEmit(x, Flush(x.k)).log| + TWO16 <= TWO31
    ensures Pair(OnEmit(x, Flush(x.k)), y)
  {
    var k, k' := x.k, FlushState(x.k);
    var more := Taken(k.snd, k'.snd);
    var log' := x.log + more;
    var conv := k.cfg.conv;
    var pkts := FlushPackets(k);
    FlushSendSide(k, y.k.rcv, x.log);
    assert k'.cfg == k.cfg && k'.rcv == k.rcv.(acks := []);
    hide FlushState, FlushPackets, FlushAdmit, SndOk, NoLoss, Has, ValidConfig, Taken;
    FlushHonest(k, log', y.log);
    LogGrows(y.k.cfg, y.k.rcv, x.log, more, y.taken);
    LogGrowsNet(conv, x.net, x.log, more);
    LogGrowsAcks(conv, y.net, y.k.rcv, x.log, more);
    hide HonestDatas, HonestAcks, Grows;
    EmitHonest(conv, x.net, k.cfg.mtu, pkts, log', k.rcv, y.log);
    FlushedReceiver(x, y, k'.rcv, OnEmit(x, Flush(x.k)).net);
  }

  /** Dropping the sent acknowledgements keeps the receiving half. */
  lemma FlushedReceiver(x: Node, y: Node, r': Rcv, net': set<bytes>)
    requires Half(y, x) && r' == x.k.rcv.(acks := []) && x.k.cfg.conv == y.k.cfg.conv
    requires HonestAcks(x.k.cfg.conv, net', x.k.rcv, y.log)
    ensures Link(y.k.cfg, y.k.snd, x.k.cfg, r', y.log, x.taken, y.net, net')
  {
    QueueIrrelevant(x.k.rcv, x.k.rcv.queue, []);
    assert RcvOk(x.k.cfg, r', y.log, x.taken);
    hide SndOk, RcvOk, NoLoss, HonestDatas, HonestAcks, Grows;
    GrowsKeepsNoLoss(y.k.snd, x.k.rcv, r', y.log);
    GrowsKeepsAcks(x.k.cfg.conv, net', x.k.rcv, r', y.log);
  }

  lemma EmitNothing(x: Node, k: Kcb)
    requires k.snd == x.k.snd
    ensures OnEmit(x, Emitted(k, [])) == x.(k := k)
  {
    assert x.net + {} == x.net && x.log + [] == x.log;
  }

  /** Clocks, windows and probe flags are not part of the invariant. */
  lemma ClockStep(x: Node, y: Node, c: Ctl)
    requires Pair(x, y)
    ensures Pair(x.(k := x.k.(ctl := c)), y)
  {
    hide SndOk, RcvOk, NoLoss, AcksOk, HonestDatas, HonestAcks, ValidConfig;
  }

  lemma EmitStep(x: Node, y: Node)
    requires Pair(x, y)
    requires |OnEmit(x, Flush(x.k)).log| + TWO16 <= TWO31
    ensures Pair(OnEmit(x, Flush(x.k)), y)
  {
    hide Pair, FlushState, FlushPackets, Datagrams, Taken;
    if x.k.ctl.updated {
      FlushStep(x, y);
    } else {
      EmitNothing(x, x.k);
    }
  }

  /** Every step of either endpoint keeps the invariant of both directions. */
  lemma StepKeepsPair(x: Node, y: Node, op: Op)
    requires Pair(x, y) && PairInRange(x, y)
    requires PairInRange(StepNode(x, y.net, op), y)
    ensures Pair(StepNode(x, y.net, op), y)
  {
    hide Half, OnSend, OnRecv, Input, Flush, Taken;
    match op
    case SendOp(data) => SendStep(x, y, data);
    case RecvOp(len) => RecvStep(x, y, len);
    case InputOp(d) => if d in y.net { InputStep(x, y, d); }
    case FlushOp => EmitStep(x, y);
    case UpdateOp(now) =>
      var c := x.k.ctl.(current := now, updated := true);
      match OnTick(x.k.ctl, x.k.cfg, now) {
        case Wait =>
          ClockStep(x, y, c);
          EmitNothing(x, x.k.(ctl := c));
        case Fire(next) =>
          var x1 := x.(k := x.k.(ctl := c.(tsFlush := next)));
          ClockStep(x, y, c.(tsFlush := next));
          assert StepNode(x, y.net, op) == OnEmit(x1, Flush(x1.k));
          EmitStep(x1, y);
      }
  }

  lemma LogOnlyGrows(x: Node, peer: set<bytes>, op: Op)
    requires ValidConfig(x.k.cfg)
    ensures x.log <= StepNode(x, peer, op).log
  {
    hide Send, Recv, Input, Flush, Update, Taken;
  }

  lemma FreshPair(ca: Config, cb: Config)
    requires ValidConfig(ca) && ValidConfig(cb) && ca.conv == cb.conv
    ensures Pair(Fresh(ca), Fresh(cb))
  {
    assert Frags([]) == [];
  }

  /** In every run the invariant of both directions holds at the end. */
  lemma {:induction false} RunKeepsPair(ca: Config, cb: Config, es: seq<Event>)
    requires ValidConfig(ca) && ValidConfig(cb) && ca.conv == cb.conv
    requires PairInRange(Run(ca, cb, es).a, Run(ca, cb, es).b)
    ensures Pair(Run(ca, cb, es).a, Run(ca, cb, es).b)
  {
    hide Pair, StepNode;
    if es == [] {
      FreshPair(ca, cb);
    } else {
      var n := |es| - 1;
      var s, e := Run(ca, cb, es[..n]), es[n];
      assert Run(ca, cb, es) == Step(s, e);
      if e.onA {
        LogOnlyGrows(s.a, s.b.net, e.op);
        RunKeepsPair(ca, cb, es[..n]);
        StepKeepsPair(s.a, s.b, e.op);
      } else {
        LogOnlyGrows(s.b, s.a.net, e.op);
        RunKeepsPair(ca, cb, es[..n]);
        PairSwap(s.a, s.b);
        StepKeepsPair(s.b, s.a, e.op);
        PairSwap(StepNode(s.b, s.a.net, e.op), s.a);
      }
    }
  }

  lemma PairSwap(x: Node, y: Node)
    requires Pair(x, y)
    ensures Pair(y, x)
  {
    hide Half;
  }
}
