/** Nothing that goes wrong on the way is final: from every state a run can reach, and even if
    the network then loses all that is in flight, the two ends can still bring everything over. */
module KcpProgress {
  import opened Words
  import opened KcpWire
  import opened KcpModel
  import opened KcpLink
  import opened KcpSystem
  import opened KcpMessages
  import opened KcpTheorems

  // ----- continuations without new data

  ghost predicate NoSend(es: seq<Event>) { forall e <- es :: !e.op.SendOp? }

  ghost predicate ValidConfigs(s: Sys) { ValidConfig(s.a.k.cfg) && ValidConfig(s.b.k.cfg) }

  ghost function After(s: Sys, es: seq<Event>): (t: Sys)
    requires ValidConfigs(s)
    ensures ValidConfigs(t)
    decreases |es|
  {
    if es == [] then s else After(Step(s, es[0]), es[1..])
  }

  ghost predicate Reaches(s: Sys, t: Sys)
    requires ValidConfigs(s)
  {
    exists es :: NoSend(es) && After(s, es) == t
  }

  lemma {:induction false} AfterAppend(s: Sys, es: seq<Event>, fs: seq<Event>)
    requires ValidConfigs(s)
    ensures After(s, es + fs) == After(After(s, es), fs)
    decreases |es|
  {
    hide Step, ValidConfig;
    if es == [] {
      assert es + fs == fs;
    } else {
      StepConfigs(s, es[0]);
      AfterAppend(Step(s, es[0]), es[1..], fs);
      assert (es + fs)[1..] == es[1..] + fs;
    }
  }

  lemma StepConfigs(s: Sys, e: Event)
    requires ValidConfigs(s)
    ensures ValidConfigs(Step(s, e))
  {
    hide StepNode, ValidConfig;
  }

  lemma ReachSelf(s: Sys)
    requires ValidConfigs(s)
    ensures Reaches(s, s)
  {
    assert After(s, []) == s && NoSend([]);
  }

  lemma ReachStep(s: Sys, e: Event)
    requires ValidConfigs(s) && !e.op.SendOp?
    ensures ValidConfigs(Step(s, e)) && Reaches(s, Step(s, e))
  {
    hide Step;
    StepConfigs(s, e);
    var t := Step(s, e);
    assert [e][1..] == [] && After(t, []) == t;
    assert After(s, [e]) == t && NoSend([e]);
  }

  lemma ReachTrans(s: Sys, t: Sys, u: Sys)
    requires ValidConfigs(s) && Reaches(s, t) && ValidConfigs(t) && Reaches(t, u)
    ensures Reaches(s, u)
  {
    hide After, ValidConfigs;
    var es :| NoSend(es) && After(s, es) == t;
    var fs :| NoSend(fs) && After(t, fs) == u;
    AfterAppend(s, es, fs);
    assert NoSend(es + fs);
  }

  // ----- the invariant, with room for what is queued

  ghost predicate Room(x: Node, y: Node) {
    var n := |x.log| + |x.k.snd.queue|;
    n + y.k.cfg.rcvWnd <= TWO31 && n + TWO16 <= TWO31
  }

  ghost predicate Good(x: Node, y: Node) {
    Pair(x, y) && App(x, y) && App(y, x) && Room(x, y) && Room(y, x)
  }

  lemma GoodSwap(x: Node, y: Node)
    requires Good(x, y)
    ensures Good(y, x)
  {
    hide App, Half, Room;
    PairSwap(x, y);
  }

  /** Everything but the numbering stays what it was for the other end. */
  ghost predicate SameSource(x: Node, x': Node) {
    && x'.k.cfg == x.k.cfg && x'.sent == x.sent && x'.fed == x.fed
    && x'.log + x'.k.snd.queue == x.log + x.k.snd.queue && x.log <= x'.log
  }

  lemma LogBound(x: Node, peer: set<bytes>, op: Op)
    requires ValidConfig(x.k.cfg) && !op.SendOp?
    ensures |StepNode(x, peer, op).log| <= |x.log| + |x.k.snd.queue|
  {
    hide Recv, Input, Flush, Update;
  }

  lemma StepSource(x: Node, y: Node, op: Op)
    requires Pair(x, y) && Room(x, y) && !op.SendOp?
    ensures SameSource(x, StepNode(x, y.net, op))
  {
    LogBound(x, y.net, op);
    LogOnlyGrows(x, y.net, op);
    hide Half;
    match op
    case RecvOp(len) => RecvTouches(x, len);
    case InputOp(d) => hide Input; if d in y.net { InputMoves(x, d); }
    case FlushOp => hide Flush, Taken; FlushMoves(x, y);
    case UpdateOp(now) => UpdateMoves(x, y, now); hide Update, Taken;
  }

  lemma GoodStep(x: Node, y: Node, op: Op)
    requires Good(x, y) && !op.SendOp?
    ensures Good(StepNode(x, y.net, op), y) && SameSource(x, StepNode(x, y.net, op))
  {
    hide StepNode, Half, App, ValidConfig;
    var x' := StepNode(x, y.net, op);
    LogBound(x, y.net, op);
    StepSource(x, y, op);
    hide Pair;
    StepKeepsPair(x, y, op);
    StepKeepsApp(x, y, op);
    assert |x'.log| + |x'.k.snd.queue| == |x'.log + x'.k.snd.queue|;
    assert |x.log| + |x.k.snd.queue| == |x.log + x.k.snd.queue|;
  }

  // ----- one end acts

  function Me(s: Sys, onA: bool): Node { if onA then s.a else s.b }

  function Peer(s: Sys, onA: bool): Node { if onA then s.b else s.a }

  ghost predicate GoodSys(s: Sys) { Good(s.a, s.b) }

  /** One action of one end: the other is untouched, and the connection stays sound. */
  lemma Act(s: Sys, onA: bool, op: Op)
    requires GoodSys(s) && !op.SendOp?
    ensures ValidConfigs(s)
    ensures var t := Step(s, Event(onA, op));
            && GoodSys(t) && Reaches(s, t) && Peer(t, onA) == Peer(s, onA) && SameSource(Me(s, onA), Me(t, onA))
            && Me(t, onA) == StepNode(Me(s, onA), Peer(s, onA).net, op)
  {
    assert ValidConfigs(s);
    ReachStep(s, Event(onA, op));
    hide StepNode, Reaches, SameSource, App, Half;
    if onA {
      GoodStep(s.a, s.b, op);
    } else {
      GoodSwap(s.a, s.b);
      GoodStep(s.b, s.a, op);
      GoodSwap(Step(s, Event(onA, op)).b, s.a);
    }
  }

  /** The same endpoint with its clock at `now`. */
  ghost predicate ClockAt(k: Kcb, k1: Kcb, now: u32) {
    && k1 == k.(ctl := k1.ctl)
    && k1.ctl == k.ctl.(current := now, updated := true, tsFlush := k1.ctl.tsFlush)
  }

  lemma UpdateWaits(x: Node, now: u32)
    requires OnTick(x.k.ctl, x.k.cfg, now).Wait?
    ensures OnEmit(x, Update(x.k, now)) == x.(k := x.k.(ctl := x.k.ctl.(current := now, updated := true)))
  {
    EmitNothing(x, x.k.(ctl := x.k.ctl.(current := now, updated := true)));
  }

  lemma UpdateFires(x: Node, now: u32)
    requires OnTick(x.k.ctl, x.k.cfg, now).Fire?
    ensures var k1 := x.k.(ctl := x.k.ctl.(current := now, updated := true,
                                           tsFlush := OnTick(x.k.ctl, x.k.cfg, now).tsFlush));
            OnEmit(x, Update(x.k, now)) == OnEmit(x.(k := k1), Flush(k1))
  {
    hide Flush, Taken;
  }

  /** Either end can flush with its clock at any time we like. */
  lemma FlushAt(s: Sys, onA: bool, now: u32) returns (t: Sys, k1: Kcb)
    requires GoodSys(s) && ValidConfigs(s)
    ensures GoodSys(t) && ValidConfigs(t) && Reaches(s, t) && Peer(t, onA) == Peer(s, onA)
    ensures SameSource(Me(s, onA), Me(t, onA)) && ClockAt(Me(s, onA).k, k1, now)
    ensures Me(t, onA) == OnEmit(Me(s, onA).(k := k1), Flush(k1))
  {
    hide GoodSys, Reaches, Step, Flush, Taken;
    var x := Me(s, onA);
    Act(s, onA, UpdateOp(now));
    var u := Step(s, Event(onA, UpdateOp(now)));
    StepConfigs(s, Event(onA, UpdateOp(now)));
    if OnTick(x.k.ctl, x.k.cfg, now).Fire? {
      t, k1 := u, x.k.(ctl := x.k.ctl.(current := now, updated := true,
                                       tsFlush := OnTick(x.k.ctl, x.k.cfg, now).tsFlush));
      UpdateFires(x, now);
    } else {
      k1 := x.k.(ctl := x.k.ctl.(current := now, updated := true));
      UpdateWaits(x, now);
      t := Step(u, Event(onA, FlushOp));
      Act(u, onA, FlushOp);
      StepConfigs(u, Event(onA, FlushOp));
      ReachTrans(s, u, t);
      assert Me(u, onA) == x.(k := k1);
      SourceTrans(x, Me(u, onA), Me(t, onA));
    }
  }

  lemma SourceTrans(x: Node, x': Node, x'': Node)
    requires SameSource(x, x') && SameSource(x', x'')
    ensures SameSource(x, x'')
  {
  }

  // ----- what a flush puts on the wire

  lemma {:induction false} InSomeDatagram(conv: Guid, ds: seq<bytes>, p: Packet)
    requires p in ParseAll(conv, ds)
    ensures exists d <- ds :: p in ParseDatagram(conv, d).pkts
    decreases |ds|
  {
    hide ParseDatagram;
    var n := |ds| - 1;
    if p in ParseDatagram(conv, ds[n]).pkts {
      assert ds[n] in ds;
    } else {
      InSomeDatagram(conv, ds[..n], p);
      var d :| d in ds[..n] && p in ParseDatagram(conv, d).pkts;
      assert d in ds;
    }
  }

  /** Every segment of a flush is in some datagram that the flush adds to the network. */
  lemma Carrier(x: Node, y: Node, p: Packet) returns (d: bytes)
    requires Pair(x, y) && Room(x, y) && x.k.ctl.updated && p in FlushPackets(x.k)
    ensures d in OnEmit(x, Flush(x.k)).net && p in ParseDatagram(x.k.cfg.conv, d).pkts
    ensures ParseDatagram(x.k.cfg.conv, d).code == 0
    ensures forall q <- ParseDatagram(x.k.cfg.conv, d).pkts :: q in FlushPackets(x.k)
  {
    hide SndOk, RcvOk, NoLoss, HonestDatas, HonestAcks, AcksOk, FlushState, FlushAdmit, FlushPackets,
         ParseDatagram, ParseAll, Datagrams, AllValid;
    var k := x.k;
    LogBound(x, y.net, FlushOp);
    assert |x.log + Taken(k.snd, FlushState(k).snd)| + TWO16 <= TWO31;
    FlushSendSide(k, y.k.rcv, x.log);
    FlushHonest(k, x.log + Taken(k.snd, FlushAdmit(k)), y.log);
    DatagramsCarryExactly(k.cfg.conv, k.cfg.mtu, FlushPackets(k));
    var out := Datagrams(k.cfg.conv, k.cfg.mtu, FlushPackets(k));
    InSomeDatagram(k.cfg.conv, out, p);
    d :| d in out && p in ParseDatagram(k.cfg.conv, d).pkts;
  }

  lemma {:induction false} AdmitAppends(s: Snd, w: u32, wnd: u32, una: u32, c: Ctl)
    ensures s.buf <= Admit(s, w, wnd, una, c).buf
    decreases |s.queue|
  {
    hide TimeDiff, Add32;
    if s.queue != [] && TimeDiff(s.nxt, Add32(s.una, w)) < 0 {
      AdmitAppends(s.(queue := s.queue[1..], nxt := Add32(s.nxt, 1),
                      buf := s.buf + [Numbered(s.queue[0], s.nxt, wnd, una, c)]), w, wnd, una, c);
    }
  }

  lemma {:induction false} ScanSends(buf: seq<OutSeg>, i: nat, cfg: Config, c: Ctl, wnd: u32, una: u32)
    returns (p: Packet)
    requires i < |buf| && !WhySend(buf[i], cfg, c).Keep?
    ensures p in ScanBuf(buf, cfg, c, wnd, una).pkts && p.cmd == CMD_PUSH && p.sn == buf[i].sn
    decreases |buf|
  {
    var n := |buf| - 1;
    ScanUnfold(buf, cfg, c, wnd, una);
    hide ScanBuf, WhySend, SendSeg;
    if i == n {
      SendHonest(buf[n], cfg, c, wnd, una);
      p := DataPacket(SendSeg(buf[n], cfg, c, wnd, una));
    } else {
      p := ScanSends(buf[..n], i, cfg, c, wnd, una);
    }
  }

  /** A segment that is due, or was never sent, is on the wire. */
  lemma DueIsSent(k: Kcb, i: nat) returns (p: Packet)
    requires i < |k.snd.buf| && (k.snd.buf[i].xmit == 0 || TimeDiff(k.ctl.current, k.snd.buf[i].resendts) >= 0)
    ensures p in FlushPackets(k) && p.cmd == CMD_PUSH && p.sn == k.snd.buf[i].sn
  {
    var c := ProbeTimer(k.ctl);
    AdmitAppends(k.snd, EffectiveWnd(k.cfg, c), WndUnused(k), k.rcv.nxt, c);
    var buf := FlushAdmit(k).buf;
    assert buf[i] == k.snd.buf[i];
    hide Admit, ScanBuf, AckPackets, ProbePackets, WndUnused, EffectiveWnd;
    p := ScanSends(buf, i, k.cfg, c, WndUnused(k), k.rcv.nxt);
    assert p in FlushScan(k).pkts;
  }

  lemma {:induction false} ScanSays(buf: seq<OutSeg>, cfg: Config, c: Ctl, wnd: u32, una: u32)
    ensures forall p <- ScanBuf(buf, cfg, c, wnd, una).pkts :: p.una == una && p.wnd == wnd % TWO16
    decreases |buf|
  {
    if buf != [] {
      var n := |buf| - 1;
      ScanUnfold(buf, cfg, c, wnd, una);
      ScanSays(buf[..n], cfg, c, wnd, una);
      SendSays(buf[n], cfg, c, wnd, una);
      hide ScanBuf, WhySend, SendSeg;
    }
  }

  lemma SendSays(seg: OutSeg, cfg: Config, c: Ctl, wnd: u32, una: u32)
    ensures !WhySend(seg, cfg, c).Keep? ==>
              var p := DataPacket(SendSeg(seg, cfg, c, wnd, una)); p.una == una && p.wnd == wnd % TWO16
  {
    hide TimeDiff, Add32;
  }

  /** Every segment of a flush carries what the receiving half has to say. */
  lemma AllSay(k: Kcb)
    ensures forall p <- FlushPackets(k) :: p.una == k.rcv.nxt && p.wnd == WndUnused(k) % TWO16
  {
    ScanSays(FlushAdmit(k).buf, k.cfg, ProbeTimer(k.ctl), WndUnused(k), k.rcv.nxt);
    hide FlushAdmit, ScanBuf, ProbeTimer, WndUnused;
  }

  // ----- what arriving segments do

  lemma PushIsHeld(cfg: Config, r: Rcv, p: Packet, log: seq<Frag>, taken: seq<Frag>)
    requires RcvOk(cfg, r, log, taken) && InRange(log, cfg.rcvWnd)
    requires p.sn < |log| && Frag(p.frg, p.data) == log[p.sn] && p.sn < r.nxt + cfg.rcvWnd
    ensures var r' := InputPush(r, cfg.rcvWnd, p); Has(r', p.sn) && r'.acks == r.acks + [Ack(p.sn, p.ts)]
  {
    DiffInRange(p.sn, Add32(r.nxt, cfg.rcvWnd));
    DiffInRange(p.sn, r.nxt);
    if p.sn >= r.nxt {
      var seg := InSeg(p.sn, Frag(p.frg, p.data));
      var r1 := r.(acks := r.acks + [Ack(p.sn, p.ts)]);
      var r2 := r1.(buf := Insert(r1.buf, seg));
      InsertOk(r.nxt, r.buf, seg, cfg.rcvWnd, log);
      hide Insert, MoveReady, Has, ReorderOk, Grows;
      InsertGrows(r1, seg);
      MoveReadyOk(r2, cfg.rcvWnd, log, taken);
      HasGrows(r2, MoveReady(r2, cfg.rcvWnd), p.sn);
    }
  }

  /** A data segment in the window is held, and acknowledged, once its datagram is through. */
  lemma {:induction false} InputSegsHolds(k: Kcb, pkts: seq<Packet>, p: Packet, r: Rcv, log: seq<Frag>,
                                          peerLog: seq<Frag>, taken: seq<Frag>)
    requires SendSide(k, r, log) && r.nxt <= |log| < TWO31
    requires RecvSide(k, peerLog, taken) && InRange(peerLog, k.cfg.rcvWnd)
    requires forall q <- pkts :: HonestAck(q, r, log) && HonestData(q, peerLog)
    requires p in pkts && p.cmd == CMD_PUSH && p.sn < k.rcv.nxt + k.cfg.rcvWnd
    ensures Has(InputSegs(k, pkts).rcv, p.sn) && InputSegs(k, pkts).rcv.acks != []
    decreases |pkts|
  {
    hide Has, InputSeg, SndOk, NoLoss, AcksOk, InOrder, ReorderOk, Settled;
    var n := |pkts| - 1;
    var k1 := InputSegs(k, pkts[..n]);
    var k2 := InputSegs(k, pkts);
    InputSegsOk(k, pkts[..n], r, log, peerLog, taken);
    assert pkts[n] in pkts;
    InputSegOk(k1, pkts[n], r, log, peerLog, taken);
    InputSegParts(k1, pkts[n]);
    if pkts[n] == p {
      PushIsHeld(k1.cfg, k1.rcv, p, peerLog, taken);
    } else {
      assert p in pkts[..n];
      InputSegsHolds(k, pkts[..n], p, r, log, peerLog, taken);
      HasGrows(k1.rcv, k2.rcv, p.sn);
      AcksOnlyGrow(k1.rcv, k1.cfg.rcvWnd, pkts[n]);
    }
  }

  lemma InputSegParts(k: Kcb, p: Packet)
    ensures InputSeg(k, p).rcv == InputRcv(k.rcv, k.cfg.rcvWnd, p) && InputSeg(k, p).ctl == InputCtl(k.ctl, k.cfg, p)
  {
  }

  lemma {:induction false} MoveKeepsAcks(r: Rcv, wnd: nat)
    ensures MoveReady(r, wnd).acks == r.acks
    decreases |r.buf|
  {
    if r.buf != [] && r.buf[0].sn == r.nxt && |r.queue| < wnd {
      MoveKeepsAcks(r.(nxt := Add32(r.nxt, 1), buf := r.buf[1..], queue := r.queue + [r.buf[0]]), wnd);
    }
  }

  lemma AcksOnlyGrow(r: Rcv, wnd: u32, p: Packet)
    ensures r.acks <= InputRcv(r, wnd, p).acks
  {
    hide MoveReady, Insert, TimeDiff;
    var seg := InSeg(p.sn, Frag(p.frg, p.data));
    var r1 := r.(acks := r.acks + [Ack(p.sn, p.ts)]);
    MoveKeepsAcks(r1.(buf := Insert(r1.buf, seg)), wnd);
  }

  /** The last part of an input touches neither what was received nor the probe flags. */
  lemma InputTail(k: Kcb, d: bytes)
    requires ValidConfig(k.cfg)
    ensures var k1, k2 := InputSegs(k, ParseDatagram(k.cfg.conv, d).pkts), Input(k, d).k;
            && k2.rcv == k1.rcv && k2.ctl.askTell == k1.ctl.askTell && k2.ctl.rmtWnd == k1.ctl.rmtWnd
            && (k1.snd.buf == [] ==> k2.snd == k1.snd)
  {
    hide InputSegs, ParseDatagram, HighestAck, TimeDiff;
  }

  /** If the queue has room, the segment the receiver waits for moves it on. */
  lemma NextArrives(x: Node, y: Node, d: bytes, p: Packet)
    requires Good(x, y) && d in y.net && p in ParseDatagram(x.k.cfg.conv, d).pkts
    requires p.cmd == CMD_PUSH && p.sn == x.k.rcv.nxt && |x.k.rcv.queue| < x.k.cfg.rcvWnd
    ensures Input(x.k, d).k.rcv.nxt > x.k.rcv.nxt
  {
    hide App, SndOk, NoLoss, AcksOk, HonestData, HonestAck, Input, InputSegs, ParseDatagram;
    var k, pkts := x.k, ParseDatagram(x.k.cfg.conv, d).pkts;
    assert forall q <- pkts :: HonestAck(q, y.k.rcv, x.log) && HonestData(q, y.log);
    InputSegsOk(k, pkts, y.k.rcv, x.log, y.log, x.taken);
    InputSegsHolds(k, pkts, p, y.k.rcv, x.log, y.log, x.taken);
    InputTail(k, d);
    var r' := InputSegs(k, pkts).rcv;
    HeldMeansPast(k.cfg, k.rcv, r', y.log, x.taken);
  }

  lemma HeldMeansPast(cfg: Config, r: Rcv, r': Rcv, log: seq<Frag>, taken: seq<Frag>)
    requires RcvOk(cfg, r, log, taken) && RcvOk(cfg, r', log, taken) && r.nxt <= r'.nxt
    requires Has(r', r.nxt) && |r.queue| < cfg.rcvWnd
    ensures r'.nxt > r.nxt
  {
    hide Frags;
    assert |taken| + |r.queue| == r.nxt && |taken| + |r'.queue| == r'.nxt;
    if |r'.queue| < cfg.rcvWnd { RoomMeansNextMissing(cfg, r', log); }
  }

  /** A data segment is answered: an acknowledgement is pending afterwards. */
  lemma PushIsAnswered(x: Node, y: Node, d: bytes, p: Packet)
    requires Good(x, y) && d in y.net && p in ParseDatagram(x.k.cfg.conv, d).pkts
    requires p.cmd == CMD_PUSH && p.sn <= x.k.rcv.nxt
    ensures Input(x.k, d).k.rcv.acks != []
  {
    hide App, SndOk, NoLoss, AcksOk, HonestData, HonestAck, Input, InputSegs, ParseDatagram, Has;
    var k, pkts := x.k, ParseDatagram(x.k.cfg.conv, d).pkts;
    assert forall q <- pkts :: HonestAck(q, y.k.rcv, x.log) && HonestData(q, y.log);
    InputSegsHolds(k, pkts, p, y.k.rcv, x.log, y.log, x.taken);
    InputTail(k, d);
  }

  lemma {:induction false} AskIsHeard(k: Kcb, pkts: seq<Packet>, p: Packet)
    requires p in pkts && p.cmd == CMD_WASK
    ensures InputSegs(k, pkts).ctl.askTell
    decreases |pkts|
  {
    var n := |pkts| - 1;
    InputSegParts(InputSegs(k, pkts[..n]), pkts[n]);
    hide InputSeg, UpdateRtt;
    if pkts[n] != p { AskIsHeard(k, pkts[..n], p); }
  }

  lemma {:induction false} AckUnaAll(buf: seq<OutSeg>, una: u32, log: seq<Frag>)
    requires BufOk(buf, log) && una == |log| < TWO31
    ensures AckUna(buf, una) == []
  {
    if buf != [] {
      DiffInRange(una, buf[0].sn);
      AckUnaAll(buf[1..], una, log);
    }
  }

  lemma OneAcked(k: Kcb, p: Packet, log: seq<Frag>)
    requires SndOk(k.cfg, k.snd, log) && p.una == |log| < TWO31
    ensures var k' := InputSeg(k, p);
            k'.cfg == k.cfg && k'.snd.buf == [] && SndOk(k.cfg, k'.snd, log) && k'.ctl.rmtWnd == p.wnd
  {
    AckUnaAll(k.snd.buf, p.una, log);
    hide AckUna, TimeDiff, InputRcv, UpdateRtt, Fits;
    assert BufOk([], log);
  }

  /** Acknowledging everything empties the flight and leaves the window announced. */
  lemma {:induction false} AllAcked(k: Kcb, pkts: seq<Packet>, w: u16, log: seq<Frag>)
    requires pkts != [] && SndOk(k.cfg, k.snd, log) && |log| < TWO31
    requires forall p <- pkts :: p.una == |log| && p.wnd == w
    ensures var k' := InputSegs(k, pkts); k'.snd.buf == [] && SndOk(k.cfg, k'.snd, log) && k'.ctl.rmtWnd == w
    decreases |pkts|
  {
    hide SndOk, InputSeg;
    var n := |pkts| - 1;
    var k1, p := InputSegs(k, pkts[..n]), pkts[n];
    assert p in pkts;
    if n == 0 {
      assert InputSegs(k, pkts[..0]) == k;
    } else {
      AllAcked(k, pkts[..n], w, log);
    }
    OneAcked(k1, p, log);
    assert InputSegs(k, pkts) == InputSeg(k1, p);
  }

  // ----- getting ahead

  lemma FlushKeepsRcv(k: Kcb)
    ensures Flush(k).k.rcv.nxt == k.rcv.nxt && Flush(k).k.rcv.queue == k.rcv.queue && Flush(k).k.cfg == k.cfg
    ensures Flush(k).k.ctl.rmtWnd == k.ctl.rmtWnd
  {
    hide FlushAdmit, FlushScan, FlushPackets, Datagrams;
  }

  lemma UpdateKeepsRcv(k: Kcb, now: u32)
    ensures Update(k, now).k.rcv.nxt == k.rcv.nxt
  {
    hide Flush;
    var c := k.ctl.(current := now, updated := true);
    if OnTick(k.ctl, k.cfg, now).Fire? {
      FlushKeepsRcv(k.(ctl := c.(tsFlush := OnTick(k.ctl, k.cfg, now).tsFlush)));
    }
  }

  lemma NxtOnlyGrows(x: Node, y: Node, op: Op)
    requires Good(x, y) && !op.SendOp?
    ensures x.k.rcv.nxt <= StepNode(x, y.net, op).k.rcv.nxt
  {
    assert y.k.rcv.nxt <= |x.log|;
    hide App, SndOk, NoLoss, AcksOk, HonestData, HonestAck, Input, ParseDatagram, Flush, Update, Taken, MoveReady,
         MsgCount, FirstMsg, PeekSize, Has, InOrder, ReorderOk, Settled;
    var k := x.k;
    match op
    case RecvOp(len) =>
      var q := k.rcv.queue;
      RecvOk(k.cfg, k.rcv, if len < 0 then 0 else MsgCount(q), y.log, x.taken);
      assert q[0..] == q;
    case InputOp(d) =>
      if d in y.net {
        assert forall p <- ParseDatagram(k.cfg.conv, d).pkts :: HonestAck(p, y.k.rcv, x.log) && HonestData(p, y.log);
        InputOk(k, d, y.k.rcv, x.log, y.log, x.taken);
      }
    case FlushOp => FlushKeepsRcv(k);
    case UpdateOp(now) => UpdateKeepsRcv(k, now);
  }

  /** A sender that has heard nothing: it numbers no more than its window allows. */
  ghost predicate Paced(x: Node, x': Node) {
    && x'.k.snd.una == x.k.snd.una && x'.k.ctl.rmtWnd == x.k.ctl.rmtWnd
    && (|x'.log| <= |x.log| || |x'.log| <= x.k.snd.una + x.k.ctl.rmtWnd)
  }

  lemma {:induction false} AdmitPaced(s: Snd, w: u32, wnd: u32, una: u32, c: Ctl)
    requires s.una <= s.nxt && s.nxt + |s.queue| < TWO31 && w < TWO16 && s.una + w < TWO31
    ensures var s' := Admit(s, w, wnd, una, c);
            s'.una == s.una && s.nxt <= s'.nxt && (s'.nxt == s.nxt || s'.nxt <= s.una + w)
    decreases |s.queue|
  {
    if TimeDiff(s.nxt, Add32(s.una, w)) < 0 && s.queue != [] {
      AdmitPaced(s.(queue := s.queue[1..], nxt := Add32(s.nxt, 1),
                    buf := s.buf + [Numbered(s.queue[0], s.nxt, wnd, una, c)]), w, wnd, una, c);
    }
  }

  lemma FlushPaced(x: Node, y: Node, k1: Kcb, now: u32)
    requires Good(x, y) && ClockAt(x.k, k1, now)
    ensures var x' := OnEmit(x.(k := k1), Flush(k1)); Good(x', y) ==> Paced(x, x')
  {
    hide Good, Flush, Taken;
    NumbersInRange(x, y);
    FlushNumbersUpTo(k1);
    FlushKeepsRcv(k1);
    var x' := OnEmit(x.(k := k1), Flush(k1));
    if Good(x', y) { NumbersInRange(x', y); }
  }

  lemma FlushNumbersUpTo(k: Kcb)
    requires k.snd.una <= k.snd.nxt && k.snd.nxt + |k.snd.queue| + TWO16 <= TWO31
    ensures var s := Flush(k).k.snd;
            s.una == k.snd.una && (s.nxt == k.snd.nxt || s.nxt <= k.snd.una + k.ctl.rmtWnd)
  {
    var c := ProbeTimer(k.ctl);
    AdmitPaced(k.snd, EffectiveWnd(k.cfg, c), WndUnused(k), k.rcv.nxt, c);
    hide Admit, FlushScan, FlushPackets, Datagrams, Congestion, WndUnused;
  }

  lemma NumbersInRange(x: Node, y: Node)
    requires Good(x, y)
    ensures x.k.snd.una <= x.k.snd.nxt == |x.log| && x.k.snd.nxt + |x.k.snd.queue| + TWO16 <= TWO31
  {
    hide App, RcvOk, NoLoss, HonestAcks, HonestDatas;
  }

  /** A continuation in which the data from `a` to `b` has not fallen back. */
  ghost predicate Leads(s: Sys, t: Sys) {
    && ValidConfigs(s) && GoodSys(t) && ValidConfigs(t) && Reaches(s, t)
    && SameSource(s.a, t.a) && SameSource(s.b, t.b) && s.b.k.rcv.nxt <= t.b.k.rcv.nxt
  }

  lemma LeadsSelf(s: Sys)
    requires GoodSys(s) && ValidConfigs(s)
    ensures Leads(s, s)
  {
    ReachSelf(s);
    hide GoodSys, ValidConfigs, Reaches;
  }

  lemma LeadsTrans(s: Sys, t: Sys, u: Sys)
    requires Leads(s, t) && Leads(t, u)
    ensures Leads(s, u)
  {
    hide GoodSys, ValidConfigs, Reaches, SameSource;
    ReachTrans(s, t, u);
    SourceTrans(s.a, t.a, u.a);
    SourceTrans(s.b, t.b, u.b);
  }

  lemma LeadsStep(s: Sys, onA: bool, op: Op)
    requires GoodSys(s) && ValidConfigs(s) && !op.SendOp?
    ensures Leads(s, Step(s, Event(onA, op)))
  {
    hide Good, ValidConfig, Reaches, StepNode, SameSource;
    SourceSelf(s.a);
    SourceSelf(s.b);
    Act(s, onA, op);
    StepConfigs(s, Event(onA, op));
    if !onA {
      GoodSwap(s.a, s.b);
      NxtOnlyGrows(s.b, s.a, op);
    }
  }

  lemma SourceSelf(x: Node)
    ensures SameSource(x, x)
  {
  }

  lemma LeadsFlush(s: Sys, onA: bool, now: u32) returns (t: Sys, k1: Kcb)
    requires GoodSys(s) && ValidConfigs(s)
    ensures Leads(s, t) && Peer(t, onA) == Peer(s, onA) && ClockAt(Me(s, onA).k, k1, now)
    ensures Me(t, onA) == OnEmit(Me(s, onA).(k := k1), Flush(k1))
    ensures t.b.k.rcv.nxt == s.b.k.rcv.nxt && t.b.k.rcv.queue == s.b.k.rcv.queue
    ensures Paced(Me(s, onA), Me(t, onA))
  {
    hide Good, ValidConfigs, Reaches, Flush, Taken, Paced;
    t, k1 := FlushAt(s, onA, now);
    FlushKeepsRcv(k1);
    if !onA {
      GoodSwap(s.a, s.b);
      GoodSwap(t.a, t.b);
    }
    FlushPaced(Me(s, onA), Peer(s, onA), k1, now);
  }

  // ----- reading

  lemma ReadOne(s: Sys) returns (t: Sys)
    requires GoodSys(s) && ValidConfigs(s) && HasMsg(s.b.k.rcv.queue)
    ensures Leads(s, t) && t.a == s.a && |t.b.taken| > |s.b.taken|
  {
    hide GoodSys, ValidConfig, Leads, MoveReady, FirstMsg;
    var q := s.b.k.rcv.queue;
    var op := RecvOp(PeekSize(q));
    t := Step(s, Event(false, op));
    LeadsStep(s, false, op);
    assert MsgCount(q) >= 1;
    hide MsgCount, Frags;
    assert Recv(s.b.k, PeekSize(q)).code >= 0;
  }

  lemma ReadAll(s: Sys) returns (t: Sys)
    requires GoodSys(s) && ValidConfigs(s)
    ensures Leads(s, t) && t.a == s.a && !HasMsg(t.b.k.rcv.queue)
    decreases |s.a.log| - |s.b.taken|
  {
    TakenBound(s.a, s.b);
    hide GoodSys, ValidConfigs, HasMsg;
    if HasMsg(s.b.k.rcv.queue) {
      var u := ReadOne(s);
      t := ReadAll(u);
      LeadsTrans(s, u, t);
    } else {
      t := s;
      LeadsSelf(s);
    }
  }

  lemma TakenBound(x: Node, y: Node)
    requires Good(x, y)
    ensures |y.taken| <= |x.log|
  {
    hide App, Frags, ReorderOk, NoLoss, HonestAcks, HonestDatas;
    assert |y.taken + Frags(y.k.rcv.queue)| == y.k.rcv.nxt <= |x.log|;
  }

  /** A queue without a complete message holds few segments, and none in stream mode. */
  lemma UnreadIsShort(x: Node, y: Node)
    requires Good(x, y) && !HasMsg(y.k.rcv.queue)
    ensures |y.k.rcv.queue| < RunLimit(x.k.cfg)
  {
    hide Payload, Concat, Messages, ReorderOk, NoLoss, HonestAcks, HonestDatas;
    var r, log := y.k.rcv, x.log;
    var t := |y.taken|;
    if r.queue != [] {
      assert r.queue[0].frag == Frags(r.queue)[0] == (y.taken + Frags(r.queue))[t] == log[t];
      assert log[t] == (log + x.k.snd.queue)[t];
    }
  }

  // ----- bringing the next segment over

  /** What an endpoint announces: its room, cut to 16 bits. */
  function Announced(k: Kcb): u16 { WndUnused(k) % TWO16 }

  /** The endpoint with its clock moved is as sound as before. */
  lemma ClockGood(x: Node, y: Node, k1: Kcb, now: u32)
    requires Good(x, y) && ClockAt(x.k, k1, now)
    ensures Pair(x.(k := k1), y) && Room(x.(k := k1), y)
  {
    hide App, Half;
    ClockStep(x, y, k1.ctl);
    assert x.(k := k1) == x.(k := x.k.(ctl := k1.ctl));
  }

  lemma NextIsUnacked(x: Node, y: Node) returns (i: nat)
    requires Good(x, y) && y.k.rcv.nxt < |x.log| && |y.k.rcv.queue| < y.k.cfg.rcvWnd
    ensures i < |x.k.snd.buf| && x.k.snd.buf[i].sn == y.k.rcv.nxt
  {
    hide App, Has, InOrder, HonestAcks, HonestDatas;
    RoomMeansNextMissing(y.k.cfg, y.k.rcv, x.log);
    assert Unacked(x.k.snd, y.k.rcv.nxt);
    i :| 0 <= i < |x.k.snd.buf| && x.k.snd.buf[i].sn == y.k.rcv.nxt;
  }

  /** A numbered segment that is missing at the far end gets there. */
  lemma MissingArrives(s: Sys) returns (t: Sys)
    requires GoodSys(s) && ValidConfigs(s)
    requires s.b.k.rcv.nxt < |s.a.log| && |s.b.k.rcv.queue| < s.b.k.cfg.rcvWnd
    ensures Leads(s, t) && t.b.k.rcv.nxt > s.b.k.rcv.nxt
    ensures Paced(s.a, t.a) && t.b.taken == s.b.taken && t.b.k.ctl.rmtWnd == Announced(s.a.k)
  {
    hide Pair, App, Room, Reaches, SameSource, ParseDatagram, FlushPackets, Input, Flush, Taken, ValidConfig, Paced;
    var i := NextIsUnacked(s.a, s.b);
    var now := s.a.k.snd.buf[i].resendts;
    var u, k1 := LeadsFlush(s, true, now);
    var p := DueIsSent(k1, i);
    var x1 := s.a.(k := k1);
    ClockGood(s.a, s.b, k1, now);
    var d := Carrier(x1, s.b, p);
    SameConv(s.a, s.b);
    GoodSwap(u.a, u.b);
    NextArrives(u.b, u.a, d, p);
    AllSay(k1);
    LastWindow(u.b.k, ParseDatagram(u.b.k.cfg.conv, d).pkts, Announced(s.a.k));
    InputTail(u.b.k, d);
    t := Step(u, Event(false, InputOp(d)));
    LeadsStep(u, false, InputOp(d));
    LeadsTrans(s, u, t);
  }

  lemma SameConv(x: Node, y: Node)
    requires Good(x, y)
    ensures x.k.cfg.conv == y.k.cfg.conv
  {
    hide Half, App, Room;
  }

  lemma {:induction false} LastWindow(k: Kcb, pkts: seq<Packet>, w: u16)
    requires pkts != [] && forall p <- pkts :: p.wnd == w
    ensures InputSegs(k, pkts).ctl.rmtWnd == w
  {
    var n := |pkts| - 1;
    assert pkts[n] in pkts;
    InputSegParts(InputSegs(k, pkts[..n]), pkts[n]);
    hide InputSeg, UpdateRtt;
  }

  // ----- opening the window

  /** What was received and what was read of it are the same. */
  ghost predicate SameQueue(y: Node, y': Node) {
    y'.k.cfg == y.k.cfg && y'.taken == y.taken && y'.k.rcv.nxt == y.k.rcv.nxt && y'.k.rcv.queue == y.k.rcv.queue
  }

  /** The queue is determined by how far it goes and how far it was read. */
  lemma QueueDetermined(x: Node, y: Node, y': Node)
    requires Good(x, y) && Good(x, y') && y'.taken == y.taken && y'.k.rcv.nxt == y.k.rcv.nxt
    ensures y'.k.rcv.queue == y.k.rcv.queue
  {
    hide App, ReorderOk, NoLoss, HonestAcks, HonestDatas, SndOk;
    var q, q' := y.k.rcv.queue, y'.k.rcv.queue;
    assert y.taken + Frags(q) == y.taken + Frags(q');
    assert Frags(q) == (y.taken + Frags(q))[|y.taken|..] == Frags(q');
    assert forall i :: 0 <= i < |q| ==> q[i].frag == Frags(q)[i] == q'[i].frag;
  }

  /** The flight is over, and `a` knows what `b` announces. */
  ghost predicate Told(s: Sys, t: Sys) {
    && Leads(s, t) && t.a.log == s.a.log && t.a.k.snd.buf == []
    && SameQueue(s.b, t.b) && t.a.k.ctl.rmtWnd == Announced(t.b.k)
  }

  /** Whatever the far end says next acknowledges everything and tells its window. */
  lemma AnswerComesBack(s: Sys) returns (t: Sys)
    requires GoodSys(s) && ValidConfigs(s) && s.b.k.rcv.nxt == |s.a.log|
    requires s.b.k.rcv.acks != [] || s.b.k.ctl.askTell
    ensures Told(s, t)
  {
    hide Pair, App, Room, Reaches, SameSource, ParseDatagram, Input, Flush, Taken, ValidConfig, FlushPackets;
    var u, k1 := LeadsFlush(s, false, 0);
    SourceConfig(s.b, u.b);
    var p := SomethingToSay(k1);
    AllSay(k1);
    GoodSwap(s.a, s.b);
    ClockGood(s.b, s.a, k1, 0);
    var d := Carrier(s.b.(k := k1), s.a, p);
    SameConv(s.a, s.b);
    var pkts := ParseDatagram(s.a.k.cfg.conv, d).pkts;
    SendsSound(u.a, u.b);
    AllAcked(u.a.k, pkts, WndUnused(k1) % TWO16, u.a.log);
    InputTail(u.a.k, d);
    t := Step(u, Event(true, InputOp(d)));
    LeadsStep(u, true, InputOp(d));
    LeadsTrans(s, u, t);
  }

  lemma SendsSound(x: Node, y: Node)
    requires Good(x, y)
    ensures SndOk(x.k.cfg, x.k.snd, x.log) && |x.log| < TWO31
  {
    hide App, SndOk, RcvOk, NoLoss, HonestAcks, HonestDatas;
  }

  lemma SomethingToSay(k: Kcb) returns (p: Packet)
    requires k.rcv.acks != [] || k.ctl.askTell
    ensures p in FlushPackets(k)
  {
    hide FlushScan, WndUnused;
    if k.rcv.acks != [] {
      p := AckPackets(k)[0];
    } else {
      p := Bare(k, CMD_WINS, LastAck(k));
      assert p in ProbePackets(k, ProbeTimer(k.ctl));
    }
  }

  /** A datagram from `a` whose content makes `b` answer is answered. */
  lemma Answered(s: Sys, d: bytes) returns (t: Sys)
    requires GoodSys(s) && ValidConfigs(s) && d in s.a.net && s.b.k.rcv.nxt == |s.a.log|
    requires var k' := Input(s.b.k, d).k; k'.rcv.acks != [] || k'.ctl.askTell
    ensures Told(s, t)
  {
    hide Good, Reaches, SameSource, Input, ValidConfig;
    var u := Step(s, Event(false, InputOp(d)));
    LeadsStep(s, false, InputOp(d));
    QueueLength(u.a, u.b);
    SourceConfig(s.b, u.b);
    QueueDetermined(s.a, s.b, u.b);
    t := AnswerComesBack(u);
    LeadsTrans(s, u, t);
  }

  lemma SourceConfig(x: Node, x': Node)
    requires SameSource(x, x')
    ensures x'.k.cfg == x.k.cfg && |x.log| <= |x'.log| && (|x'.log| == |x.log| ==> x'.log == x.log)
    ensures |x'.log| == |x.log| ==> x'.k.snd.queue == x.k.snd.queue
  {
    if |x'.log| == |x.log| {
      assert x'.k.snd.queue == (x'.log + x'.k.snd.queue)[|x.log|..];
      assert x.k.snd.queue == (x.log + x.k.snd.queue)[|x.log|..];
    }
  }

  lemma QueueLength(x: Node, y: Node)
    requires Good(x, y)
    ensures |y.taken| + |y.k.rcv.queue| == y.k.rcv.nxt <= |x.log|
  {
    hide App, Frags, ReorderOk, NoLoss, HonestAcks, HonestDatas;
    assert |y.taken + Frags(y.k.rcv.queue)| == y.k.rcv.nxt;
  }

  /** A sender with segments out gets an answer by sending the first of them again. */
  lemma ResendIsAnswered(s: Sys) returns (t: Sys)
    requires GoodSys(s) && ValidConfigs(s) && s.a.k.snd.buf != [] && s.b.k.rcv.nxt == |s.a.log|
    ensures Leads(s, t)
    ensures Told(s, t) || (|t.a.log| > |s.a.log| && Paced(s.a, t.a) && t.b == s.b)
  {
    hide Pair, App, Room, Reaches, SameSource, ParseDatagram, FlushPackets, Input, Flush, Taken, ValidConfig;
    SendsSound(s.a, s.b);
    var now := s.a.k.snd.buf[0].resendts;
    var u, k1 := LeadsFlush(s, true, now);
    SourceConfig(s.a, u.a);
    if |u.a.log| > |s.a.log| { return u; }
    var p := DueIsSent(k1, 0);
    ClockGood(s.a, s.b, k1, now);
    var d := Carrier(s.a.(k := k1), s.b, p);
    SameConv(s.a, s.b);
    GoodSwap(u.a, u.b);
    PushIsAnswered(u.b, u.a, d, p);
    t := Answered(u, d);
    LeadsTrans(s, u, t);
  }

  lemma ProbeFires(k: Kcb) returns (p: Packet)
    requires k.ctl.rmtWnd == 0 && k.ctl.probeWait != 0 && k.ctl.current == k.ctl.tsProbe
    ensures p in FlushPackets(k) && p.cmd == CMD_WASK
  {
    hide FlushScan, WndUnused, AckPackets;
    p := Bare(k, CMD_WASK, LastAck(k));
    assert p in ProbePackets(k, ProbeTimer(k.ctl));
  }

  lemma FlushSetsProbe(k: Kcb)
    requires k.ctl.updated && k.ctl.rmtWnd == 0 && k.ctl.probeWait == 0
    ensures Flush(k).k.ctl.probeWait != 0
  {
    hide FlushAdmit, FlushScan, FlushPackets, Datagrams;
  }

  /** A sender facing a closed window gets an answer by asking. */
  lemma AskIsAnswered(s: Sys) returns (t: Sys)
    requires GoodSys(s) && ValidConfigs(s) && s.a.k.ctl.rmtWnd == 0 && s.b.k.rcv.nxt == |s.a.log|
    ensures Leads(s, t) && (|t.a.log| > |s.a.log| || Told(s, t))
    decreases if s.a.k.ctl.probeWait == 0 then 1 else 0
  {
    hide Pair, App, Room, Reaches, SameSource, ParseDatagram, FlushPackets, Input, Flush, Taken, ValidConfig, InputSegs;
    var now := s.a.k.ctl.tsProbe;
    var u, k1 := LeadsFlush(s, true, now);
    SourceConfig(s.a, u.a);
    if |u.a.log| > |s.a.log| { return u; }
    if s.a.k.ctl.probeWait == 0 {
      FlushSetsProbe(k1);
      t := AskIsAnswered(u);
    } else {
      var p := ProbeFires(k1);
      ClockGood(s.a, s.b, k1, now);
      var d := Carrier(s.a.(k := k1), s.b, p);
      SameConv(s.a, s.b);
      AskIsHeard(u.b.k, ParseDatagram(u.b.k.cfg.conv, d).pkts, p);
      InputTail(u.b.k, d);
      t := Answered(u, d);
    }
    LeadsTrans(s, u, t);
  }

  // ----- numbering the next segment

  lemma AdmitTakes(s: Snd, w: u32, wnd: u32, una: u32, c: Ctl)
    requires s.una == s.nxt < TWO31 && 1 <= w < TWO16 && s.queue != []
    ensures |Admit(s, w, wnd, una, c).queue| < |s.queue|
  {
    assert TimeDiff(s.nxt, Add32(s.una, w)) < 0;
    AdmitShrinks(s.(queue := s.queue[1..], nxt := Add32(s.nxt, 1),
                    buf := s.buf + [Numbered(s.queue[0], s.nxt, wnd, una, c)]), w, wnd, una, c);
  }

  lemma AdmitNone(s: Snd, w: u32, wnd: u32, una: u32, c: Ctl)
    requires |Admit(s, w, wnd, una, c).queue| == |s.queue|
    ensures Admit(s, w, wnd, una, c) == s
  {
    hide TimeDiff, Add32;
    if s.queue != [] && TimeDiff(s.nxt, Add32(s.una, w)) < 0 {
      AdmitShrinks(s.(queue := s.queue[1..], nxt := Add32(s.nxt, 1),
                      buf := s.buf + [Numbered(s.queue[0], s.nxt, wnd, una, c)]), w, wnd, una, c);
    }
  }

  /** After any flush the congestion window is open; one that numbers nothing changes no flight. */
  lemma FlushOpens(k: Kcb)
    requires k.ctl.updated
    ensures Flush(k).k.ctl.cwnd >= 1
    ensures k.snd.buf == [] && |Flush(k).k.snd.queue| == |k.snd.queue| ==> Flush(k).k.snd == k.snd
  {
    var c := ProbeTimer(k.ctl);
    if |Flush(k).k.snd.queue| == |k.snd.queue| {
      AdmitNone(k.snd, EffectiveWnd(k.cfg, c), WndUnused(k), k.rcv.nxt, c);
    }
    hide Admit, FlushPackets, Datagrams, ProbeTimer, EffectiveWnd, WndUnused;
    assert ScanBuf([], k.cfg, c, WndUnused(k), k.rcv.nxt).buf == [];
  }

  lemma FlushNumbers(k: Kcb)
    requires k.ctl.updated && ValidConfig(k.cfg) && k.ctl.rmtWnd > 0 && k.ctl.cwnd >= 1
    requires k.snd.una == k.snd.nxt < TWO31 && k.snd.queue != []
    ensures |Flush(k).k.snd.queue| < |k.snd.queue|
  {
    var c := ProbeTimer(k.ctl);
    AdmitTakes(k.snd, EffectiveWnd(k.cfg, c), WndUnused(k), k.rcv.nxt, c);
    hide Admit, FlushPackets, Datagrams, ScanBuf, WndUnused;
  }

  /** With nothing out and an open window, a queued segment gets its number. */
  lemma QueuedIsNumbered(s: Sys) returns (t: Sys)
    requires GoodSys(s) && ValidConfigs(s)
    requires s.a.k.snd.buf == [] && s.a.k.ctl.rmtWnd > 0 && s.a.k.snd.queue != []
    ensures Leads(s, t) && |t.a.log| > |s.a.log| && Paced(s.a, t.a) && t.b == s.b
  {
    hide Good, Reaches, SameSource, Flush, Taken, SndOk;
    var u, k1 := LeadsFlush(s, true, 0);
    SourceConfig(s.a, u.a);
    if |u.a.log| > |s.a.log| { return u; }
    FlushOpens(k1);
    Unblocked(u.a, u.b);
    var k2;
    t, k2 := LeadsFlush(u, true, 0);
    FlushNumbers(k2);
    SourceConfig(u.a, t.a);
    LeadsTrans(s, u, t);
  }

  lemma Unblocked(x: Node, y: Node)
    requires Good(x, y) && x.k.snd.buf == []
    ensures x.k.snd.una == x.k.snd.nxt < TWO31
  {
    hide App, RcvOk, NoLoss, HonestAcks, HonestDatas;
  }

  // ----- everything

  function Total(x: Node): nat { |x.log| + |x.k.snd.queue| }

  lemma TotalSame(x: Node, x': Node)
    requires SameSource(x, x')
    ensures Total(x') == Total(x)
  {
    assert |x'.log + x'.k.snd.queue| == |x.log + x.k.snd.queue|;
  }

  /** One more segment is numbered, when all those that are have arrived. */
  lemma NumberOne(s: Sys) returns (t: Sys)
    requires GoodSys(s) && ValidConfigs(s)
    requires s.b.k.rcv.nxt == |s.a.log| < Total(s.a) && Announced(s.b.k) > 0
    ensures Leads(s, t) && |t.a.log| > |s.a.log|
  {
    hide GoodSys, Reaches, SameSource, ValidConfig;
    var u := s;
    LeadsSelf(s);
    if s.a.k.snd.buf != [] {
      u := ResendIsAnswered(s);
    } else if s.a.k.ctl.rmtWnd == 0 {
      u := AskIsAnswered(s);
    }
    SourceConfig(s.a, u.a);
    if |u.a.log| > |s.a.log| { return u; }
    t := QueuedIsNumbered(u);
    LeadsTrans(s, u, t);
  }

  /** The receive window, cut to the 16 bits it is announced in, is larger than any queue that
      cannot be read. */
  predicate StaysOpen(c: Config, far: Config) { far.rcvWnd % TWO16 >= RunLimit(c) }

  lemma StillOpen(c: Config, k: Kcb)
    requires StaysOpen(c, k.cfg) && |k.rcv.queue| < RunLimit(c)
    ensures |k.rcv.queue| < k.cfg.rcvWnd && Announced(k) > 0
  {
  }

  /** All fragments, numbered and queued, reach the far end's queue or its application. */
  lemma AllArrive(s: Sys) returns (t: Sys)
    requires GoodSys(s) && ValidConfigs(s) && StaysOpen(s.a.k.cfg, s.b.k.cfg)
    ensures Leads(s, t) && t.b.k.rcv.nxt == Total(s.a)
    decreases Total(s.a) - s.b.k.rcv.nxt, Total(s.a) - |s.a.log|
  {
    hide Reaches, SameSource, HasMsg, Pair, App, Room;
    QueueLength(s.a, s.b);
    var u := ReadAll(s);
    SourceConfig(s.b, u.b);
    UnreadIsShort(u.a, u.b);
    StillOpen(u.a.k.cfg, u.b.k);
    QueueLength(u.a, u.b);
    var v := u;
    LeadsSelf(u);
    if u.b.k.rcv.nxt < |u.a.log| {
      v := MissingArrives(u);
    } else if |u.a.log| < Total(u.a) {
      v := NumberOne(u);
    }
    LeadsTrans(s, u, v);
    TotalSame(s.a, v.a);
    SourceConfig(s.a, v.a);
    SourceConfig(s.b, v.b);
    QueueLength(v.a, v.b);
    if v == u {
      t := u;
    } else {
      t := AllArrive(v);
      LeadsTrans(s, v, t);
    }
  }

  lemma AllFragsGrow(ms: seq<bytes>, i: nat, mss: nat)
    requires Sendable(ms, mss) && i < |ms|
    ensures |AllFrags(ms[..i], mss)| < |AllFrags(ms, mss)|
  {
    AllFragsSplit(ms, i, mss);
    FragCountCovers(|ms[i]|, mss);
    SplitFits(ms[i], mss, FragCount(|ms[i]|, mss), false);
  }

  /** Once every fragment of every message is there, an unfinished queue still holds a message. */
  lemma NothingHalfRead(x: Node, y: Node)
    requires Good(x, y) && !x.k.cfg.stream && y.k.rcv.nxt == Total(x) && y.k.rcv.queue != []
    ensures HasMsg(y.k.rcv.queue)
  {
    hide ReorderOk, NoLoss, HonestAcks, HonestDatas, Stream, AllFrags, Fragmented, HasMsg, Frags;
    var mss, i, q := Mss(x.k.cfg), |y.got|, y.k.rcv.queue;
    NextMessage(x, y);
    var fs := Fragmented(x.sent[i], mss);
    AllFragsSplit(x.sent, i, mss);
    assert x.sent[..i] == y.got;
    assert x.log + x.k.snd.queue == x.log && x.log[..y.k.rcv.nxt] == x.log;
    assert |y.taken + Frags(q)| == |AllFrags(x.sent, mss)|;
    FirstMessage(q, x.sent[i], mss);
  }

  lemma AllReadIsAll(x: Node, y: Node)
    requires Good(x, y) && !x.k.cfg.stream && y.k.rcv.nxt == Total(x) && y.k.rcv.queue == []
    ensures y.got == x.sent
  {
    hide ReorderOk, NoLoss, HonestAcks, HonestDatas, Stream, AllFrags;
    var mss := Mss(x.k.cfg);
    assert x.log + x.k.snd.queue == x.log && x.log[..y.k.rcv.nxt] == x.log;
    assert y.taken == y.taken + Frags([]) == x.log;
    assert x.sent[..|y.got|] == y.got;
    if |y.got| < |x.sent| { AllFragsGrow(x.sent, |y.got|, mss); }
  }

  /** The endpoint with all it ever emitted lost. */
  function Lost(x: Node): Node { x.(net := {}) }

  lemma LossIsGood(x: Node, y: Node)
    requires Good(x, y)
    ensures Good(Lost(x), Lost(y))
  {
    hide SndOk, RcvOk, NoLoss, AcksOk, AllFrags, Sendable, Payload, Concat, ShortRuns;
    assert HonestDatas(x.k.cfg.conv, {}, x.log) && HonestDatas(y.k.cfg.conv, {}, y.log);
    assert HonestAcks(x.k.cfg.conv, {}, y.k.rcv, x.log) && HonestAcks(y.k.cfg.conv, {}, x.k.rcv, y.log);
  }

  ghost predicate Delivered(x: Node, y': Node) {
    && y'.taken + Frags(y'.k.rcv.queue) == x.log + x.k.snd.queue
    && (!x.k.cfg.stream ==> y'.got == x.sent)
  }

  /** From every reachable state, with everything in flight lost, there is a continuation that
      brings over all that was ever sent; in message mode the far end has then read exactly the
      messages accepted. */
  lemma EverythingCanStillArrive(x: Node, y: Node) returns (es: seq<Event>)
    requires Peers(x, y) && Room(x, y) && Room(y, x) && StaysOpen(x.k.cfg, y.k.cfg)
    ensures ValidConfigs(Sys(Lost(x), Lost(y)))
    ensures NoSend(es) && Delivered(x, After(Sys(Lost(x), Lost(y)), es).b)
  {
    PeersInvariant(x, y);
    var s := Sys(Lost(x), Lost(y));
    LossIsGood(x, y);
    assert ValidConfigs(s);
    hide Peers, Pair, App, Room, SameSource, ValidConfig, After, HasMsg;
    var t := AllArrive(s);
    var u := ReadAll(t);
    LeadsTrans(s, t, u);
    TotalSame(s.a, u.a);
    Arrived(s.a, u.a, u.b);
    es :| NoSend(es) && After(s, es) == u;
  }

  lemma Arrived(x: Node, x': Node, y': Node)
    requires Good(x', y') && SameSource(x, x') && y'.k.rcv.nxt == Total(x') && !HasMsg(y'.k.rcv.queue)
    ensures Delivered(x, y')
  {
    hide ReorderOk, NoLoss, HonestAcks, HonestDatas, App, Frags;
    assert x'.log + x'.k.snd.queue == x'.log && x'.log[..y'.k.rcv.nxt] == x'.log;
    if !x.k.cfg.stream {
      if y'.k.rcv.queue != [] { NothingHalfRead(x', y'); }
      AllReadIsAll(x', y');
    }
  }
}
