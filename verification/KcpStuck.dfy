/** When the receive window does not survive the cut to the 16 bits it is announced in, a
    connection can come to a standstill; and exactly then. */
module KcpStuck {
  import opened Words
  import opened KcpWire
  import opened KcpModel
  import opened KcpLink
  import opened KcpSystem
  import opened KcpMessages
  import opened KcpTheorems
  import opened KcpProgress

  /** With room in its queue, what an endpoint announces is that room, cut to 16 bits: it looks
      closed exactly when the room is a multiple of 2^16. */
  lemma LooksClosedIff(k: Kcb, p: Packet)
    requires p in FlushPackets(k) && |k.rcv.queue| < k.cfg.rcvWnd
    ensures p.wnd == 0 <==> (k.cfg.rcvWnd - |k.rcv.queue|) % TWO16 == 0
  {
    AllSay(k);
    hide FlushPackets;
  }

  // ----- standing still

  ghost predicate SaysClosed(conv: Guid, net: set<bytes>) {
    forall d, p :: d in net && p in ParseDatagram(conv, d).pkts ==> p.wnd == 0
  }

  /** All that `a` has numbered is with `b`, which has nothing to read and looks closed. */
  ghost predicate Stuck(s: Sys) {
    && Good(s.a, s.b) && s.a.k.ctl.rmtWnd == 0 && s.a.k.snd.queue != []
    && s.b.k.rcv.nxt == |s.a.log| && !HasMsg(s.b.k.rcv.queue) && Announced(s.b.k) == 0
    && SaysClosed(s.a.k.cfg.conv, s.b.net)
  }

  lemma {:induction false} WindowStaysShut(k: Kcb, pkts: seq<Packet>)
    requires k.ctl.rmtWnd == 0 && forall p <- pkts :: p.wnd == 0
    ensures InputSegs(k, pkts).ctl.rmtWnd == 0
  {
    if pkts != [] { LastWindow(k, pkts, 0); }
  }

  lemma RecvNothing(x: Node, len: int)
    requires !HasMsg(x.k.rcv.queue)
    ensures OnRecv(x, len) == x
  {
    hide MoveReady, FirstMsg, MsgCount;
  }

  lemma RecvKeepsWindow(x: Node, len: int)
    ensures OnRecv(x, len).k.ctl.rmtWnd == x.k.ctl.rmtWnd
  {
    hide PeekSize, MoveReady, MsgCount, FirstMsg, Frags;
  }

  lemma UpdateKeepsWindow(k: Kcb, now: u32)
    ensures Update(k, now).k.ctl.rmtWnd == k.ctl.rmtWnd && Update(k, now).k.rcv.queue == k.rcv.queue
  {
    hide Flush;
    var c := k.ctl.(current := now, updated := true);
    if OnTick(k.ctl, k.cfg, now).Fire? {
      FlushKeepsRcv(k.(ctl := c.(tsFlush := OnTick(k.ctl, k.cfg, now).tsFlush)));
    }
  }

  /** A sender that faces a closed window numbers nothing. */
  lemma ClosedFlush(x: Node, y: Node, k1: Kcb)
    requires Good(x, y) && x.k.ctl.rmtWnd == 0 && ClockAt(x.k, k1, k1.ctl.current)
    requires Good(OnEmit(x.(k := k1), Flush(k1)), y)
    ensures |OnEmit(x.(k := k1), Flush(k1)).log| <= |x.log|
  {
    FlushPaced(x, y, k1, k1.ctl.current);
    NumbersInRange(x, y);
    hide Good, Flush, Taken;
  }

  lemma ClosedStaysClosed(x: Node, y: Node, op: Op)
    requires Good(x, y) && x.k.ctl.rmtWnd == 0 && !op.SendOp? && Good(StepNode(x, y.net, op), y)
    ensures |StepNode(x, y.net, op).log| <= |x.log|
  {
    hide Good, Flush, Update, Input, Taken, Recv;
    match op
    case RecvOp(len) =>
    case InputOp(d) =>
    case FlushOp =>
      if x.k.ctl.updated {
        assert x.(k := x.k) == x;
        ClosedFlush(x, y, x.k);
      } else {
        NotYet(x);
      }
    case UpdateOp(now) =>
      if OnTick(x.k.ctl, x.k.cfg, now).Fire? {
        UpdateFires(x, now);
        ClosedFlush(x, y, x.k.(ctl := x.k.ctl.(current := now, updated := true,
                                               tsFlush := OnTick(x.k.ctl, x.k.cfg, now).tsFlush)));
      } else {
        UpdateWaits(x, now);
      }
  }

  lemma NotYet(x: Node)
    requires !x.k.ctl.updated
    ensures OnEmit(x, Flush(x.k)) == x
  {
    EmitNothing(x, x.k);
    assert x.(k := x.k) == x;
  }

  lemma WindowKept(x: Node, y: Node, op: Op)
    requires Good(x, y) && x.k.ctl.rmtWnd == 0 && !op.SendOp? && SaysClosed(x.k.cfg.conv, y.net)
    ensures StepNode(x, y.net, op).k.ctl.rmtWnd == 0
  {
    hide Half, App, Room, Flush, Update, Input, Taken, ParseDatagram, InputSegs;
    match op
    case RecvOp(len) => RecvKeepsWindow(x, len);
    case InputOp(d) =>
      if d in y.net {
        WindowStaysShut(x.k, ParseDatagram(x.k.cfg.conv, d).pkts);
        InputTail(x.k, d);
      }
    case FlushOp => FlushKeepsRcv(x.k);
    case UpdateOp(now) => UpdateKeepsWindow(x.k, now);
  }

  /** Facing a closed window the sender stays where it is, whatever it does. */
  lemma SenderStands(x: Node, y: Node, op: Op)
    requires Stuck(Sys(x, y)) && !op.SendOp?
    ensures Stuck(Sys(StepNode(x, y.net, op), y))
  {
    GoodStep(x, y, op);
    WindowKept(x, y, op);
    ClosedStaysClosed(x, y, op);
    hide Good, StepNode, SameSource, HasMsg, Announced, SaysClosed, Reaches;
    SourceConfig(x, StepNode(x, y.net, op));
  }

  /** What a flush adds to the network announces what the endpoint has room for. */
  lemma EmitClosed(y: Node, x: Node, k1: Kcb)
    requires Good(y, x) && ClockAt(y.k, k1, k1.ctl.current) && Announced(y.k) == 0 && SaysClosed(y.k.cfg.conv, y.net)
    ensures SaysClosed(y.k.cfg.conv, OnEmit(y.(k := k1), Flush(k1)).net)
  {
    hide Pair, App, Room, FlushPackets, ParseDatagram, Datagrams, FlushState, Taken;
    ClockGood(y, x, k1, k1.ctl.current);
    AllSay(k1);
    FlushCarries(y.(k := k1), x);
    var net' := OnEmit(y.(k := k1), Flush(k1)).net;
    forall d, p | d in net' && p in ParseDatagram(y.k.cfg.conv, d).pkts
      ensures p.wnd == 0
    {
      if d !in y.net { assert d in Datagrams(k1.cfg.conv, k1.cfg.mtu, FlushPackets(k1)); }
    }
  }

  /** Every datagram of a flush holds segments of that flush only. */
  lemma FlushCarries(x: Node, y: Node)
    requires Pair(x, y) && Room(x, y) && x.k.ctl.updated
    ensures forall d <- Datagrams(x.k.cfg.conv, x.k.cfg.mtu, FlushPackets(x.k)),
              p <- ParseDatagram(x.k.cfg.conv, d).pkts :: p in FlushPackets(x.k)
  {
    hide SndOk, RcvOk, NoLoss, HonestDatas, HonestAcks, AcksOk, FlushState, FlushAdmit, FlushPackets,
         ParseDatagram, ParseAll, Datagrams, AllValid;
    var k := x.k;
    LogBound(x, y.net, FlushOp);
    assert k.ctl.updated ==> |x.log + Taken(k.snd, FlushState(k).snd)| + TWO16 <= TWO31;
    FlushSendSide(k, y.k.rcv, x.log);
    FlushHonest(k, x.log + Taken(k.snd, FlushAdmit(k)), y.log);
    DatagramsCarryExactly(k.cfg.conv, k.cfg.mtu, FlushPackets(k));
  }

  lemma NetStaysClosed(y: Node, x: Node, op: Op)
    requires Good(y, x) && !op.SendOp? && Announced(y.k) == 0 && SaysClosed(y.k.cfg.conv, y.net)
    ensures SaysClosed(y.k.cfg.conv, StepNode(y, x.net, op).net)
  {
    hide Good, Flush, Update, Input, Taken, Recv, SaysClosed, Announced;
    match op
    case RecvOp(len) =>
    case InputOp(d) =>
    case FlushOp =>
      if y.k.ctl.updated {
        assert y.(k := y.k) == y;
        EmitClosed(y, x, y.k);
      } else {
        NotYet(y);
      }
    case UpdateOp(now) =>
      if OnTick(y.k.ctl, y.k.cfg, now).Fire? {
        UpdateFires(y, now);
        EmitClosed(y, x, y.k.(ctl := y.k.ctl.(current := now, updated := true,
                                              tsFlush := OnTick(y.k.ctl, y.k.cfg, now).tsFlush)));
      } else {
        UpdateWaits(y, now);
      }
  }

  lemma ReadsNothing(y: Node, x: Node, op: Op)
    requires Good(y, x) && !op.SendOp? && !HasMsg(y.k.rcv.queue)
    ensures StepNode(y, x.net, op).taken == y.taken
  {
    hide Half, App, Room, Flush, Update, Input, Taken, Recv, HasMsg;
    if op.RecvOp? { RecvNothing(y, op.len); }
  }

  lemma GoodConfigs(x: Node, y: Node)
    requires Good(x, y)
    ensures ValidConfig(x.k.cfg) && ValidConfig(y.k.cfg)
  {
    hide Half, App, Room;
  }

  lemma ReceiverStands(x: Node, y: Node, op: Op)
    requires Stuck(Sys(x, y)) && !op.SendOp?
    ensures Stuck(Sys(x, StepNode(y, x.net, op)))
  {
    hide Good, StepNode, SameSource, HasMsg, SaysClosed, Reaches;
    GoodConfigs(x, y);
    var y' := StepNode(y, x.net, op);
    SameConv(x, y);
    GoodSwap(x, y);
    GoodStep(y, x, op);
    NetStaysClosed(y, x, op);
    ReadsNothing(y, x, op);
    NxtOnlyGrows(y, x, op);
    GoodSwap(y', x);
    SourceConfig(y, y');
    QueueLength(x, y');
    QueueDetermined(x, y, y');
  }

  lemma StuckStep(s: Sys, e: Event)
    requires ValidConfigs(s) && Stuck(s) && !e.op.SendOp?
    ensures Stuck(Step(s, e)) && SameSource(s.a, Step(s, e).a)
  {
    hide Good, StepNode, SameSource, HasMsg, Announced, SaysClosed, Reaches;
    if e.onA {
      SenderStands(s.a, s.b, e.op);
      GoodStep(s.a, s.b, e.op);
    } else {
      ReceiverStands(s.a, s.b, e.op);
      SourceSelf(s.a);
    }
  }

  /** From a standstill every continuation without new data stays there. */
  lemma {:induction false} StuckForGood(s: Sys, es: seq<Event>)
    requires ValidConfigs(s) && Stuck(s) && NoSend(es)
    ensures Stuck(After(s, es)) && SameSource(s.a, After(s, es).a)
    decreases |es|
  {
    hide Stuck, Step, SameSource;
    if es == [] {
      SourceSelf(s.a);
    } else {
      var e := es[0];
      assert e in es && forall f <- es[1..] :: f in es;
      StuckStep(s, e);
      StepConfigs(s, e);
      StuckForGood(Step(s, e), es[1..]);
      SourceTrans(s.a, Step(s, e).a, After(s, es).a);
    }
  }

  // ----- a run that comes to a standstill

  /** Some run reaches this pair, in either order. */
  ghost predicate Reached(x: Node, y: Node) {
    exists es: seq<Event> ::
      && Start(x.k.cfg, y.k.cfg)
      && (Sys(x, y) == Run(x.k.cfg, y.k.cfg, es) || Sys(y, x) == Run(y.k.cfg, x.k.cfg, es))
  }

  lemma RunSnoc(ca: Config, cb: Config, es: seq<Event>, e: Event)
    requires Start(ca, cb)
    ensures Run(ca, cb, es + [e]) == Step(Run(ca, cb, es), e)
  {
    hide Step;
    assert (es + [e])[..|es|] == es;
  }

  lemma ReachedStep(s: Sys, e: Event)
    requires Reached(s.a, s.b)
    ensures Start(s.a.k.cfg, s.b.k.cfg) && Reached(Step(s, e).a, Step(s, e).b)
  {
    var ca, cb := s.a.k.cfg, s.b.k.cfg;
    var es: seq<Event> :| Start(ca, cb) && (s == Run(ca, cb, es) || Sys(s.b, s.a) == Run(cb, ca, es));
    hide Run, StepNode, ValidConfig;
    var t := Step(s, e);
    if s == Run(ca, cb, es) {
      RunSnoc(ca, cb, es, e);
      assert t == Run(t.a.k.cfg, t.b.k.cfg, es + [e]);
    } else {
      var f := Event(!e.onA, e.op);
      RunSnoc(cb, ca, es, f);
      assert Sys(t.b, t.a) == Run(t.b.k.cfg, t.a.k.cfg, es + [f]);
    }
  }

  lemma {:induction false} ReachedAfter(s: Sys, es: seq<Event>)
    requires Reached(s.a, s.b) && ValidConfigs(s)
    ensures Reached(After(s, es).a, After(s, es).b)
    decreases |es|
  {
    hide Reached, Step, ValidConfigs;
    if es != [] {
      ReachedStep(s, es[0]);
      StepConfigs(s, es[0]);
      ReachedAfter(Step(s, es[0]), es[1..]);
    }
  }

  lemma ReachedLeads(s: Sys, t: Sys)
    requires Reached(s.a, s.b) && Leads(s, t)
    ensures Reached(t.a, t.b)
  {
    hide Reached, GoodSys, SameSource, After;
    var es :| NoSend(es) && After(s, es) == t;
    ReachedAfter(s, es);
  }

  lemma ReachedIsGood(x: Node, y: Node)
    requires Reached(x, y) && Room(x, y) && Room(y, x)
    ensures Peers(x, y) && Good(x, y)
  {
    hide Run;
    assert PairInRange(x, y);
    assert Peers(x, y);
    PeersInvariant(x, y);
  }

  /** One message on its way to a far end that has room for all but its last segment, modulo 2^16. */
  ghost predicate Filling(s: Sys, r: nat) {
    && Good(s.a, s.b) && ValidConfigs(s) && s.b.k.cfg.rcvWnd % TWO16 == r < WND_RCV
    && |s.a.sent| == 1 && Total(s.a) == r + 1 && s.b.taken == []
    && |s.a.log| <= r == s.a.k.snd.una + s.a.k.ctl.rmtWnd
  }

  /** What `a` does without hearing from `b` keeps it below the last segment. */
  lemma StillFilling(s: Sys, t: Sys, r: nat)
    requires Filling(s, r) && Leads(s, t) && Paced(s.a, t.a) && t.b.taken == s.b.taken
    ensures Filling(t, r)
  {
    hide Good, Reaches, ValidConfig;
    TotalSame(s.a, t.a);
  }

  lemma FillingRoom(s: Sys, r: nat)
    requires Filling(s, r)
    ensures |s.b.k.rcv.queue| == s.b.k.rcv.nxt <= |s.a.log| && |s.b.k.rcv.queue| < s.b.k.cfg.rcvWnd
    ensures Announced(s.b.k) == r - s.b.k.rcv.nxt
  {
    QueueLength(s.a, s.b);
    hide Good;
  }

  /** Once `b` has told its window, what is announced still fits what is missing. */
  lemma ToldFilling(s: Sys, t: Sys, r: nat)
    requires Filling(s, r) && Told(s, t) && s.b.k.rcv.nxt == |s.a.log|
    ensures Filling(t, r)
  {
    hide Good, Reaches, ValidConfig;
    FillingRoom(s, r);
    Unblocked(t.a, t.b);
    NumbersInRange(t.a, t.b);
    TotalSame(s.a, t.a);
  }

  /** All but the last segment arrive, and the window then looks closed. */
  lemma Fill(s: Sys, r: nat) returns (t: Sys)
    requires Filling(s, r)
    ensures Leads(s, t) && Filling(t, r) && t.b.k.rcv.nxt == r == |t.a.log| && t.a.k.ctl.rmtWnd == 0
    decreases r - s.b.k.rcv.nxt, r - |s.a.log|, if s.a.k.snd.buf == [] then 0 else 1
  {
    FillingRoom(s, r);
    NumbersInRange(s.a, s.b);
    LeadsSelf(s);
    if s.a.k.snd.buf == [] { Unblocked(s.a, s.b); }
    hide Good, ValidConfig, Reaches, SameSource, Paced;
    var u;
    if s.b.k.rcv.nxt < |s.a.log| {
      u := MissingArrives(s);
      StillFilling(s, u, r);
    } else if s.a.k.snd.buf != [] {
      u := ResendIsAnswered(s);
      if Told(s, u) { ToldFilling(s, u, r); } else { StillFilling(s, u, r); }
    } else if s.a.k.ctl.rmtWnd > 0 {
      u := QueuedIsNumbered(s);
      StillFilling(s, u, r);
    } else {
      return s;
    }
    SourceConfig(s.a, u.a);
    FillingRoom(u, r);
    t := Fill(u, r);
    LeadsTrans(s, u, t);
  }

  /** The segments that arrived make no message. */
  lemma FilledIsUnreadable(s: Sys, r: nat)
    requires Filling(s, r) && s.b.k.rcv.nxt == r && (s.a.k.cfg.stream ==> r == 0)
    ensures !HasMsg(s.b.k.rcv.queue)
  {
    FillingRoom(s, r);
    var x, y := s.a, s.b;
    if y.k.rcv.queue != [] {
      hide ReorderOk, NoLoss, HonestAcks, HonestDatas, Stream, Fragmented, HasMsg, Frags;
      NextMessage(x, y);
      assert x.sent[..0] == [];
      assert AllFrags(x.sent, Mss(x.k.cfg)) == [] + Fragmented(x.sent[0], Mss(x.k.cfg));
      assert |y.got| == 0;
      FirstMessage(y.k.rcv.queue, x.sent[0], Mss(x.k.cfg));
    }
  }

  lemma FilledIsStuck(s: Sys, r: nat)
    requires Filling(s, r) && s.b.k.rcv.nxt == r == |s.a.log| && s.a.k.ctl.rmtWnd == 0
    requires s.a.k.cfg.stream ==> r == 0
    ensures Stuck(Sys(Lost(s.a), Lost(s.b)))
  {
    FillingRoom(s, r);
    FilledIsUnreadable(s, r);
    LossIsGood(s.a, s.b);
    hide Good, HasMsg, ParseDatagram;
  }

  /** A message of `r + 1` segments, queued at an endpoint that has sent nothing yet. */
  lemma QueueMessage(x: Node, r: nat, data: bytes)
    requires ValidConfig(x.k.cfg) && x.log == [] && x.k.snd.queue == [] && x.sent == [] && r < WND_RCV - 1
    requires |data| == r * Mss(x.k.cfg) + 1
    ensures var x' := OnSend(x, data);
            && x'.log == [] && |x'.k.snd.queue| == r + 1 && |x'.sent| == 1
            && x'.k == x.k.(snd := x.k.snd.(queue := x'.k.snd.queue))
  {
    var mss := Mss(x.k.cfg);
    FragCountJustOver(r, mss);
    assert data[0..] == data;
    SplitFits(data, mss, r + 1, x.k.cfg.stream);
    hide Split, FragCount;
    assert Extend(x.k, |data|) == 0 && Extended(x.k, data) == [];
  }

  lemma ReachedFresh(cx: Config, cy: Config)
    requires Start(cx, cy)
    ensures Reached(Fresh(cx), Fresh(cy)) && Reached(Fresh(cy), Fresh(cx))
  {
    assert Run(cx, cy, []) == Sys(Fresh(cx), Fresh(cy));
  }

  /** Before anything is sent, an endpoint has nothing in flight and its peer nothing received. */
  lemma NothingSent(x: Node, y: Node)
    requires Good(x, y) && x.log == []
    ensures x.k.snd.buf == [] && x.k.snd.una == 0 && y.taken == [] && y.k.rcv.nxt == 0 && y.k.rcv.queue == []
  {
    QueueLength(x, y);
    hide App, RcvOk, NoLoss, HonestAcks, HonestDatas, Fits;
  }

  lemma SomeData(cfg: Config, r: nat) returns (data: bytes)
    requires ValidConfig(cfg)
    ensures |data| == r * Mss(cfg) + 1
  {
    assert r * Mss(cfg) >= 0;
    data := seq(r * Mss(cfg) + 1, i => 0);
  }

  /** An endpoint that has sent nothing queues a message. */
  lemma SendFirst(x: Node, y: Node, r: nat) returns (s: Sys)
    requires Reached(x, y) && ValidConfig(x.k.cfg) && Room(x, y) && Room(y, x) && r < WND_RCV - 1
    requires x.log == [] && x.k.snd.queue == [] && x.sent == []
    requires r + 1 + y.k.cfg.rcvWnd <= TWO31
    ensures Reached(s.a, s.b) && Good(s.a, s.b) && s.b == y
    ensures s.a.log == [] && |s.a.k.snd.queue| == r + 1 && |s.a.sent| == 1
    ensures s.a.k == x.k.(snd := x.k.snd.(queue := s.a.k.snd.queue))
  {
    var data := SomeData(x.k.cfg, r);
    QueueMessage(x, r, data);
    hide Mss, OnSend, Reached, Pair, App;
    var e := Event(true, SendOp(data));
    ReachedStep(Sys(x, y), e);
    s := Step(Sys(x, y), e);
    ReachedIsGood(s.a, s.b);
  }

  /** Once `a`'s first segment is through, `b` knows `a`'s window. */
  lemma Heard(s: Sys) returns (t: Sys)
    requires GoodSys(s) && ValidConfigs(s) && s.a.log == [] && s.b.log == [] && s.b.k.snd.queue == []
    requires s.a.k.ctl.rmtWnd > 0 && s.a.k.snd.queue != []
    ensures Leads(s, t) && t.b.k.ctl.rmtWnd == s.a.k.cfg.rcvWnd % TWO16
  {
    hide Good, ValidConfig, Reaches, SameSource, Paced;
    NothingSent(s.a, s.b);
    var u := QueuedIsNumbered(s);
    GoodSwap(u.a, u.b);
    NothingSent(u.b, u.a);
    SourceConfig(s.a, u.a);
    EmptyQueueFits(u.b.k);
    t := MissingArrives(u);
    LeadsTrans(s, u, t);
  }

  lemma EmptyQueueFits(k: Kcb)
    requires ValidConfig(k.cfg) && k.rcv.queue == []
    ensures |k.rcv.queue| < k.cfg.rcvWnd
  {
  }

  /** The far end speaks first: then the sender knows its window. */
  lemma Greeting(cx: Config, cy: Config) returns (x: Node, y: Node)
    requires Start(cx, cy)
    ensures x.k.cfg == cx && y.k.cfg == cy && Reached(x, y) && Good(x, y)
    ensures x.log == [] && x.k.snd.queue == [] && x.sent == [] && x.k.ctl.rmtWnd == cy.rcvWnd % TWO16
  {
    ReachedFresh(cx, cy);
    var s := SendFirst(Fresh(cy), Fresh(cx), 0);
    GoodConfigs(s.a, s.b);
    hide Reached, Good, Reaches, SameSource, ValidConfig;
    var t := Heard(s);
    ReachedLeads(s, t);
    GoodSwap(t.a, t.b);
    ReachedSwap(t.a, t.b);
    SourceNothing(s.b, t.b);
    SourceConfig(s.a, t.a);
    x, y := t.b, t.a;
  }

  lemma SourceNothing(x: Node, x': Node)
    requires SameSource(x, x') && x.log == [] && x.k.snd.queue == []
    ensures x'.log == [] && x'.k.snd.queue == [] && x'.sent == x.sent && x'.k.cfg == x.k.cfg
  {
    assert |x'.log + x'.k.snd.queue| == 0;
  }

  lemma ReachedSwap(x: Node, y: Node)
    requires Reached(x, y)
    ensures Reached(y, x)
  {
    hide Run;
  }

  /** Then a message is queued. */
  lemma Opening(cx: Config, cy: Config, r: nat) returns (s: Sys)
    requires Start(cx, cy) && cy.rcvWnd % TWO16 == r < WND_RCV - 1
    ensures s.a.k.cfg == cx && s.b.k.cfg == cy && Reached(s.a, s.b) && Filling(s, r)
  {
    hide Reached, Good, ValidConfig;
    var x, y := Greeting(cx, cy);
    NothingSent(x, y);
    GoodConfigs(x, y);
    RoomForOne(x, y);
    BelowHalf(cy);
    s := SendFirst(x, y, r);
    GoodConfigs(s.a, s.b);
  }

  lemma BelowHalf(c: Config)
    requires ValidConfig(c) && c.rcvWnd % TWO16 < WND_RCV
    ensures c.rcvWnd + WND_RCV <= TWO31
  {
  }

  lemma RoomForOne(x: Node, y: Node)
    requires Good(x, y)
    ensures Room(x, y) && Room(y, x)
  {
    hide Half, App;
  }

  /** For every configuration whose window is too wide there is a run to a standstill. */
  lemma Standstill(cx: Config, cy: Config) returns (x: Node, y: Node)
    requires Start(cx, cy) && !StaysOpen(cx, cy)
    ensures x.k.cfg == cx && y.k.cfg == cy && Peers(x, y) && Room(x, y) && Room(y, x)
    ensures Stuck(Sys(Lost(x), Lost(y)))
  {
    var r := cy.rcvWnd % TWO16;
    var s := Opening(cx, cy, r);
    var t := Fill(s, r);
    ReachedLeads(s, t);
    SourceConfig(s.a, t.a);
    SourceConfig(s.b, t.b);
    FilledIsStuck(t, r);
    x, y := t.a, t.b;
    hide Pair, App, Run, Stuck;
    ReachedIsGood(x, y);
  }

  // ----- the exact condition

  /** A state of some run between the two configurations, with numbers left for what is queued. */
  ghost predicate Between(cx: Config, cy: Config, x: Node, y: Node) {
    x.k.cfg == cx && y.k.cfg == cy && Peers(x, y) && Room(x, y) && Room(y, x)
  }

  ghost predicate CanStillArrive(x: Node, y: Node)
    requires ValidConfig(x.k.cfg) && ValidConfig(y.k.cfg)
  {
    exists es :: NoSend(es) && Delivered(x, After(Sys(Lost(x), Lost(y)), es).b)
  }

  lemma LostSource(x: Node, x': Node)
    requires SameSource(Lost(x), x')
    ensures SameSource(x, x')
  {
  }

  lemma StuckIsNotDelivered(x: Node, s: Sys)
    requires Stuck(s) && SameSource(x, s.a)
    ensures !Delivered(x, s.b)
  {
    hide ReorderOk, NoLoss, HonestAcks, HonestDatas, App, HasMsg, Frags;
  }

  /** Between two configurations all that is sent can still arrive, from every state of every run
      and whatever is lost, if and only if the window cut to 16 bits exceeds what can be waiting
      unread: 126 segments in message mode, none in stream mode. */
  lemma ArrivesIffOpen(cx: Config, cy: Config)
    requires Start(cx, cy)
    ensures StaysOpen(cx, cy) <==>
              forall x, y :: Between(cx, cy, x, y) ==> CanStillArrive(x, y)
  {
    if StaysOpen(cx, cy) {
      hide Peers, Room, Delivered, After, ValidConfig;
      forall x, y | Between(cx, cy, x, y)
        ensures CanStillArrive(x, y)
      {
        var es := EverythingCanStillArrive(x, y);
      }
    } else {
      var x, y := Standstill(cx, cy);
      hide Peers, Room, Stuck, Delivered, After, ValidConfig;
      if CanStillArrive(x, y) {
        var s := Sys(Lost(x), Lost(y));
        var es :| NoSend(es) && Delivered(x, After(s, es).b);
        StuckForGood(s, es);
        LostSource(x, After(s, es).a);
        StuckIsNotDelivered(x, After(s, es));
      }
    }
  }
}
