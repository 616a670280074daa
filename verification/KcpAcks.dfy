/** What an arriving datagram does to the segments in flight: exactly which are cleared, which are
    counted as overtaken, and what the acknowledgements say. */
module KcpAcks {
  import opened Words
  import opened KcpWire
  import opened KcpModel
  import opened KcpLink
  import opened KcpSystem
  import opened KcpMessages
  import opened KcpTheorems
  import opened KcpProgress
  import opened KcpCongestion
  import opened KcpTimers

  ghost predicate Ascending(buf: seq<OutSeg>) { forall i, j :: 0 <= i < j < |buf| ==> buf[i].sn < buf[j].sn }

  /** The flight: ascending numbers in the half range, from the first unacknowledged one on. */
  ghost predicate Flight(s: Snd) {
    && Ascending(s.buf) && s.nxt < TWO31 && s.una == (if s.buf == [] then s.nxt else s.buf[0].sn)
    && forall i :: 0 <= i < |s.buf| ==> s.buf[i].sn < s.nxt
  }

  /** Numbers in the half range. */
  ghost predicate Sane(pkts: seq<Packet>) {
    forall p <- pkts :: p.una < TWO31 && (p.cmd == CMD_ACK ==> p.sn < TWO31)
  }

  /** One segment of the datagram acknowledges `sn`, cumulatively or by itself. */
  ghost predicate Clears(p: Packet, sn: u32) { p.una > sn || (p.cmd == CMD_ACK && p.sn == sn) }

  ghost predicate Cleared(pkts: seq<Packet>, sn: u32) { exists p <- pkts :: Clears(p, sn) }

  /** The datagram acknowledges something sent after `sn`, and nothing that was never sent. */
  ghost predicate Overtakes(pkts: seq<Packet>, sn: u32, nxt: u32) {
    && (exists p <- pkts :: p.cmd == CMD_ACK && p.sn > sn)
    && forall p <- pkts :: p.cmd == CMD_ACK ==> p.sn < nxt
  }

  // ----- acknowledgements

  lemma {:induction false} AckUnaKeeps(buf: seq<OutSeg>, una: u32)
    requires Ascending(buf) && una < TWO31 && forall i :: 0 <= i < |buf| ==> buf[i].sn < TWO31
    ensures Ascending(AckUna(buf, una))
    ensures forall x :: x in AckUna(buf, una) <==> x in buf && x.sn >= una
  {
    if buf != [] {
      DiffInRange(una, buf[0].sn);
      if una > buf[0].sn {
        AckUnaKeeps(buf[1..], una);
        assert buf == [buf[0]] + buf[1..];
      } else {
        assert forall i :: 0 <= i < |buf| ==> buf[0].sn <= buf[i].sn;
      }
    }
  }

  lemma {:induction false} DropSnKeeps(buf: seq<OutSeg>, sn: u32)
    requires Ascending(buf) && sn < TWO31 && forall i :: 0 <= i < |buf| ==> buf[i].sn < TWO31
    ensures forall x :: x in DropSn(buf, sn) <==> x in buf && x.sn != sn
    ensures Ascending(DropSn(buf, sn))
  {
    if buf != [] {
      var head, rest := buf[0], buf[1..];
      assert buf == [head] + rest;
      assert forall x <- rest :: head.sn < x.sn;
      DiffInRange(sn, head.sn);
      if sn > head.sn {
        DropSnKeeps(rest, sn);
        var d := DropSn(rest, sn);
        assert forall i :: 0 <= i < |d| ==> d[i] in d;
      }
    }
  }

  lemma ShrinkFlight(s: Snd, buf: seq<OutSeg>)
    requires Flight(s) && Ascending(buf) && forall x <- buf :: x in s.buf
    ensures Flight(Shrink(s.(buf := buf)))
  {
    assert forall i :: 0 <= i < |buf| ==> buf[i] in buf;
  }

  /** One segment clears exactly what it acknowledges. */
  lemma OneClears(s: Snd, p: Packet)
    requires Flight(s) && p.una < TWO31 && (p.cmd == CMD_ACK ==> p.sn < TWO31)
    ensures var s' := InputSnd(s, p);
            && Flight(s') && s'.nxt == s.nxt && s'.queue == s.queue
            && forall x :: x in s'.buf <==> x in s.buf && !Clears(p, x.sn)
  {
    hide AckUna, DropSn;
    AckUnaKeeps(s.buf, p.una);
    var s1 := Shrink(s.(buf := AckUna(s.buf, p.una)));
    ShrinkFlight(s, AckUna(s.buf, p.una));
    if p.cmd == CMD_ACK {
      DropSnKeeps(s1.buf, p.sn);
      AckSnKeeps(s1, p.sn);
      ShrinkFlight(s1, AckSn(s1, p.sn).buf);
    }
  }

  lemma AckSnKeeps(s: Snd, sn: u32)
    requires Flight(s) && sn < TWO31
    ensures var s' := AckSn(s, sn);
            s' == s.(buf := s'.buf) && Ascending(s'.buf) && forall x :: x in s'.buf <==> x in s.buf && x.sn != sn
  {
    DropSnKeeps(s.buf, sn);
    DiffInRange(sn, s.una);
    DiffInRange(sn, s.nxt);
    hide DropSn;
    forall x <- s.buf
      ensures s.una <= x.sn < s.nxt
    {
      var i :| 0 <= i < |s.buf| && s.buf[i] == x;
      assert i > 0 ==> s.buf[0].sn < s.buf[i].sn;
    }
  }

  lemma {:induction false} AllClear(k: Kcb, pkts: seq<Packet>)
    requires Flight(k.snd) && Sane(pkts)
    ensures var s' := InputSegs(k, pkts).snd;
            && Flight(s') && s'.nxt == k.snd.nxt && s'.queue == k.snd.queue
            && forall x :: x in s'.buf <==> x in k.snd.buf && !Cleared(pkts, x.sn)
  {
    hide InputSnd, Clears, Flight;
    if pkts != [] {
      var n := |pkts| - 1;
      var k1, p := InputSegs(k, pkts[..n]), pkts[n];
      assert p in pkts && forall q <- pkts[..n] :: q in pkts;
      AllClear(k, pkts[..n]);
      OneClears(k1.snd, p);
      assert InputSegs(k, pkts).snd == InputSnd(k1.snd, p);
      forall x
        ensures Cleared(pkts, x) <==> Cleared(pkts[..n], x) || Clears(p, x)
      {
        ClearedSnoc(pkts, x);
      }
    }
  }

  lemma ClearedSnoc(pkts: seq<Packet>, sn: u32)
    requires pkts != []
    ensures Cleared(pkts, sn) <==> Cleared(pkts[..|pkts| - 1], sn) || Clears(pkts[|pkts| - 1], sn)
  {
    hide Clears;
    var n := |pkts| - 1;
    assert pkts == pkts[..n] + [pkts[n]];
  }

  // ----- overtaking

  lemma {:induction false} HighestIs(pkts: seq<Packet>)
    requires Sane(pkts)
    ensures var m := HighestAck(pkts);
            && (m.NoAck? <==> forall p <- pkts :: p.cmd != CMD_ACK)
            && (m.MaxAck? ==> m.sn < TWO31 && (exists p <- pkts :: p.cmd == CMD_ACK && p.sn == m.sn)
                              && forall p <- pkts :: p.cmd == CMD_ACK ==> p.sn <= m.sn)
  {
    if pkts != [] {
      var n := |pkts| - 1;
      assert pkts[n] in pkts && forall q <- pkts[..n] :: q in pkts;
      HighestIs(pkts[..n]);
      assert pkts == pkts[..n] + [pkts[n]];
      var m, p := HighestAck(pkts[..n]), pkts[n];
      if m.MaxAck? && p.cmd == CMD_ACK { DiffInRange(p.sn, m.sn); }
    }
  }

  ghost function Counted(seg: OutSeg, more: bool): OutSeg {
    if more then seg.(fastack := Add32(seg.fastack, 1)) else seg
  }

  lemma {:induction false} SkippedCounts(buf: seq<OutSeg>, h: u32)
    requires Ascending(buf) && h < TWO31 && forall i :: 0 <= i < |buf| ==> buf[i].sn < TWO31
    ensures |Skipped(buf, h)| == |buf|
    ensures forall i :: 0 <= i < |buf| ==> Skipped(buf, h)[i] == Counted(buf[i], buf[i].sn < h)
  {
    if buf != [] {
      DiffInRange(h, buf[0].sn);
      assert forall i :: 0 <= i < |buf| ==> buf[0].sn <= buf[i].sn;
      if h >= buf[0].sn { SkippedCounts(buf[1..], h); }
    }
  }

  /** What a datagram makes of a segment that it does not clear. */
  ghost function Met(seg: OutSeg, d: Parsed, nxt: u32): OutSeg {
    Counted(seg, d.code == 0 && Overtakes(d.pkts, seg.sn, nxt))
  }

  lemma OvertakesIff(pkts: seq<Packet>, sn: u32, nxt: u32)
    requires Sane(pkts)
    ensures var m := HighestAck(pkts); Overtakes(pkts, sn, nxt) <==> m.MaxAck? && sn < m.sn < nxt
  {
    HighestIs(pkts);
    hide HighestAck;
  }

  lemma FastAckCounts(s: Snd, pkts: seq<Packet>)
    requires Flight(s) && Sane(pkts)
    ensures var m := HighestAck(pkts);
            var s' := if m.MaxAck? then FastAck(s, m.sn) else s;
            && s' == s.(buf := s'.buf) && |s'.buf| == |s.buf| && Flight(s')
            && forall i :: 0 <= i < |s.buf| ==> s'.buf[i] == Counted(s.buf[i], Overtakes(pkts, s.buf[i].sn, s.nxt))
  {
    HighestIs(pkts);
    var m := HighestAck(pkts);
    hide HighestAck, Skipped, Overtakes;
    forall i | 0 <= i < |s.buf|
      ensures Overtakes(pkts, s.buf[i].sn, s.nxt) <==> m.MaxAck? && s.buf[i].sn < m.sn < s.nxt
    {
      OvertakesIff(pkts, s.buf[i].sn, s.nxt);
    }
    if m.MaxAck? {
      SkippedCounts(s.buf, m.sn);
      DiffInRange(m.sn, s.una);
      DiffInRange(m.sn, s.nxt);
    }
    assert forall i :: 0 <= i < |s.buf| ==> s.una <= s.buf[i].sn;
  }

  /** A datagram clears exactly the segments it acknowledges, and counts as overtaken, once, exactly
      those that stay and have a number below one it acknowledges. Nothing else changes. */
  lemma InputMeetsFlight(k: Kcb, d: bytes)
    requires ValidConfig(k.cfg) && Flight(k.snd) && Sane(ParseDatagram(k.cfg.conv, d).pkts)
    ensures var parsed, s' := ParseDatagram(k.cfg.conv, d), Input(k, d).k.snd;
            && Flight(s') && s'.nxt == k.snd.nxt && s'.queue == k.snd.queue
            && (forall x <- k.snd.buf :: !Cleared(parsed.pkts, x.sn) ==> Met(x, parsed, k.snd.nxt) in s'.buf)
            && forall y <- s'.buf :: exists x <- k.snd.buf ::
                 !Cleared(parsed.pkts, x.sn) && y == Met(x, parsed, k.snd.nxt)
  {
    var parsed := ParseDatagram(k.cfg.conv, d);
    AllClear(k, parsed.pkts);
    var k1 := InputSegs(k, parsed.pkts);
    FastAckCounts(k1.snd, parsed.pkts);
    InputSndIs(k, d);
    hide Input, InputSegs, ParseDatagram, HighestAck, FastAck, Cleared, Overtakes, Flight;
    var s' := Input(k, d).k.snd;
    forall i | 0 <= i < |s'.buf|
      ensures s'.buf[i] == Met(k1.snd.buf[i], parsed, k.snd.nxt)
    {
    }
    forall x <- k.snd.buf | !Cleared(parsed.pkts, x.sn)
      ensures Met(x, parsed, k.snd.nxt) in s'.buf
    {
      var i :| 0 <= i < |k1.snd.buf| && k1.snd.buf[i] == x;
      assert s'.buf[i] == Met(x, parsed, k.snd.nxt);
    }
    forall y <- s'.buf
      ensures exists x <- k.snd.buf :: !Cleared(parsed.pkts, x.sn) && y == Met(x, parsed, k.snd.nxt)
    {
      var i :| 0 <= i < |s'.buf| && s'.buf[i] == y;
      assert k1.snd.buf[i] in k1.snd.buf;
    }
  }

  lemma InputSndIs(k: Kcb, d: bytes)
    requires ValidConfig(k.cfg)
    ensures var parsed := ParseDatagram(k.cfg.conv, d);
            var s, m := InputSegs(k, parsed.pkts).snd, HighestAck(parsed.pkts);
            Input(k, d).k.snd == if parsed.code == 0 && m.MaxAck? then FastAck(s, m.sn) else s
  {
    hide InputSegs, ParseDatagram, HighestAck, FastAck, GrowCwnd, TimeDiff;
  }

  // ----- over runs

  lemma FlightInRun(x: Node, y: Node)
    requires Good(x, y)
    ensures Flight(x.k.snd) && NumbersLeft(x.k) && InOrderBelow(x.k.snd.buf, x.k.snd.nxt) && ValidConfig(x.k.cfg)
  {
    hide App, RcvOk, NoLoss, HonestAcks, HonestDatas;
  }

  /** Whatever the peer ever emitted is in range. */
  lemma NetIsSane(x: Node, y: Node, d: bytes)
    requires Good(x, y) && d in y.net
    ensures Sane(ParseDatagram(x.k.cfg.conv, d).pkts)
    ensures forall p <- ParseDatagram(x.k.cfg.conv, d).pkts :: p.cmd == CMD_ACK ==> p.sn < x.k.snd.nxt
  {
    hide App, RcvOk, NoLoss, HonestDatas, ParseDatagram, Has;
    assert forall p <- ParseDatagram(x.k.cfg.conv, d).pkts :: HonestAck(p, y.k.rcv, x.log);
    QueueLength(x, y);
  }

  /** The endpoint as an update at `now` flushes it. */
  function Clocked(k: Kcb, now: u32): Kcb {
    var due := if k.ctl.updated && TimeDiff(now, k.ctl.tsFlush) < 10000 then k.ctl.tsFlush else now;
    k.(ctl := k.ctl.(current := now, updated := true, tsFlush := NextFlush(due, now, k.cfg.interval)))
  }

  /** The segment goes out in this step. */
  ghost predicate SentIn(x: Node, op: Op, sn: u32) {
    match op
    case FlushOp => x.k.ctl.updated && GoesOut(x.k, sn)
    case UpdateOp(now) => FlushesAt(x.k.ctl, now) && GoesOut(Clocked(x.k, now), sn)
    case _ => false
  }

  /** The segment is overtaken in this step. */
  ghost predicate OvertakenIn(x: Node, peer: set<bytes>, op: Op, sn: u32) {
    && op.InputOp? && op.datagram in peer
    && var d := ParseDatagram(x.k.cfg.conv, op.datagram); d.code == 0 && Overtakes(d.pkts, sn, x.k.snd.nxt)
  }

  ghost predicate Waits(k: Kcb, sn: u32) { exists seg <- k.snd.buf :: seg.sn == sn }

  lemma FlushLeaves(k: Kcb, seg: OutSeg)
    requires k.ctl.updated && NumbersLeft(k) && ValidConfig(k.cfg) && k.ctl.rto <= RTO_MAX
    requires InOrderBelow(k.snd.buf, k.snd.nxt) && seg in k.snd.buf && !GoesOut(k, seg.sn)
    ensures seg in Flush(k).k.snd.buf
  {
    hide Flush, GoesOut, Admitted;
    var i :| 0 <= i < |k.snd.buf| && k.snd.buf[i] == seg;
    GoesOutIffDue(k, i);
    FlushPasses(k);
    assert Passed(k.cfg, k.ctl.rto, k.ctl.current, k.snd.buf[i], Flush(k).k.snd.buf[i]);
    hide Due;
  }

  ghost predicate Fit(x: Node, y: Node) { Good(x, y) && CtlOk(x.k.cfg, x.k.ctl) }

  lemma ClockedFit(k: Kcb, now: u32)
    requires NumbersLeft(k) && InOrderBelow(k.snd.buf, k.snd.nxt)
    ensures NumbersLeft(Clocked(k, now)) && InOrderBelow(Clocked(k, now).snd.buf, Clocked(k, now).snd.nxt)
  {
  }

  /** A step leaves a segment that stays and is not sent as it was, but for being overtaken. */
  lemma StepCounts(x: Node, y: Node, op: Op, seg: OutSeg)
    requires Fit(x, y) && seg in x.k.snd.buf && !SentIn(x, op, seg.sn) && Waits(StepNode(x, y.net, op).k, seg.sn)
    ensures Counted(seg, OvertakenIn(x, y.net, op, seg.sn)) in StepNode(x, y.net, op).k.snd.buf
  {
    FlightInRun(x, y);
    hide Good, GoesOut, Flush, Update, Input, Send, Taken, Recv, FlushesAt, Clocked;
    match op
    case SendOp(data) => SendKeepsFlight(x.k, data);
    case RecvOp(len) => RecvTouches(x, len); hide OnRecv;
    case InputOp(d) =>
      if d in y.net {
        NetIsSane(x, y, d);
        InputMeetsFlight(x.k, d);
        MetStays(x.k, d, seg);
      }
    case FlushOp =>
      if x.k.ctl.updated { FlushLeaves(x.k, seg); } else { NotYetFlushed(x.k); }
    case UpdateOp(now) =>
      UpdateFlushesIff(x.k, now);
      if FlushesAt(x.k.ctl, now) {
        ClockedIs(x.k, now);
        ClockedFit(x.k, now);
        FlushLeaves(Clocked(x.k, now), seg);
      }
  }

  lemma ClockedIs(k: Kcb, now: u32)
    requires ValidConfig(k.cfg) && FlushesAt(k.ctl, now)
    ensures Update(k, now) == Flush(Clocked(k, now))
    ensures var k1 := Clocked(k, now); k1.ctl.updated && k1.snd == k.snd && k1.cfg == k.cfg && k1.ctl.rto == k.ctl.rto
  {
    UpdateFlushesIff(k, now);
    hide Flush, Update;
  }

  lemma NotYetFlushed(k: Kcb)
    requires !k.ctl.updated
    ensures Flush(k).k == k
  {
  }

  lemma SendKeepsFlight(k: Kcb, data: bytes)
    requires ValidConfig(k.cfg)
    ensures Send(k, data).k.snd.buf == k.snd.buf
  {
    hide Split, Extended, Extend, FragCount;
  }

  lemma MetStays(k: Kcb, d: bytes, seg: OutSeg)
    requires ValidConfig(k.cfg) && Flight(k.snd) && Sane(ParseDatagram(k.cfg.conv, d).pkts)
    requires seg in k.snd.buf && Waits(Input(k, d).k, seg.sn)
    ensures Met(seg, ParseDatagram(k.cfg.conv, d), k.snd.nxt) in Input(k, d).k.snd.buf
  {
    InputMeetsFlight(k, d);
    hide Input, ParseDatagram, Cleared, Overtakes, Flight;
    var y :| y in Input(k, d).k.snd.buf && y.sn == seg.sn;
  }

  /** What is numbered or queued only grows. */
  lemma TotalGrows(x: Node, peer: set<bytes>, op: Op)
    requires ValidConfig(x.k.cfg)
    ensures Total(x) <= Total(StepNode(x, peer, op))
  {
    hide Recv, Input, Flush, Update, Send;
    match op
    case SendOp(data) => SendLengthens(x.k, data);
    case RecvOp(len) => RecvTouches(x, len);
    case InputOp(d) => InputMoves(x, d);
    case FlushOp => FlushShortens(x.k);
    case UpdateOp(now) => UpdateShortens(x.k, now);
  }

  lemma FlushShortens(k: Kcb)
    ensures |Flush(k).k.snd.queue| <= |k.snd.queue|
  {
    var c := ProbeTimer(k.ctl);
    AdmitShrinks(k.snd, EffectiveWnd(k.cfg, c), WndUnused(k), k.rcv.nxt, c);
    hide Admit, ScanBuf, FlushPackets, Datagrams, Congestion;
  }

  lemma UpdateShortens(k: Kcb, now: u32)
    ensures |Update(k, now).k.snd.queue| <= |k.snd.queue|
  {
    hide Flush;
    var c := k.ctl.(current := now, updated := true);
    if OnTick(k.ctl, k.cfg, now).Fire? {
      FlushShortens(k.(ctl := c.(tsFlush := OnTick(k.ctl, k.cfg, now).tsFlush)));
    }
  }

  lemma SendLengthens(k: Kcb, data: bytes)
    requires ValidConfig(k.cfg)
    ensures |k.snd.queue| <= |Send(k, data).k.snd.queue|
  {
    hide Split, FragCount;
  }

  lemma FitStep(x: Node, y: Node, op: Op)
    requires Fit(x, y) && Room(StepNode(x, y.net, op), y)
    ensures Fit(StepNode(x, y.net, op), y)
  {
    GoodConfig(x, y);
    hide StepNode, Half, App, CtlOk, ValidConfig;
    StepKeepsCtl(x, y.net, op);
    StepKeepsPair(x, y, op);
    StepKeepsApp(x, y, op);
  }

  lemma GoodConfig(x: Node, y: Node)
    requires Good(x, y)
    ensures ValidConfig(x.k.cfg) && ValidConfig(y.k.cfg)
  {
    hide Half, App, Room;
  }

  ghost predicate FitSys(s: Sys) { Fit(s.a, s.b) && CtlOk(s.b.k.cfg, s.b.k.ctl) }

  ghost predicate Roomy(s: Sys) { Room(s.a, s.b) && Room(s.b, s.a) }

  lemma FitSysStep(s: Sys, e: Event)
    requires ValidConfigs(s) && FitSys(s) && Roomy(Step(s, e))
    ensures FitSys(Step(s, e))
  {
    hide StepNode, CtlOk, Pair, App, Room, ValidConfig;
    if e.onA {
      FitStep(s.a, s.b, e.op);
    } else {
      GoodSwap(s.a, s.b);
      FitStep(s.b, s.a, e.op);
      GoodSwap(Step(s, e).b, s.a);
    }
  }

  /** Room at the end of a run is room all along. */
  lemma {:induction false} RoomyBefore(s: Sys, es: seq<Event>)
    requires ValidConfigs(s) && Roomy(After(s, es))
    ensures Roomy(s)
    decreases |es|
  {
    hide StepNode, ValidConfig;
    if es != [] {
      var e := es[0];
      StepConfigs(s, e);
      RoomyBefore(Step(s, e), es[1..]);
      if e.onA { TotalGrows(s.a, s.b.net, e.op); } else { TotalGrows(s.b, s.a.net, e.op); }
    }
  }

  /** During these events the segment stays unacknowledged and does not go out. */
  ghost predicate LeftAlone(s: Sys, es: seq<Event>, sn: u32)
    requires ValidConfigs(s)
    decreases |es|
  {
    Waits(s.a.k, sn) && (es != [] ==>
      !(es[0].onA && SentIn(s.a, es[0].op, sn)) && LeftAlone(Step(s, es[0]), es[1..], sn))
  }

  /** How many of the events are datagrams that overtake it. */
  ghost function Overtakings(s: Sys, es: seq<Event>, sn: u32): nat
    requires ValidConfigs(s)
    decreases |es|
  {
    if es == [] then 0
    else
      (if es[0].onA && OvertakenIn(s.a, s.b.net, es[0].op, sn) then 1 else 0)
      + Overtakings(Step(s, es[0]), es[1..], sn)
  }

  /** In every run the count kept with a segment is the number of datagrams that overtook it. */
  lemma {:induction false} CountIsExact(s: Sys, es: seq<Event>, seg: OutSeg)
    requires ValidConfigs(s) && FitSys(s) && Roomy(After(s, es)) && LeftAlone(s, es, seg.sn) && seg in s.a.k.snd.buf
    requires seg.fastack + Overtakings(s, es, seg.sn) < TWO32
    ensures FitSys(After(s, es))
    ensures seg.(fastack := seg.fastack + Overtakings(s, es, seg.sn)) in After(s, es).a.k.snd.buf
    decreases |es|
  {
    hide StepNode, Fit, SentIn, OvertakenIn, CtlOk, Room, ValidConfig;
    if es == [] {
      assert seg.(fastack := seg.fastack) == seg;
    } else {
      var e, rest := es[0], es[1..];
      var t := Step(s, e);
      StepConfigs(s, e);
      RoomyBefore(t, rest);
      FitSysStep(s, e);
      var more := e.onA && OvertakenIn(s.a, s.b.net, e.op, seg.sn);
      if e.onA { StepCounts(s.a, s.b, e.op, seg); }
      var seg' := Counted(seg, more);
      assert seg'.fastack == seg.fastack + if more then 1 else 0;
      CountIsExact(t, rest, seg');
      assert seg.(fastack := seg.fastack + Overtakings(s, es, seg.sn))
          == seg'.(fastack := seg'.fastack + Overtakings(t, rest, seg.sn));
    }
  }

  /** Overtaken as often as the settings ask for, a segment is in the next flush, due or not. */
  lemma FastResend(s: Sys, es: seq<Event>, seg: OutSeg)
    requires ValidConfigs(s) && FitSys(s) && Roomy(After(s, es)) && LeftAlone(s, es, seg.sn) && seg in s.a.k.snd.buf
    requires seg.fastack + Overtakings(s, es, seg.sn) < TWO32
    requires 0 < s.a.k.cfg.fastresend <= seg.fastack + Overtakings(s, es, seg.sn)
    requires After(s, es).a.k.ctl.updated
    ensures GoesOut(After(s, es).a.k, seg.sn)
  {
    CountIsExact(s, es, seg);
    AfterConfigs(s, es);
    var t := After(s, es);
    hide Good, After, Overtakings, LeftAlone, GoesOut;
    FlightInRun(t.a, t.b);
    var seg' := seg.(fastack := seg.fastack + Overtakings(s, es, seg.sn));
    var i :| 0 <= i < |t.a.k.snd.buf| && t.a.k.snd.buf[i] == seg';
    GoesOutIffDue(t.a.k, i);
  }

  lemma {:induction false} AfterConfigs(s: Sys, es: seq<Event>)
    requires ValidConfigs(s)
    ensures After(s, es).a.k.cfg == s.a.k.cfg && After(s, es).b.k.cfg == s.b.k.cfg
    decreases |es|
  {
    hide StepNode, ValidConfig;
    if es != [] {
      StepConfigs(s, es[0]);
      AfterConfigs(Step(s, es[0]), es[1..]);
    }
  }

  /** Every state of every run is fit for the statements above. */
  lemma RunsAreFitSys(x: Node, y: Node)
    requires Peers(x, y) && Room(x, y) && Room(y, x)
    ensures FitSys(Sys(x, y))
  {
    PeersInvariant(x, y);
    PeersCtl(x, y);
    PeersSwap(x, y);
    PeersCtl(y, x);
    hide Pair, App, Room, CtlOk, Peers;
  }

  lemma PeersSwap(x: Node, y: Node)
    requires Peers(x, y)
    ensures Peers(y, x)
  {
    hide Run;
  }

  // ----- what acknowledgements say

  /** Every data segment in the window is acknowledged with its own number and time stamp. */
  lemma {:induction false} InputListsAcks(k: Kcb, pkts: seq<Packet>, p: Packet, r: Rcv, log: seq<Frag>,
                                          peerLog: seq<Frag>, taken: seq<Frag>)
    requires SendSide(k, r, log) && r.nxt <= |log| < TWO31
    requires RecvSide(k, peerLog, taken) && InRange(peerLog, k.cfg.rcvWnd)
    requires forall q <- pkts :: HonestAck(q, r, log) && HonestData(q, peerLog)
    requires p in pkts && p.cmd == CMD_PUSH && p.sn < k.rcv.nxt + k.cfg.rcvWnd
    ensures Ack(p.sn, p.ts) in InputSegs(k, pkts).rcv.acks
    decreases |pkts|
  {
    hide Has, InputSeg, SndOk, NoLoss, AcksOk, InOrder, ReorderOk, Settled;
    var n := |pkts| - 1;
    var k1 := InputSegs(k, pkts[..n]);
    InputSegsOk(k, pkts[..n], r, log, peerLog, taken);
    assert pkts[n] in pkts;
    InputSegOk(k1, pkts[n], r, log, peerLog, taken);
    InputSegParts(k1, pkts[n]);
    if pkts[n] == p {
      PushIsHeld(k1.cfg, k1.rcv, p, peerLog, taken);
    } else {
      assert p in pkts[..n];
      InputListsAcks(k, pkts[..n], p, r, log, peerLog, taken);
      AcksOnlyGrow(k1.rcv, k1.cfg.rcvWnd, pkts[n]);
    }
  }

  /** Nothing else is acknowledged. */
  lemma {:induction false} OnlyDataIsAcked(k: Kcb, pkts: seq<Packet>)
    ensures forall a <- InputSegs(k, pkts).rcv.acks ::
              a in k.rcv.acks || exists p <- pkts :: p.cmd == CMD_PUSH && a == Ack(p.sn, p.ts)
  {
    if pkts != [] {
      var n := |pkts| - 1;
      var k1, p := InputSegs(k, pkts[..n]), pkts[n];
      OnlyDataIsAcked(k, pkts[..n]);
      InputSegParts(k1, p);
      PushListsOne(k1.rcv, k1.cfg.rcvWnd, p);
      hide InputSeg;
      assert p in pkts && forall q <- pkts[..n] :: q in pkts;
    }
  }

  lemma PushListsOne(r: Rcv, wnd: u32, p: Packet)
    ensures forall a <- InputRcv(r, wnd, p).acks :: a in r.acks || (p.cmd == CMD_PUSH && a == Ack(p.sn, p.ts))
  {
    hide MoveReady, Insert, TimeDiff;
    var seg := InSeg(p.sn, Frag(p.frg, p.data));
    var r1 := r.(acks := r.acks + [Ack(p.sn, p.ts)]);
    MoveKeepsAcks(r1.(buf := Insert(r1.buf, seg)), wnd);
  }

  /** An acknowledgement as it goes out. */
  function Echo(k: Kcb, a: Ack): Packet { Packet(CMD_ACK, 0, Announced(k), a.ts, a.sn, k.rcv.nxt, []) }

  /** A flush acknowledges exactly what is listed, echoing number and time stamp. */
  lemma FlushEchoes(k: Kcb, p: Packet)
    requires p.cmd == CMD_ACK
    ensures p in FlushPackets(k) <==> exists a <- k.rcv.acks :: p == Echo(k, a)
  {
    ScanHonest(FlushAdmit(k).buf, k.cfg, ProbeTimer(k.ctl), WndUnused(k), k.rcv.nxt);
    hide FlushAdmit, ScanBuf, ProbeTimer, WndUnused;
    if p in FlushPackets(k) {
      assert p in AckPackets(k);
      var i :| 0 <= i < |k.rcv.acks| && AckPackets(k)[i] == p;
      assert k.rcv.acks[i] in k.rcv.acks;
    }
    if exists a <- k.rcv.acks :: p == Echo(k, a) {
      var a :| a in k.rcv.acks && p == Echo(k, a);
      var i :| 0 <= i < |k.rcv.acks| && k.rcv.acks[i] == a;
      assert AckPackets(k)[i] == p;
    }
  }

  /** Once out, nothing is left to acknowledge. */
  lemma EchoesOnce(k: Kcb)
    requires k.ctl.updated
    ensures Flush(k).k.rcv == k.rcv.(acks := [])
  {
    hide FlushAdmit, FlushScan, FlushPackets, Datagrams, Congestion, ProbeTimer;
  }

  /** Data that arrives in the window is echoed by the next flush. */
  lemma DataIsEchoed(x: Node, y: Node, d: bytes, p: Packet)
    requires Good(x, y) && d in y.net && p in ParseDatagram(x.k.cfg.conv, d).pkts
    requires p.cmd == CMD_PUSH && p.sn < x.k.rcv.nxt + x.k.cfg.rcvWnd
    ensures var k' := Input(x.k, d).k; Echo(k', Ack(p.sn, p.ts)) in FlushPackets(k')
  {
    hide App, SndOk, NoLoss, AcksOk, HonestData, HonestAck, Input, InputSegs, ParseDatagram, Has, FlushPackets;
    var k, pkts := x.k, ParseDatagram(x.k.cfg.conv, d).pkts;
    assert forall q <- pkts :: HonestAck(q, y.k.rcv, x.log) && HonestData(q, y.log);
    InputListsAcks(k, pkts, p, y.k.rcv, x.log, y.log, x.taken);
    InputTail(k, d);
    var k' := Input(k, d).k;
    FlushEchoes(k', Echo(k', Ack(p.sn, p.ts)));
  }

  // ----- measuring

  ghost predicate SameEstimate(c: Ctl, c': Ctl) { c'.srtt == c.srtt && c'.rttval == c.rttval && c'.rto == c.rto }

  /** A datagram without acknowledgements measures nothing. */
  lemma {:induction false} NoAckNoSample(k: Kcb, pkts: seq<Packet>)
    requires forall p <- pkts :: p.cmd == CMD_ACK ==> TimeDiff(k.ctl.current, p.ts) < 0
    ensures SameEstimate(k.ctl, InputSegs(k, pkts).ctl) && InputSegs(k, pkts).ctl.current == k.ctl.current
  {
    if pkts != [] {
      var n := |pkts| - 1;
      assert pkts[n] in pkts && forall q <- pkts[..n] :: q in pkts;
      NoAckNoSample(k, pkts[..n]);
      InputSegParts(InputSegs(k, pkts[..n]), pkts[n]);
      hide InputSeg, UpdateRtt;
    }
  }

  ghost predicate Echoes(pkts: seq<Packet>, t: u32) { forall p <- pkts :: p.cmd == CMD_ACK ==> p.ts == t }

  lemma {:induction false} AckIsSample(k: Kcb, pkts: seq<Packet>, t: u32)
    requires Echoes(pkts, t) && TimeDiff(k.ctl.current, t) >= 0 && k.ctl.srtt == 0
    ensures var c := InputSegs(k, pkts).ctl;
            && c.current == k.ctl.current
            && c.srtt == if exists p <- pkts :: p.cmd == CMD_ACK then TimeDiff(k.ctl.current, t) else 0
  {
    if pkts != [] {
      var n := |pkts| - 1;
      assert pkts[n] in pkts && forall q <- pkts[..n] :: q in pkts;
      assert pkts == pkts[..n] + [pkts[n]];
      AckIsSample(k, pkts[..n], t);
      var k1, p := InputSegs(k, pkts[..n]), pkts[n];
      InputSegParts(k1, p);
      SampleTwice(k1.ctl.(rmtWnd := p.wnd), k.cfg, TimeDiff(k.ctl.current, t));
      hide InputSeg, UpdateRtt, TimeDiff;
    }
  }

  lemma SampleTwice(c: Ctl, cfg: Config, rtt: nat)
    requires c.srtt == 0 || c.srtt == rtt
    ensures UpdateRtt(c, cfg, rtt).srtt == rtt && UpdateRtt(c, cfg, rtt).current == c.current
  {
  }

  /** The first estimate is the time between sending and the arrival of the echo. */
  lemma MeasuresRoundTrip(k: Kcb, d: bytes, t: u32)
    requires ValidConfig(k.cfg) && k.ctl.srtt == 0 && TimeDiff(k.ctl.current, t) >= 0
    requires var pkts := ParseDatagram(k.cfg.conv, d).pkts; Echoes(pkts, t) && exists p <- pkts :: p.cmd == CMD_ACK
    ensures Input(k, d).k.ctl.srtt == TimeDiff(k.ctl.current, t)
  {
    AckIsSample(k, ParseDatagram(k.cfg.conv, d).pkts, t);
    InputKeepsEstimate(k, d);
    hide Input, InputSegs, ParseDatagram;
  }

  lemma InputKeepsEstimate(k: Kcb, d: bytes)
    requires ValidConfig(k.cfg)
    ensures SameEstimate(InputSegs(k, ParseDatagram(k.cfg.conv, d).pkts).ctl, Input(k, d).k.ctl)
  {
    GrowthIsBounded(InputSegs(k, ParseDatagram(k.cfg.conv, d).pkts).ctl, Mss(k.cfg));
    hide InputSegs, ParseDatagram, HighestAck, FastAck, TimeDiff, GrowCwnd;
  }

  // ----- when the congestion window grows

  lemma {:induction false} InputKeepsWindow(k: Kcb, pkts: seq<Packet>)
    ensures var c := InputSegs(k, pkts).ctl;
            c.cwnd == k.ctl.cwnd && c.incr == k.ctl.incr && c.ssthresh == k.ctl.ssthresh
  {
    if pkts != [] {
      var n := |pkts| - 1;
      InputKeepsWindow(k, pkts[..n]);
      var k1, p := InputSegs(k, pkts[..n]), pkts[n];
      InputSegParts(k1, p);
      OneKeepsWindow(k1.ctl, k1.cfg, p);
      hide InputSeg, InputCtl;
    }
  }

  lemma OneKeepsWindow(c: Ctl, cfg: Config, p: Packet)
    ensures var c' := InputCtl(c, cfg, p); c'.cwnd == c.cwnd && c'.incr == c.incr && c'.ssthresh == c.ssthresh
  {
  }

  /** The congestion window grows only when the first unacknowledged number moves on, and then, in
      slow start, by one. */
  lemma GrowsWhenAcked(k: Kcb, d: bytes)
    requires ValidConfig(k.cfg) && Flight(k.snd) && Sane(ParseDatagram(k.cfg.conv, d).pkts)
    ensures var code, k' := ParseDatagram(k.cfg.conv, d).code, Input(k, d).k;
            && k'.snd.una >= k.snd.una
            && (code != 0 || k'.snd.una == k.snd.una ==> k'.ctl.cwnd == k.ctl.cwnd && k'.ctl.incr == k.ctl.incr)
            && (code == 0 && k'.snd.una > k.snd.una && k.ctl.cwnd < k'.ctl.rmtWnd && k.ctl.cwnd < k.ctl.ssthresh ==>
                  k'.ctl.cwnd == k.ctl.cwnd + 1)
  {
    var parsed := ParseDatagram(k.cfg.conv, d);
    AllClear(k, parsed.pkts);
    InputKeepsWindow(k, parsed.pkts);
    FastAckCounts(InputSegs(k, parsed.pkts).snd, parsed.pkts);
    FlightAdvances(k.snd, InputSegs(k, parsed.pkts).snd);
    DiffInRange(InputSegs(k, parsed.pkts).snd.una, k.snd.una);
    hide InputSegs, ParseDatagram, HighestAck, FastAck, Wrap32, Flight, TimeDiff, Cleared, Overtakes;
  }

  lemma FlightAdvances(s: Snd, s': Snd)
    requires Flight(s) && Flight(s') && s'.nxt == s.nxt && forall x <- s'.buf :: x in s.buf
    ensures s.una <= s'.una < TWO31
  {
    if s'.buf != [] {
      assert s'.buf[0] in s.buf;
      var i :| 0 <= i < |s.buf| && s.buf[i] == s'.buf[0];
      assert i > 0 ==> s.buf[0].sn < s.buf[i].sn;
    }
  }
}
