/** A receiver that has room again says so by itself. */
module KcpNotice {
  import opened Words
  import opened KcpWire
  import opened KcpModel
  import opened KcpLink
  import opened KcpSystem
  import opened KcpMessages
  import opened KcpTheorems
  import opened KcpProgress

  /** The read made room in a queue that was full. */
  predicate Reopens(k: Kcb, len: int) {
    && Recv(k, len).code >= 0 && |k.rcv.queue| >= k.cfg.rcvWnd && |Recv(k, len).k.rcv.queue| < k.cfg.rcvWnd
  }

  ghost predicate Tells(k: Kcb) { exists p <- FlushPackets(k) :: p.cmd == CMD_WINS }

  /** The window is told exactly if that was asked for. */
  lemma TellsIff(k: Kcb)
    ensures Tells(k) <==> k.ctl.askTell
    ensures k.ctl.askTell ==>
              exists p <- FlushPackets(k) :: p.cmd == CMD_WINS && p.wnd == Announced(k) && p.una == k.rcv.nxt
    ensures forall p <- FlushPackets(k) | p.cmd == CMD_WASK || p.cmd == CMD_WINS ::
              p.frg == 0 && p.data == [] && Stamped(p, k.rcv.acks)
  {
    ScanHonest(FlushAdmit(k).buf, k.cfg, ProbeTimer(k.ctl), WndUnused(k), k.rcv.nxt);
    ProbeKeepsTell(k.ctl);
    hide FlushAdmit, ScanBuf, ProbeTimer, WndUnused;
    if k.ctl.askTell {
      var p := Bare(k, CMD_WINS, LastAck(k));
      assert p in ProbePackets(k, ProbeTimer(k.ctl));
      assert p in FlushPackets(k);
    }
  }

  /** A probe carries the header of the last acknowledgement before it. */
  ghost predicate Stamped(p: Packet, acks: seq<Ack>) {
    if acks == [] then p.sn == 0 && p.ts == 0 else p.sn == acks[|acks| - 1].sn && p.ts == acks[|acks| - 1].ts
  }

  lemma ProbeKeepsTell(c: Ctl)
    ensures ProbeTimer(c).askTell == c.askTell
  {
    hide Wrap32, TimeDiff, Add32;
  }

  /** After a read the next flush tells the window if and only if the read made room in a full queue,
      or it was to be told anyhow; what it tells is the new room. */
  lemma ReadIsTold(k: Kcb, len: int)
    ensures var k' := Recv(k, len).k;
            && (Tells(k') <==> Tells(k) || Reopens(k, len))
            && (Reopens(k, len) ==> exists p <- FlushPackets(k') ::
                  p.cmd == CMD_WINS && p.wnd == (k.cfg.rcvWnd - |k'.rcv.queue|) % TWO16 && p.una == k'.rcv.nxt)
            && (Recv(k, len).code < 0 ==> k' == k)
  {
    TellsIff(k);
    TellsIff(Recv(k, len).k);
    hide Tells, FlushPackets, PeekSize, MoveReady, FirstMsg, MsgCount;
  }

  /** Being asked has the same effect, and nothing else that arrives has. */
  lemma {:induction false} AskedIsTold(k: Kcb, pkts: seq<Packet>)
    ensures InputSegs(k, pkts).ctl.askTell <==> k.ctl.askTell || exists p <- pkts :: p.cmd == CMD_WASK
  {
    if pkts != [] {
      var n := |pkts| - 1;
      AskedIsTold(k, pkts[..n]);
      InputSegParts(InputSegs(k, pkts[..n]), pkts[n]);
      hide InputSeg, UpdateRtt;
      assert pkts == pkts[..n] + [pkts[n]];
    }
  }

  /** After such a read and a flush the peer learns of the room from what arrives, without asking: its
      only action is to take the datagram. */
  lemma PeerLearns(s: Sys, len: int) returns (d: bytes, t: Sys)
    requires GoodSys(s) && ValidConfigs(s) && Reopens(s.b.k, len)
    ensures Leads(s, t) && t.a == StepNode(s.a, t.b.net, InputOp(d)) && d in t.b.net
    ensures var room := s.b.k.cfg.rcvWnd - |t.b.k.rcv.queue|;
            room > 0 && t.b.k.rcv.queue == Recv(s.b.k, len).k.rcv.queue && t.a.k.ctl.rmtWnd == room % TWO16
  {
    hide Pair, App, Room, Reaches, SameSource, ParseDatagram, Input, Flush, Taken, ValidConfig, FlushPackets, Recv,
         Tells;
    var e := Event(false, RecvOp(len));
    var u := Step(s, e);
    LeadsStep(s, false, RecvOp(len));
    assert u.b.k == Recv(s.b.k, len).k && u.a == s.a;
    ReadIsTold(s.b.k, len);
    SourceConfig(s.b, u.b);
    var v, k1 := LeadsFlush(u, false, 0);
    SourceConfig(u.b, v.b);
    TellsIff(u.b.k);
    TellsIff(k1);
    var p :| p in FlushPackets(k1) && p.cmd == CMD_WINS && p.wnd == Announced(k1) && p.una == k1.rcv.nxt;
    AllSay(k1);
    GoodSwap(u.a, u.b);
    ClockGood(u.b, u.a, k1, 0);
    d := Carrier(u.b.(k := k1), u.a, p);
    SameConv(u.a, u.b);
    LastWindow(v.a.k, ParseDatagram(v.a.k.cfg.conv, d).pkts, Announced(k1));
    InputTail(v.a.k, d);
    t := Step(v, Event(true, InputOp(d)));
    LeadsStep(v, true, InputOp(d));
    LeadsTrans(s, u, v);
    LeadsTrans(s, v, t);
  }
}
