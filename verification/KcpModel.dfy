/** One endpoint as a value, and what each entry point does to it. The class in
    Kcp.dfy is proved to compute these functions; the protocol proofs use them. */
module KcpModel {
  import opened Words
  import opened KcpWire

  const WND_RCV: nat := 128
  const RTO_MAX: nat := 60000
  const PROBE_INIT: u32 := 7000
  const PROBE_LIMIT: u32 := 120000
  const THRESH_MIN: u32 := 2

  /** What `ikcp_send` fills in: the fragments still to come, and the payload. */
  datatype Frag = Frag(frg: byte, data: bytes)

  /** A numbered segment waiting for its acknowledgement. */
  datatype OutSeg = OutSeg(sn: u32, frag: Frag, ts: u32, wnd: u32, una: u32,
                           resendts: u32, rto: u32, fastack: u32, xmit: u32)

  /** A received segment; the other header fields are stored but never read again. */
  datatype InSeg = InSeg(sn: u32, frag: Frag)

  datatype Ack = Ack(sn: u32, ts: u32)

  /** What the set-up calls fix: `ikcp_setmtu`, `ikcp_wndsize`, `ikcp_nodelay`. */
  datatype Config = Config(conv: Guid, mtu: nat, sndWnd: u32, rcvWnd: u32, stream: bool, nodelay: bool,
                           interval: u32, minrto: u32, fastresend: u32, nocwnd: bool, deadLink: u32)

  predicate ValidConfig(c: Config) {
    && 50 <= c.mtu < TWO31
    && 0 < c.sndWnd < TWO31
    && WND_RCV <= c.rcvWnd < TWO31
    && 10 <= c.interval <= 5000
    && c.minrto <= RTO_MAX
  }

  function Mss(c: Config): int { c.mtu - OVERHEAD }

  datatype Snd = Snd(una: u32, nxt: u32, queue: seq<Frag>, buf: seq<OutSeg>)

  datatype Rcv = Rcv(nxt: u32, buf: seq<InSeg>, queue: seq<InSeg>, acks: seq<Ack>)

  /** Windows, round-trip estimate, probes and clocks. */
  datatype Ctl = Ctl(rmtWnd: u16, cwnd: u32, incr: u32, ssthresh: u32, askSend: bool, askTell: bool,
                     tsProbe: u32, probeWait: u32, srtt: nat, rttval: nat, rto: u32,
                     current: u32, tsFlush: u32, updated: bool, xmit: u32, dead: bool)

  datatype Kcb = Kcb(cfg: Config, snd: Snd, rcv: Rcv, ctl: Ctl)

  function Init(cfg: Config): Kcb {
    Kcb(cfg, Snd(0, 0, [], []), Rcv(0, [], [], []),
        Ctl(128, 0, 0, 2, false, false, 0, 0, 0, 0, 200, 0, 17, false, 0, false))
  }

  // ----- ikcp_send

  /** Segments for `count` fragments of `data`, `mss` bytes each. */
  function Split(data: bytes, mss: nat, count: nat, stream: bool): seq<Frag>
    requires count <= 256
    decreases count
  {
    if count == 0 then []
    else
      var size := Min(|data|, mss);
      [Frag(if stream then 0 else count - 1, data[..size])] + Split(data[size..], mss, count - 1, stream)
  }

  function FragCount(len: nat, mss: nat): nat
    requires mss > 0
  {
    if len <= mss then 1 else (len + mss - 1) / mss
  }

  /** Bytes of a stream-mode send that still fit the last queued segment. */
  function Extend(k: Kcb, len: nat): (n: nat)
    requires ValidConfig(k.cfg)
    ensures n <= len
  {
    var q := k.snd.queue;
    if k.cfg.stream && q != [] && |q[|q| - 1].data| < Mss(k.cfg) then Min(len, Mss(k.cfg) - |q[|q| - 1].data|) else 0
  }

  function Grow(q: seq<Frag>, data: bytes): seq<Frag>
    requires q != []
  {
    q[..|q| - 1] + [Frag(0, q[|q| - 1].data + data)]
  }

  /** The queue once the last segment has been topped up. */
  function Extended(k: Kcb, data: bytes): seq<Frag>
    requires ValidConfig(k.cfg)
  {
    var q := k.snd.queue;
    if k.cfg.stream && q != [] && |q[|q| - 1].data| < Mss(k.cfg) then Grow(q, data[..Extend(k, |data|)]) else q
  }

  datatype Sent = Sent(k: Kcb, code: int)

  function Send(k: Kcb, data: bytes): Sent
    requires ValidConfig(k.cfg)
  {
    var rest := data[Extend(k, |data|)..];
    var k1 := k.(snd := k.snd.(queue := Extended(k, data)));
    if k.cfg.stream && rest == [] then Sent(k1, 0)
    else
      var count := FragCount(|rest|, Mss(k.cfg));
      if count >= WND_RCV then Sent(k1, -2)
      else Sent(k1.(snd := k1.snd.(queue := k1.snd.queue + Split(rest, Mss(k.cfg), count, k.cfg.stream))), 0)
  }

  // ----- ikcp_peeksize, ikcp_recv

  function Frags(q: seq<InSeg>): (r: seq<Frag>)
    ensures |r| == |q| && forall i :: 0 <= i < |q| ==> r[i] == q[i].frag
  {
    seq(|q|, i requires 0 <= i < |q| => q[i].frag)
  }

  function Payload(q: seq<Frag>): bytes {
    if q == [] then [] else q[0].data + Payload(q[1..])
  }

  /** How many segments the first message takes up, or all if it is unfinished. */
  function MsgCount(q: seq<InSeg>): (n: nat)
    ensures n <= |q|
  {
    if q == [] then 0 else if q[0].frag.frg == 0 then 1 else 1 + MsgCount(q[1..])
  }

  /** The payload of the first message in the queue. */
  function FirstMsg(q: seq<InSeg>): bytes { Payload(Frags(q[..MsgCount(q)])) }

  predicate HasMsg(q: seq<InSeg>) { q != [] && (q[0].frag.frg == 0 || |q| >= q[0].frag.frg + 1) }

  function PeekSize(q: seq<InSeg>): int { if HasMsg(q) then |FirstMsg(q)| else -1 }

  /** The head of the reorder buffer goes to the queue while it is in sequence and there is room. */
  function MoveReady(r: Rcv, wnd: nat): Rcv
    decreases |r.buf|
  {
    if r.buf != [] && r.buf[0].sn == r.nxt && |r.queue| < wnd then
      MoveReady(r.(nxt := Add32(r.nxt, 1), buf := r.buf[1..], queue := r.queue + [r.buf[0]]), wnd)
    else r
  }

  datatype Received = Received(k: Kcb, code: int, data: bytes)

  /** A negative length asks for a peek. */
  function Recv(k: Kcb, len: int): Received {
    var q := k.rcv.queue;
    if q == [] then Received(k, -1, [])
    else if PeekSize(q) < 0 then Received(k, -2, [])
    else if PeekSize(q) > (if len < 0 then -len else len) then Received(k, -3, [])
    else
      var r := MoveReady(k.rcv.(queue := if len < 0 then q else q[MsgCount(q)..]), k.cfg.rcvWnd);
      var tell := |q| >= k.cfg.rcvWnd && |r.queue| < k.cfg.rcvWnd;
      Received(k.(rcv := r, ctl := k.ctl.(askTell := k.ctl.askTell || tell)), |FirstMsg(q)|, FirstMsg(q))
  }

  // ----- acknowledgements, on the sending side

  function AckUna(buf: seq<OutSeg>, una: u32): seq<OutSeg> {
    if buf != [] && TimeDiff(una, buf[0].sn) > 0 then AckUna(buf[1..], una) else buf
  }

  function Shrink(s: Snd): Snd { s.(una := if s.buf == [] then s.nxt else s.buf[0].sn) }

  function DropSn(buf: seq<OutSeg>, sn: u32): seq<OutSeg> {
    if buf == [] then []
    else if sn == buf[0].sn then buf[1..]
    else if TimeDiff(sn, buf[0].sn) < 0 then buf
    else [buf[0]] + DropSn(buf[1..], sn)
  }

  predicate OutOfFlight(s: Snd, sn: u32) { TimeDiff(sn, s.una) < 0 || TimeDiff(sn, s.nxt) >= 0 }

  function AckSn(s: Snd, sn: u32): Snd {
    if OutOfFlight(s, sn) then s else s.(buf := DropSn(s.buf, sn))
  }

  function Skipped(buf: seq<OutSeg>, sn: u32): seq<OutSeg> {
    if buf == [] || TimeDiff(sn, buf[0].sn) < 0 then buf
    else [Overtaken(buf[0], sn)] + Skipped(buf[1..], sn)
  }

  /** A segment below the highest acknowledged number was overtaken once more. */
  function Overtaken(seg: OutSeg, sn: u32): OutSeg {
    if sn != seg.sn then seg.(fastack := Add32(seg.fastack, 1)) else seg
  }

  function FastAck(s: Snd, sn: u32): Snd {
    if OutOfFlight(s, sn) then s else s.(buf := Skipped(s.buf, sn))
  }

  function UpdateRtt(c: Ctl, cfg: Config, rtt: nat): Ctl {
    var delta := if rtt < c.srtt then c.srtt - rtt else rtt - c.srtt;
    var rttval := if c.srtt == 0 then rtt / 2 else (3 * c.rttval + delta) / 4;
    var srtt := if c.srtt == 0 then rtt else Max(1, (7 * c.srtt + rtt) / 8);
    c.(srtt := srtt, rttval := rttval,
       rto := Min(Max(cfg.minrto, srtt + Max(cfg.interval, 4 * rttval)), RTO_MAX))
  }

  // ----- data, on the receiving side

  /** Insertion from the tail into the ascending reorder buffer; a repeat changes nothing. */
  function Insert(buf: seq<InSeg>, seg: InSeg): seq<InSeg> {
    if buf == [] then [seg]
    else
      var n := |buf| - 1;
      if buf[n].sn == seg.sn then buf
      else if TimeDiff(seg.sn, buf[n].sn) > 0 then buf + [seg]
      else Insert(buf[..n], seg) + [buf[n]]
  }

  function ParseData(r: Rcv, wnd: u32, seg: InSeg): Rcv {
    if TimeDiff(seg.sn, Add32(r.nxt, wnd)) >= 0 || TimeDiff(seg.sn, r.nxt) < 0 then r
    else MoveReady(r.(buf := Insert(r.buf, seg)), wnd)
  }

  function InputPush(r: Rcv, wnd: u32, p: Packet): Rcv {
    if TimeDiff(p.sn, Add32(r.nxt, wnd)) >= 0 then r
    else
      var r1 := r.(acks := r.acks + [Ack(p.sn, p.ts)]);
      if TimeDiff(p.sn, r.nxt) >= 0 then ParseData(r1, wnd, InSeg(p.sn, Frag(p.frg, p.data))) else r1
  }

  // ----- ikcp_input

  function InputSnd(s: Snd, p: Packet): Snd {
    var s1 := Shrink(s.(buf := AckUna(s.buf, p.una)));
    if p.cmd == CMD_ACK then Shrink(AckSn(s1, p.sn)) else s1
  }

  function InputRcv(r: Rcv, wnd: u32, p: Packet): Rcv {
    if p.cmd == CMD_PUSH then InputPush(r, wnd, p) else r
  }

  function InputCtl(c: Ctl, cfg: Config, p: Packet): Ctl {
    var c1 := c.(rmtWnd := p.wnd);
    if p.cmd == CMD_ACK && TimeDiff(c.current, p.ts) >= 0 then UpdateRtt(c1, cfg, TimeDiff(c.current, p.ts))
    else if p.cmd == CMD_WASK then c1.(askTell := true)
    else c1
  }

  function InputSeg(k: Kcb, p: Packet): Kcb {
    Kcb(k.cfg, InputSnd(k.snd, p), InputRcv(k.rcv, k.cfg.rcvWnd, p), InputCtl(k.ctl, k.cfg, p))
  }

  function InputSegs(k: Kcb, pkts: seq<Packet>): (r: Kcb)
    ensures r.cfg == k.cfg
  {
    if pkts == [] then k else InputSeg(InputSegs(k, pkts[..|pkts| - 1]), pkts[|pkts| - 1])
  }

  /** The highest acknowledged number of a datagram, if it acknowledges any. */
  datatype MaxAck = NoAck | MaxAck(sn: u32)

  function HighestAck(pkts: seq<Packet>): MaxAck {
    if pkts == [] then NoAck
    else
      var m, p := HighestAck(pkts[..|pkts| - 1]), pkts[|pkts| - 1];
      if p.cmd == CMD_ACK && (m.NoAck? || TimeDiff(p.sn, m.sn) > 0) then MaxAck(p.sn) else m
  }

  function GrowCwnd(c: Ctl, mss: nat): Ctl
    requires 0 < mss < TWO32
  {
    if c.cwnd >= c.rmtWnd then c
    else if c.cwnd < c.ssthresh then c.(cwnd := Add32(c.cwnd, 1), incr := Add32(c.incr, mss))
    else
      var base := Max(c.incr, mss);
      var incr := Wrap32(base + Wrap32(mss * mss) / base + mss / 16);
      c.(incr := incr, cwnd := if Wrap32((c.cwnd + 1) * mss) <= incr then Add32(c.cwnd, 1) else c.cwnd)
  }

  datatype Inputted = Inputted(k: Kcb, code: int)

  function Input(k: Kcb, datagram: bytes): Inputted
    requires ValidConfig(k.cfg)
  {
    var parsed := ParseDatagram(k.cfg.conv, datagram);
    var k1 := InputSegs(k, parsed.pkts);
    if parsed.code != 0 then Inputted(k1, parsed.code)
    else
      var m := HighestAck(parsed.pkts);
      var k2 := if m.MaxAck? then k1.(snd := FastAck(k1.snd, m.sn)) else k1;
      Inputted(if TimeDiff(k2.snd.una, k.snd.una) > 0 then k2.(ctl := GrowCwnd(k2.ctl, Mss(k.cfg))) else k2, 0)
  }

  // ----- ikcp_flush

  function WndUnused(k: Kcb): u32 {
    if |k.rcv.queue| < k.cfg.rcvWnd then k.cfg.rcvWnd - |k.rcv.queue| else 0
  }

  /** A header without payload; the window is cut to 16 bits on the wire. */
  function Bare(k: Kcb, cmd: byte, a: Ack): Packet {
    Packet(cmd, 0, WndUnused(k) % TWO16, a.ts, a.sn, k.rcv.nxt, [])
  }

  function AckPackets(k: Kcb): (r: seq<Packet>)
    ensures |r| == |k.rcv.acks|
  {
    seq(|k.rcv.acks|, i requires 0 <= i < |k.rcv.acks| => Bare(k, CMD_ACK, k.rcv.acks[i]))
  }

  /** Probes reuse the header left over from the last acknowledgement. */
  function LastAck(k: Kcb): Ack {
    if k.rcv.acks == [] then Ack(0, 0) else k.rcv.acks[|k.rcv.acks| - 1]
  }

  function ProbeTimer(c: Ctl): Ctl {
    if c.rmtWnd != 0 then c.(tsProbe := 0, probeWait := 0)
    else if c.probeWait == 0 then c.(probeWait := PROBE_INIT, tsProbe := Add32(c.current, PROBE_INIT))
    else if TimeDiff(c.current, c.tsProbe) < 0 then c
    else
      var w := Max(c.probeWait, PROBE_INIT);
      var wait := Min(Wrap32(w + w / 2), PROBE_LIMIT);
      c.(probeWait := wait, tsProbe := Add32(c.current, wait), askSend := true)
  }

  function ProbePackets(k: Kcb, c: Ctl): seq<Packet> {
    (if c.askSend then [Bare(k, CMD_WASK, LastAck(k))] else [])
    + (if c.askTell then [Bare(k, CMD_WINS, LastAck(k))] else [])
  }

  function EffectiveWnd(cfg: Config, c: Ctl): u32 {
    var w := Min(cfg.sndWnd, c.rmtWnd);
    if cfg.nocwnd then w else Min(c.cwnd, w)
  }

  function Numbered(f: Frag, sn: u32, wnd: u32, una: u32, c: Ctl): OutSeg {
    OutSeg(sn, f, c.current, wnd, una, c.current, c.rto, 0, 0)
  }

  /** Queued segments are numbered while the window has room. */
  function Admit(s: Snd, w: u32, wnd: u32, una: u32, c: Ctl): Snd
    decreases |s.queue|
  {
    if TimeDiff(s.nxt, Add32(s.una, w)) < 0 && s.queue != [] then
      Admit(s.(queue := s.queue[1..], nxt := Add32(s.nxt, 1),
               buf := s.buf + [Numbered(s.queue[0], s.nxt, wnd, una, c)]),
            w, wnd, una, c)
    else s
  }

  datatype Reason = Keep | First | Timeout | Fast

  function Resent(cfg: Config): u32 { if cfg.fastresend > 0 then cfg.fastresend else 0xffff_ffff }

  function WhySend(seg: OutSeg, cfg: Config, c: Ctl): Reason {
    if seg.xmit == 0 then First
    else if TimeDiff(c.current, seg.resendts) >= 0 then Timeout
    else if seg.fastack >= Resent(cfg) then Fast
    else Keep
  }

  function SendSeg(seg: OutSeg, cfg: Config, c: Ctl, wnd: u32, una: u32): OutSeg {
    var s := seg.(xmit := Add32(seg.xmit, 1), ts := c.current, wnd := wnd, una := una);
    match WhySend(seg, cfg, c)
    case Keep => seg
    case First =>
      var rtomin := if cfg.nodelay then 0 else c.rto / 8;
      s.(rto := c.rto, resendts := Add32(Add32(c.current, c.rto), rtomin))
    case Timeout =>
      var rto := Add32(seg.rto, if cfg.nodelay then c.rto / 2 else c.rto);
      s.(rto := rto, resendts := Add32(c.current, rto))
    case Fast => s.(fastack := 0, resendts := Add32(c.current, seg.rto))
  }

  function DataPacket(seg: OutSeg): Packet {
    Packet(CMD_PUSH, seg.frag.frg, seg.wnd % TWO16, seg.ts, seg.sn, seg.una, seg.frag.data)
  }

  datatype Scan = Scan(buf: seq<OutSeg>, pkts: seq<Packet>, lost: bool, change: bool, xmit: u32, dead: bool)

  function ScanSeg(a: Scan, seg: OutSeg, cfg: Config, c: Ctl, wnd: u32, una: u32): Scan {
    var why := WhySend(seg, cfg, c);
    var s := SendSeg(seg, cfg, c, wnd, una);
    if why.Keep? then a.(buf := a.buf + [seg])
    else Scan(a.buf + [s], a.pkts + [DataPacket(s)], a.lost || why.Timeout?, a.change || why.Fast?,
              if why.Timeout? then Add32(a.xmit, 1) else a.xmit, a.dead || s.xmit >= cfg.deadLink)
  }

  /** One pass over the unacknowledged segments: those due are sent. */
  function ScanBuf(buf: seq<OutSeg>, cfg: Config, c: Ctl, wnd: u32, una: u32): Scan {
    if buf == [] then Scan([], [], false, false, c.xmit, c.dead)
    else ScanSeg(ScanBuf(buf[..|buf| - 1], cfg, c, wnd, una), buf[|buf| - 1], cfg, c, wnd, una)
  }

  /** Slow-start threshold and window after the pass. */
  function Congestion(c: Ctl, cfg: Config, a: Scan, inflight: u32, w: u32): Ctl {
    var c1 := c.(askSend := false, askTell := false, xmit := a.xmit, dead := a.dead);
    var half := Max(THRESH_MIN, inflight / 2);
    var c2 := if a.change then
                c1.(ssthresh := half, cwnd := Add32(half, Resent(cfg)),
                    incr := Wrap32(Add32(half, Resent(cfg)) * Mss(cfg)))
              else c1;
    var c3 := if a.lost then c2.(ssthresh := Max(THRESH_MIN, w / 2), cwnd := 1, incr := Wrap32(Mss(cfg))) else c2;
    if c3.cwnd < 1 then c3.(cwnd := 1, incr := Wrap32(Mss(cfg))) else c3
  }

  datatype Flushed = Flushed(k: Kcb, pkts: seq<Packet>)

  function FlushAdmit(k: Kcb): Snd {
    Admit(k.snd, EffectiveWnd(k.cfg, ProbeTimer(k.ctl)), WndUnused(k), k.rcv.nxt, ProbeTimer(k.ctl))
  }

  function FlushScan(k: Kcb): Scan {
    ScanBuf(FlushAdmit(k).buf, k.cfg, ProbeTimer(k.ctl), WndUnused(k), k.rcv.nxt)
  }

  /** The segments a flush puts on the wire: acknowledgements, then probes, then data. */
  function FlushPackets(k: Kcb): seq<Packet> {
    AckPackets(k) + ProbePackets(k, ProbeTimer(k.ctl)) + FlushScan(k).pkts
  }

  function FlushState(k: Kcb): Kcb {
    var c := ProbeTimer(k.ctl);
    var s := FlushAdmit(k);
    Kcb(k.cfg, s.(buf := FlushScan(k).buf), k.rcv.(acks := []),
        Congestion(c, k.cfg, FlushScan(k), Wrap32(s.nxt - s.una), EffectiveWnd(k.cfg, c)))
  }

  datatype Emitted = Emitted(k: Kcb, out: seq<bytes>)

  function Flush(k: Kcb): Emitted {
    if !k.ctl.updated then Emitted(k, [])
    else Emitted(FlushState(k), Datagrams(k.cfg.conv, k.cfg.mtu, FlushPackets(k)))
  }

  // ----- ikcp_update, ikcp_check

  /** The next flush instant, if `ikcp_update` at `now` decides to flush. */
  datatype Tick = Wait | Fire(tsFlush: u32)

  predicate Stale(c: Ctl, now: u32) {
    !c.updated || TimeDiff(now, c.tsFlush) >= 10000 || TimeDiff(now, c.tsFlush) < -10000
  }

  function OnTick(c: Ctl, cfg: Config, now: u32): Tick {
    var base := if Stale(c, now) then now else c.tsFlush;
    if TimeDiff(now, base) < 0 then Wait
    else
      var next := Add32(base, cfg.interval);
      Fire(if TimeDiff(now, next) >= 0 then Add32(now, cfg.interval) else next)
  }

  function Update(k: Kcb, now: u32): Emitted {
    var c := k.ctl.(current := now, updated := true);
    match OnTick(k.ctl, k.cfg, now)
    case Wait => Emitted(k.(ctl := c), [])
    case Fire(next) => Flush(k.(ctl := c.(tsFlush := next)))
  }

  /** At this instant an update would not flush and no segment has reached its resend time. */
  ghost predicate Quiet(k: Kcb, at: u32) {
    && OnTick(k.ctl, k.cfg, at).Wait?
    && forall i :: 0 <= i < |k.snd.buf| ==> TimeDiff(k.snd.buf[i].resendts, at) > 0
  }

  /** Being quiet rules out a timeout retransmission at that instant. */
  lemma QuietMeansNoTimeout(k: Kcb, at: u32, i: nat)
    requires Quiet(k, at) && i < |k.snd.buf| && k.snd.buf[i].xmit > 0
    ensures !WhySend(k.snd.buf[i], k.cfg, k.ctl.(current := at)).Timeout?
  {
    assert TimeDiff(k.snd.buf[i].resendts, at) > 0;
  }

  /** Before the flush instant and before every resend time the endpoint is quiet. */
  lemma QuietAt(k: Kcb, now: u32, e: nat)
    requires k.ctl.updated && !Stale(k.ctl, now) && TimeDiff(now, k.ctl.tsFlush) < 0
    requires e < TimeDiff(k.ctl.tsFlush, now)
    requires forall i :: 0 <= i < |k.snd.buf| ==> e < TimeDiff(k.snd.buf[i].resendts, now)
    ensures Quiet(k, Add32(now, e))
  {
    TimeDiffShift(now, k.ctl.tsFlush, e);
    forall i | 0 <= i < |k.snd.buf|
      ensures TimeDiff(k.snd.buf[i].resendts, Add32(now, e)) > 0
    {
      TimeDiffShift(now, k.snd.buf[i].resendts, e);
    }
  }
}
