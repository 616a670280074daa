/** The control block: fields and queues updated in place by loops. Every method
    is proved to compute the corresponding function of KcpModel. */
module Kcp {
  import opened Words
  import opened KcpWire
  import opened KcpModel

  class ControlBlock {
    const cfg: Config
    var sndUna: u32
    var sndNxt: u32
    var rcvNxt: u32
    var sndQueue: seq<Frag>
    var sndBuf: seq<OutSeg>
    var rcvBuf: seq<InSeg>
    var rcvQueue: seq<InSeg>
    var nsndQue: nat
    var nsndBuf: nat
    var nrcvBuf: nat
    var nrcvQue: nat
    var acklist: seq<Ack>
    var ctl: Ctl  // windows, round-trip estimate, probes and clocks

    ghost function SndModel(): Snd reads this { Snd(sndUna, sndNxt, sndQueue, sndBuf) }

    ghost function RcvModel(): Rcv reads this { Rcv(rcvNxt, rcvBuf, rcvQueue, acklist) }

    ghost function Model(): Kcb reads this { Kcb(cfg, SndModel(), RcvModel(), ctl) }

    /** The four counters are the lengths of their queues. */
    ghost predicate Valid() reads this {
      && ValidConfig(cfg)
      && nsndQue == |sndQueue| && nsndBuf == |sndBuf|
      && nrcvBuf == |rcvBuf| && nrcvQue == |rcvQueue|
    }

    constructor (cfg: Config)
      requires ValidConfig(cfg)
      ensures Valid() && Model() == Init(cfg)
    {
      this.cfg := cfg;
      sndUna, sndNxt, rcvNxt := 0, 0, 0;
      sndQueue, sndBuf, rcvBuf, rcvQueue, acklist := [], [], [], [], [];
      nsndQue, nsndBuf, nrcvBuf, nrcvQue := 0, 0, 0, 0;
      ctl := Ctl(128, 0, 0, 2, false, false, 0, 0, 0, 0, 200, 0, 17, false, 0, false);
    }

    // ----- ikcp_send

    /** `len` bytes of `buffer` are handed over; the error leaves what was already appended. */
    method Send(buffer: bytes, len: int) returns (code: int)
      requires Valid() && len <= |buffer|
      modifies this`sndQueue, this`nsndQue
      ensures Valid()
      ensures len < 0 ==> code == -1 && Model() == old(Model())
      ensures len >= 0 ==> Sent(Model(), code) == KcpModel.Send(old(Model()), buffer[..len])
    {
      if len < 0 { return -1; }
      var data := buffer[..len];
      var mss := cfg.mtu - OVERHEAD;
      if cfg.stream {
        if sndQueue != [] {
          var last := sndQueue[|sndQueue| - 1];
          if |last.data| < mss {
            var capacity := mss - |last.data|;
            var extend := if |data| < capacity then |data| else capacity;
            sndQueue := sndQueue[..|sndQueue| - 1] + [Frag(0, last.data + data[..extend])];
            data := data[extend..];
          }
        }
        if data == [] { return 0; }
      }
      var count := if |data| <= mss then 1 else (|data| + mss - 1) / mss;
      if count >= WND_RCV { return -2; }
      AppendFragments(data, count);
      return 0;
    }

    method AppendFragments(data: bytes, count: nat)
      requires Valid() && count <= 256
      modifies this`sndQueue, this`nsndQue
      ensures Valid()
      ensures sndQueue == old(sndQueue) + Split(data, Mss(cfg), count, cfg.stream)
    {
      var rest := data;
      var mss := cfg.mtu - OVERHEAD;
      for i := 0 to count
        invariant Valid()
        invariant sndQueue + Split(rest, Mss(cfg), count - i, cfg.stream)
               == old(sndQueue) + Split(data, Mss(cfg), count, cfg.stream)
      {
        var size := if |rest| > mss then mss else |rest|;
        var frag := Frag(if cfg.stream then 0 else count - i - 1, rest[..size]);
        ghost var tail := Split(rest[size..], Mss(cfg), count - i - 1, cfg.stream);
        assert sndQueue + ([frag] + tail) == (sndQueue + [frag]) + tail;
        sndQueue := sndQueue + [frag];
        nsndQue := nsndQue + 1;
        rest := rest[size..];
      }
    }

    // ----- ikcp_peeksize, ikcp_recv

    method PeekSize() returns (size: int)
      requires Valid()
      ensures size == KcpModel.PeekSize(rcvQueue)
    {
      if rcvQueue == [] { return -1; }
      var seg := rcvQueue[0];
      if seg.frag.frg == 0 {
        assert Frags(rcvQueue[..1]) == [seg.frag];
        assert Payload([seg.frag]) == seg.frag.data + Payload([]);
        return |seg.frag.data|;
      }
      if nrcvQue < seg.frag.frg + 1 { return -1; }
      var _, data := Merge();
      return |data|;
    }

    /** The walk over the first message, shared by the size and the copy loop. */
    method Merge() returns (n: nat, data: bytes)
      ensures n == MsgCount(rcvQueue) && data == FirstMsg(rcvQueue)
    {
      n, data := 0, [];
      while n < |rcvQueue|
        invariant n <= |rcvQueue|
        invariant MsgCount(rcvQueue) == n + MsgCount(rcvQueue[n..])
        invariant data == Payload(Frags(rcvQueue[..n]))
      {
        var seg := rcvQueue[n];
        PayloadSnoc(Frags(rcvQueue[..n]), seg.frag);
        assert Frags(rcvQueue[..n + 1]) == Frags(rcvQueue[..n]) + [seg.frag];
        assert rcvQueue[n..][1..] == rcvQueue[n + 1..];
        n, data := n + 1, data + seg.frag.data;
        if seg.frag.frg == 0 { break; }
      }
    }

    method Recv(len: int) returns (code: int, data: bytes)
      requires Valid()
      modifies this`rcvQueue, this`nrcvQue, this`rcvBuf, this`nrcvBuf, this`rcvNxt, this`ctl
      ensures Valid()
      ensures Received(Model(), code, data) == KcpModel.Recv(old(Model()), len)
    {
      hide MoveReady, FirstMsg, MsgCount, KcpModel.PeekSize;
      if rcvQueue == [] { return -1, []; }
      var peek := PeekSize();
      if peek < 0 { return -2, []; }
      if peek > (if len < 0 then -len else len) { return -3, []; }
      var recover := nrcvQue >= cfg.rcvWnd;
      var n;
      n, data := Merge();
      if len >= 0 {
        rcvQueue := rcvQueue[n..];
        nrcvQue := nrcvQue - n;
      }
      Advance();
      if nrcvQue < cfg.rcvWnd && recover { ctl := ctl.(askTell := true); }
      code := |data|;
    }

    /** Moves segments that are in sequence from the reorder buffer to the queue. */
    method Advance()
      requires Valid()
      modifies this`rcvQueue, this`nrcvQue, this`rcvBuf, this`nrcvBuf, this`rcvNxt
      ensures Valid()
      ensures RcvModel() == MoveReady(old(RcvModel()), cfg.rcvWnd)
    {
      while rcvBuf != []
        invariant Valid()
        invariant MoveReady(RcvModel(), cfg.rcvWnd) == MoveReady(old(RcvModel()), cfg.rcvWnd)
        decreases |rcvBuf|
      {
        var seg := rcvBuf[0];
        if seg.sn == rcvNxt && nrcvQue < cfg.rcvWnd {
          rcvBuf, nrcvBuf := rcvBuf[1..], nrcvBuf - 1;
          rcvQueue, nrcvQue := rcvQueue + [seg], nrcvQue + 1;
          rcvNxt := Add32(rcvNxt, 1);
        } else {
          break;
        }
      }
    }

    // ----- acknowledgements

    method ParseUna(una: u32)
      requires Valid()
      modifies this`sndBuf, this`nsndBuf
      ensures Valid() && sndBuf == AckUna(old(sndBuf), una)
    {
      while sndBuf != []
        invariant Valid() && AckUna(sndBuf, una) == AckUna(old(sndBuf), una)
        decreases |sndBuf|
      {
        if TimeDiff(una, sndBuf[0].sn) > 0 {
          sndBuf, nsndBuf := sndBuf[1..], nsndBuf - 1;
        } else {
          break;
        }
      }
    }

    method ShrinkBuf()
      modifies this`sndUna
      ensures SndModel() == Shrink(old(SndModel()))
    {
      if sndBuf != [] { sndUna := sndBuf[0].sn; } else { sndUna := sndNxt; }
    }

    method ParseAck(sn: u32)
      requires Valid()
      modifies this`sndBuf, this`nsndBuf
      ensures Valid() && SndModel() == AckSn(old(SndModel()), sn)
    {
      if TimeDiff(sn, sndUna) < 0 || TimeDiff(sn, sndNxt) >= 0 { return; }
      var i := 0;
      assert sndBuf == sndBuf[..0] + sndBuf[0..];
      while i < |sndBuf|
        invariant i <= |sndBuf| && Valid() && sndBuf == old(sndBuf)
        invariant DropSn(sndBuf, sn) == sndBuf[..i] + DropSn(sndBuf[i..], sn)
      {
        assert sndBuf[i..][1..] == sndBuf[i + 1..];
        if sn == sndBuf[i].sn {
          sndBuf, nsndBuf := sndBuf[..i] + sndBuf[i + 1..], nsndBuf - 1;
          return;
        }
        if TimeDiff(sn, sndBuf[i].sn) < 0 {
          assert sndBuf == sndBuf[..i] + sndBuf[i..];
          return;
        }
        ghost var rest := DropSn(sndBuf[i + 1..], sn);
        assert sndBuf[..i] + ([sndBuf[i]] + rest) == sndBuf[..i + 1] + rest;
        i := i + 1;
      }
      assert sndBuf == sndBuf[..i] + [];
    }

    method ParseFastack(sn: u32)
      requires Valid()
      modifies this`sndBuf
      ensures Valid() && SndModel() == FastAck(old(SndModel()), sn)
    {
      hide TimeDiff, Overtaken, Skipped;
      if TimeDiff(sn, sndUna) < 0 || TimeDiff(sn, sndNxt) >= 0 { return; }
      SkipEnds(sndBuf, 0, sn);
      for i := 0 to |sndBuf|
        invariant Valid() && |sndBuf| == old(|sndBuf|)
        invariant Skipped(old(sndBuf), sn) == sndBuf[..i] + Skipped(sndBuf[i..], sn)
      {
        SkipEnds(sndBuf, i, sn);
        if TimeDiff(sn, sndBuf[i].sn) < 0 { return; }
        sndBuf := sndBuf[i := Overtaken(sndBuf[i], sn)];
      }
      SkipEnds(sndBuf, |sndBuf|, sn);
    }

    method UpdateAck(rtt: nat)
      modifies this`ctl
      ensures ctl == UpdateRtt(old(ctl), cfg, rtt)
    {
      var srtt, rttval := ctl.srtt, ctl.rttval;
      if srtt == 0 {
        srtt, rttval := rtt, rtt / 2;
      } else {
        var delta := rtt - srtt;
        if delta < 0 { delta := -delta; }
        rttval := (3 * rttval + delta) / 4;
        srtt := (7 * srtt + rtt) / 8;
        if srtt < 1 { srtt := 1; }
      }
      var rto := srtt + Max(cfg.interval, 4 * rttval);
      ctl := ctl.(srtt := srtt, rttval := rttval, rto := Min(Max(cfg.minrto, rto), RTO_MAX));
    }

    // ----- received data

    method ParseData(seg: InSeg)
      requires Valid()
      modifies this`rcvQueue, this`nrcvQue, this`rcvBuf, this`nrcvBuf, this`rcvNxt
      ensures Valid()
      ensures RcvModel() == KcpModel.ParseData(old(RcvModel()), cfg.rcvWnd, seg)
    {
      if TimeDiff(seg.sn, Add32(rcvNxt, cfg.rcvWnd)) >= 0 || TimeDiff(seg.sn, rcvNxt) < 0 { return; }
      var i := |rcvBuf|;
      var repeat := false;
      assert rcvBuf == rcvBuf[..i];
      while i > 0
        invariant 0 <= i <= |rcvBuf| && !repeat
        invariant Insert(rcvBuf, seg) == Insert(rcvBuf[..i], seg) + rcvBuf[i..]
      {
        var at := rcvBuf[i - 1];
        assert rcvBuf[..i][..i - 1] == rcvBuf[..i - 1];
        if at.sn == seg.sn {
          assert rcvBuf == rcvBuf[..i] + rcvBuf[i..];
          repeat := true;
          break;
        }
        if TimeDiff(seg.sn, at.sn) > 0 { break; }
        assert Insert(rcvBuf[..i - 1], seg) + [at] + rcvBuf[i..] == Insert(rcvBuf[..i - 1], seg) + rcvBuf[i - 1..];
        i := i - 1;
      }
      if !repeat {
        assert Insert(rcvBuf, seg) == rcvBuf[..i] + [seg] + rcvBuf[i..];
        rcvBuf, nrcvBuf := rcvBuf[..i] + [seg] + rcvBuf[i..], nrcvBuf + 1;
      }
      Advance();
    }

    method PushSegment(p: Packet)
      requires Valid()
      modifies this`acklist, this`rcvQueue, this`nrcvQue, this`rcvBuf, this`nrcvBuf, this`rcvNxt
      ensures Valid()
      ensures RcvModel() == InputPush(old(RcvModel()), cfg.rcvWnd, p)
    {
      if TimeDiff(p.sn, Add32(rcvNxt, cfg.rcvWnd)) < 0 {
        acklist := acklist + [Ack(p.sn, p.ts)];
        if TimeDiff(p.sn, rcvNxt) >= 0 {
          ParseData(InSeg(p.sn, Frag(p.frg, p.data)));
        }
      }
    }

    // ----- ikcp_input

    method InputSegment(p: Packet)
      requires Valid()
      modifies this
      ensures Valid() && Model() == InputSeg(old(Model()), p)
    {
      hide UpdateRtt, AckUna, AckSn, InputPush;
      ctl := ctl.(rmtWnd := p.wnd);
      ParseUna(p.una);
      ShrinkBuf();
      if p.cmd == CMD_ACK {
        var rtt := TimeDiff(ctl.current, p.ts);
        if rtt >= 0 { UpdateAck(rtt); }
        ParseAck(p.sn);
        ShrinkBuf();
      } else if p.cmd == CMD_PUSH {
        PushSegment(p);
      } else if p.cmd == CMD_WASK {
        ctl := ctl.(askTell := true);
      }
    }

    method GrowWindow()
      requires Valid()
      modifies this`ctl
      ensures Valid() && ctl == GrowCwnd(old(ctl), Mss(cfg))
    {
      var mss := cfg.mtu - OVERHEAD;
      if ctl.cwnd < ctl.rmtWnd {
        if ctl.cwnd < ctl.ssthresh {
          ctl := ctl.(cwnd := Add32(ctl.cwnd, 1), incr := Add32(ctl.incr, mss));
        } else {
          var incr := if ctl.incr < mss then mss else ctl.incr;
          incr := Wrap32(incr + Wrap32(mss * mss) / incr + mss / 16);
          ctl := ctl.(incr := incr);
          if Wrap32((ctl.cwnd + 1) * mss) <= incr { ctl := ctl.(cwnd := Add32(ctl.cwnd, 1)); }
        }
      }
    }

    method Input(datagram: bytes) returns (code: int)
      requires Valid()
      modifies this
      ensures Valid()
      ensures Inputted(Model(), code) == KcpModel.Input(old(Model()), datagram)
    {
      hide InputSegs, InputSeg, HighestAck, ParseFrom, DecodeSeg, DecodeLen, FastAck, GrowCwnd;
      var una := sndUna;
      if |datagram| < OVERHEAD {
        EmptyInput(Model());
        return -1;
      }
      EmptyInput(Model());
      ghost var k0, all := Model(), ParseFrom(cfg.conv, datagram);
      ghost var done: seq<Packet> := [];
      var rest := datagram;
      var maxack := NoAck;
      while true
        invariant Valid()
        invariant Model() == InputSegs(k0, done)
        invariant maxack == HighestAck(done)
        invariant all.pkts == done + ParseFrom(cfg.conv, rest).pkts
        invariant all.code == ParseFrom(cfg.conv, rest).code
        decreases |rest|
      {
        ParseStep(cfg.conv, rest);
        assert done + [] == done;
        if |rest| < OVERHEAD { break; }
        if rest[..16] != cfg.conv { return -1; }
        if |rest| - OVERHEAD < DecodeLen(rest) { return -2; }
        if !ValidCmd(rest[16]) { return -3; }
        var p := DecodeSeg(rest);
        var next := rest[OVERHEAD + DecodeLen(rest)..];
        assert all.pkts == done + [p] + ParseFrom(cfg.conv, next).pkts;
        InputSegment(p);
        if p.cmd == CMD_ACK && (maxack.NoAck? || TimeDiff(p.sn, maxack.sn) > 0) { maxack := MaxAck(p.sn); }
        InputSnoc(k0, done, p);
        done := done + [p];
        rest := next;
      }
      assert done == all.pkts;
      Conclude(una, maxack);
      return 0;
    }

    /** Duplicate counting and window growth once every segment has been read. */
    method Conclude(una: u32, maxack: MaxAck)
      requires Valid()
      modifies this`sndBuf, this`ctl
      ensures Valid()
      ensures var k := old(Model());
              var k2 := if maxack.MaxAck? then k.(snd := FastAck(k.snd, maxack.sn)) else k;
              Model() == if TimeDiff(k2.snd.una, una) > 0 then k2.(ctl := GrowCwnd(k2.ctl, Mss(cfg))) else k2
    {
      if maxack.MaxAck? { ParseFastack(maxack.sn); }
      if TimeDiff(sndUna, una) > 0 { GrowWindow(); }
    }

    // ----- ikcp_update, ikcp_check

    method UpdateTick(now: u32) returns (out: seq<bytes>)
      requires Valid()
      modifies this
      ensures Valid()
      ensures Emitted(Model(), out) == KcpModel.Update(old(Model()), now)
    {
      hide KcpModel.Flush;
      ctl := ctl.(current := now);
      if !ctl.updated { ctl := ctl.(updated := true, tsFlush := now); }
      var slap := TimeDiff(now, ctl.tsFlush);
      if slap >= 10000 || slap < -10000 {
        ctl := ctl.(tsFlush := now);
        slap := 0;
      }
      out := [];
      if slap >= 0 {
        ctl := ctl.(tsFlush := Add32(ctl.tsFlush, cfg.interval));
        if TimeDiff(now, ctl.tsFlush) >= 0 { ctl := ctl.(tsFlush := Add32(now, cfg.interval)); }
        out := Flush();
      }
    }

    /** The earliest instant that is not quiet, or one interval ahead if that comes first. */
    method Check(now: u32) returns (t: u32)
      requires Valid()
      ensures 0 <= TimeDiff(t, now) <= cfg.interval
      ensures forall e: nat :: e < TimeDiff(t, now) ==> Quiet(Model(), Add32(now, e))
      ensures TimeDiff(t, now) < cfg.interval ==> !Quiet(Model(), t)
    {
      var tsFlush := ctl.tsFlush;
      if !ctl.updated { return now; }
      if TimeDiff(now, tsFlush) >= 10000 || TimeDiff(now, tsFlush) < -10000 { tsFlush := now; }
      if TimeDiff(now, tsFlush) >= 0 { return now; }
      var tmFlush := TimeDiff(tsFlush, now);
      var tmPacket := 0x7fff_ffff;
      hide TimeDiff;
      for i := 0 to |sndBuf|
        invariant 0 < tmPacket <= 0x7fff_ffff
        invariant forall j :: 0 <= j < i ==> TimeDiff(sndBuf[j].resendts, now) >= tmPacket
        invariant tmPacket < 0x7fff_ffff ==> exists j :: 0 <= j < i && TimeDiff(sndBuf[j].resendts, now) == tmPacket
      {
        var diff := TimeDiff(sndBuf[i].resendts, now);
        if diff <= 0 {
          TimeDiffShift(now, now, 0);
          return now;
        }
        if diff < tmPacket { tmPacket := diff; }
      }
      var minimal := if tmPacket < tmFlush then tmPacket else tmFlush;
      if minimal >= cfg.interval { minimal := cfg.interval; }
      t := Add32(now, minimal);
      TimeDiffShift(now, tsFlush, minimal);
      forall e: nat | e < minimal
        ensures Quiet(Model(), Add32(now, e))
      {
        QuietAt(Model(), now, e);
      }
      if minimal < cfg.interval && tmPacket < tmFlush {
        ghost var j :| 0 <= j < |sndBuf| && TimeDiff(sndBuf[j].resendts, now) == tmPacket;
        TimeDiffShift(now, sndBuf[j].resendts, minimal);
      }
    }

    // ----- ikcp_flush

    method RunProbeTimer()
      modifies this`ctl
      ensures ctl == ProbeTimer(old(ctl))
    {
      if ctl.rmtWnd == 0 {
        if ctl.probeWait == 0 {
          ctl := ctl.(probeWait := PROBE_INIT, tsProbe := Add32(ctl.current, PROBE_INIT));
        } else if TimeDiff(ctl.current, ctl.tsProbe) >= 0 {
          var wait := if ctl.probeWait < PROBE_INIT then PROBE_INIT else ctl.probeWait;
          wait := Wrap32(wait + wait / 2);
          if wait > PROBE_LIMIT { wait := PROBE_LIMIT; }
          ctl := ctl.(probeWait := wait, tsProbe := Add32(ctl.current, wait), askSend := true);
        }
      } else {
        ctl := ctl.(tsProbe := 0, probeWait := 0);
      }
    }

    /** Acknowledgements go into the buffer first. */
    method PackAcks() returns (k: Packing, seg: Packet)
      requires Valid()
      modifies this`acklist
      ensures acklist == []
      ensures k == PackAll(cfg.conv, cfg.mtu, AckPackets(old(Model())))
      ensures seg == Bare(old(Model()), CMD_ACK, LastAck(old(Model())))
    {
      hide PackAll;
      ghost var k0 := Model();
      k := NoPackets();
      seg := Packet(CMD_ACK, 0, WndField(), 0, 0, rcvNxt, []);
      for i := 0 to |acklist|
        invariant acklist == k0.rcv.acks
        invariant k == PackAll(cfg.conv, cfg.mtu, AckPackets(k0)[..i])
        invariant seg == Bare(k0, CMD_ACK, if i == 0 then Ack(0, 0) else acklist[i - 1])
      {
        seg := seg.(sn := acklist[i].sn, ts := acklist[i].ts);
        k := Put(k, seg, AckPackets(k0)[..i]);
        assert AckPackets(k0)[..i + 1] == AckPackets(k0)[..i] + [seg];
      }
      assert AckPackets(k0)[..|acklist|] == AckPackets(k0);
      acklist := [];
    }

    /** Then the window probes, which reuse the last acknowledgement's header. */
    method PackProbes(k: Packing, last: Packet, ghost k0: Kcb, ghost sofar: seq<Packet>) returns (k': Packing)
      requires k == PackAll(cfg.conv, cfg.mtu, sofar) && last == Bare(k0, CMD_ACK, LastAck(k0))
      modifies this`ctl
      ensures ctl == old(ctl).(askSend := false, askTell := false)
      ensures k' == PackAll(cfg.conv, cfg.mtu, sofar + ProbePackets(k0, old(ctl)))
    {
      hide PackAll;
      k' := k;
      ghost var sent: seq<Packet> := [];
      assert sofar + sent == sofar;
      if ctl.askSend {
        var seg := last.(cmd := CMD_WASK);
        k' := Put(k', seg, sofar + sent);
        assert sofar + sent + [seg] == sofar + (sent + [seg]);
        sent := sent + [seg];
      }
      if ctl.askTell {
        var seg := last.(cmd := CMD_WINS);
        k' := Put(k', seg, sofar + sent);
        assert sofar + sent + [seg] == sofar + (sent + [seg]);
        sent := sent + [seg];
      }
      assert sent == ProbePackets(k0, ctl);
      ctl := ctl.(askSend := false, askTell := false);
    }

    method NoPackets() returns (k: Packing)
      ensures k == PackAll(cfg.conv, cfg.mtu, [])
    {
      k := Packing([], []);
    }

    function WndField(): u16
      reads this
      requires Valid()
      ensures WndField() == WndUnused(Model()) % TWO16
    {
      (if nrcvQue < cfg.rcvWnd then cfg.rcvWnd - nrcvQue else 0) % TWO16
    }

    /** Appends one segment, handing the buffer over first if it would not fit. */
    method Put(k: Packing, p: Packet, ghost sofar: seq<Packet>) returns (k': Packing)
      requires k == PackAll(cfg.conv, cfg.mtu, sofar)
      ensures k' == PackAll(cfg.conv, cfg.mtu, sofar + [p])
    {
      var done, open := k.done, k.open;
      if |open| + OVERHEAD + |p.data| > cfg.mtu {
        if open != [] { done := done + [open]; }
        open := [];
      }
      assert (sofar + [p])[..|sofar|] == sofar;
      k' := Packing(done, open + EncodeSeg(cfg.conv, p));
    }

    method SendWindow() returns (w: u32)
      ensures w == EffectiveWnd(cfg, ctl)
      ensures forall c: Ctl :: ctl == c.(askSend := false, askTell := false) ==> w == EffectiveWnd(cfg, c)
    {
      w := Min(cfg.sndWnd, ctl.rmtWnd);
      if !cfg.nocwnd { w := Min(ctl.cwnd, w); }
    }

    method AdmitQueued(w: u32, wnd: u32)
      requires Valid()
      modifies this`sndQueue, this`nsndQue, this`sndBuf, this`nsndBuf, this`sndNxt
      ensures Valid()
      ensures SndModel() == Admit(old(SndModel()), w, wnd, rcvNxt, ctl)
    {
      while TimeDiff(sndNxt, Add32(sndUna, w)) < 0
        invariant Valid()
        invariant Admit(SndModel(), w, wnd, rcvNxt, ctl) == Admit(old(SndModel()), w, wnd, rcvNxt, ctl)
        decreases |sndQueue|
      {
        if sndQueue == [] { break; }
        var newseg := OutSeg(sndNxt, sndQueue[0], ctl.current, wnd, rcvNxt, ctl.current, ctl.rto, 0, 0);
        sndQueue, nsndQue := sndQueue[1..], nsndQue - 1;
        sndBuf, nsndBuf := sndBuf + [newseg], nsndBuf + 1;
        sndNxt := Add32(sndNxt, 1);
      }
    }

    /** The send decision for one segment, as the loop body takes it. */
    method Transmit(seg: OutSeg, wnd: u32) returns (s: OutSeg, why: Reason)
      ensures why == WhySend(seg, cfg, ctl)
      ensures s == SendSeg(seg, cfg, ctl, wnd, rcvNxt)
      ensures why.Keep? ==> s == seg
    {
      s, why := seg, Keep;
      var current, rto := ctl.current, ctl.rto;
      var resent := if cfg.fastresend > 0 then cfg.fastresend else 0xffff_ffff;
      if s.xmit == 0 {
        why := First;
        var rtomin := if cfg.nodelay then 0 else rto / 8;
        s := s.(xmit := Add32(s.xmit, 1), rto := rto, resendts := Add32(Add32(current, rto), rtomin));
      } else if TimeDiff(current, s.resendts) >= 0 {
        why := Timeout;
        s := s.(xmit := Add32(s.xmit, 1), rto := Add32(s.rto, if cfg.nodelay then rto / 2 else rto));
        s := s.(resendts := Add32(current, s.rto));
      } else if s.fastack >= resent {
        why := Fast;
        s := s.(xmit := Add32(s.xmit, 1), fastack := 0, resendts := Add32(current, s.rto));
      }
      if !why.Keep? { s := s.(ts := current, wnd := wnd, una := rcvNxt); }
    }

    /** The loop body for the segment at `i`; `a` is the pass so far. */
    method ScanAt(i: nat, k: Packing, wnd: u32, ghost c: Ctl, ghost a: Scan, ghost sofar: seq<Packet>)
      returns (k': Packing, why: Reason)
      requires i < |sndBuf| && ctl == c.(xmit := a.xmit, dead := a.dead)
      requires k == PackAll(cfg.conv, cfg.mtu, sofar + a.pkts)
      modifies this`sndBuf, this`ctl
      ensures |sndBuf| == old(|sndBuf|)
      ensures var a' := ScanSeg(a, old(sndBuf[i]), cfg, c, wnd, rcvNxt);
              && a'.buf == a.buf + [sndBuf[i]] && sndBuf == old(sndBuf)[i := sndBuf[i]]
              && ctl == c.(xmit := a'.xmit, dead := a'.dead)
              && a'.lost == (a.lost || why.Timeout?) && a'.change == (a.change || why.Fast?)
              && k' == PackAll(cfg.conv, cfg.mtu, sofar + a'.pkts)
    {
      hide PackAll, SendSeg, WhySend;
      var seg := sndBuf[i];
      var s;
      s, why := Transmit(seg, wnd);
      SendIgnoresCounters(seg, cfg, c, a.xmit, a.dead, wnd, rcvNxt);
      sndBuf := sndBuf[i := s];
      k' := k;
      if !why.Keep? {
        if why.Timeout? { ctl := ctl.(xmit := Add32(ctl.xmit, 1)); }
        var p := DataPacket(s);
        k' := Put(k', p, sofar + a.pkts);
        assert sofar + a.pkts + [p] == sofar + (a.pkts + [p]);
        if s.xmit >= cfg.deadLink { ctl := ctl.(dead := true); }
      }
    }

    method ScanSegments(k: Packing, wnd: u32, ghost sofar: seq<Packet>)
      returns (k': Packing, lost: bool, change: bool)
      requires Valid() && k == PackAll(cfg.conv, cfg.mtu, sofar)
      modifies this`sndBuf, this`ctl
      ensures Valid()
      ensures var a := ScanBuf(old(sndBuf), cfg, old(ctl), wnd, rcvNxt);
              && sndBuf == a.buf && lost == a.lost && change == a.change
              && ctl == old(ctl).(xmit := a.xmit, dead := a.dead)
              && k' == PackAll(cfg.conv, cfg.mtu, sofar + a.pkts)
    {
      hide PackAll, ScanSeg;
      k', lost, change := k, false, false;
      ghost var buf0, c0 := sndBuf, ctl;
      ghost var a := ScanBuf([], cfg, c0, wnd, rcvNxt);
      assert sofar == sofar + a.pkts && buf0[..0] == [];
      for i := 0 to |sndBuf|
        invariant |sndBuf| == |buf0| && sndBuf[i..] == buf0[i..]
        invariant a == ScanBuf(buf0[..i], cfg, c0, wnd, rcvNxt)
        invariant sndBuf[..i] == a.buf && lost == a.lost && change == a.change
        invariant ctl == c0.(xmit := a.xmit, dead := a.dead)
        invariant k' == PackAll(cfg.conv, cfg.mtu, sofar + a.pkts)
      {
        assert sndBuf[i] == buf0[i] && sndBuf[i + 1..] == buf0[i + 1..];
        assert buf0[..i + 1][..i] == buf0[..i];
        ghost var before := sndBuf;
        var why;
        k', why := ScanAt(i, k', wnd, c0, a, sofar);
        assert sndBuf[..i + 1] == before[..i] + [sndBuf[i]] && sndBuf[i + 1..] == before[i + 1..];
        lost, change := lost || why.Timeout?, change || why.Fast?;
        a := ScanSeg(a, buf0[i], cfg, c0, wnd, rcvNxt);
      }
      assert buf0[..|buf0|] == buf0;
    }

    method AdjustWindow(w: u32, lost: bool, change: bool, ghost a: Scan)
      requires Valid() && lost == a.lost && change == a.change && ctl.xmit == a.xmit && ctl.dead == a.dead
      requires !ctl.askSend && !ctl.askTell
      modifies this`ctl
      ensures ctl == Congestion(old(ctl), cfg, a, Wrap32(sndNxt - sndUna), w)
    {
      hide Wrap32;
      var mss := cfg.mtu - OVERHEAD;
      if change {
        var inflight := Wrap32(sndNxt - sndUna);
        var ssthresh := if inflight / 2 < THRESH_MIN then THRESH_MIN else inflight / 2;
        var cwnd := Add32(ssthresh, if cfg.fastresend > 0 then cfg.fastresend else 0xffff_ffff);
        ctl := ctl.(ssthresh := ssthresh, cwnd := cwnd, incr := Wrap32(cwnd * mss));
      }
      if lost {
        var ssthresh := if w / 2 < THRESH_MIN then THRESH_MIN else w / 2;
        ctl := ctl.(ssthresh := ssthresh, cwnd := 1, incr := Wrap32(mss));
      }
      if ctl.cwnd < 1 { ctl := ctl.(cwnd := 1, incr := Wrap32(mss)); }
    }

    /** Numbers queued segments, sends the due ones and adjusts the window. */
    method FlushData(k: Packing, wnd: u32, ghost k0: Kcb, ghost c: Ctl) returns (k': Packing)
      requires Valid() && cfg == k0.cfg && SndModel() == k0.snd && rcvNxt == k0.rcv.nxt
      requires wnd == WndUnused(k0) && c == ProbeTimer(k0.ctl) && ctl == c.(askSend := false, askTell := false)
      requires k == PackAll(cfg.conv, cfg.mtu, AckPackets(k0) + ProbePackets(k0, c))
      modifies this`sndQueue, this`nsndQue, this`sndBuf, this`nsndBuf, this`sndNxt, this`ctl
      ensures Valid()
      ensures SndModel() == FlushState(k0).snd && ctl == FlushState(k0).ctl
      ensures k' == PackAll(cfg.conv, cfg.mtu, FlushPackets(k0))
    {
      hide AckPackets, ProbePackets, ProbeTimer, PackAll, Admit, ScanBuf, Congestion, Wrap32, WndUnused;
      var w := SendWindow();
      AdmitFlags(k0.snd, c, w, wnd, rcvNxt);
      AdmitQueued(w, wnd);
      assert SndModel() == FlushAdmit(k0);
      ScanFlags(c, cfg, wnd, rcvNxt, sndBuf);
      var lost, change;
      k', lost, change := ScanSegments(k, wnd, AckPackets(k0) + ProbePackets(k0, c));
      AdjustWindow(w, lost, change, FlushScan(k0));
      FlagsCleared(c, cfg, FlushScan(k0), Wrap32(sndNxt - sndUna), w);
    }

    method FlushNow() returns (out: seq<bytes>)
      requires Valid()
      modifies this
      ensures Valid() && Model() == FlushState(old(Model()))
      ensures out == Datagrams(cfg.conv, cfg.mtu, FlushPackets(old(Model())))
    {
      hide AckPackets, ProbePackets, ProbeTimer, PackAll, FlushAdmit, FlushScan, FlushPackets, FlushState, LastAck,
           Bare;
      ghost var k0 := Model();
      FlushStateParts(k0);
      var wnd: u32 := if nrcvQue < cfg.rcvWnd then cfg.rcvWnd - nrcvQue else 0;
      var k, last := PackAcks();
      RunProbeTimer();
      ghost var c := ctl;
      k := PackProbes(k, last, k0, AckPackets(k0));
      k := FlushData(k, wnd, k0, c);
      out := if k.open == [] then k.done else k.done + [k.open];
    }

    method Flush() returns (out: seq<bytes>)
      requires Valid()
      modifies this
      ensures Valid()
      ensures Emitted(Model(), out) == KcpModel.Flush(old(Model()))
    {
      hide FlushState, FlushPackets, Datagrams;
      if !ctl.updated { return []; }
      out := FlushNow();
    }
  }

  // The probe flags play no part in numbering and sending.

  lemma {:induction false} AdmitFlags(s: Snd, c: Ctl, w: u32, wnd: u32, una: u32)
    ensures Admit(s, w, wnd, una, c.(askSend := false, askTell := false)) == Admit(s, w, wnd, una, c)
    decreases |s.queue|
  {
    if TimeDiff(s.nxt, Add32(s.una, w)) < 0 && s.queue != [] {
      AdmitFlags(s.(queue := s.queue[1..], nxt := Add32(s.nxt, 1),
                    buf := s.buf + [Numbered(s.queue[0], s.nxt, wnd, una, c)]), c, w, wnd, una);
    }
  }

  lemma {:induction false} ScanFlags(c: Ctl, cfg: Config, wnd: u32, una: u32, buf: seq<OutSeg>)
    ensures ScanBuf(buf, cfg, c.(askSend := false, askTell := false), wnd, una) == ScanBuf(buf, cfg, c, wnd, una)
  {
    if buf != [] {
      ScanFlags(c, cfg, wnd, una, buf[..|buf| - 1]);
    }
  }

  lemma FlagsCleared(c: Ctl, cfg: Config, a: Scan, inflight: u32, w: u32)
    ensures Congestion(c.(askSend := false, askTell := false, xmit := a.xmit, dead := a.dead), cfg, a, inflight, w)
         == Congestion(c, cfg, a, inflight, w)
  {
    hide Wrap32;
  }

  lemma FlushStateParts(k: Kcb)
    ensures FlushState(k).cfg == k.cfg && FlushState(k).rcv == k.rcv.(acks := [])
  {
    hide ProbeTimer, FlushAdmit, FlushScan, Congestion, Wrap32, EffectiveWnd;
  }

  lemma SendIgnoresCounters(seg: OutSeg, cfg: Config, c: Ctl, x: u32, d: bool, wnd: u32, una: u32)
    ensures var c' := c.(xmit := x, dead := d);
            && WhySend(seg, cfg, c') == WhySend(seg, cfg, c)
            && SendSeg(seg, cfg, c', wnd, una) == SendSeg(seg, cfg, c, wnd, una)
  {
  }

  lemma {:induction false} PayloadSnoc(q: seq<Frag>, f: Frag)
    ensures Payload(q + [f]) == Payload(q) + f.data
  {
    if q == [] {
      assert Payload([f]) == f.data + Payload([]);
    } else {
      PayloadSnoc(q[1..], f);
      assert (q + [f])[1..] == q[1..] + [f];
    }
  }

  /** One turn of the duplicate-counting loop, and how it starts and stops. */
  lemma SkipEnds(buf: seq<OutSeg>, i: nat, sn: u32)
    requires i <= |buf|
    ensures i == 0 ==> buf[..i] + Skipped(buf[i..], sn) == Skipped(buf, sn)
    ensures i == |buf| || TimeDiff(sn, buf[i].sn) < 0 ==> buf[..i] + Skipped(buf[i..], sn) == buf
    ensures i < |buf| && TimeDiff(sn, buf[i].sn) >= 0 ==>
              var buf' := buf[i := Overtaken(buf[i], sn)];
              buf[..i] + Skipped(buf[i..], sn) == buf'[..i + 1] + Skipped(buf'[i + 1..], sn)
  {
    hide TimeDiff, Overtaken;
    assert i == 0 ==> buf[i..] == buf;
    assert buf[..i] + buf[i..] == buf;
    if i < |buf| {
      var buf' := buf[i := Overtaken(buf[i], sn)];
      assert buf[i..][1..] == buf'[i + 1..] && buf'[..i + 1] == buf[..i] + [buf'[i]];
    }
  }

  lemma InputSnoc(k: Kcb, done: seq<Packet>, p: Packet)
    ensures InputSegs(k, done + [p]) == InputSeg(InputSegs(k, done), p)
    ensures HighestAck(done + [p])
         == if p.cmd == CMD_ACK && (HighestAck(done).NoAck? || TimeDiff(p.sn, HighestAck(done).sn) > 0)
            then MaxAck(p.sn) else HighestAck(done)
  {
    hide InputSeg;
    assert (done + [p])[..|done|] == done;
  }

  lemma EmptyInput(k: Kcb)
    ensures InputSegs(k, []) == k && HighestAck([]) == NoAck
  {
  }

  /** How one turn of the loop relates what is left to what was left before. */
  lemma ParseStep(conv: Guid, rest: bytes)
    ensures |rest| < OVERHEAD ==> ParseFrom(conv, rest) == Parsed([], 0)
    ensures |rest| >= OVERHEAD && rest[..16] != conv ==> ParseFrom(conv, rest) == Parsed([], -1)
    ensures |rest| >= OVERHEAD && rest[..16] == conv ==>
              if |rest| - OVERHEAD < DecodeLen(rest) then ParseFrom(conv, rest) == Parsed([], -2)
              else if !ValidCmd(rest[16]) then ParseFrom(conv, rest) == Parsed([], -3)
              else
                var next := ParseFrom(conv, rest[OVERHEAD + DecodeLen(rest)..]);
                ParseFrom(conv, rest) == Parsed([DecodeSeg(rest)] + next.pkts, next.code)
  {
    hide DecodeLen, DecodeSeg;
  }
}
