/** What the round-trip estimate and the congestion window are good for. */
module KcpCongestion {
  import opened Words
  import opened KcpWire
  import opened KcpModel
  import opened KcpLink
  import opened KcpSystem

  // ----- the retransmission timeout

  /** A sample moves the estimate towards itself and never past it; the timeout is within its
      bounds and, short of the upper one, at least an interval beyond the estimate. */
  lemma TimeoutFollowsRoundTrip(c: Ctl, cfg: Config, rtt: nat)
    requires cfg.minrto <= RTO_MAX
    ensures var c' := UpdateRtt(c, cfg, rtt);
            && c' == c.(srtt := c'.srtt, rttval := c'.rttval, rto := c'.rto)
            && cfg.minrto <= c'.rto <= RTO_MAX && c'.rto >= Min(RTO_MAX, c'.srtt + cfg.interval)
            && (c.srtt == 0 ==> c'.srtt == rtt)
            && (c.srtt > 0 ==> 0 < c'.srtt && Min(c.srtt, rtt) <= c'.srtt <= Max(c.srtt, rtt))
            && (c.srtt > 0 ==> c'.rttval <= Max(c.rttval, if rtt < c.srtt then c.srtt - rtt else rtt - c.srtt))
  {
  }

  /** A sample weighs an eighth in the estimate and its distance a quarter in the variation, both
      rounded down; the timeout is the estimate and four variations, or an interval if that is more. */
  lemma SampleWeights(c: Ctl, cfg: Config, rtt: nat)
    ensures var c' := UpdateRtt(c, cfg, rtt);
            var far := if rtt < c.srtt then c.srtt - rtt else rtt - c.srtt;
            && (c.srtt == 0 ==> c'.srtt == rtt && 2 * c'.rttval <= rtt <= 2 * c'.rttval + 1)
            && (c.srtt > 0 && 7 * c.srtt + rtt >= 8 ==> 8 * c'.srtt <= 7 * c.srtt + rtt < 8 * c'.srtt + 8)
            && (c.srtt > 0 && 7 * c.srtt + rtt < 8 ==> c'.srtt == 1)
            && (c.srtt > 0 ==> 4 * c'.rttval <= 3 * c.rttval + far < 4 * c'.rttval + 4)
            && (c'.rto < RTO_MAX ==>
                  c'.rto >= cfg.minrto && c'.rto >= c'.srtt + cfg.interval && c'.rto >= c'.srtt + 4 * c'.rttval)
            && (c'.rto == RTO_MAX || c'.rto == cfg.minrto || c'.rto == c'.srtt + cfg.interval
                || c'.rto == c'.srtt + 4 * c'.rttval)
  {
  }

  function Samples(c: Ctl, cfg: Config, rtt: nat, n: nat): Ctl {
    if n == 0 then c else UpdateRtt(Samples(c, cfg, rtt, n - 1), cfg, rtt)
  }

  lemma {:induction false} SteadyEstimate(c: Ctl, cfg: Config, n: nat)
    requires c.srtt > 0
    ensures var c' := Samples(c, cfg, c.srtt, n); c'.srtt == c.srtt && c'.rttval <= Max(0, c.rttval - n)
  {
    if n > 0 { SteadyEstimate(c, cfg, n - 1); }
  }

  /** A steady round trip brings the timeout down to an interval beyond it, within its bounds. */
  lemma SteadyTimeout(c: Ctl, cfg: Config, n: nat)
    requires c.srtt > 0 && n > c.rttval
    ensures Samples(c, cfg, c.srtt, n).rto == Min(Max(cfg.minrto, c.srtt + cfg.interval), RTO_MAX)
  {
    hide Samples, UpdateRtt;
    SteadyEstimate(c, cfg, n - 1);
    OneMore(c, cfg, n);
    SettledTimeout(Samples(c, cfg, c.srtt, n - 1), cfg);
  }

  lemma SettledTimeout(c: Ctl, cfg: Config)
    requires c.srtt > 0 && c.rttval == 0
    ensures UpdateRtt(c, cfg, c.srtt).rto == Min(Max(cfg.minrto, c.srtt + cfg.interval), RTO_MAX)
  {
    assert (7 * c.srtt + c.srtt) / 8 == c.srtt;
  }

  lemma OneMore(c: Ctl, cfg: Config, n: nat)
    requires n > 0
    ensures Samples(c, cfg, c.srtt, n) == UpdateRtt(Samples(c, cfg, c.srtt, n - 1), cfg, c.srtt)
  {
    hide UpdateRtt;
  }

  // ----- the congestion window

  /** The window counted in segments is the one counted in bytes, rounded down. */
  ghost predicate WindowsAgree(c: Ctl, mss: nat) { c.cwnd * mss <= c.incr < (c.cwnd + 1) * mss }

  /** An acknowledgement opens the window by at most a segment, and never beyond what the peer
      announces; below the threshold by exactly one. */
  lemma GrowthIsBounded(c: Ctl, mss: nat)
    requires 0 < mss < TWO32
    ensures var c' := GrowCwnd(c, mss);
            && c' == c.(cwnd := c'.cwnd, incr := c'.incr)
            && c.cwnd <= c'.cwnd <= c.cwnd + 1 && c'.cwnd <= Max(c.cwnd, c.rmtWnd)
            && (c.cwnd < c.rmtWnd && c.cwnd < c.ssthresh ==> c'.cwnd == c.cwnd + 1)
            && (c.cwnd >= c.rmtWnd ==> c' == c)
  {
    hide Wrap32;
  }

  lemma MoreTimes(a: int, b: int, m: nat)
    requires m > 0 && a > b
    ensures a * m > b * m
  {
    var d: nat := a - b - 1;
    assert d * m >= 0;
    assert a * m == b * m + m + d * m;
  }

  lemma HalfAtMost(mss: nat, base: nat)
    requires mss > 0 && base >= 2 * mss
    ensures 0 <= 2 * (mss * mss / base) <= mss
  {
    var q := mss * mss / base;
    QuotientBelow(mss * mss, base);
    assert (2 * q) * mss <= q * base by { assert q * (base - 2 * mss) >= 0; }
    if 2 * q > mss { MoreTimes(2 * q, mss, mss); }
  }

  lemma QuotientBelow(n: nat, base: nat)
    requires base > 0
    ensures 0 <= n / base && n / base * base <= n
  {
  }

  lemma WrapSmall(x: nat)
    requires x < TWO32
    ensures Wrap32(x) == x
  {
  }

  /** Beyond slow start, as long as nothing overflows 32 bits. */
  lemma GrowsBy(c: Ctl, mss: nat, add: nat, next: nat)
    requires 0 < mss < TWO32 && mss <= c.incr && c.ssthresh <= c.cwnd < c.rmtWnd
    requires mss * mss < TWO32 && add == mss * mss / c.incr + mss / 16 && next == (c.cwnd + 1) * mss
    requires c.incr + add < TWO32 && next < TWO32
    ensures GrowCwnd(c, mss) == c.(incr := c.incr + add, cwnd := if next <= c.incr + add then c.cwnd + 1 else c.cwnd)
  {
    WrapSmall(mss * mss);
    WrapSmall(c.incr + add);
    WrapSmall(next);
    hide Wrap32;
  }

  /** Growing keeps the two counts in agreement, in slow start and beyond it. */
  lemma GrowthKeepsCounts(c: Ctl, mss: nat)
    requires 0 < mss && mss * mss < TWO32 && (c.cwnd + 2) * mss < TWO32
    requires WindowsAgree(c, mss) && c.ssthresh >= THRESH_MIN
    ensures WindowsAgree(GrowCwnd(c, mss), mss)
  {
    hide GrowCwnd;
    Distribute(c.cwnd, mss);
    if c.cwnd < c.rmtWnd && c.ssthresh <= c.cwnd {
      BeyondSlowStart(c, mss, c.cwnd * mss);
    } else {
      SlowStart(c, mss);
    }
  }

  lemma BeyondSlowStart(c: Ctl, mss: nat, a: nat)
    requires 0 < mss && mss * mss < TWO32 && a + 2 * mss < TWO32 && a <= c.incr < a + mss
    requires a == c.cwnd * mss && 2 <= c.cwnd < c.rmtWnd && c.ssthresh <= c.cwnd
    ensures WindowsAgree(GrowCwnd(c, mss), mss)
  {
    Distribute(c.cwnd, mss);
    TwoTimes(c.cwnd, mss);
    HalfAtMost(mss, c.incr);
    var add := mss * mss / c.incr + mss / 16;
    GrowsBy(c, mss, add, a + mss);
    hide GrowCwnd;
  }

  /** Beyond slow start the byte count grows by the reciprocal of the window, and a sixteenth. */
  lemma GrowsByReciprocal(c: Ctl, mss: nat)
    requires 0 < mss && mss * mss < TWO32 && (c.cwnd + 2) * mss < TWO32
    requires WindowsAgree(c, mss) && THRESH_MIN <= c.ssthresh <= c.cwnd < c.rmtWnd
    ensures var q := GrowCwnd(c, mss).incr - c.incr - mss / 16;
            q >= 0 && q * c.incr <= mss * mss < (q + 1) * c.incr
  {
    hide GrowCwnd;
    Distribute(c.cwnd, mss);
    IncrIs(c, mss, c.cwnd * mss, mss * mss);
    QuotientIs(mss * mss, c.incr);
  }

  lemma TwoTimes(n: nat, mss: nat)
    requires n >= 2
    ensures n * mss >= 2 * mss
  {
    assert (n - 2) * mss >= 0;
  }

  lemma AddBelow(mss: nat, base: nat, add: nat)
    requires mss > 0 && base >= 2 * mss && add == mss * mss / base + mss / 16
    ensures mss * mss / base >= 0 && add < mss
  {
    HalfAtMost(mss, base);
  }

  lemma IncrIs(c: Ctl, mss: nat, a: nat, square: nat)
    requires 0 < mss && square == mss * mss < TWO32 && a + 2 * mss < TWO32 && a <= c.incr < a + mss
    requires a == c.cwnd * mss && 2 <= c.cwnd < c.rmtWnd && c.ssthresh <= c.cwnd
    ensures c.incr > 0 && GrowCwnd(c, mss).incr == c.incr + square / c.incr + mss / 16 && square / c.incr >= 0
  {
    hide GrowCwnd;
    TwoTimes(c.cwnd, mss);
    var add := square / c.incr + mss / 16;
    AddBelow(mss, c.incr, add);
    Distribute(c.cwnd, mss);
    GrowsBy(c, mss, add, a + mss);
  }

  lemma QuotientIs(n: nat, base: nat)
    requires base > 0
    ensures n / base * base <= n < (n / base + 1) * base
  {
  }

  lemma Distribute(n: nat, mss: nat)
    ensures (n + 1) * mss == n * mss + mss && (n + 2) * mss == n * mss + 2 * mss && n * mss >= 0
    ensures mss > 0 ==> n * mss >= n
  {
    if mss > 0 { assert n * (mss - 1) >= 0; }
  }

  lemma SlowStart(c: Ctl, mss: nat)
    requires 0 < mss < TWO32 && (c.cwnd < c.rmtWnd ==> c.cwnd < c.ssthresh) && c.incr + mss < TWO32
    ensures GrowCwnd(c, mss) == if c.cwnd < c.rmtWnd then c.(cwnd := c.cwnd + 1, incr := c.incr + mss) else c
  {
    hide Wrap32;
  }

  // ----- in every run

  /** The timeout is within its bounds, once it was measured; the threshold is never below two; no
      question is pending between flushes and none waits more than two minutes. */
  ghost predicate CtlOk(cfg: Config, c: Ctl) {
    && Min(200, cfg.minrto) <= c.rto <= RTO_MAX && c.ssthresh >= THRESH_MIN
    && !c.askSend && c.probeWait <= PROBE_LIMIT
  }

  lemma {:induction false} InputKeepsCtl(k: Kcb, pkts: seq<Packet>)
    requires ValidConfig(k.cfg) && CtlOk(k.cfg, k.ctl)
    ensures CtlOk(k.cfg, InputSegs(k, pkts).ctl) && InputSegs(k, pkts).ctl.cwnd == k.ctl.cwnd
  {
    if pkts != [] {
      var n := |pkts| - 1;
      InputKeepsCtl(k, pkts[..n]);
      var k1 := InputSegs(k, pkts[..n]);
      var p := pkts[n];
      hide InputSnd, InputRcv, UpdateRtt;
      var rtt := TimeDiff(k1.ctl.current, p.ts);
      if rtt >= 0 { TimeoutFollowsRoundTrip(k1.ctl.(rmtWnd := p.wnd), k.cfg, rtt); }
    }
  }

  /** Whatever arrives, the congestion window passes the peer's only if it was beyond it before. */
  lemma InputWindow(k: Kcb, d: bytes)
    requires ValidConfig(k.cfg) && CtlOk(k.cfg, k.ctl)
    ensures var c' := Input(k, d).k.ctl;
            CtlOk(k.cfg, c') && k.ctl.cwnd <= c'.cwnd <= k.ctl.cwnd + 1 && c'.cwnd <= Max(k.ctl.cwnd, c'.rmtWnd)
  {
    var pkts := ParseDatagram(k.cfg.conv, d).pkts;
    InputKeepsCtl(k, pkts);
    GrowthIsBounded(InputSegs(k, pkts).ctl, Mss(k.cfg));
    hide InputSegs, ParseDatagram, HighestAck, GrowCwnd, FastAck, TimeDiff;
  }

  lemma FlushKeepsCtl(k: Kcb)
    requires CtlOk(k.cfg, k.ctl)
    ensures CtlOk(k.cfg, Flush(k).k.ctl) && Flush(k).k.cfg == k.cfg
  {
    hide FlushAdmit, FlushScan, FlushPackets, Datagrams, Wrap32, EffectiveWnd;
  }

  lemma StepKeepsCtl(x: Node, peer: set<bytes>, op: Op)
    requires ValidConfig(x.k.cfg) && CtlOk(x.k.cfg, x.k.ctl)
    ensures CtlOk(x.k.cfg, StepNode(x, peer, op).k.ctl)
  {
    hide CtlOk;
    match op
    case SendOp(data) => hide Extended, Extend, Split, FragCount;
    case RecvOp(len) => RecvKeepsCtl(x.k, len); hide Recv, Frags;
    case InputOp(d) => InputWindow(x.k, d); hide Input;
    case FlushOp => FlushKeepsCtl(x.k); hide Flush, Taken;
    case UpdateOp(now) => UpdateKeepsCtl(x.k, now); hide Update, Taken;
  }

  lemma RecvKeepsCtl(k: Kcb, len: int)
    requires CtlOk(k.cfg, k.ctl)
    ensures CtlOk(k.cfg, Recv(k, len).k.ctl)
  {
    hide PeekSize, MoveReady, FirstMsg, MsgCount;
  }

  lemma UpdateKeepsCtl(k: Kcb, now: u32)
    requires CtlOk(k.cfg, k.ctl)
    ensures CtlOk(k.cfg, Update(k, now).k.ctl)
  {
    hide Flush;
    var c := k.ctl.(current := now, updated := true);
    if OnTick(k.ctl, k.cfg, now).Fire? {
      FlushKeepsCtl(k.(ctl := c.(tsFlush := OnTick(k.ctl, k.cfg, now).tsFlush)));
    }
  }

  /** In every run both ends keep their timeout in bounds and their threshold at two or more. */
  lemma {:induction false} RunKeepsCtl(ca: Config, cb: Config, es: seq<Event>)
    requires ValidConfig(ca) && ValidConfig(cb)
    ensures var s := Run(ca, cb, es); CtlOk(ca, s.a.k.ctl) && CtlOk(cb, s.b.k.ctl)
  {
    if es != [] {
      hide CtlOk, StepNode;
      var n := |es| - 1;
      RunKeepsCtl(ca, cb, es[..n]);
      var s, e := Run(ca, cb, es[..n]), es[n];
      if e.onA { StepKeepsCtl(s.a, s.b.net, e.op); } else { StepKeepsCtl(s.b, s.a.net, e.op); }
    }
  }
}
