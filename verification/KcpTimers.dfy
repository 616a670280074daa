/** When things happen: which segments a flush sends and how long each then waits, when the next
    flush is, and when a closed window is asked about. */
module KcpTimers {
  import opened Words
  import opened KcpWire
  import opened KcpModel
  import opened KcpLink
  import opened KcpSystem
  import opened KcpMessages
  import opened KcpTheorems
  import opened KcpProgress
  import opened KcpCongestion

  // ----- ikcp_update

  /** The next flush instant after one at `now`, when the last was to be at `due`. */
  function NextFlush(due: u32, now: u32, interval: u32): u32 {
    if 0 <= TimeDiff(now, due) < interval then Add32(due, interval) else Add32(now, interval)
  }

  /** An update flushes unless the flush instant is still ahead; one that is ten seconds off is
      taken for a clock that was set. */
  predicate FlushesAt(c: Ctl, now: u32) { !c.updated || !(-10000 <= TimeDiff(now, c.tsFlush) < 0) }

  /** What an update does: it flushes with its clock set and the next instant fixed, or sets its clock. */
  lemma UpdateFlushesIff(k: Kcb, now: u32)
    requires ValidConfig(k.cfg)
    ensures var c := k.ctl.(current := now, updated := true);
            if !FlushesAt(k.ctl, now) then Update(k, now) == Emitted(k.(ctl := c), [])
            else
              var due := if k.ctl.updated && TimeDiff(now, k.ctl.tsFlush) < 10000 then k.ctl.tsFlush else now;
              Update(k, now) == Flush(k.(ctl := c.(tsFlush := NextFlush(due, now, k.cfg.interval))))
  {
    hide Flush;
  }

  lemma FlushKeepsClock(k: Kcb)
    ensures var c := Flush(k).k.ctl;
            c.current == k.ctl.current && c.tsFlush == k.ctl.tsFlush && c.updated == k.ctl.updated
    ensures Flush(k).k.cfg == k.cfg
  {
    hide FlushAdmit, FlushScan, FlushPackets, Datagrams, Wrap32, EffectiveWnd, Congestion, ProbeTimer;
    if k.ctl.updated {
      ProbeKeepsClock(k.ctl);
      var c, s := ProbeTimer(k.ctl), FlushAdmit(k);
      CongestionKeepsClock(c, k.cfg, FlushScan(k), Wrap32(s.nxt - s.una), EffectiveWnd(k.cfg, c));
    }
  }

  lemma ProbeKeepsClock(c: Ctl)
    ensures var c' := ProbeTimer(c); c'.current == c.current && c'.tsFlush == c.tsFlush && c'.updated == c.updated
  {
    hide Wrap32, TimeDiff, Add32;
  }

  lemma CongestionKeepsClock(c: Ctl, cfg: Config, a: Scan, inflight: u32, w: u32)
    ensures var c' := Congestion(c, cfg, a, inflight, w);
            c'.current == c.current && c'.tsFlush == c.tsFlush && c'.updated == c.updated
  {
    hide Wrap32, Add32;
  }

  lemma NextIsAhead(due: u32, now: u32, interval: u32)
    requires 1 <= interval <= 5000
    ensures var wait := TimeDiff(NextFlush(due, now, interval), now);
            1 <= wait <= interval && (!(0 <= TimeDiff(now, due) < interval) ==> wait == interval)
  {
  }

  /** Until the instant an update waits, at it an update flushes. */
  lemma WaitsUntil(k: Kcb, now: u32, e: nat)
    requires ValidConfig(k.cfg) && k.ctl.updated && k.ctl.current == now && e <= TimeDiff(k.ctl.tsFlush, now) <= 5000
    ensures e < TimeDiff(k.ctl.tsFlush, now) ==>
              Update(k, Add32(now, e)) == Emitted(k.(ctl := k.ctl.(current := Add32(now, e))), [])
    ensures e == TimeDiff(k.ctl.tsFlush, now) ==> FlushesAt(k.ctl, Add32(now, e))
  {
    TimeDiffShift(now, k.ctl.tsFlush, e);
    UpdateFlushesIff(k, Add32(now, e));
    hide Update, TimeDiff;
  }

  /** After an update that flushes, the next flush is between one tick and one interval away; if the
      last came less than an interval late, exactly an interval after it was due. Until then
      updates emit nothing and leave the instant as it is, and then one flushes. */
  lemma FlushesOncePerInterval(k: Kcb, now: u32, e: nat)
    requires ValidConfig(k.cfg) && FlushesAt(k.ctl, now)
    ensures var k' := Update(k, now).k;
            var wait := TimeDiff(k'.ctl.tsFlush, now);
            && 1 <= wait <= k.cfg.interval && k'.ctl.current == now && k'.ctl.updated
            && (k.ctl.updated && 0 <= TimeDiff(now, k.ctl.tsFlush) < k.cfg.interval ==>
                  k'.ctl.tsFlush == Add32(k.ctl.tsFlush, k.cfg.interval))
            && (!(k.ctl.updated && 0 <= TimeDiff(now, k.ctl.tsFlush) < k.cfg.interval) ==> wait == k.cfg.interval)
            && (e < wait ==> Update(k', Add32(now, e)) == Emitted(k'.(ctl := k'.ctl.(current := Add32(now, e))), []))
            && (e == wait ==> FlushesAt(k'.ctl, Add32(now, e)))
  {
    UpdateFlushesIff(k, now);
    var c := k.ctl.(current := now, updated := true);
    var due := if k.ctl.updated && TimeDiff(now, k.ctl.tsFlush) < 10000 then k.ctl.tsFlush else now;
    var next := NextFlush(due, now, k.cfg.interval);
    NextIsAhead(due, now, k.cfg.interval);
    assert TimeDiff(now, now) == 0;
    hide Flush, Update, TimeDiff, Add32;
    FlushKeepsClock(k.(ctl := c.(tsFlush := next)));
    if e <= TimeDiff(next, now) { WaitsUntil(Update(k, now).k, now, e); }
  }

  // ----- ikcp_flush, segment by segment

  ghost predicate Unsent(seg: OutSeg) { seg.xmit == 0 }

  ghost predicate Late(seg: OutSeg, now: u32) { seg.xmit != 0 && TimeDiff(now, seg.resendts) >= 0 }

  /** Overtaken as often as the settings ask for; without the setting, as often as can be counted. */
  ghost predicate PassedOver(seg: OutSeg, cfg: Config, now: u32) {
    && seg.xmit != 0 && TimeDiff(now, seg.resendts) < 0
    && if cfg.fastresend > 0 then seg.fastack >= cfg.fastresend else seg.fastack == 0xffff_ffff
  }

  ghost predicate Due(seg: OutSeg, cfg: Config, now: u32) {
    Unsent(seg) || Late(seg, now) || PassedOver(seg, cfg, now)
  }

  /** The wait after a first sending: the timeout, and an eighth unless in a hurry. */
  function FirstWait(cfg: Config, rto: u32): int { if cfg.nodelay then rto else rto + rto / 8 }

  function Backoff(cfg: Config, rto: u32): u32 { if cfg.nodelay then rto / 2 else rto }

  /** The segment has gone out at `now` and is not to go out again before the wait is over. */
  ghost predicate SentAt(seg: OutSeg, seg': OutSeg, now: u32, wait: int) {
    && seg' == seg.(xmit := Add32(seg.xmit, 1), ts := now, wnd := seg'.wnd, una := seg'.una,
                    rto := seg'.rto, resendts := seg'.resendts, fastack := seg'.fastack)
    && (0 <= wait < TWO31 ==> TimeDiff(seg'.resendts, now) == wait)
    && forall e: nat :: e < wait < TWO31 ==> TimeDiff(Add32(now, e), seg'.resendts) < 0
  }

  /** What a flush at `now` makes of a segment. */
  ghost predicate Passed(cfg: Config, rto: u32, now: u32, seg: OutSeg, seg': OutSeg) {
    && (!Due(seg, cfg, now) ==> seg' == seg)
    && (Unsent(seg) ==> SentAt(seg, seg', now, FirstWait(cfg, rto)) && seg'.rto == rto && seg'.fastack == seg.fastack)
    && (Late(seg, now) ==> seg'.rto == Add32(seg.rto, Backoff(cfg, rto))
                           && SentAt(seg, seg', now, seg'.rto) && seg'.fastack == seg.fastack)
    && (PassedOver(seg, cfg, now) ==> SentAt(seg, seg', now, seg.rto) && seg'.rto == seg.rto && seg'.fastack == 0)
  }

  lemma NotBefore(now: u32, wait: nat)
    requires wait < TWO31
    ensures TimeDiff(Add32(now, wait), now) == wait
    ensures forall e: nat :: e < wait ==> TimeDiff(Add32(now, e), Add32(now, wait)) < 0
  {
    var at := Add32(now, wait);
    forall e: nat | e < wait
      ensures TimeDiff(Add32(now, e), at) < 0
    {
      TimeDiffShift(now, at, e);
    }
  }

  lemma SentThen(seg: OutSeg, seg': OutSeg, now: u32, wait: u32)
    requires seg' == seg.(xmit := Add32(seg.xmit, 1), ts := now, wnd := seg'.wnd, una := seg'.una,
                          rto := seg'.rto, resendts := seg'.resendts, fastack := seg'.fastack)
    requires seg'.resendts == Add32(now, wait)
    ensures SentAt(seg, seg', now, wait)
  {
    if wait < TWO31 { NotBefore(now, wait); }
  }

  lemma OnePassed(seg: OutSeg, cfg: Config, c: Ctl, wnd: u32, una: u32)
    requires c.rto <= RTO_MAX
    ensures Passed(cfg, c.rto, c.current, seg, SendSeg(seg, cfg, c, wnd, una))
    ensures Due(seg, cfg, c.current) ==>
              var seg' := SendSeg(seg, cfg, c, wnd, una); seg'.wnd == wnd && seg'.una == una
    ensures WhySend(seg, cfg, c).Keep? <==> !Due(seg, cfg, c.current)
    ensures WhySend(seg, cfg, c).Timeout? <==> Late(seg, c.current)
    ensures WhySend(seg, cfg, c).Fast? <==> PassedOver(seg, cfg, c.current)
  {
    var seg' := SendSeg(seg, cfg, c, wnd, una);
    var now := c.current;
    if Unsent(seg) {
      assert seg'.resendts == Add32(now, FirstWait(cfg, c.rto));
      SentThen(seg, seg', now, FirstWait(cfg, c.rto));
    } else if Late(seg, now) {
      SentThen(seg, seg', now, seg'.rto);
    } else if PassedOver(seg, cfg, now) {
      SentThen(seg, seg', now, seg.rto);
    }
  }

  // ----- the whole pass

  ghost predicate AllPassed(cfg: Config, rto: u32, now: u32, buf: seq<OutSeg>, buf': seq<OutSeg>) {
    |buf'| == |buf| && forall i :: 0 <= i < |buf| ==> Passed(cfg, rto, now, buf[i], buf'[i])
  }

  lemma ScanStep(buf: seq<OutSeg>, cfg: Config, c: Ctl, wnd: u32, una: u32)
    requires buf != []
    ensures var n := |buf| - 1;
            var b, a := ScanBuf(buf[..n], cfg, c, wnd, una), ScanBuf(buf, cfg, c, wnd, una);
            a == ScanSeg(b, buf[n], cfg, c, wnd, una) && a.buf == b.buf + [SendSeg(buf[n], cfg, c, wnd, una)]
  {
    SendSame(buf[|buf| - 1], cfg, c, wnd, una);
    hide SendSeg, WhySend;
  }

  lemma {:induction false} ScanPasses(buf: seq<OutSeg>, cfg: Config, c: Ctl, wnd: u32, una: u32)
    requires c.rto <= RTO_MAX
    ensures AllPassed(cfg, c.rto, c.current, buf, ScanBuf(buf, cfg, c, wnd, una).buf)
  {
    hide Passed;
    if buf != [] {
      var n := |buf| - 1;
      ScanPasses(buf[..n], cfg, c, wnd, una);
      OnePassed(buf[n], cfg, c, wnd, una);
      ScanStep(buf, cfg, c, wnd, una);
      hide SendSeg, ScanBuf, ScanSeg;
      assert forall i :: 0 <= i < n ==> buf[..n][i] == buf[i];
    }
  }

  ghost predicate AnyLate(buf: seq<OutSeg>, now: u32) { exists i :: 0 <= i < |buf| && Late(buf[i], now) }

  ghost predicate AnyPassedOver(buf: seq<OutSeg>, cfg: Config, now: u32) {
    exists i :: 0 <= i < |buf| && PassedOver(buf[i], cfg, now)
  }

  /** A segment goes out for the last time that the settings allow. */
  ghost predicate GivesUp(seg: OutSeg, cfg: Config, now: u32) {
    Due(seg, cfg, now) && Add32(seg.xmit, 1) >= cfg.deadLink
  }

  ghost predicate AnyGivesUp(buf: seq<OutSeg>, cfg: Config, now: u32) {
    exists i :: 0 <= i < |buf| && GivesUp(buf[i], cfg, now)
  }

  ghost function LateCount(buf: seq<OutSeg>, now: u32): nat {
    if buf == [] then 0 else LateCount(buf[..|buf| - 1], now) + if Late(buf[|buf| - 1], now) then 1 else 0
  }

  lemma {:induction false} ScanMarks(buf: seq<OutSeg>, cfg: Config, c: Ctl, wnd: u32, una: u32)
    requires c.rto <= RTO_MAX
    ensures var a := ScanBuf(buf, cfg, c, wnd, una);
            && (a.lost <==> AnyLate(buf, c.current)) && (a.change <==> AnyPassedOver(buf, cfg, c.current))
  {
    hide Passed, Due, Late, PassedOver;
    if buf != [] {
      var n := |buf| - 1;
      ScanMarks(buf[..n], cfg, c, wnd, una);
      OnePassed(buf[n], cfg, c, wnd, una);
      ScanStep(buf, cfg, c, wnd, una);
      hide SendSeg, WhySend, ScanBuf;
      assert forall i :: 0 <= i < n ==> buf[..n][i] == buf[i];
    }
  }

  lemma {:induction false} ScanGivesUp(buf: seq<OutSeg>, cfg: Config, c: Ctl, wnd: u32, una: u32)
    requires c.rto <= RTO_MAX
    ensures ScanBuf(buf, cfg, c, wnd, una).dead <==> c.dead || AnyGivesUp(buf, cfg, c.current)
  {
    hide Passed, Due, Late, PassedOver;
    if buf != [] {
      var n := |buf| - 1;
      ScanGivesUp(buf[..n], cfg, c, wnd, una);
      OnePassed(buf[n], cfg, c, wnd, una);
      CountsSending(buf[n], cfg, c, wnd, una);
      ScanStep(buf, cfg, c, wnd, una);
      hide SendSeg, WhySend, ScanBuf, Add32;
      assert forall i :: 0 <= i < n ==> buf[..n][i] == buf[i];
    }
  }

  lemma {:induction false} ScanCounts(buf: seq<OutSeg>, cfg: Config, c: Ctl, wnd: u32, una: u32)
    requires c.rto <= RTO_MAX
    ensures ScanBuf(buf, cfg, c, wnd, una).xmit == Wrap32(c.xmit + LateCount(buf, c.current))
  {
    hide Passed, Due, Late, PassedOver;
    if buf != [] {
      var n := |buf| - 1;
      ScanCounts(buf[..n], cfg, c, wnd, una);
      OnePassed(buf[n], cfg, c, wnd, una);
      ScanStep(buf, cfg, c, wnd, una);
      WrapNext(c.xmit + LateCount(buf[..n], c.current));
      hide SendSeg, WhySend, ScanBuf, Wrap32, Add32;
    }
  }

  lemma WrapNext(x: nat)
    ensures Wrap32(x + 1) == Add32(Wrap32(x), 1)
  {
  }

  lemma CountsSending(seg: OutSeg, cfg: Config, c: Ctl, wnd: u32, una: u32)
    ensures !WhySend(seg, cfg, c).Keep? ==> SendSeg(seg, cfg, c, wnd, una).xmit == Add32(seg.xmit, 1)
  {
    hide TimeDiff, Add32;
  }

  /** A segment as it goes out. */
  function Data(seg: OutSeg, now: u32, room: u32, una: u32): Packet {
    Packet(CMD_PUSH, seg.frag.frg, room % TWO16, now, seg.sn, una, seg.frag.data)
  }

  /** The segments that are due, in order. */
  ghost function DuePackets(buf: seq<OutSeg>, cfg: Config, now: u32, room: u32, una: u32): seq<Packet> {
    if buf == [] then []
    else
      var n := |buf| - 1;
      DuePackets(buf[..n], cfg, now, room, una)
      + if Due(buf[n], cfg, now) then [Data(buf[n], now, room, una)] else []
  }

  lemma SendsData(seg: OutSeg, cfg: Config, c: Ctl, wnd: u32, una: u32)
    requires !WhySend(seg, cfg, c).Keep?
    ensures DataPacket(SendSeg(seg, cfg, c, wnd, una)) == Data(seg, c.current, wnd, una)
  {
    hide TimeDiff, Add32;
  }

  lemma {:induction false} ScanSendsDue(buf: seq<OutSeg>, cfg: Config, c: Ctl, wnd: u32, una: u32)
    requires c.rto <= RTO_MAX
    ensures ScanBuf(buf, cfg, c, wnd, una).pkts == DuePackets(buf, cfg, c.current, wnd, una)
  {
    hide Passed, Due;
    if buf != [] {
      var n := |buf| - 1;
      ScanSendsDue(buf[..n], cfg, c, wnd, una);
      OnePassed(buf[n], cfg, c, wnd, una);
      if Due(buf[n], cfg, c.current) { SendsData(buf[n], cfg, c, wnd, una); }
      ScanStep(buf, cfg, c, wnd, una);
      hide SendSeg, WhySend, ScanBuf;
    }
  }

  // ----- numbering

  ghost predicate NumbersLeft(k: Kcb) {
    k.snd.una <= k.snd.nxt && k.snd.nxt + |k.snd.queue| + TWO16 <= TWO31
  }

  /** The first `n` queued fragments get the next numbers and are still to be sent. */
  ghost predicate Fresh(s: Snd, n: nat, buf: seq<OutSeg>) {
    && n <= |s.queue| && |buf| == n
    && forall j :: 0 <= j < n ==>
         buf[j].sn == s.nxt + j && buf[j].frag == s.queue[j] && buf[j].xmit == 0 && buf[j].fastack == 0
  }

  lemma SliceCons(buf: seq<OutSeg>, n: nat)
    requires n < |buf|
    ensures buf[n..] == [buf[n]] + buf[n + 1..]
  {
  }

  /** Numbering goes on exactly as long as there is something queued and the window has room. */
  lemma {:induction false} AdmitShape(s: Snd, w: u32, wnd: u32, una: u32, c: Ctl)
    requires s.una <= s.nxt && s.nxt + |s.queue| + TWO16 <= TWO31 && w < TWO16
    ensures var s' := Admit(s, w, wnd, una, c);
            var n := |s.queue| - |s'.queue|;
            && n >= 0 && s'.una == s.una && s'.nxt == s.nxt + n && s'.queue == s.queue[n..]
            && s.buf <= s'.buf && Fresh(s, n, s'.buf[|s.buf|..])
            && (n > 0 ==> s'.nxt <= s.una + w) && (s'.queue == [] || s'.nxt >= s.una + w)
    decreases |s.queue|
  {
    assert Add32(s.una, w) == s.una + w && Add32(s.nxt, 1) == s.nxt + 1;
    DiffInRange(s.nxt, s.una + w);
    hide TimeDiff, Add32;
    if s.nxt < s.una + w && s.queue != [] {
      var seg := Numbered(s.queue[0], s.nxt, wnd, una, c);
      var s1 := s.(queue := s.queue[1..], nxt := Add32(s.nxt, 1), buf := s.buf + [seg]);
      AdmitShape(s1, w, wnd, una, c);
      var s' := Admit(s, w, wnd, una, c);
      hide Admit;
      assert s'.buf[|s.buf|] == seg;
      SliceCons(s'.buf, |s.buf|);
    }
  }

  /** How many fragments a flush numbers. */
  function Admitted(k: Kcb): int { |k.snd.queue| - |Flush(k).k.snd.queue| }

  /** The segments a flush goes over: those unacknowledged, and those it numbers. */
  lemma FlushGoesOver(k: Kcb)
    requires k.ctl.updated && NumbersLeft(k) && ValidConfig(k.cfg)
    ensures var buf, n := FlushAdmit(k).buf, Admitted(k);
            && 0 <= n <= |k.snd.queue| && k.snd.buf <= buf && Fresh(k.snd, n, buf[|k.snd.buf|..])
    ensures var s' := Flush(k).k.snd;
            && s'.queue == k.snd.queue[Admitted(k)..] && s'.nxt == k.snd.nxt + Admitted(k) && s'.una == k.snd.una
            && (Admitted(k) > 0 ==> s'.nxt <= s'.una + EffectiveWnd(k.cfg, k.ctl))
            && (s'.queue == [] || s'.nxt >= s'.una + EffectiveWnd(k.cfg, k.ctl))
  {
    hide Admit, FlushAdmit, FlushScan, FlushPackets, Datagrams, Congestion, Fresh, EffectiveWnd;
    AdmitsShaped(k);
    FlushSnd(k);
  }

  lemma FlushSnd(k: Kcb)
    requires k.ctl.updated
    ensures var s, s' := FlushAdmit(k), Flush(k).k.snd; s'.queue == s.queue && s'.nxt == s.nxt && s'.una == s.una
  {
    hide FlushAdmit, FlushScan, FlushPackets, Datagrams, Congestion, ProbeTimer;
  }

  lemma AdmitsShaped(k: Kcb)
    requires NumbersLeft(k)
    ensures var s, s', w := k.snd, FlushAdmit(k), EffectiveWnd(k.cfg, k.ctl);
            var n := |s.queue| - |s'.queue|;
            && n >= 0 && s'.una == s.una && s'.nxt == s.nxt + n && s'.queue == s.queue[n..]
            && s.buf <= s'.buf && Fresh(s, n, s'.buf[|s.buf|..])
            && (n > 0 ==> s'.nxt <= s.una + w) && (s'.queue == [] || s'.nxt >= s.una + w)
  {
    var c := ProbeTimer(k.ctl);
    ProbeKeepsRto(k.ctl);
    AdmitShape(k.snd, EffectiveWnd(k.cfg, c), WndUnused(k), k.rcv.nxt, c);
    hide Admit, WndUnused, Fresh, ProbeTimer;
  }

  /** A flush fills the window and does not pass it: the send window, the announced window and,
      unless it is switched off, the congestion window. */
  lemma FlushFillsWindow(k: Kcb)
    requires k.ctl.updated && NumbersLeft(k) && ValidConfig(k.cfg)
    ensures var s' := Flush(k).k.snd;
            var flight := s'.nxt - s'.una;
            && (Admitted(k) > 0 ==> flight <= k.cfg.sndWnd && flight <= k.ctl.rmtWnd
                                    && (k.cfg.nocwnd || flight <= k.ctl.cwnd))
            && (s'.queue == [] || flight >= k.cfg.sndWnd || flight >= k.ctl.rmtWnd
                || (!k.cfg.nocwnd && flight >= k.ctl.cwnd))
  {
    hide Flush, Fresh, Admitted, FlushAdmit;
    FlushGoesOver(k);
  }

  /** What a flush makes of every segment: one that is due goes out and waits as long as it should,
      the others are left as they are, and a newly numbered one goes out for the first time. */
  lemma FlushPasses(k: Kcb)
    requires k.ctl.updated && NumbersLeft(k) && ValidConfig(k.cfg) && k.ctl.rto <= RTO_MAX
    ensures var b, b', n := k.snd.buf, Flush(k).k.snd.buf, Admitted(k);
            && 0 <= n <= |k.snd.queue| && |b'| == |b| + n && k.snd.nxt + n < TWO31
            && (forall i :: 0 <= i < |b| ==> Passed(k.cfg, k.ctl.rto, k.ctl.current, b[i], b'[i]))
            && forall i :: |b| <= i < |b'| ==> FirstSent(k, i - |b|, b'[i])
  {
    hide Flush, FlushAdmit, Admitted, Passed, FirstSent, AllPassed, Fresh;
    FlushGoesOver(k);
    FlushedBuffer(k);
    OldAndNew(k, FlushAdmit(k).buf, Flush(k).k.snd.buf, Admitted(k));
  }

  lemma OldAndNew(k: Kcb, buf: seq<OutSeg>, buf': seq<OutSeg>, n: nat)
    requires k.snd.buf <= buf && n <= |k.snd.queue| && Fresh(k.snd, n, buf[|k.snd.buf|..]) && k.ctl.rto <= RTO_MAX
    requires AllPassed(k.cfg, k.ctl.rto, k.ctl.current, buf, buf')
    ensures var b := k.snd.buf;
            && |buf'| == |b| + n
            && (forall i :: 0 <= i < |b| ==> Passed(k.cfg, k.ctl.rto, k.ctl.current, b[i], buf'[i]))
            && forall i :: |b| <= i < |buf'| ==> FirstSent(k, i - |b|, buf'[i])
  {
    hide Passed, FirstSent;
    var b := k.snd.buf;
    assert forall i :: 0 <= i < |b| ==> buf[i] == b[i];
    forall i | |b| <= i < |buf'|
      ensures FirstSent(k, i - |b|, buf'[i])
    {
      assert buf[i] == buf[|b|..][i - |b|];
      FreshIsFirst(k, i - |b|, buf[i], buf'[i]);
    }
  }

  lemma FlushedBuffer(k: Kcb)
    requires k.ctl.updated && k.ctl.rto <= RTO_MAX
    ensures AllPassed(k.cfg, k.ctl.rto, k.ctl.current, FlushAdmit(k).buf, Flush(k).k.snd.buf)
  {
    ProbeKeepsRto(k.ctl);
    ScanPasses(FlushAdmit(k).buf, k.cfg, ProbeTimer(k.ctl), WndUnused(k), k.rcv.nxt);
    hide FlushAdmit, ScanBuf, FlushPackets, Datagrams, Congestion, WndUnused, AllPassed, ProbeTimer;
  }

  /** The `j`-th of the segments just numbered, as the flush leaves it. */
  ghost predicate FirstSent(k: Kcb, j: nat, seg: OutSeg)
    requires j < |k.snd.queue|
  {
    && seg.sn == k.snd.nxt + j && seg.frag == k.snd.queue[j] && seg.xmit == 1 && seg.ts == k.ctl.current
    && seg.rto == k.ctl.rto && seg.fastack == 0
    && TimeDiff(seg.resendts, k.ctl.current) == FirstWait(k.cfg, k.ctl.rto)
  }

  lemma FreshIsFirst(k: Kcb, j: nat, seg: OutSeg, seg': OutSeg)
    requires j < |k.snd.queue| && Passed(k.cfg, k.ctl.rto, k.ctl.current, seg, seg') && k.ctl.rto <= RTO_MAX
    requires seg.sn == k.snd.nxt + j && seg.frag == k.snd.queue[j] && seg.xmit == 0 && seg.fastack == 0
    ensures FirstSent(k, j, seg')
  {
    hide TimeDiff;
  }

  lemma ProbeKeepsRto(c: Ctl)
    ensures var c' := ProbeTimer(c);
            && c'.rto == c.rto && c'.current == c.current && c'.xmit == c.xmit && c'.dead == c.dead
            && c'.cwnd == c.cwnd && c'.incr == c.incr && c'.ssthresh == c.ssthresh && c'.rmtWnd == c.rmtWnd
  {
    hide Wrap32, TimeDiff, Add32;
  }

  // ----- what goes out

  lemma {:induction false} DueAppend(a: seq<OutSeg>, b: seq<OutSeg>, cfg: Config, now: u32, room: u32, una: u32)
    ensures DuePackets(a + b, cfg, now, room, una)
         == DuePackets(a, cfg, now, room, una) + DuePackets(b, cfg, now, room, una)
    decreases |b|
  {
    hide Due, Data;
    if b == [] {
      assert a + b == a;
    } else {
      var n := |b| - 1;
      DueAppend(a, b[..n], cfg, now, room, una);
      assert (a + b)[..|a + b| - 1] == a + b[..n];
    }
  }

  /** The segments just numbered, as they go out. */
  function FirstPackets(s: Snd, n: nat, now: u32, room: u32, una: u32): (r: seq<Packet>)
    requires n <= |s.queue| && s.nxt + n < TWO31
    ensures |r| == n
  {
    seq(n, j requires 0 <= j < n =>
      Packet(CMD_PUSH, s.queue[j].frg, room % TWO16, now, s.nxt + j, una, s.queue[j].data))
  }

  lemma {:induction false} FreshAreDue(s: Snd, n: nat, buf: seq<OutSeg>, cfg: Config, now: u32, room: u32, una: u32)
    requires Fresh(s, n, buf) && s.nxt + n < TWO31
    ensures DuePackets(buf, cfg, now, room, una) == FirstPackets(s, n, now, room, una)
    decreases n
  {
    hide Late, PassedOver;
    if n > 0 {
      FreshAreDue(s, n - 1, buf[..n - 1], cfg, now, room, una);
      assert FirstPackets(s, n, now, room, una)
          == FirstPackets(s, n - 1, now, room, una) + [Data(buf[n - 1], now, room, una)];
    }
  }

  /** The data a flush sends: what is due, in order, and what it has numbered. */
  lemma FlushSends(k: Kcb)
    requires k.ctl.updated && NumbersLeft(k) && ValidConfig(k.cfg) && k.ctl.rto <= RTO_MAX
    ensures 0 <= Admitted(k) <= |k.snd.queue|
    ensures FlushScan(k).pkts
         == DuePackets(k.snd.buf, k.cfg, k.ctl.current, WndUnused(k), k.rcv.nxt)
            + FirstPackets(k.snd, Admitted(k), k.ctl.current, WndUnused(k), k.rcv.nxt)
  {
    hide Flush, FlushAdmit, Admitted, Fresh, ScanBuf, WndUnused, DuePackets, FirstPackets, ProbeTimer;
    FlushGoesOver(k);
    ProbeKeepsRto(k.ctl);
    var b, buf, room, una := k.snd.buf, FlushAdmit(k).buf, WndUnused(k), k.rcv.nxt;
    var first := buf[|b|..];
    assert buf == b + first;
    ScanSendsDue(buf, k.cfg, ProbeTimer(k.ctl), room, una);
    DueAppend(b, first, k.cfg, k.ctl.current, room, una);
    FreshAreDue(k.snd, Admitted(k), first, k.cfg, k.ctl.current, room, una);
  }

  ghost predicate InOrderBelow(buf: seq<OutSeg>, nxt: u32) {
    && (forall i, j :: 0 <= i < j < |buf| ==> buf[i].sn < buf[j].sn)
    && forall i :: 0 <= i < |buf| ==> buf[i].sn < nxt
  }

  lemma {:induction false} DueMembers(buf: seq<OutSeg>, cfg: Config, now: u32, room: u32, una: u32)
    ensures forall p <- DuePackets(buf, cfg, now, room, una) ::
              exists i :: 0 <= i < |buf| && Due(buf[i], cfg, now) && p == Data(buf[i], now, room, una)
    ensures forall i :: 0 <= i < |buf| && Due(buf[i], cfg, now) ==>
              Data(buf[i], now, room, una) in DuePackets(buf, cfg, now, room, una)
  {
    hide Due, Data;
    if buf != [] {
      var n := |buf| - 1;
      DueMembers(buf[..n], cfg, now, room, una);
      assert forall i :: 0 <= i < n ==> buf[..n][i] == buf[i];
    }
  }

  /** The segment goes out in this flush. */
  ghost predicate GoesOut(k: Kcb, sn: u32) { exists p <- FlushPackets(k) :: p.cmd == CMD_PUSH && p.sn == sn }

  /** An unacknowledged segment goes out if and only if it is new, late or passed over often enough. */
  lemma GoesOutIffDue(k: Kcb, i: nat)
    requires k.ctl.updated && NumbersLeft(k) && ValidConfig(k.cfg) && k.ctl.rto <= RTO_MAX
    requires InOrderBelow(k.snd.buf, k.snd.nxt) && i < |k.snd.buf|
    ensures GoesOut(k, k.snd.buf[i].sn) <==> Due(k.snd.buf[i], k.cfg, k.ctl.current)
  {
    hide AckPackets, ProbePackets, ProbeTimer, FlushScan, Due, Admitted, WndUnused, DuePackets;
    FlushSends(k);
    var b, room, una, now := k.snd.buf, WndUnused(k), k.rcv.nxt, k.ctl.current;
    DueMembers(b, k.cfg, now, room, una);
    var bare := AckPackets(k) + ProbePackets(k, ProbeTimer(k.ctl));
    assert FlushPackets(k) == bare + FlushScan(k).pkts;
    if Due(b[i], k.cfg, now) {
      assert Data(b[i], now, room, una) in FlushPackets(k);
    }
    forall p <- FlushPackets(k) | p.cmd == CMD_PUSH && p.sn == b[i].sn
      ensures Due(b[i], k.cfg, now)
    {
      if p in bare {
        BarePackets(k, p);
      } else if p in DuePackets(b, k.cfg, now, room, una) {
        var j :| 0 <= j < |b| && Due(b[j], k.cfg, now) && p == Data(b[j], now, room, una);
        assert i == j;
      }
    }
  }

  /** How long a segment that goes out at `now` is to wait. */
  function WaitOf(seg: OutSeg, cfg: Config, rto: u32, now: u32): int {
    if seg.xmit == 0 then FirstWait(cfg, rto)
    else if TimeDiff(now, seg.resendts) >= 0 then Add32(seg.rto, Backoff(cfg, rto))
    else seg.rto
  }

  lemma FlushKeepsOrder(k: Kcb)
    requires k.ctl.updated && NumbersLeft(k) && ValidConfig(k.cfg) && k.ctl.rto <= RTO_MAX
    requires InOrderBelow(k.snd.buf, k.snd.nxt)
    ensures InOrderBelow(Flush(k).k.snd.buf, Flush(k).k.snd.nxt) && NumbersLeft(Flush(k).k)
    ensures |k.snd.buf| <= |Flush(k).k.snd.buf|
    ensures forall i :: 0 <= i < |k.snd.buf| ==> Flush(k).k.snd.buf[i].sn == k.snd.buf[i].sn
  {
    hide Flush, Admitted, FlushAdmit, EffectiveWnd;
    FlushPasses(k);
    FlushGoesOver(k);
    var b, b' := k.snd.buf, Flush(k).k.snd.buf;
    forall i | 0 <= i < |b|
      ensures b'[i].sn == b[i].sn
    {
      PassedKeepsNumber(k.cfg, k.ctl.rto, k.ctl.current, b[i], b'[i]);
    }
    hide Passed;
    assert forall i :: |b| <= i < |b'| ==> b'[i].sn == k.snd.nxt + (i - |b|);
  }

  lemma PassedKeepsNumber(cfg: Config, rto: u32, now: u32, seg: OutSeg, seg': OutSeg)
    requires Passed(cfg, rto, now, seg, seg')
    ensures seg'.sn == seg.sn && seg'.frag == seg.frag
    ensures Due(seg, cfg, now) && WaitOf(seg, cfg, rto, now) < TWO31 ==>
              forall e: nat :: e < WaitOf(seg, cfg, rto, now) ==> TimeDiff(Add32(now, e), seg'.resendts) < 0
    ensures Due(seg, cfg, now) ==> seg'.xmit == Add32(seg.xmit, 1)
  {
    hide TimeDiff;
  }

  /** Once out, a segment stays in before its wait is over, however often the endpoint flushes,
      unless it has been passed over often enough. */
  lemma NotAgainBefore(k: Kcb, i: nat, e: nat)
    requires k.ctl.updated && NumbersLeft(k) && ValidConfig(k.cfg) && k.ctl.rto <= RTO_MAX
    requires InOrderBelow(k.snd.buf, k.snd.nxt) && i < |k.snd.buf| && Due(k.snd.buf[i], k.cfg, k.ctl.current)
    requires e < WaitOf(k.snd.buf[i], k.cfg, k.ctl.rto, k.ctl.current) < TWO31 && k.snd.buf[i].xmit < TWO32 - 1
    ensures i < |Flush(k).k.snd.buf|
    ensures var k', later := Flush(k).k, Add32(k.ctl.current, e);
            GoesOut(k'.(ctl := k'.ctl.(current := later)), k.snd.buf[i].sn)
            <==> PassedOver(k'.snd.buf[i], k.cfg, later)
  {
    hide Flush, FlushPackets, Admitted, FlushAdmit;
    FlushKeepsOrder(k);
    FlushPasses(k);
    FlushKeepsSettings(k);
    var k', later := Flush(k).k, Add32(k.ctl.current, e);
    var k2 := k'.(ctl := k'.ctl.(current := later));
    PassedKeepsNumber(k.cfg, k.ctl.rto, k.ctl.current, k.snd.buf[i], k'.snd.buf[i]);
    hide Passed, InOrderBelow, WaitOf;
    GoesOutIffDue(k2, i);
  }

  lemma FlushKeepsSettings(k: Kcb)
    ensures var k' := Flush(k).k; k'.cfg == k.cfg && k'.ctl.rto == k.ctl.rto && k'.ctl.updated == k.ctl.updated
  {
    hide FlushAdmit, FlushScan, FlushPackets, Datagrams, Wrap32, EffectiveWnd, ProbeTimer;
    FlushKeepsClock(k);
    ProbeKeepsRto(k.ctl);
  }

  // ----- the congestion window after a flush

  /** A timeout closes the congestion window to one segment and remembers half the window in use; a
      fast resend halves what is in flight and allows for the overtakings; otherwise the window
      is as before, and at least one. */
  lemma FlushAdjustsWindow(k: Kcb)
    requires k.ctl.updated && NumbersLeft(k) && ValidConfig(k.cfg) && k.ctl.rto <= RTO_MAX
    ensures var c, c', s' := k.ctl, Flush(k).k.ctl, Flush(k).k.snd;
            var flight, now := s'.nxt - s'.una, k.ctl.current;
            var used := Min(Min(k.cfg.sndWnd, c.rmtWnd), if k.cfg.nocwnd then c.rmtWnd else c.cwnd);
            && (AnyLate(k.snd.buf, now) ==> c'.cwnd == 1 && c'.incr == Mss(k.cfg) && c'.ssthresh == Max(2, used / 2))
            && (!AnyLate(k.snd.buf, now) && AnyPassedOver(k.snd.buf, k.cfg, now) && k.cfg.fastresend > 0 ==>
                  c'.ssthresh == Max(2, flight / 2)
                  && (c'.ssthresh + k.cfg.fastresend < TWO32 ==> c'.cwnd == c'.ssthresh + k.cfg.fastresend))
            && (!AnyLate(k.snd.buf, now) && !AnyPassedOver(k.snd.buf, k.cfg, now) ==>
                  c'.ssthresh == c.ssthresh && c'.cwnd == Max(1, c.cwnd))
  {
    hide Flush, Admitted, Fresh, FlushAdmit;
    FlushGoesOver(k);
    FlushMarks(k);
    CongestionParts(k);
    hide AnyLate, AnyPassedOver;
  }

  /** The segments just numbered are neither late nor passed over. */
  lemma FlushMarks(k: Kcb)
    requires k.ctl.updated && NumbersLeft(k) && ValidConfig(k.cfg) && k.ctl.rto <= RTO_MAX
    ensures var a, b, now := FlushScan(k), k.snd.buf, k.ctl.current;
            (a.lost <==> AnyLate(b, now)) && (a.change <==> AnyPassedOver(b, k.cfg, now))
  {
    hide Flush, Admitted, FlushAdmit, ScanBuf, ProbeTimer, WndUnused, Late, PassedOver;
    FlushGoesOver(k);
    ProbeKeepsRto(k.ctl);
    var b, buf := k.snd.buf, FlushAdmit(k).buf;
    ScanMarks(buf, k.cfg, ProbeTimer(k.ctl), WndUnused(k), k.rcv.nxt);
    assert forall i :: 0 <= i < |b| ==> buf[i] == b[i];
    forall i | |b| <= i < |buf|
      ensures !Late(buf[i], k.ctl.current) && !PassedOver(buf[i], k.cfg, k.ctl.current)
    {
      assert buf[i] == buf[|b|..][i - |b|];
      NewIsNeither(buf[i], k.cfg, k.ctl.current);
    }
  }

  lemma NewIsNeither(seg: OutSeg, cfg: Config, now: u32)
    requires seg.xmit == 0
    ensures !Late(seg, now) && !PassedOver(seg, cfg, now)
  {
  }

  lemma CongestionParts(k: Kcb)
    requires k.ctl.updated && ValidConfig(k.cfg) && k.snd.una <= Flush(k).k.snd.nxt < TWO31
             && Flush(k).k.snd.una == k.snd.una
    ensures var c, c', a := k.ctl, Flush(k).k.ctl, FlushScan(k);
            var half := Max(2, (Flush(k).k.snd.nxt - k.snd.una) / 2);
            && (a.lost ==> c'.cwnd == 1 && c'.incr == Mss(k.cfg) && c'.ssthresh == Max(2, EffectiveWnd(k.cfg, c) / 2))
            && (!a.lost && a.change ==> c'.ssthresh == half)
            && (!a.lost && a.change && k.cfg.fastresend > 0 && half + k.cfg.fastresend < TWO32 ==>
                  c'.cwnd == half + k.cfg.fastresend)
            && (!a.lost && !a.change ==> c'.ssthresh == c.ssthresh && c'.cwnd == Max(1, c.cwnd))
  {
    ProbeKeepsRto(k.ctl);
    var s := FlushAdmit(k);
    assert s.nxt == Flush(k).k.snd.nxt && s.una == k.snd.una;
    WrapSame(s.nxt - s.una);
    hide FlushAdmit, FlushScan, FlushPackets, Datagrams, ProbeTimer, Wrap32;
    WrapSame(Mss(k.cfg));
  }

  // ----- asking about a closed window

  /** When a flush asks the peer for its window: the window is closed, and the time to ask has come. */
  lemma AsksIff(k: Kcb)
    requires !k.ctl.askSend
    ensures (exists p <- FlushPackets(k) :: p.cmd == CMD_WASK)
            <==> k.ctl.rmtWnd == 0 && k.ctl.probeWait != 0 && TimeDiff(k.ctl.current, k.ctl.tsProbe) >= 0
  {
    var c := ProbeTimer(k.ctl);
    assert c.askSend <==> k.ctl.rmtWnd == 0 && k.ctl.probeWait != 0 && TimeDiff(k.ctl.current, k.ctl.tsProbe) >= 0;
    ScanHonest(FlushAdmit(k).buf, k.cfg, c, WndUnused(k), k.rcv.nxt);
    hide ProbeTimer, FlushAdmit, ScanBuf, WndUnused, TimeDiff;
    if c.askSend { assert Bare(k, CMD_WASK, LastAck(k)) in ProbePackets(k, c); }
  }

  /** The next question: seven seconds after the window is found closed, then after half as long
      again each time, but never more than two minutes; an open window stops the asking. */
  lemma AsksBackOff(k: Kcb)
    requires k.ctl.updated && k.ctl.probeWait <= 120000
    ensures var c, c' := k.ctl, Flush(k).k.ctl;
            && !c'.askSend && !c'.askTell && c'.rmtWnd == c.rmtWnd && c'.probeWait <= 120000
            && (c.rmtWnd != 0 ==> c'.probeWait == 0)
            && (c.rmtWnd == 0 && c.probeWait == 0 ==>
                  c'.probeWait == 7000 && TimeDiff(c'.tsProbe, c.current) == 7000)
            && (c.rmtWnd == 0 && c.probeWait != 0 && TimeDiff(c.current, c.tsProbe) < 0 ==>
                  c'.probeWait == c.probeWait && c'.tsProbe == c.tsProbe)
            && (c.rmtWnd == 0 && c.probeWait != 0 && TimeDiff(c.current, c.tsProbe) >= 0 ==>
                  && c'.probeWait == Min(120000, if c.probeWait < 7000 then 10500 else c.probeWait + c.probeWait / 2)
                  && TimeDiff(c'.tsProbe, c.current) == c'.probeWait)
  {
    ProbeBacksOff(k.ctl);
    FlushKeepsProbe(k);
    hide Flush, ProbeTimer;
  }

  lemma FlushKeepsProbe(k: Kcb)
    requires k.ctl.updated
    ensures var c, c' := ProbeTimer(k.ctl), Flush(k).k.ctl;
            && !c'.askSend && !c'.askTell && c'.rmtWnd == c.rmtWnd && c'.probeWait == c.probeWait
              && c'.tsProbe == c.tsProbe
  {
    hide FlushAdmit, FlushScan, FlushPackets, Datagrams, ProbeTimer, Wrap32, EffectiveWnd;
  }

  lemma ProbeBacksOff(c: Ctl)
    requires c.probeWait <= 120000
    ensures var c' := ProbeTimer(c);
            && c'.rmtWnd == c.rmtWnd && c'.probeWait <= 120000
            && (c.rmtWnd != 0 ==> c'.probeWait == 0)
            && (c.rmtWnd == 0 && c.probeWait == 0 ==>
                  c'.probeWait == 7000 && TimeDiff(c'.tsProbe, c.current) == 7000)
            && (c.rmtWnd == 0 && c.probeWait != 0 && TimeDiff(c.current, c.tsProbe) < 0 ==>
                  c'.probeWait == c.probeWait && c'.tsProbe == c.tsProbe)
            && (c.rmtWnd == 0 && c.probeWait != 0 && TimeDiff(c.current, c.tsProbe) >= 0 ==>
                  && c'.probeWait == Min(120000, if c.probeWait < 7000 then 10500 else c.probeWait + c.probeWait / 2)
                  && TimeDiff(c'.tsProbe, c.current) == c'.probeWait)
  {
    if c.rmtWnd == 0 && c.probeWait != 0 && TimeDiff(c.current, c.tsProbe) >= 0 {
      var w := if c.probeWait < 7000 then 7000 else c.probeWait;
      WrapSame(w + w / 2);
      hide Wrap32;
      NotBefore(c.current, ProbeTimer(c).probeWait);
    } else {
      NotBefore(c.current, 7000);
    }
  }

  lemma WrapSame(x: nat)
    requires x < TWO32
    ensures Wrap32(x) == x
  {
  }

  // ----- giving up

  /** The connection is given up if and only if some segment has now gone out as often as the
      settings allow. */
  lemma GivesUpIff(k: Kcb)
    requires k.ctl.updated && NumbersLeft(k) && ValidConfig(k.cfg) && k.ctl.rto <= RTO_MAX
    ensures Flush(k).k.ctl.dead
            <==> k.ctl.dead || AnyGivesUp(k.snd.buf, k.cfg, k.ctl.current) || (Admitted(k) > 0 && k.cfg.deadLink <= 1)
  {
    FlushDead(k);
    hide Flush, Admitted, FlushAdmit, ScanBuf, ProbeTimer, WndUnused, AnyGivesUp, Fresh;
    FlushGoesOver(k);
    ProbeKeepsRto(k.ctl);
    var b, buf := k.snd.buf, FlushAdmit(k).buf;
    ScanGivesUp(buf, k.cfg, ProbeTimer(k.ctl), WndUnused(k), k.rcv.nxt);
    GivesUpInParts(k, buf, Admitted(k));
  }

  lemma GivesUpInParts(k: Kcb, buf: seq<OutSeg>, n: nat)
    requires k.snd.buf <= buf && Fresh(k.snd, n, buf[|k.snd.buf|..])
    ensures AnyGivesUp(buf, k.cfg, k.ctl.current)
            <==> AnyGivesUp(k.snd.buf, k.cfg, k.ctl.current) || (n > 0 && k.cfg.deadLink <= 1)
  {
    hide Due;
    var b := k.snd.buf;
    assert forall i :: 0 <= i < |b| ==> buf[i] == b[i];
    forall i | |b| <= i < |buf|
      ensures GivesUp(buf[i], k.cfg, k.ctl.current) <==> k.cfg.deadLink <= 1
    {
      assert buf[i] == buf[|b|..][i - |b|];
      NewIsDue(buf[i], k.cfg, k.ctl.current);
    }
    hide GivesUp;
    if AnyGivesUp(b, k.cfg, k.ctl.current) {
      var i :| 0 <= i < |b| && GivesUp(b[i], k.cfg, k.ctl.current);
      assert GivesUp(buf[i], k.cfg, k.ctl.current);
    }
    if n > 0 && k.cfg.deadLink <= 1 { assert GivesUp(buf[|b|], k.cfg, k.ctl.current); }
  }

  /** Every resend for a timeout is counted. */
  lemma TimeoutsCounted(k: Kcb)
    requires k.ctl.updated && NumbersLeft(k) && ValidConfig(k.cfg) && k.ctl.rto <= RTO_MAX
    ensures Flush(k).k.ctl.xmit == Wrap32(k.ctl.xmit + LateCount(k.snd.buf, k.ctl.current))
  {
    FlushDead(k);
    hide Flush, Admitted, FlushAdmit, ScanBuf, ProbeTimer, WndUnused, LateCount, Wrap32;
    FlushGoesOver(k);
    ProbeKeepsRto(k.ctl);
    var b, buf := k.snd.buf, FlushAdmit(k).buf;
    ScanCounts(buf, k.cfg, ProbeTimer(k.ctl), WndUnused(k), k.rcv.nxt);
    assert buf == b + buf[|b|..];
    NewAreNotLate(b, buf[|b|..], k.ctl.current);
  }

  lemma {:induction false} NewAreNotLate(b: seq<OutSeg>, more: seq<OutSeg>, now: u32)
    requires forall i :: 0 <= i < |more| ==> more[i].xmit == 0
    ensures LateCount(b + more, now) == LateCount(b, now)
    decreases |more|
  {
    if more == [] {
      assert b + more == b;
    } else {
      var n := |more| - 1;
      NewAreNotLate(b, more[..n], now);
      assert (b + more)[..|b + more| - 1] == b + more[..n];
    }
  }

  lemma NewIsDue(seg: OutSeg, cfg: Config, now: u32)
    requires seg.xmit == 0
    ensures Due(seg, cfg, now) && Add32(seg.xmit, 1) == 1
  {
  }

  lemma FlushDead(k: Kcb)
    requires k.ctl.updated
    ensures Flush(k).k.ctl.dead == FlushScan(k).dead && Flush(k).k.ctl.xmit == FlushScan(k).xmit
  {
    hide FlushAdmit, FlushScan, FlushPackets, Datagrams, ProbeTimer, Wrap32, EffectiveWnd;
  }

  // ----- the first flush

  /** The first update of an endpoint with something queued flushes at once. Without a congestion
      window it sends what the send window and 128 allow, each to be sent again after a timeout of
      200; with one it sends nothing, but the window is then open for one segment. */
  lemma FirstFlush(cfg: Config, q: seq<Frag>, now: u32)
    requires ValidConfig(cfg) && |q| + TWO16 <= TWO31
    ensures var k := Init(cfg).(snd := Init(cfg).snd.(queue := q));
            var k' := Update(k, now).k;
            && |k'.snd.buf| == (if cfg.nocwnd then Min(|q|, Min(cfg.sndWnd, 128)) else 0)
            && (forall i :: 0 <= i < |k'.snd.buf| ==>
                  && k'.snd.buf[i].sn == i && k'.snd.buf[i].frag == q[i]
                  && TimeDiff(k'.snd.buf[i].resendts, now) == FirstWait(cfg, 200))
            && k'.ctl.cwnd == 1 && k'.ctl.ssthresh == 2 && TimeDiff(k'.ctl.tsFlush, now) == cfg.interval
  {
    var k := Init(cfg).(snd := Init(cfg).snd.(queue := q));
    UpdateFlushesIff(k, now);
    FlushesOncePerInterval(k, now, 0);
    var k1 := k.(ctl := k.ctl.(current := now, updated := true, tsFlush := NextFlush(now, now, cfg.interval)));
    assert Update(k, now) == Flush(k1);
    hide Update, Flush, Admitted, NextFlush;
    FirstFilled(k1);
    FirstAdjusted(k1);
  }

  lemma FirstFilled(k: Kcb)
    requires k.ctl.updated && NumbersLeft(k) && ValidConfig(k.cfg) && k.ctl.rto == 200
    requires k.snd.buf == [] && k.snd.una == k.snd.nxt == 0 && k.ctl.rmtWnd == 128 && k.ctl.cwnd == 0
    ensures var s' := Flush(k).k.snd;
            && |s'.buf| == (if k.cfg.nocwnd then Min(|k.snd.queue|, Min(k.cfg.sndWnd, 128)) else 0)
            && forall i :: 0 <= i < |s'.buf| ==>
                 && i < |k.snd.queue| && s'.buf[i].sn == i && s'.buf[i].frag == k.snd.queue[i]
                 && TimeDiff(s'.buf[i].resendts, k.ctl.current) == FirstWait(k.cfg, 200)
  {
    hide Flush, Admitted, FlushAdmit, EffectiveWnd, Passed, TimeDiff;
    FlushGoesOver(k);
    FlushFillsWindow(k);
    FlushPasses(k);
    assert forall i :: 0 <= i < |Flush(k).k.snd.buf| ==> FirstSent(k, i, Flush(k).k.snd.buf[i]);
  }

  lemma FirstAdjusted(k: Kcb)
    requires k.ctl.updated && NumbersLeft(k) && ValidConfig(k.cfg) && k.ctl.rto == 200 && k.snd.buf == []
    requires k.ctl.cwnd == 0 && k.ctl.ssthresh == 2
    ensures Flush(k).k.ctl.cwnd == 1 && Flush(k).k.ctl.ssthresh == 2
  {
    hide Flush;
    FlushAdjustsWindow(k);
  }

  // ----- in every run

  /** What the statements above ask for holds in every state of every run. */
  lemma RunsAreFit(x: Node, y: Node)
    requires Peers(x, y) && Room(x, y)
    ensures NumbersLeft(x.k) && InOrderBelow(x.k.snd.buf, x.k.snd.nxt) && ValidConfig(x.k.cfg)
    ensures x.k.ctl.rto <= RTO_MAX && !x.k.ctl.askSend && x.k.ctl.probeWait <= 120000
  {
    PeersInvariant(x, y);
    PeersCtl(x, y);
    hide App, RcvOk, NoLoss, HonestAcks, HonestDatas, Peers;
  }

  lemma PeersCtl(x: Node, y: Node)
    requires Peers(x, y)
    ensures CtlOk(x.k.cfg, x.k.ctl)
  {
    hide Run, CtlOk;
    var es: seq<Event> :|
      && Start(x.k.cfg, y.k.cfg) && PairInRange(x, y)
      && (Sys(x, y) == Run(x.k.cfg, y.k.cfg, es) || Sys(y, x) == Run(y.k.cfg, x.k.cfg, es));
    if Sys(x, y) == Run(x.k.cfg, y.k.cfg, es) {
      RunKeepsCtl(x.k.cfg, y.k.cfg, es);
    } else {
      RunKeepsCtl(y.k.cfg, x.k.cfg, es);
    }
  }
}
