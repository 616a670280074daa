/** One direction of a connection: the sending half of one endpoint, the receiving
    half of the other, and what the datagrams in between may say. `log` holds the
    fragments numbered so far; entry `n` got sequence number `n`. */
module KcpLink {
  import opened Words
  import opened KcpWire
  import opened KcpModel

  /** Sequence numbers stay in the half range where signed distances order them. */
  ghost predicate InRange(log: seq<Frag>, rcvWnd: u32) {
    |log| + rcvWnd <= TWO31 && |log| + TWO16 <= TWO31
  }

  ghost predicate Fits(cfg: Config, q: seq<Frag>) { forall i :: 0 <= i < |q| ==> |q[i].data| <= Mss(cfg) }

  /** Unacknowledged segments: ascending, inside the flight, each the logged fragment. */
  ghost predicate BufOk(buf: seq<OutSeg>, log: seq<Frag>) {
    && (forall i :: 0 <= i < |buf| ==> buf[i].sn < |log| && buf[i].frag == log[buf[i].sn])
    && (forall i, j :: 0 <= i < j < |buf| ==> buf[i].sn < buf[j].sn)
  }

  ghost predicate SndOk(cfg: Config, s: Snd, log: seq<Frag>) {
    && s.nxt == |log|
    && BufOk(s.buf, log)
    && s.una == (if s.buf == [] then s.nxt else s.buf[0].sn)
    && s.nxt - s.una <= cfg.sndWnd
    && Fits(cfg, s.queue) && Fits(cfg, log)
  }

  /** The reorder buffer: ascending, inside the receive window, each the logged fragment. */
  ghost predicate ReorderOk(nxt: u32, buf: seq<InSeg>, wnd: u32, log: seq<Frag>) {
    && (forall i :: 0 <= i < |buf| ==>
          nxt <= buf[i].sn < |log| && buf[i].sn < nxt + wnd && buf[i].frag == log[buf[i].sn])
    && (forall i, j :: 0 <= i < j < |buf| ==> buf[i].sn < buf[j].sn)
  }

  /** What was taken by the application and what is queued is exactly the log up to `nxt`. */
  ghost predicate InOrder(r: Rcv, log: seq<Frag>, taken: seq<Frag>) {
    && r.nxt <= |log|
    && taken + Frags(r.queue) == log[..r.nxt]
    && forall i :: 0 <= i < |r.queue| ==> r.queue[i].sn == |taken| + i
  }

  /** No segment that is next in sequence is left waiting while the queue has room. */
  ghost predicate Settled(r: Rcv, wnd: u32) {
    r.buf != [] && r.buf[0].sn == r.nxt ==> |r.queue| >= wnd
  }

  ghost predicate RcvOk(cfg: Config, r: Rcv, log: seq<Frag>, taken: seq<Frag>) {
    && InOrder(r, log, taken)
    && ReorderOk(r.nxt, r.buf, cfg.rcvWnd, log)
    && |r.queue| <= cfg.rcvWnd
    && Settled(r, cfg.rcvWnd)
  }

  ghost predicate InBuf(buf: seq<InSeg>, sn: int) { exists i :: 0 <= i < |buf| && buf[i].sn == sn }

  /** The receiver holds, or has passed on, the segment numbered `sn`. */
  ghost predicate Has(r: Rcv, sn: int) { sn < r.nxt || InBuf(r.buf, sn) }

  ghost predicate Unacked(s: Snd, sn: int) { exists i :: 0 <= i < |s.buf| && s.buf[i].sn == sn }

  /** Every numbered segment is still with the sender or already with the receiver. */
  ghost predicate NoLoss(s: Snd, r: Rcv, log: seq<Frag>) {
    forall sn :: 0 <= sn < |log| ==> Has(r, sn) || Unacked(s, sn)
  }

  ghost predicate AcksOk(r: Rcv, log: seq<Frag>) {
    forall i :: 0 <= i < |r.acks| ==> r.acks[i].sn < |log| && Has(r, r.acks[i].sn)
  }

  /** What a segment from the sender of this direction may say. */
  ghost predicate HonestData(p: Packet, log: seq<Frag>) {
    p.cmd == CMD_PUSH ==> p.sn < |log| && Frag(p.frg, p.data) == log[p.sn]
  }

  /** What a segment from the receiver of this direction may say. */
  ghost predicate HonestAck(p: Packet, r: Rcv, log: seq<Frag>) {
    && p.una <= r.nxt
    && (p.cmd == CMD_ACK ==> p.sn < |log| && Has(r, p.sn))
  }

  ghost predicate HonestDatas(conv: Guid, net: set<bytes>, log: seq<Frag>) {
    forall d, p :: d in net && p in ParseDatagram(conv, d).pkts ==> HonestData(p, log)
  }

  ghost predicate HonestAcks(conv: Guid, net: set<bytes>, r: Rcv, log: seq<Frag>) {
    forall d, p :: d in net && p in ParseDatagram(conv, d).pkts ==> HonestAck(p, r, log)
  }

  /** The invariant of one direction: `fwd` carries its data, `bwd` its acknowledgements. */
  ghost predicate Link(cs: Config, s: Snd, cr: Config, r: Rcv, log: seq<Frag>, taken: seq<Frag>,
                       fwd: set<bytes>, bwd: set<bytes>) {
    && SndOk(cs, s, log)
    && RcvOk(cr, r, log, taken)
    && NoLoss(s, r, log)
    && AcksOk(r, log)
    && HonestDatas(cs.conv, fwd, log)
    && HonestAcks(cs.conv, bwd, r, log)
  }

  // ----- signed distances agree with the order in range

  lemma DiffInRange(a: u32, b: u32)
    requires -TWO31 <= a - b < TWO31
    ensures TimeDiff(a, b) == a - b
  {
  }

  /** Outside the half range a stale cumulative acknowledgement drops unacknowledged segments,
      exactly if the first of them is more than 2^31 numbers ahead of it. */
  lemma StaleUnaDropsIff(buf: seq<OutSeg>, una: u32)
    requires buf != [] && una <= buf[0].sn
    ensures AckUna(buf, una) == buf <==> buf[0].sn - una <= TWO31
  {
    AckUnaShorter(buf[1..], una);
  }

  lemma {:induction false} AckUnaShorter(buf: seq<OutSeg>, una: u32)
    ensures |AckUna(buf, una)| <= |buf|
  {
    hide TimeDiff;
    if buf != [] { AckUnaShorter(buf[1..], una); }
  }

  // ----- the sending half

  lemma {:induction false} AckUnaDrops(buf: seq<OutSeg>, una: u32, log: seq<Frag>)
    requires BufOk(buf, log) && |log| < TWO31 && una <= |log|
    ensures BufOk(AckUna(buf, una), log)
    ensures forall x :: x in buf && x !in AckUna(buf, una) ==> x.sn < una
    ensures forall x :: x in AckUna(buf, una) ==> x in buf
    ensures AckUna(buf, una) != [] ==> una <= AckUna(buf, una)[0].sn
  {
    if buf != [] {
      DiffInRange(una, buf[0].sn);
      if una > buf[0].sn {
        AckUnaDrops(buf[1..], una, log);
        assert buf == [buf[0]] + buf[1..];
      }
    }
  }

  lemma {:induction false} DropSnMembers(buf: seq<OutSeg>, sn: u32)
    ensures forall x :: x in buf && x !in DropSn(buf, sn) ==> x.sn == sn
    ensures forall x :: x in DropSn(buf, sn) ==> x in buf
  {
    hide TimeDiff;
    if buf != [] {
      assert buf == [buf[0]] + buf[1..];
      DropSnMembers(buf[1..], sn);
    }
  }

  lemma BufOkCons(x: OutSeg, rest: seq<OutSeg>, log: seq<Frag>)
    requires BufOk(rest, log) && x.sn < |log| && x.frag == log[x.sn]
    requires forall i :: 0 <= i < |rest| ==> x.sn < rest[i].sn
    ensures BufOk([x] + rest, log)
  {
    var buf := [x] + rest;
    forall i | 0 <= i < |buf|
      ensures buf[i].sn < |log| && buf[i].frag == log[buf[i].sn]
    {
      assert i > 0 ==> buf[i] == rest[i - 1];
    }
    forall i, j | 0 <= i < j < |buf|
      ensures buf[i].sn < buf[j].sn
    {
      assert buf[j] == rest[j - 1] && (i > 0 ==> buf[i] == rest[i - 1]);
    }
  }

  lemma {:induction false} DropSnOk(buf: seq<OutSeg>, sn: u32, log: seq<Frag>)
    requires BufOk(buf, log)
    ensures BufOk(DropSn(buf, sn), log)
  {
    hide TimeDiff;
    if buf != [] && sn != buf[0].sn && TimeDiff(sn, buf[0].sn) >= 0 {
      var rest := DropSn(buf[1..], sn);
      DropSnMembers(buf[1..], sn);
      assert forall i :: 0 <= i < |rest| ==> rest[i] in buf[1..];
      assert forall x :: x in buf[1..] ==> buf[0].sn < x.sn;
      assert BufOk(buf[1..], log);
      hide BufOk;
      DropSnOk(buf[1..], sn, log);
      BufOkCons(buf[0], rest, log);
    }
  }

  /** Replacing the flight by a part of it loses nothing if the receiver has the rest. */
  lemma ShrinkKeeps(cfg: Config, s: Snd, buf: seq<OutSeg>, r: Rcv, log: seq<Frag>)
    requires SndOk(cfg, s, log) && NoLoss(s, r, log) && BufOk(buf, log)
    requires forall x :: x in buf ==> x in s.buf
    requires forall x :: x in s.buf && x !in buf ==> Has(r, x.sn)
    ensures SndOk(cfg, Shrink(s.(buf := buf)), log) && NoLoss(Shrink(s.(buf := buf)), r, log)
  {
    hide Has;
    var s' := Shrink(s.(buf := buf));
    if buf != [] { assert buf[0] in s.buf; }
    forall sn | 0 <= sn < |log| && !Has(r, sn)
      ensures Unacked(s', sn)
    {
      var i :| 0 <= i < |s.buf| && s.buf[i].sn == sn;
      assert s.buf[i] in s.buf;
      var j :| 0 <= j < |buf| && buf[j] == s.buf[i];
    }
  }

  /** Processing any honest segment keeps the sending half in order and loses nothing. */
  lemma InputSndOk(cfg: Config, s: Snd, p: Packet, r: Rcv, log: seq<Frag>)
    requires SndOk(cfg, s, log) && NoLoss(s, r, log) && |log| < TWO31
    requires r.nxt <= |log| && HonestAck(p, r, log)
    ensures SndOk(cfg, InputSnd(s, p), log) && NoLoss(InputSnd(s, p), r, log)
  {
    var buf1 := AckUna(s.buf, p.una);
    AckUnaDrops(s.buf, p.una, log);
    var s1 := Shrink(s.(buf := buf1));
    ShrinkKeeps(cfg, s, buf1, r, log);
    if p.cmd == CMD_ACK {
      if OutOfFlight(s1, p.sn) {
        assert Shrink(s1) == s1;
      } else {
        DropSnMembers(s1.buf, p.sn);
        DropSnOk(s1.buf, p.sn, log);
        ShrinkKeeps(cfg, s1, DropSn(s1.buf, p.sn), r, log);
      }
    }
  }

  ghost predicate SameNumbers(a: seq<OutSeg>, b: seq<OutSeg>) {
    |a| == |b| && forall i :: 0 <= i < |a| ==> a[i].sn == b[i].sn && a[i].frag == b[i].frag
  }

  /** Bookkeeping on timers and counters does not touch numbers or payloads. */
  lemma SameNumbersKeeps(cfg: Config, s: Snd, buf: seq<OutSeg>, r: Rcv, log: seq<Frag>)
    requires SndOk(cfg, s, log) && NoLoss(s, r, log) && SameNumbers(s.buf, buf)
    ensures SndOk(cfg, s.(buf := buf), log) && NoLoss(s.(buf := buf), r, log)
  {
    hide Has;
    forall sn | 0 <= sn < |log| && !Has(r, sn)
      ensures Unacked(s.(buf := buf), sn)
    {
      var i :| 0 <= i < |s.buf| && s.buf[i].sn == sn;
      assert buf[i].sn == sn;
    }
  }

  lemma {:induction false} SkippedSame(buf: seq<OutSeg>, sn: u32)
    ensures SameNumbers(buf, Skipped(buf, sn))
  {
    hide TimeDiff;
    if buf != [] && TimeDiff(sn, buf[0].sn) >= 0 {
      SkippedSame(buf[1..], sn);
    }
  }

  lemma {:induction false} ScanSame(buf: seq<OutSeg>, cfg: Config, c: Ctl, wnd: u32, una: u32)
    ensures SameNumbers(buf, ScanBuf(buf, cfg, c, wnd, una).buf)
  {
    if buf != [] {
      var n := |buf| - 1;
      ScanSame(buf[..n], cfg, c, wnd, una);
      SendSame(buf[n], cfg, c, wnd, una);
      hide SendSeg, WhySend;
      assert ScanBuf(buf, cfg, c, wnd, una).buf
          == ScanBuf(buf[..n], cfg, c, wnd, una).buf + [SendSeg(buf[n], cfg, c, wnd, una)];
    }
  }

  lemma SendSame(seg: OutSeg, cfg: Config, c: Ctl, wnd: u32, una: u32)
    ensures var s := SendSeg(seg, cfg, c, wnd, una);
            s.sn == seg.sn && s.frag == seg.frag && (WhySend(seg, cfg, c).Keep? ==> s == seg)
  {
    hide TimeDiff, Add32;
  }

  // ----- numbering queued fragments

  /** The fragments that numbering took off the queue. */
  function Taken(before: Snd, after: Snd): seq<Frag> {
    before.queue[..if |after.queue| <= |before.queue| then |before.queue| - |after.queue| else 0]
  }

  lemma AdmitOne(cfg: Config, s: Snd, r: Rcv, log: seq<Frag>, seg: OutSeg)
    requires SndOk(cfg, s, log) && NoLoss(s, r, log) && |log| < TWO31
    requires s.queue != [] && seg.sn == s.nxt && seg.frag == s.queue[0]
    requires s.nxt - s.una < cfg.sndWnd
    ensures var s' := s.(queue := s.queue[1..], nxt := Add32(s.nxt, 1), buf := s.buf + [seg]);
            var log' := log + [s.queue[0]];
            SndOk(cfg, s', log') && NoLoss(s', r, log')
  {
    hide Has;
    var s' := s.(queue := s.queue[1..], nxt := Add32(s.nxt, 1), buf := s.buf + [seg]);
    var log' := log + [s.queue[0]];
    assert s'.buf[|s.buf|] == seg;
    forall sn | 0 <= sn < |log'| && !Has(r, sn)
      ensures Unacked(s', sn)
    {
      if sn < |log| {
        var i :| 0 <= i < |s.buf| && s.buf[i].sn == sn;
        assert s'.buf[i].sn == sn;
      }
    }
  }

  lemma {:induction false} AdmitOk(cfg: Config, s: Snd, w: u32, wnd: u32, una: u32, c: Ctl, r: Rcv, log: seq<Frag>)
    requires SndOk(cfg, s, log) && NoLoss(s, r, log)
    requires w <= cfg.sndWnd && w < TWO16
    requires |log| + |Taken(s, Admit(s, w, wnd, una, c))| + TWO16 <= TWO31
    ensures var s' := Admit(s, w, wnd, una, c);
            && |s'.queue| <= |s.queue| && s.queue == Taken(s, s') + s'.queue
            && SndOk(cfg, s', log + Taken(s, s')) && NoLoss(s', r, log + Taken(s, s'))
    decreases |s.queue|
  {
    var s' := Admit(s, w, wnd, una, c);
    if s.queue != [] && TimeDiff(s.nxt, Add32(s.una, w)) < 0 {
      assert s.nxt - s.una < w;
      var seg := Numbered(s.queue[0], s.nxt, wnd, una, c);
      var s1 := s.(queue := s.queue[1..], nxt := Add32(s.nxt, 1), buf := s.buf + [seg]);
      AdmitShrinks(s1, w, wnd, una, c);
      hide Admit, SndOk, NoLoss;
      assert Taken(s, s') == [s.queue[0]] + Taken(s1, s');
      AdmitOne(cfg, s, r, log, seg);
      AdmitOk(cfg, s1, w, wnd, una, c, r, log + [s.queue[0]]);
      assert log + Taken(s, s') == log + [s.queue[0]] + Taken(s1, s');
    } else {
      assert log + Taken(s, s') == log;
    }
  }

  lemma {:induction false} AdmitShrinks(s: Snd, w: u32, wnd: u32, una: u32, c: Ctl)
    ensures |Admit(s, w, wnd, una, c).queue| <= |s.queue|
    decreases |s.queue|
  {
    hide TimeDiff, Add32;
    if s.queue != [] && TimeDiff(s.nxt, Add32(s.una, w)) < 0 {
      AdmitShrinks(s.(queue := s.queue[1..], nxt := Add32(s.nxt, 1),
                      buf := s.buf + [Numbered(s.queue[0], s.nxt, wnd, una, c)]), w, wnd, una, c);
    }
  }

  // ----- the receiving half

  ghost predicate Grows(r: Rcv, r': Rcv) {
    r.nxt <= r'.nxt && forall sn :: Has(r, sn) ==> Has(r', sn)
  }

  lemma MoveOne(r: Rcv, wnd: u32, log: seq<Frag>, taken: seq<Frag>)
    requires InOrder(r, log, taken) && ReorderOk(r.nxt, r.buf, wnd, log) && |log| < TWO31
    requires r.buf != [] && r.buf[0].sn == r.nxt
    ensures var r' := r.(nxt := Add32(r.nxt, 1), buf := r.buf[1..], queue := r.queue + [r.buf[0]]);
            InOrder(r', log, taken) && ReorderOk(r'.nxt, r'.buf, wnd, log) && Grows(r, r')
  {
    var r' := r.(nxt := Add32(r.nxt, 1), buf := r.buf[1..], queue := r.queue + [r.buf[0]]);
    assert Frags(r'.queue) == Frags(r.queue) + [r.buf[0].frag];
    assert log[..r'.nxt] == log[..r.nxt] + [log[r.nxt]];
    assert taken + Frags(r'.queue) == taken + Frags(r.queue) + [r.buf[0].frag];
    assert |taken| + |r.queue| == r.nxt;
    forall sn | Has(r, sn)
      ensures Has(r', sn)
    {
      if sn >= r'.nxt {
        var i :| 0 <= i < |r.buf| && r.buf[i].sn == sn;
        assert r'.buf[i - 1].sn == sn;
      }
    }
  }

  lemma {:induction false} MoveReadyOk(r: Rcv, wnd: u32, log: seq<Frag>, taken: seq<Frag>)
    requires InOrder(r, log, taken) && ReorderOk(r.nxt, r.buf, wnd, log) && |log| < TWO31
    requires |r.queue| <= wnd
    ensures var r' := MoveReady(r, wnd);
            && InOrder(r', log, taken) && ReorderOk(r'.nxt, r'.buf, wnd, log)
            && |r'.queue| <= wnd && Settled(r', wnd) && Grows(r, r') && r'.acks == r.acks
    decreases |r.buf|
  {
    hide InOrder, ReorderOk, Has;
    if r.buf != [] && r.buf[0].sn == r.nxt && |r.queue| < wnd {
      MoveOne(r, wnd, log, taken);
      MoveReadyOk(r.(nxt := Add32(r.nxt, 1), buf := r.buf[1..], queue := r.queue + [r.buf[0]]), wnd, log, taken);
    }
  }

  lemma {:induction false} InsertMembers(buf: seq<InSeg>, seg: InSeg)
    ensures InBuf(Insert(buf, seg), seg.sn)
    ensures forall x :: x in buf ==> x in Insert(buf, seg)
    ensures forall x :: x in Insert(buf, seg) ==> x in buf || x == seg
  {
    hide TimeDiff;
    if buf == [] {
      assert Insert(buf, seg)[0].sn == seg.sn;
    } else {
      var n := |buf| - 1;
      assert buf == buf[..n] + [buf[n]];
      InsertMembers(buf[..n], seg);
      var ins := Insert(buf[..n], seg);
      var i :| 0 <= i < |ins| && ins[i].sn == seg.sn;
      assert (ins + [buf[n]])[i].sn == seg.sn;
      assert (buf + [seg])[|buf|].sn == seg.sn;
    }
  }

  lemma ReorderSnoc(nxt: u32, buf: seq<InSeg>, x: InSeg, wnd: u32, log: seq<Frag>)
    requires ReorderOk(nxt, buf, wnd, log)
    requires nxt <= x.sn < |log| && x.sn < nxt + wnd && x.frag == log[x.sn]
    requires forall i :: 0 <= i < |buf| ==> buf[i].sn < x.sn
    ensures ReorderOk(nxt, buf + [x], wnd, log)
  {
  }

  lemma ReorderInit(nxt: u32, buf: seq<InSeg>, wnd: u32, log: seq<Frag>)
    requires ReorderOk(nxt, buf, wnd, log) && buf != []
    ensures var n := |buf| - 1;
            && ReorderOk(nxt, buf[..n], wnd, log)
            && nxt <= buf[n].sn < |log| && buf[n].sn < nxt + wnd && buf[n].frag == log[buf[n].sn]
            && (forall x <- buf[..n] :: x.sn < buf[n].sn)
            && (forall i :: 0 <= i < n ==> buf[i].sn < buf[n].sn)
  {
  }

  lemma {:induction false} InsertOk(nxt: u32, buf: seq<InSeg>, seg: InSeg, wnd: u32, log: seq<Frag>)
    requires ReorderOk(nxt, buf, wnd, log) && |log| < TWO31
    requires nxt <= seg.sn < |log| && seg.sn < nxt + wnd && seg.frag == log[seg.sn]
    ensures ReorderOk(nxt, Insert(buf, seg), wnd, log)
  {
    if buf == [] {
    } else {
      hide ReorderOk, TimeDiff;
      var n := |buf| - 1;
      ReorderInit(nxt, buf, wnd, log);
      DiffInRange(seg.sn, buf[n].sn);
      if seg.sn > buf[n].sn {
        ReorderSnoc(nxt, buf, seg, wnd, log);
      } else if seg.sn < buf[n].sn {
        var ins := Insert(buf[..n], seg);
        InsertMembers(buf[..n], seg);
        InsertOk(nxt, buf[..n], seg, wnd, log);
        assert forall i :: 0 <= i < |ins| ==> ins[i] in ins;
        ReorderSnoc(nxt, ins, buf[n], wnd, log);
      }
    }
  }

  lemma InsertGrows(r: Rcv, seg: InSeg)
    ensures Grows(r, r.(buf := Insert(r.buf, seg)))
    ensures Has(r.(buf := Insert(r.buf, seg)), seg.sn)
  {
    InsertMembers(r.buf, seg);
    hide Insert;
    var r' := r.(buf := Insert(r.buf, seg));
    forall sn | Has(r, sn)
      ensures Has(r', sn)
    {
      if sn >= r.nxt {
        var i :| 0 <= i < |r.buf| && r.buf[i].sn == sn;
        assert r.buf[i] in r'.buf;
      }
    }
  }

  lemma GrowsTrans(a: Rcv, b: Rcv, c: Rcv)
    requires Grows(a, b) && Grows(b, c)
    ensures Grows(a, c)
  {
    hide Has;
  }

  lemma AckPushed(r: Rcv, a: Ack, log: seq<Frag>)
    requires AcksOk(r, log) && a.sn < |log|
    ensures var r' := r.(acks := r.acks + [a]);
            Grows(r, r') && (Has(r, a.sn) ==> AcksOk(r', log))
  {
    QueueIrrelevant(r, r.queue, r.acks + [a]);
    hide InBuf;
  }

  lemma AcksStayHeld(r: Rcv, a: Ack, r': Rcv, log: seq<Frag>)
    requires AcksOk(r, log) && a.sn < |log| && r'.acks == r.acks + [a]
    requires Grows(r, r') && Has(r', a.sn)
    ensures AcksOk(r', log)
  {
    hide Has;
  }

  /** Any honest data segment, however often and late it arrives, keeps the receiving half in
      order, and whatever gets acknowledged is held. */
  lemma InputPushOk(cfg: Config, r: Rcv, p: Packet, log: seq<Frag>, taken: seq<Frag>)
    requires RcvOk(cfg, r, log, taken) && AcksOk(r, log) && InRange(log, cfg.rcvWnd)
    requires p.sn < |log| && Frag(p.frg, p.data) == log[p.sn]
    ensures var r' := InputPush(r, cfg.rcvWnd, p);
            RcvOk(cfg, r', log, taken) && AcksOk(r', log) && Grows(r, r')
  {
    DiffInRange(p.sn, Add32(r.nxt, cfg.rcvWnd));
    DiffInRange(p.sn, r.nxt);
    var seg := InSeg(p.sn, Frag(p.frg, p.data));
    var a := Ack(p.sn, p.ts);
    if p.sn < r.nxt + cfg.rcvWnd {
      var r1 := r.(acks := r.acks + [a]);
      AckPushed(r, a, log);
      if p.sn >= r.nxt {
        var r2 := r1.(buf := Insert(r1.buf, seg));
        InsertOk(r.nxt, r.buf, seg, cfg.rcvWnd, log);
        hide Insert, MoveReady, Has, ReorderOk, AcksOk, Grows;
        InsertGrows(r1, seg);
        MoveReadyOk(r2, cfg.rcvWnd, log, taken);
        var r3 := MoveReady(r2, cfg.rcvWnd);
        HasGrows(r2, r3, p.sn);
        GrowsTrans(r1, r2, r3);
        GrowsTrans(r, r1, r3);
        AcksStayHeld(r, a, r3, log);
      }
    }
  }

  lemma HasGrows(r: Rcv, r': Rcv, sn: int)
    requires Grows(r, r') && Has(r, sn)
    ensures Has(r', sn)
  {
    hide Has;
  }

  lemma FragsSplit(q: seq<InSeg>, n: nat)
    requires n <= |q|
    ensures Frags(q) == Frags(q[..n]) + Frags(q[n..])
  {
  }

  lemma TakeInOrder(r: Rcv, n: nat, log: seq<Frag>, taken: seq<Frag>)
    requires InOrder(r, log, taken) && n <= |r.queue|
    ensures InOrder(r.(queue := r.queue[n..]), log, taken + Frags(r.queue[..n]))
  {
    hide Frags;
    var front, back := Frags(r.queue[..n]), Frags(r.queue[n..]);
    FragsSplit(r.queue, n);
    assert taken + front + back == taken + (front + back);
    assert |front| == n;
    assert forall i :: 0 <= i < |r.queue[n..]| ==> r.queue[n..][i] == r.queue[n + i];
  }

  /** The queue and the pending acknowledgements play no part in what is held. */
  lemma QueueIrrelevant(r: Rcv, q: seq<InSeg>, acks: seq<Ack>)
    ensures Grows(r, r.(queue := q, acks := acks))
  {
    hide InBuf;
  }

  /** A read takes a prefix of the queue and lets the reorder buffer move up. */
  lemma RecvOk(cfg: Config, r: Rcv, n: nat, log: seq<Frag>, taken: seq<Frag>)
    requires RcvOk(cfg, r, log, taken) && |log| < TWO31 && n <= |r.queue|
    ensures var r' := MoveReady(r.(queue := r.queue[n..]), cfg.rcvWnd);
            && RcvOk(cfg, r', log, taken + Frags(r.queue[..n])) && Grows(r, r') && r'.acks == r.acks
  {
    hide InOrder, ReorderOk, Grows, MoveReady, Settled;
    var r1 := r.(queue := r.queue[n..]);
    TakeInOrder(r, n, log, taken);
    QueueIrrelevant(r, r.queue[n..], r.acks);
    MoveReadyOk(r1, cfg.rcvWnd, log, taken + Frags(r.queue[..n]));
    GrowsTrans(r, r1, MoveReady(r1, cfg.rcvWnd));
  }
}
