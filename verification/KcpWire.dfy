/** The wire format of the transport: one 36-byte header per segment, several
    segments packed into each datagram. */
module KcpWire {
  import opened Words

  const CMD_PUSH: byte := 81
  const CMD_ACK: byte := 82
  const CMD_WASK: byte := 83
  const CMD_WINS: byte := 84
  const OVERHEAD: nat := 36

  type Guid = s: bytes | |s| == 16 witness seq(16, i => 0)

  datatype Packet = Packet(cmd: byte, frg: byte, wnd: u16, ts: u32, sn: u32, una: u32, data: bytes)

  predicate ValidCmd(c: byte) { c == CMD_PUSH || c == CMD_ACK || c == CMD_WASK || c == CMD_WINS }

  /** A known command, and a payload whose length survives the 32-bit length field. */
  predicate ValidPacket(p: Packet) { ValidCmd(p.cmd) && |p.data| < TWO31 }

  predicate AllValid(pkts: seq<Packet>) { forall i :: 0 <= i < |pkts| ==> ValidPacket(pkts[i]) }

  // ----- scalars, least significant byte first

  function Encode16(w: u16): (r: bytes)
    ensures |r| == 2
  {
    [w % 256, w / 256]
  }

  function Decode16(b: bytes): u16
    requires |b| == 2
  {
    (b[0] as int) + 256 * (b[1] as int)
  }

  function Encode32(l: u32): (r: bytes)
    ensures |r| == 4
  {
    Encode16(l % TWO16) + Encode16(l / TWO16)
  }

  function Decode32(b: bytes): u32
    requires |b| == 4
  {
    (Decode16(b[..2]) as int) + TWO16 * (Decode16(b[2..]) as int)
  }

  lemma Scalar32RoundTrip(l: u32)
    ensures Decode32(Encode32(l)) == l
  {
    var e := Encode32(l);
    assert e[..2] == Encode16(l % TWO16) && e[2..] == Encode16(l / TWO16);
  }

  // ----- one segment

  function EncodeHeader(conv: Guid, p: Packet): (r: bytes)
    ensures |r| == OVERHEAD
  {
    conv + [p.cmd, p.frg] + Encode16(p.wnd) + Encode32(p.ts) + Encode32(p.sn) + Encode32(p.una)
    + Encode32(Wrap32(|p.data|))
  }

  function EncodeSeg(conv: Guid, p: Packet): (r: bytes)
    ensures |r| == OVERHEAD + |p.data|
  {
    EncodeHeader(conv, p) + p.data
  }

  function DecodeLen(b: bytes): u32
    requires |b| >= OVERHEAD
  {
    Decode32(b[32..36])
  }

  /** The header at the front of `b`, with the payload it announces. */
  function DecodeSeg(b: bytes): Packet
    requires |b| >= OVERHEAD && |b| - OVERHEAD >= DecodeLen(b)
  {
    Packet(b[16], b[17], Decode16(b[18..20]), Decode32(b[20..24]), Decode32(b[24..28]), Decode32(b[28..32]),
           b[OVERHEAD..OVERHEAD + DecodeLen(b)])
  }

  /** Where each field of the header is, least significant byte first. */
  lemma HeaderLayout(conv: Guid, p: Packet)
    requires |p.data| < TWO32
    ensures var b := EncodeSeg(conv, p);
            && b[..16] == conv && b[16] == p.cmd && b[17] == p.frg
            && b[18] as int + 256 * (b[19] as int) == p.wnd
            && Little(b, 20) == p.ts && Little(b, 24) == p.sn && Little(b, 28) == p.una && Little(b, 32) == |p.data|
            && b[36..] == p.data
  {
    var b, h := EncodeSeg(conv, p), EncodeHeader(conv, p);
    assert b[..36] == h;
    assert h[20..24] == Encode32(p.ts) && h[24..28] == Encode32(p.sn);
    assert h[28..32] == Encode32(p.una) && h[32..36] == Encode32(|p.data|);
    LittleOf(b, 20, p.ts);
    LittleOf(b, 24, p.sn);
    LittleOf(b, 28, p.una);
    LittleOf(b, 32, |p.data|);
  }

  function Little(b: bytes, at: nat): int
    requires at + 4 <= |b|
  {
    b[at] as int + 0x100 * (b[at + 1] as int) + 0x1_0000 * (b[at + 2] as int) + 0x100_0000 * (b[at + 3] as int)
  }

  lemma LittleOf(b: bytes, at: nat, l: u32)
    requires at + 4 <= |b| && b[at..at + 4] == Encode32(l)
    ensures Little(b, at) == l
  {
    var e := Encode32(l);
    var s := b[at..at + 4];
    assert s[0] == b[at] && s[1] == b[at + 1] && s[2] == b[at + 2] && s[3] == b[at + 3];
    assert s == e;
  }

  lemma SegRoundTrip(conv: Guid, p: Packet, rest: bytes)
    requires |p.data| < TWO32
    ensures var b := EncodeSeg(conv, p) + rest;
            && b[..16] == conv && b[16] == p.cmd
            && DecodeLen(b) == |p.data|
            && DecodeSeg(b) == p
            && b[OVERHEAD + |p.data|..] == rest
  {
    var h := EncodeHeader(conv, p);
    var b := EncodeSeg(conv, p) + rest;
    assert b[..36] == h;
    assert b[18..20] == h[18..20] == Encode16(p.wnd);
    assert b[20..24] == h[20..24] == Encode32(p.ts);
    assert b[24..28] == h[24..28] == Encode32(p.sn);
    assert b[28..32] == h[28..32] == Encode32(p.una);
    assert b[32..36] == h[32..36] == Encode32(|p.data|);
    Scalar32RoundTrip(p.ts);
    Scalar32RoundTrip(p.sn);
    Scalar32RoundTrip(p.una);
    Scalar32RoundTrip(|p.data|);
  }

  // ----- a whole datagram

  /** The segments found before the loop stops, and the code it stops with. */
  datatype Parsed = Parsed(pkts: seq<Packet>, code: int)

  function ParseFrom(conv: Guid, b: bytes): Parsed
    decreases |b|
  {
    if |b| < OVERHEAD then Parsed([], 0)
    else if b[..16] != conv then Parsed([], -1)
    else if |b| - OVERHEAD < DecodeLen(b) then Parsed([], -2)
    else if !ValidCmd(b[16]) then Parsed([], -3)
    else
      var rest := ParseFrom(conv, b[OVERHEAD + DecodeLen(b)..]);
      Parsed([DecodeSeg(b)] + rest.pkts, rest.code)
  }

  function ParseDatagram(conv: Guid, b: bytes): Parsed {
    if |b| < OVERHEAD then Parsed([], -1) else ParseFrom(conv, b)
  }

  function EncodeAll(conv: Guid, pkts: seq<Packet>): (r: bytes)
    ensures if pkts == [] then r == [] else |r| >= OVERHEAD
  {
    if pkts == [] then [] else EncodeSeg(conv, pkts[0]) + EncodeAll(conv, pkts[1..])
  }

  /** Decoding a datagram made of encoded segments gives those segments back. */
  lemma {:induction false} DatagramRoundTrip(conv: Guid, pkts: seq<Packet>)
    requires AllValid(pkts)
    ensures ParseFrom(conv, EncodeAll(conv, pkts)) == Parsed(pkts, 0)
  {
    if pkts != [] {
      hide DecodeSeg, DecodeLen, EncodeSeg;
      SegRoundTrip(conv, pkts[0], EncodeAll(conv, pkts[1..]));
      DatagramRoundTrip(conv, pkts[1..]);
      assert [pkts[0]] + pkts[1..] == pkts;
    }
  }

  /** What stops the reading of a datagram. */
  function Stop(conv: Guid, b: bytes): int {
    if |b| < OVERHEAD then 0 else if b[..16] != conv then -1 else if |b| - OVERHEAD < DecodeLen(b) then -2
    else if !ValidCmd(b[16]) then -3 else 1
  }

  /** Segments before something unreadable are read all the same, and the code says what it was: of
      another conversation, cut short, or of an unknown command; too few bytes are ignored. */
  lemma {:induction false} GoodBeforeBad(conv: Guid, pkts: seq<Packet>, bad: bytes)
    requires AllValid(pkts) && Stop(conv, bad) <= 0
    ensures ParseFrom(conv, EncodeAll(conv, pkts) + bad) == Parsed(pkts, Stop(conv, bad))
  {
    hide DecodeSeg, DecodeLen, EncodeSeg;
    if pkts == [] {
      assert EncodeAll(conv, pkts) + bad == bad;
    } else {
      var rest := EncodeAll(conv, pkts[1..]) + bad;
      SegRoundTrip(conv, pkts[0], rest);
      GoodBeforeBad(conv, pkts[1..], bad);
      assert EncodeAll(conv, pkts) + bad == EncodeSeg(conv, pkts[0]) + rest;
      assert [pkts[0]] + pkts[1..] == pkts;
    }
  }

  lemma {:induction false} EncodeAllSnoc(conv: Guid, pkts: seq<Packet>, p: Packet)
    ensures EncodeAll(conv, pkts + [p]) == EncodeAll(conv, pkts) + EncodeSeg(conv, p)
  {
    if pkts == [] {
      assert EncodeAll(conv, [p]) == EncodeSeg(conv, p);
    } else {
      EncodeAllSnoc(conv, pkts[1..], p);
      assert (pkts + [p])[1..] == pkts[1..] + [p] && (pkts + [p])[0] == pkts[0];
      hide EncodeSeg;
      var x, y, z := EncodeSeg(conv, pkts[0]), EncodeAll(conv, pkts[1..]), EncodeSeg(conv, p);
      assert x + (y + z) == (x + y) + z;
    }
  }

  // ----- packing segments into datagrams of at most `mtu` bytes

  /** Datagrams already handed to the output callback, and the buffer being filled. */
  datatype Packing = Packing(done: seq<bytes>, open: bytes)

  /** The callback is not invoked for an empty buffer. */
  function Output(done: seq<bytes>, b: bytes): seq<bytes> { if b == [] then done else done + [b] }

  function PackSeg(mtu: nat, k: Packing, enc: bytes): Packing {
    if |k.open| + |enc| > mtu then Packing(Output(k.done, k.open), enc)
    else Packing(k.done, k.open + enc)
  }

  function PackAll(conv: Guid, mtu: nat, pkts: seq<Packet>): Packing {
    if pkts == [] then Packing([], [])
    else PackSeg(mtu, PackAll(conv, mtu, pkts[..|pkts| - 1]), EncodeSeg(conv, pkts[|pkts| - 1]))
  }

  function Datagrams(conv: Guid, mtu: nat, pkts: seq<Packet>): seq<bytes> {
    var k := PackAll(conv, mtu, pkts);
    Output(k.done, k.open)
  }

  function Flatten<T>(ss: seq<seq<T>>): seq<T> {
    if ss == [] then [] else Flatten(ss[..|ss| - 1]) + ss[|ss| - 1]
  }

  lemma {:induction false} FlattenMember<T>(ss: seq<seq<T>>, i: nat, x: T)
    requires i < |ss| && x in ss[i]
    ensures x in Flatten(ss)
  {
    if i < |ss| - 1 { FlattenMember(ss[..|ss| - 1], i, x); }
  }

  function EncodeGroups(conv: Guid, gs: seq<seq<Packet>>): (r: seq<bytes>)
    ensures |r| == |gs|
  {
    seq(|gs|, i requires 0 <= i < |gs| => EncodeAll(conv, gs[i]))
  }

  /** `k` holds the groups `gs` in finished datagrams and `g` in the open buffer. */
  ghost predicate Holds(conv: Guid, mtu: nat, k: Packing, gs: seq<seq<Packet>>, g: seq<Packet>) {
    && k == Packing(EncodeGroups(conv, gs), EncodeAll(conv, g))
    && (g == [] ==> gs == [])
    && |EncodeAll(conv, g)| <= mtu
    && forall i :: 0 <= i < |gs| ==> gs[i] != [] && |EncodeAll(conv, gs[i])| <= mtu
  }

  lemma PackSegGroups(conv: Guid, mtu: nat, k: Packing, gs0: seq<seq<Packet>>, g0: seq<Packet>, p: Packet)
    returns (gs: seq<seq<Packet>>, g: seq<Packet>)
    requires Holds(conv, mtu, k, gs0, g0) && OVERHEAD + |p.data| <= mtu
    ensures Holds(conv, mtu, PackSeg(mtu, k, EncodeSeg(conv, p)), gs, g)
    ensures Flatten(gs) + g == Flatten(gs0) + g0 + [p]
  {
    if |k.open| + |EncodeSeg(conv, p)| > mtu {
      gs, g := gs0 + [g0], [p];
      assert EncodeAll(conv, [p]) == EncodeSeg(conv, p);
      assert gs[..|gs0|] == gs0;
      hide EncodeSeg, EncodeAll;
      assert EncodeGroups(conv, gs) == EncodeGroups(conv, gs0) + [EncodeAll(conv, g0)];
    } else {
      EncodeAllSnoc(conv, g0, p);
      gs, g := gs0, g0 + [p];
    }
  }

  /** The groups of segments that share a datagram: all but the last, and the last. */
  lemma {:induction false} PackGroups(conv: Guid, mtu: nat, pkts: seq<Packet>)
    returns (gs: seq<seq<Packet>>, g: seq<Packet>)
    requires forall i :: 0 <= i < |pkts| ==> OVERHEAD + |pkts[i].data| <= mtu
    ensures Flatten(gs) + g == pkts
    ensures Holds(conv, mtu, PackAll(conv, mtu, pkts), gs, g)
  {
    if pkts == [] {
      gs, g := [], [];
    } else {
      var n := |pkts| - 1;
      gs, g := PackGroups(conv, mtu, pkts[..n]);
      hide EncodeSeg, EncodeAll, Holds, PackSeg;
      gs, g := PackSegGroups(conv, mtu, PackAll(conv, mtu, pkts[..n]), gs, g, pkts[n]);
    }
  }

  /** All segments carried by a list of datagrams, in order. */
  function ParseAll(conv: Guid, ds: seq<bytes>): seq<Packet> {
    if ds == [] then [] else ParseAll(conv, ds[..|ds| - 1]) + ParseDatagram(conv, ds[|ds| - 1]).pkts
  }

  lemma {:induction false} ParseAllGroups(conv: Guid, gs: seq<seq<Packet>>)
    requires forall i :: 0 <= i < |gs| ==> gs[i] != [] && AllValid(gs[i])
    ensures ParseAll(conv, EncodeGroups(conv, gs)) == Flatten(gs)
    ensures forall i :: 0 <= i < |gs| ==> ParseDatagram(conv, EncodeGroups(conv, gs)[i]) == Parsed(gs[i], 0)
  {
    hide ParseFrom, EncodeAll;
    if gs != [] {
      var n := |gs| - 1;
      ParseAllGroups(conv, gs[..n]);
      DatagramRoundTrip(conv, gs[n]);
      assert EncodeGroups(conv, gs)[..n] == EncodeGroups(conv, gs[..n]);
      assert forall i :: 0 <= i < n ==> EncodeGroups(conv, gs)[i] == EncodeGroups(conv, gs[..n])[i];
    }
  }

  lemma GroupMembers(all: seq<seq<Packet>>, i: nat)
    requires i < |all|
    ensures forall p <- all[i] :: p in Flatten(all)
    ensures AllValid(Flatten(all)) ==> AllValid(all[i])
  {
    hide ValidPacket;
    forall p <- all[i]
      ensures p in Flatten(all)
    {
      FlattenMember(all, i, p);
    }
    if AllValid(Flatten(all)) {
      forall j | 0 <= j < |all[i]|
        ensures ValidPacket(all[i][j])
      {
        assert all[i][j] in Flatten(all);
      }
    }
  }

  /** The datagrams made from any segment list fit the mtu, and decoding them in
      order yields exactly that list. */
  lemma DatagramsCarryExactly(conv: Guid, mtu: nat, pkts: seq<Packet>)
    requires AllValid(pkts)
    requires forall i :: 0 <= i < |pkts| ==> OVERHEAD + |pkts[i].data| <= mtu
    ensures ParseAll(conv, Datagrams(conv, mtu, pkts)) == pkts
    ensures forall d <- Datagrams(conv, mtu, pkts) :: OVERHEAD <= |d| <= mtu && ParseDatagram(conv, d).code == 0
    ensures forall d <- Datagrams(conv, mtu, pkts), p <- ParseDatagram(conv, d).pkts :: p in pkts
  {
    hide ParseFrom, EncodeAll, ParseAll, PackAll, ParseDatagram, ValidPacket, AllValid;
    var gs, g := PackGroups(conv, mtu, pkts);
    var all := if g == [] then gs else gs + [g];
    if g != [] { assert all[..|gs|] == gs; }
    assert Flatten(all) == pkts;
    hide Flatten;
    assert Datagrams(conv, mtu, pkts) == EncodeGroups(conv, all);
    forall i | 0 <= i < |all|
      ensures AllValid(all[i]) && forall p <- all[i] :: p in pkts
    {
      GroupMembers(all, i);
    }
    ParseAllGroups(conv, all);
  }
}
