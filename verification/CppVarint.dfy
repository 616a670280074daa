/** The C++ codec of 64-bit values. Its ninth byte holds eight bits where the Go codec's holds
    seven, so the two agree below 2^63 and nowhere above. */
module CppVarint {
  import opened Words
  import V = Varint

  /** What is left of a 64-bit value once `n` groups of seven bits are written is below this. */
  function Cap(n: nat): (r: nat)
    requires n <= 7
    ensures r >= 0x8000
    decreases 7 - n
  {
    if n == 7 then 0x8000 else 128 * Cap(n + 1)
  }

  /** The bytes from the `n`-th on. */
  function From(v: nat, n: nat): (r: bytes)
    requires n <= 7 && v < Cap(n)
    ensures 1 <= |r| <= 9 - n
    decreases 7 - n
  {
    if v < 128 then [v]
    else if n == 7 then [v % 128 + 128, v / 128]
    else [v % 128 + 128] + From(v / 128, n + 1)
  }

  lemma CapIs64()
    ensures Cap(0) == V.TWO64
    ensures V.TWO63 == 0x4000 * V.Pow128(7)
  {
    assert Cap(4) == 128 * (128 * (128 * Cap(7)));
    assert Cap(0) == 128 * (128 * (128 * (128 * Cap(4))));
    assert V.Pow128(4) == 128 * (128 * (128 * (128 * V.Pow128(0))));
    assert V.Pow128(7) == 128 * (128 * (128 * V.Pow128(4)));
  }

  function Encode(v: V.u64): (r: bytes)
    ensures 1 <= |r| <= 9
  {
    CapIs64();
    From(v, 0)
  }

  datatype Read = NotEnoughData | Ok(value: nat, next: nat)

  /** From the `n`-th byte on; the ninth is taken whole. */
  function Groups(buf: bytes, at: nat, n: nat): (r: Read)
    requires n <= 7
    ensures r.Ok? ==> at < r.next <= |buf| && r.value < Cap(n)
    decreases 7 - n
  {
    if at >= |buf| then NotEnoughData
    else if buf[at] < 128 then Ok(buf[at], at + 1)
    else if at + 1 >= |buf| then NotEnoughData
    else if n == 7 then Ok(buf[at] - 128 + 128 * (buf[at + 1] as int), at + 2)
    else
      match Groups(buf, at + 1, n + 1)
      case NotEnoughData => NotEnoughData
      case Ok(v, next) => Ok(buf[at] - 128 + 128 * v, next)
  }

  function Decode(buf: bytes, at: nat): Read { Groups(buf, at, 0) }

  // ----- the loops

  /** The first byte and the rest of what is to be written. */
  lemma FromSplits(v: nat, n: nat)
    requires n <= 7 && v < Cap(n)
    ensures v < 128 ==> From(v, n) == [v]
    ensures v >= 128 && n == 7 ==> v / 128 < 256 && From(v, n) == [v % 128 + 128] + [v / 128]
    ensures v >= 128 && n < 7 ==> v / 128 < Cap(n + 1) && From(v, n) == [v % 128 + 128] + From(v / 128, n + 1)
  {
  }

  method VarWrite7(dst: array<byte>, v: V.u64) returns (len: nat)
    requires dst.Length >= 9
    modifies dst
    ensures len <= 9 && dst[..len] == Encode(v)
    ensures forall i :: len <= i < dst.Length ==> dst[i] == old(dst[i])
  {
    CapIs64();
    hide From, Cap;
    len := 0;
    var x: nat := v;
    assert dst[..0] + From(x, 0) == From(x, 0);
    while true
      invariant len <= 7 && x < Cap(len)
      invariant dst[..len] + From(x, len) == Encode(v)
      invariant forall i :: len <= i < dst.Length ==> dst[i] == old(dst[i])
      decreases 7 - len
    {
      FromSplits(x, len);
      ghost var done := dst[..len];
      var b7 := x % 128;
      if x / 128 != 0 {
        dst[len] := b7 + 128;
        len := len + 1;
        assert dst[..len] == done + [b7 + 128];
        if len == 8 {
          dst[len] := x / 128;
          len := len + 1;
          assert dst[..len] == done + ([b7 + 128] + [x / 128]);
          return;
        }
        x := x / 128;
        assert done + ([b7 + 128] + From(x, len)) == done + [b7 + 128] + From(x, len);
      } else {
        dst[len] := b7;
        len := len + 1;
        assert dst[..len] == done + [b7];
        return;
      }
    }
  }

  function Mul(a: nat, b: nat): nat { a * b }

  /** What the groups still to come add to `i`. */
  function Onto(i: nat, scale: nat, r: Read): Read {
    match r
    case NotEnoughData => NotEnoughData
    case Ok(v, next) => Ok(i + Mul(v, scale), next)
  }

  lemma Spread(scale: nat, b: nat, v: nat)
    ensures Mul(b + 128 * v, scale) == Mul(b, scale) + Mul(v, Mul(scale, 128))
  {
    assert (b + 128 * v) * scale == b * scale + (128 * v) * scale;
    assert (128 * v) * scale == v * (scale * 128);
  }

  lemma OntoStep(i: nat, scale: nat, buf: bytes, at: nat, n: nat)
    requires n <= 7 && at < |buf|
    ensures buf[at] < 128 ==> Onto(i, scale, Groups(buf, at, n)) == Ok(i + Mul(buf[at], scale), at + 1)
    ensures buf[at] >= 128 && at + 1 >= |buf| ==> Onto(i, scale, Groups(buf, at, n)) == NotEnoughData
    ensures buf[at] >= 128 && at + 1 < |buf| ==>
      var i', scale' := i + Mul(buf[at] - 128, scale), Mul(scale, 128);
      Onto(i, scale, Groups(buf, at, n))
      == if n == 7 then Ok(i' + Mul(buf[at + 1], scale'), at + 2) else Onto(i', scale', Groups(buf, at + 1, n + 1))
  {
    hide Mul;
    if buf[at] >= 128 && at + 1 < |buf| {
      if n == 7 {
        Spread(scale, buf[at] - 128, buf[at + 1]);
      } else if Groups(buf, at + 1, n + 1).Ok? {
        Spread(scale, buf[at] - 128, Groups(buf, at + 1, n + 1).value);
      }
    }
  }

  method VarRead7(src: bytes, offset: nat) returns (r: Read)
    ensures r == Decode(src, offset)
  {
    if offset >= |src| { return NotEnoughData; }
    var i: nat, idx: nat, scale: nat := 0, 0, 1;
    var p: nat := offset;
    OntoNothing(Groups(src, p, 0));
    ghost var goal := Decode(src, offset);
    assert goal == Onto(i, scale, Groups(src, p, idx));
    hide *;
    while true
      invariant idx <= 7 && p < |src|
      invariant goal == Onto(i, scale, Groups(src, p, idx))
      decreases 7 - idx
    {
      OntoStep(i, scale, src, p, idx);
      var b7 := src[p];
      idx, p := idx + 1, p + 1;
      if b7 > 127 {
        if p >= |src| { return NotEnoughData; }
        i, scale := i + Mul(b7 - 128, scale), Mul(scale, 128);
        if idx == 8 { return Ok(i + Mul(src[p], scale), p + 1); }
      } else {
        return Ok(i + Mul(b7, scale), p);
      }
    }
  }

  lemma OntoNothing(r: Read)
    ensures Onto(0, 1, r) == r
  {
  }

  // ----- the two codecs

  lemma {:induction false} GroupsRoundTrip(pre: bytes, v: nat, post: bytes, n: nat)
    requires n <= 7 && v < Cap(n)
    ensures Groups(pre + From(v, n) + post, |pre|, n) == Ok(v, |pre| + |From(v, n)|)
    decreases 7 - n
  {
    FromSplits(v, n);
    hide From, Cap;
    var buf := pre + From(v, n) + post;
    assert buf[|pre|] == From(v, n)[0];
    if v >= 128 {
      var b: byte := v % 128 + 128;
      if n == 7 {
        assert buf[|pre| + 1] == From(v, n)[1];
      } else {
        assert buf == (pre + [b]) + From(v / 128, n + 1) + post;
        GroupsRoundTrip(pre + [b], v / 128, post, n + 1);
      }
    }
  }

  /** Every 64-bit value reads back, from any position and whatever follows. */
  lemma RoundTrip(pre: bytes, v: V.u64, post: bytes)
    ensures Decode(pre + Encode(v) + post, |pre|) == Ok(v, |pre| + |Encode(v)|)
  {
    CapIs64();
    GroupsRoundTrip(pre, v, post, 0);
  }

  /** The Go bytes are the C++ ones, followed by a one. */
  predicate OneMore(go: bytes, cpp: bytes) { go == cpp + [1] }

  lemma LastGroups(v: nat)
    requires v < Cap(7)
    ensures v < 0x4000 ==> From(v, 7) == V.Encode(v)
    ensures v >= 0x4000 ==> |From(v, 7)| == 2 && OneMore(V.Encode(v), From(v, 7))
  {
    if v >= 128 {
      assert V.Encode(v) == [v % 128 + 128] + V.Encode(v / 128);
      if v >= 0x4000 {
        assert V.Encode(v / 128) == [v / 128 % 128 + 128] + V.Encode(v / 128 / 128);
        assert v / 128 / 128 == 1 && V.Encode(1) == [1];
        assert v / 128 % 128 + 128 == v / 128;
      }
    }
  }

  lemma {:induction false} SameTail(v: nat, n: nat)
    requires n <= 7 && v < Cap(n)
    ensures v < Cap(n) / 2 ==> From(v, n) == V.Encode(v)
    ensures v >= Cap(n) / 2 ==> |From(v, n)| == 9 - n && OneMore(V.Encode(v), From(v, n))
    decreases 7 - n
  {
    if n == 7 {
      LastGroups(v);
    } else {
      CapEven(n + 1);
      FromSplits(v, n);
      hide From;
      if v >= 128 {
        SameTail(v / 128, n + 1);
        assert V.Encode(v) == [v % 128 + 128] + V.Encode(v / 128);
        assert [v % 128 + 128] + (From(v / 128, n + 1) + [1]) == From(v, n) + [1];
      }
    }
  }

  lemma {:induction false} CapEven(n: nat)
    requires n <= 7
    ensures Cap(n) % 2 == 0
    decreases 7 - n
  {
    if n < 7 { CapEven(n + 1); }
  }

  /** The two encodings of a value are the same bytes exactly below 2^63; above, the Go one is a
      byte longer: the same nine bytes and a one. */
  lemma SameBytesIff(v: V.u64)
    ensures Encode(v) == V.Encode(v) <==> v < V.TWO63
    ensures v >= V.TWO63 ==> |Encode(v)| == 9 && V.Encode(v) == Encode(v) + [1]
  {
    CapIs64();
    SameTail(v, 0);
  }

  /** The C++ reader gets every value the Go writer wrote, but leaves the last byte of those
      from 2^63 on unread. */
  lemma CppReadsGo(pre: bytes, v: V.u64, post: bytes)
    ensures Decode(pre + V.Encode(v) + post, |pre|) == Ok(v, |pre| + |V.Encode(v)| - (if v < V.TWO63 then 0 else 1))
  {
    hide Encode, Decode;
    SameBytesIff(v);
    if v < V.TWO63 {
      RoundTrip(pre, v, post);
    } else {
      RoundTrip(pre, v, [1] + post);
      assert pre + V.Encode(v) + post == pre + Encode(v) + ([1] + post);
    }
  }

  lemma {:induction false} AllButLastContinue(v: nat)
    ensures forall i :: 0 <= i < |V.Encode(v)| - 1 ==> V.Encode(v)[i] >= 128
  {
    if v >= 128 { AllButLastContinue(v / 128); }
  }

  lemma {:induction false} GoReadsPast(buf: bytes, at: nat, n: nat, k: nat)
    requires at + k <= |buf| && forall i :: at <= i < at + k ==> buf[i] >= 128
    ensures V.Groups(buf, at, n).Ok? ==> V.Groups(buf, at, n).next > at + k
    decreases k
  {
    if k > 0 && n < 10 { GoReadsPast(buf, at + 1, n + 1, k - 1); }
  }

  /** The Go reader takes what the C++ writer wrote, and no more, exactly below 2^63. */
  lemma GoReadsCppIff(pre: bytes, v: V.u64, post: bytes)
    ensures V.Decode(pre + Encode(v) + post, |pre|) == V.Ok(v, |pre| + |Encode(v)|) <==> v < V.TWO63
  {
    hide From;
    var buf := pre + Encode(v) + post;
    SameBytesIff(v);
    if v < V.TWO63 {
      V.RoundTrip(pre, v, buf);
    } else {
      AllButLastContinue(v);
      forall i | |pre| <= i < |pre| + 9 ensures buf[i] >= 128 {
        assert buf[i] == Encode(v)[i - |pre|] == V.Encode(v)[i - |pre|];
      }
      GoReadsPast(buf, |pre|, 0, 9);
    }
  }
}
