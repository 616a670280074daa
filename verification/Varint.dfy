/** Seven bits a byte, least significant first: the integers of the object buffer. */
module Varint {
  import opened Words
  import Z = ZigZagCode

  const TWO63: int := 0x8000_0000_0000_0000
  const TWO64: int := 0x1_0000_0000_0000_0000

  type u64 = x: int | 0 <= x < 0x1_0000_0000_0000_0000
  type i64 = x: int | -0x8000_0000_0000_0000 <= x < 0x8000_0000_0000_0000
  type i32 = x: int | -0x8000_0000 <= x < 0x8000_0000

  function Encode(v: nat): (r: bytes)
    ensures |r| >= 1
  {
    if v >= 128 then [v % 128 + 128] + Encode(v / 128) else [v]
  }

  datatype Read = Panic | Ok(value: nat, next: nat)

  /** At most ten groups; the groups' sum before truncation to 64 bits. */
  function Groups(buf: bytes, at: nat, n: nat): (r: Read)
    ensures r.Ok? ==> at < r.next <= |buf|
    decreases 10 - n
  {
    if n >= 10 || at >= |buf| then Panic
    else if buf[at] < 128 then Ok(buf[at], at + 1)
    else
      match Groups(buf, at + 1, n + 1)
      case Panic => Panic
      case Ok(v, next) => Ok(buf[at] - 128 + 128 * v, next)
  }

  function Decode(buf: bytes, at: nat): (r: Read)
    ensures r.Ok? ==> at < r.next <= |buf| && r.value < TWO64
  {
    match Groups(buf, at, 0)
    case Panic => Panic
    case Ok(v, next) => Ok(v % TWO64, next)
  }

  function Pow128(n: nat): (r: nat)
    ensures r >= 1
  {
    if n == 0 then 1 else 128 * Pow128(n - 1)
  }

  lemma {:induction false} GroupsRoundTrip(pre: bytes, v: nat, post: bytes, n: nat)
    requires n < 10 && v < Pow128(10 - n)
    ensures Groups(pre + Encode(v) + post, |pre|, n) == Ok(v, |pre| + |Encode(v)|)
    decreases 10 - n
  {
    var buf := pre + Encode(v) + post;
    if v >= 128 {
      var b: byte := v % 128 + 128;
      assert Encode(v) == [b] + Encode(v / 128);
      assert buf == (pre + [b]) + Encode(v / 128) + post;
      GroupsRoundTrip(pre + [b], v / 128, post, n + 1);
    }
  }

  lemma TenGroupsCover()
    ensures Pow128(10) == 0x40_0000_0000_0000_0000
  {
    assert Pow128(5) == 128 * (128 * (128 * (128 * (128 * Pow128(0)))));
    assert Pow128(10) == 128 * (128 * (128 * (128 * (128 * Pow128(5)))));
  }

  /** Every 64-bit value reads back from any position, whatever follows, consuming exactly
      the bytes written. */
  lemma RoundTrip(pre: bytes, v: u64, buf: bytes)
    requires pre + Encode(v) <= buf
    ensures Decode(buf, |pre|) == Ok(v, |pre| + |Encode(v)|)
  {
    TenGroupsCover();
    var n := |pre| + |Encode(v)|;
    GroupsRoundTrip(pre, v, buf[n..], 0);
    assert buf == pre + Encode(v) + buf[n..];
  }

  // ----- signed values

  function ZigZag(v: i64): (u: u64)
    ensures u == if v >= 0 then 2 * v else -2 * v - 1
  {
    Z.Width64();
    Z.EncodeMeans(v, 64);
    Z.Encode(v, 64)
  }

  function UnZigZag(u: u64): (v: i64)
    ensures v == if u % 2 == 0 then u / 2 else -(u / 2) - 1
  {
    Z.Width64();
    Z.DecodeMeans(u, 64);
    Z.Decode(u, 64)
  }

  /** `int32(v)`: the low 32 bits, read as a signed number. */
  function Trunc32(v: i64): i32 {
    var m := v % TWO32;
    if m < TWO31 then m else m - TWO32
  }

  /** `int(v)` on a 64-bit platform. */
  function AsInt(v: u64): i64 { if v < TWO63 then v else v - TWO64 }

  /** A 32-bit value is widened, written, read and truncated. */
  lemma ZigZagRoundTrip(v: i32)
    ensures Trunc32(UnZigZag(ZigZag(v))) == v
  {
    hide ZigZag, UnZigZag;
  }
}
