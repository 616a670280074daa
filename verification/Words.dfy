/** Fixed-width words and the wrap-around arithmetic the transport relies on. */
module Words {
  const TWO16: int := 0x1_0000
  const TWO31: int := 0x8000_0000
  const TWO32: int := 0x1_0000_0000

  type byte = x: int | 0 <= x < 0x100
  type u16 = x: int | 0 <= x < 0x1_0000
  type u32 = x: int | 0 <= x < 0x1_0000_0000
  type bytes = seq<byte>

  /** Truncation to 32 bits. */
  function Wrap32(x: int): u32 { x % TWO32 }

  /** `a + b` on uint32_t, where `b` may be any value below 2^32. */
  function Add32(a: u32, b: u32): u32 {
    if a + b >= TWO32 then a + b - TWO32 else a + b
  }

  /** The signed distance `(int)(later - earlier)` of two uint32_t values. */
  function TimeDiff(later: u32, earlier: u32): (d: int)
    ensures -TWO31 <= d < TWO31
    ensures d == later - earlier || d == later - earlier + TWO32 || d == later - earlier - TWO32
  {
    var d := later - earlier;
    if d >= TWO31 then d - TWO32 else if d < -TWO31 then d + TWO32 else d
  }

  function Min(a: int, b: int): int { if a <= b then a else b }

  function Max(a: int, b: int): int { if a >= b then a else b }

  /** A stamp `d` ticks after `t`, seen through the wrap-around from a later stamp. */
  lemma TimeDiffShift(t: u32, other: u32, d: nat)
    requires d <= TimeDiff(other, t)
    ensures TimeDiff(other, Add32(t, d)) == TimeDiff(other, t) - d
    ensures TimeDiff(Add32(t, d), other) == d - TimeDiff(other, t)
    ensures TimeDiff(Add32(t, d), t) == d
  {
  }
}
