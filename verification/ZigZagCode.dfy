/** Signed integers as unsigned ones, by shifts and exclusive or, on words of any width. */
module ZigZagCode {
  function Pow2(n: nat): (r: nat)
    ensures r >= 1
  {
    if n == 0 then 1 else 2 * Pow2(n - 1)
  }

  /** `a ^ b`, bit by bit. */
  function Xor(a: nat, b: nat): nat
    decreases a + b
  {
    if a == 0 && b == 0 then 0 else (a % 2 + b % 2) % 2 + 2 * Xor(a / 2, b / 2)
  }

  /** The low `n` bits of a number in two's complement. */
  function Low(v: int, n: nat): nat { v % Pow2(n) }

  /** `n` bits read as a signed number. */
  function Signed(b: nat, n: nat): int
    requires n > 0
  {
    if b < Pow2(n - 1) then b else b - Pow2(n)
  }

  ghost predicate Fits(v: int, n: nat)
    requires n > 0
  {
    0 - Pow2(n - 1) <= v < Pow2(n - 1)
  }

  /** `(v << 1) ^ (v >> (n - 1))`; the shift of a signed number to the right keeps its sign. */
  function Encode(v: int, n: nat): nat
    requires n > 0
  {
    Xor(Low(2 * v, n), Low(v / Pow2(n - 1), n))
  }

  /** `(signed)(u >> 1) ^ -(signed)(u & 1)`. */
  function Decode(u: nat, n: nat): int
    requires n > 0
  {
    Signed(Xor(u / 2, Low(-(u % 2), n)), n)
  }

  lemma {:induction false} XorZero(a: nat)
    ensures Xor(a, 0) == a
  {
    if a > 0 { XorZero(a / 2); }
  }

  /** With all ones, exclusive or is the complement. */
  lemma {:induction false} XorOnes(a: nat, n: nat)
    requires a < Pow2(n)
    ensures Xor(a, Pow2(n) - 1) == Pow2(n) - 1 - a
    decreases n
  {
    if n > 0 {
      XorOnes(a / 2, n - 1);
      assert (Pow2(n) - 1) / 2 == Pow2(n - 1) - 1 && (Pow2(n) - 1) % 2 == 1;
    } else {
      XorZero(0);
    }
  }

  /** Quotient and remainder are the only ones there are. */
  lemma DivideIs(v: int, m: nat, q: int, r: nat)
    requires m > 0 && v == q * m + r && r < m
    ensures v / m == q && v % m == r
  {
    var q', r' := v / m, v % m;
    var d := q' - q;
    assert d * m == r - r' by { assert (q' - q) * m == q' * m - q * m; }
    if d != 0 { Apart(d, m); }
  }

  lemma Apart(d: int, m: nat)
    requires d != 0
    ensures d * m >= m || d * m <= 0 - m
  {
    if d > 0 {
      assert (d - 1) * m >= 0;
    } else {
      assert (-d - 1) * m >= 0;
    }
  }

  lemma LowOnes(n: nat)
    ensures Low(0, n) == 0 && Low(-1, n) == Pow2(n) - 1
  {
    hide Pow2;
    DivideIs(0, Pow2(n), 0, 0);
    DivideIs(-1, Pow2(n), -1, Pow2(n) - 1);
  }

  lemma EncodeMeans(v: int, n: nat)
    requires n > 0 && Fits(v, n)
    ensures Encode(v, n) == if v >= 0 then 2 * v else -2 * v - 1
  {
    var half, m := Pow2(n - 1), Pow2(n);
    assert m == 2 * half;
    LowOnes(n);
    hide Pow2, Xor;
    if v >= 0 {
      DivideIs(v, half, 0, v);
      DivideIs(2 * v, m, 0, 2 * v);
      XorZero(2 * v);
    } else {
      DivideIs(v, half, -1, v + half);
      DivideIs(2 * v, m, -1, 2 * v + m);
      XorOnes(2 * v + m, n);
    }
  }

  lemma Halves(a: nat)
    ensures 2 * a / 2 == a && 2 * a % 2 == 0 && (2 * a + 1) / 2 == a && (2 * a + 1) % 2 == 1
  {
  }

  lemma DecodeEven(a: nat, n: nat)
    requires n > 0 && a < Pow2(n - 1)
    ensures Decode(2 * a, n) == a
  {
    Halves(a);
    LowOnes(n);
    XorZero(a);
    hide Pow2, Xor, Low;
  }

  lemma DecodeOdd(a: nat, n: nat)
    requires n > 0 && a < Pow2(n - 1)
    ensures Decode(2 * a + 1, n) == -1 - a
  {
    Halves(a);
    LowOnes(n);
    assert Pow2(n) == 2 * Pow2(n - 1);
    XorOnes(a, n);
    hide Pow2, Xor, Low;
  }

  lemma EncodeBack(v: int, n: nat)
    requires n > 0 && Fits(v, n)
    ensures Encode(v, n) < Pow2(n) && Decode(Encode(v, n), n) == v
  {
    assert Pow2(n) == 2 * Pow2(n - 1);
    hide Encode, Decode, Pow2;
    EncodeMeans(v, n);
    if v >= 0 { DecodeEven(v, n); } else { DecodeOdd(-v - 1, n); }
  }

  lemma DecodeMeans(u: nat, n: nat)
    requires n > 0 && u < Pow2(n)
    ensures Decode(u, n) == if u % 2 == 0 then u / 2 else -(u / 2) - 1
  {
    assert Pow2(n) == 2 * Pow2(n - 1);
    hide Decode, Pow2;
    var a := u / 2;
    if u % 2 == 0 { DecodeEven(a, n); } else { DecodeOdd(a, n); }
  }

  lemma DecodeBack(u: nat, n: nat)
    requires n > 0 && u < Pow2(n)
    ensures Fits(Decode(u, n), n) && Encode(Decode(u, n), n) == u
  {
    assert Pow2(n) == 2 * Pow2(n - 1);
    hide Encode, Decode, Pow2;
    var a := u / 2;
    DecodeMeans(u, n);
    if u % 2 == 0 { EncodeMeans(a, n); } else { EncodeMeans(-a - 1, n); }
  }

  /** One unsigned word for each signed one, and back: on 16, 32 and 64 bits alike. */
  lemma Bijection(v: int, u: nat, n: nat)
    requires n > 0 && Fits(v, n) && u < Pow2(n)
    ensures Encode(v, n) < Pow2(n) && Decode(Encode(v, n), n) == v
    ensures Fits(Decode(u, n), n) && Encode(Decode(u, n), n) == u
  {
    EncodeBack(v, n);
    DecodeBack(u, n);
  }

  lemma Width64()
    ensures Pow2(63) == 0x8000_0000_0000_0000 && Pow2(64) == 0x1_0000_0000_0000_0000
  {
    Pow2Adds(16, 16);
    Pow2Adds(32, 32);
    assert Pow2(8) == 256;
    Pow2Adds(8, 8);
  }

  lemma {:induction false} Pow2Adds(a: nat, b: nat)
    ensures Pow2(a + b) == Pow2(a) * Pow2(b)
  {
    if a > 0 {
      Pow2Adds(a - 1, b);
      assert 2 * (Pow2(a - 1) * Pow2(b)) == (2 * Pow2(a - 1)) * Pow2(b);
    }
  }
}
