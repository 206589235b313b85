/**
 * C integer semantics that the NTP client relies on: the ranges of the
 * fixed-width types it uses, and C's division and remainder, which
 * truncate toward zero (Dafny's `/` and `%` on `int` are Euclidean).
 */
module CInt {

  const Int64Min: int := -0x8000_0000_0000_0000
  const Int64Max: int := 0x7FFF_FFFF_FFFF_FFFF
  const Two32: int := 0x1_0000_0000
  const Two64: int := 0x1_0000_0000_0000_0000

  predicate InInt64(x: int) {
    Int64Min <= x <= Int64Max
  }

  /** C's `a / d` for a positive divisor: the quotient rounded toward zero. */
  function TruncDiv(a: int, d: int): (q: int)
    requires d > 0
    ensures a >= 0 ==> 0 <= q && q * d <= a < q * d + d
    ensures a < 0 ==> q <= 0 && q * d - d < a <= q * d
  {
    if a >= 0 then a / d else -((-a) / d)
  }

  /** C's `a % d` for a positive divisor: its sign follows the dividend. */
  function TruncRem(a: int, d: int): (r: int)
    requires d > 0
    ensures a == TruncDiv(a, d) * d + r
    ensures a >= 0 ==> 0 <= r < d
    ensures a < 0 ==> -d < r <= 0
  {
    a - TruncDiv(a, d) * d
  }

  /**
   * The conversion of a 64-bit unsigned pattern to `int64_t`: the two's
   * complement reading of the low 64 bits of `x`.
   */
  function Int64OfBits(x: int): (r: int)
    ensures InInt64(r)
    ensures (r - x) % Two64 == 0
  {
    var u := x % Two64;
    if u <= Int64Max then u else u - Two64
  }

  /** A value already in int64 range survives the round trip through 64 bits. */
  lemma {:induction false} Int64OfBitsIdentity(x: int)
    requires InInt64(x)
    ensures Int64OfBits(x) == x
  {
    if x >= 0 {
      assert x % Two64 == x;
    } else {
      assert x % Two64 == x + Two64 by {
        assert 0 <= x + Two64 < Two64;
        assert x + Two64 == Two64 * 1 + x;
      }
    }
  }

  function Pow2(n: nat): (p: nat)
    ensures p >= 1
  {
    if n == 0 then 1 else 2 * Pow2(n - 1)
  }

  lemma {:induction false} Pow2AtMost128(n: nat)
    requires n <= 7
    ensures Pow2(n) <= 128
    decreases 7 - n
  {
    if n < 7 {
      Pow2AtMost128(n + 1);
    }
  }

  /** Shifting one bit into a byte whose top bit is clear doubles it and adds the bit. */
  lemma ShiftInBit(hi: bv8, bit: bool)
    requires hi as int < 128
    ensures ((hi << 1) | (if bit then 1 else 0)) as int == 2 * (hi as int) + (if bit then 1 else 0)
  {
  }

  /** The low `n` bits of `x`, most significant first, as a byte. */
  function LowBits(x: int, n: nat): bv8
    requires n <= 8 && 0 <= x
  {
    if n == 0 then 0 else (LowBits(x / 2, n - 1) << 1) | (if x % 2 == 1 then 1 else 0)
  }

  lemma {:induction false} LowBitsValue(x: int, n: nat)
    requires n <= 8 && 0 <= x < Pow2(n)
    ensures LowBits(x, n) as int == x
  {
    if n > 0 {
      LowBitsValue(x / 2, n - 1);
      Pow2AtMost128(n - 1);
      ShiftInBit(LowBits(x / 2, n - 1), x % 2 == 1);
    }
  }

  /** The cast `(uint8_t)x` of a value that already fits: the same number as an 8-bit pattern. */
  function ByteOf(x: int): (b: bv8)
    requires 0 <= x < 256
    ensures b as int == x
  {
    assert Pow2(8) == 256 by {
      assert Pow2(4) == 16;
    }
    LowBitsValue(x, 8);
    LowBits(x, 8)
  }

  /** Four bytes joined most significant first denote their base-256 number. */
  lemma JoinBytes(b0: bv8, b1: bv8, b2: bv8, b3: bv8)
    ensures (((b0 as bv32) << 24) | ((b1 as bv32) << 16) | ((b2 as bv32) << 8) | (b3 as bv32)) as int
      == (b0 as int) * 0x100_0000 + (b1 as int) * 0x1_0000 + (b2 as int) * 0x100 + b3 as int
  {
  }

  /** The base-256 digits of a 32-bit value. */
  lemma {:induction false} Base256Digits(x: int)
    requires 0 <= x < Two32
    ensures x / 0x100_0000 < 256
    ensures x == (x / 0x100_0000) * 0x100_0000 + ((x / 0x1_0000) % 256) * 0x1_0000
               + ((x / 0x100) % 256) * 0x100 + x % 256
  {
    var q1 := x / 0x100;
    var q2 := q1 / 0x100;
    var q3 := q2 / 0x100;
    assert x == q1 * 256 + x % 256;
    assert q1 == q2 * 256 + q1 % 256;
    assert q2 == q3 * 256 + q2 % 256;
    assert q2 == x / 0x1_0000;
    assert q3 == x / 0x100_0000;
  }

  /** The cast `(uint32_t)x` of a value that already fits: the same number as a 32-bit word. */
  function Uint32Of(x: int): (w: bv32)
    requires 0 <= x < Two32
    ensures w as int == x
  {
    Base256Digits(x);
    var b0, b1, b2, b3 := ByteOf(x / 0x100_0000), ByteOf((x / 0x1_0000) % 256),
                          ByteOf((x / 0x100) % 256), ByteOf(x % 256);
    JoinBytes(b0, b1, b2, b3);
    ((b0 as bv32) << 24) | ((b1 as bv32) << 16) | ((b2 as bv32) << 8) | (b3 as bv32)
  }
}
