/**
  Fixed-width integers and the bitwise operations the generated codec uses.

  Go's `uint64`, `int` (64 bits) and `int32` are modelled as ranges of `int`; every
  truncation and every reinterpretation of the sign is written out.
 */
module Bits {

  type byte = x: int | 0 <= x < 0x100
  type Bytes = seq<byte>
  type uint32 = x: int | 0 <= x < 0x1_0000_0000
  type uint64 = x: int | 0 <= x < 0x1_0000_0000_0000_0000
  type int32 = x: int | -0x8000_0000 <= x < 0x8000_0000
  type int64 = x: int | -0x8000_0000_0000_0000 <= x < 0x8000_0000_0000_0000

  const TWO32: nat := 0x1_0000_0000
  const TWO63: nat := 0x8000_0000_0000_0000
  const TWO64: nat := 0x1_0000_0000_0000_0000

  /** The low 32 bits. */
  function Wrap32(x: nat): uint32 {
    x % 0x1_0000_0000
  }

  /** The low 64 bits. */
  function Wrap64(x: nat): uint64 {
    x % 0x1_0000_0000_0000_0000
  }

  /** `int32(x)` for an unsigned `x`: keep the low 32 bits, read them as two's complement. */
  function ToInt32(x: nat): int32 {
    var low := Wrap32(x);
    if low < 0x8000_0000 then low else low - 0x1_0000_0000
  }

  /** `int(x)` for an unsigned 64-bit `x`. */
  function ToInt64(x: uint64): int64 {
    if x < 0x8000_0000_0000_0000 then x else x - 0x1_0000_0000_0000_0000
  }

  /** `uint64(v)`: sign extension of a negative value. */
  function ToUint64(v: int64): uint64 {
    if v < 0 then v + 0x1_0000_0000_0000_0000 else v
  }

  /** The bit pattern of an `int32`. */
  function Pattern32(v: int32): uint32 {
    if v < 0 then v + 0x1_0000_0000 else v
  }

  /** 64-bit signed addition with wrap-around. */
  function Add64(a: int64, b: int64): int64 {
    if a + b >= TWO63 then a + b - TWO64 else if a + b < -0x8000_0000_0000_0000 then a + b + TWO64 else a + b
  }

  /** Bitwise `|` on natural numbers. */
  function Or(x: nat, y: nat): nat {
    if x == 0 && y == 0 then 0
    else 2 * Or(x / 2, y / 2) + (if x % 2 == 1 || y % 2 == 1 then 1 else 0)
  }

  /** `x << s` before truncation. */
  function Shl(x: nat, s: nat): nat {
    if s == 0 then x else 2 * Shl(x, s - 1)
  }

  function Pow2(n: nat): (p: nat)
    ensures p > 0
  {
    if n == 0 then 1 else 2 * Pow2(n - 1)
  }

  /** The low `w` bits of `x`. */
  function Low(x: nat, w: nat): nat {
    if w == 0 then 0 else x % 2 + 2 * Low(x / 2, w - 1)
  }

  lemma {:induction false} OrZero(x: nat)
    ensures Or(x, 0) == x && Or(0, x) == x
  {
    if x > 0 {
      OrZero(x / 2);
    }
  }

  lemma {:induction false} OrBound(x: nat, y: nat, w: nat)
    requires x < Pow2(w) && y < Pow2(w)
    ensures Or(x, y) < Pow2(w)
  {
    if w > 0 {
      OrBound(x / 2, y / 2, w - 1);
    }
  }

  /** Or-ing two 32-bit patterns stays within 32 bits. */
  lemma Or32(x: uint32, y: uint32)
    ensures Or(x, y) < TWO32
    ensures Pattern32(ToInt32(Or(x, y))) == Or(x, y)
  {
    Widths();
    OrBound(x, y, 32);
  }

  /** Or-ing into a 64-bit variable. */
  function Or64(x: uint64, q: nat): (r: uint64)
    ensures r == Or(x, Wrap64(q))
  {
    Widths();
    OrBound(x, Wrap64(q), 64);
    Or(x, Wrap64(q))
  }

  lemma {:induction false} OrAssociative(x: nat, y: nat, z: nat)
    ensures Or(Or(x, y), z) == Or(x, Or(y, z))
    decreases x + y + z
  {
    if x > 0 || y > 0 || z > 0 {
      OrAssociative(x / 2, y / 2, z / 2);
      OrHalves(x, y);
      OrHalves(y, z);
    }
  }

  lemma OrHalves(x: nat, y: nat)
    ensures Or(x, y) / 2 == Or(x / 2, y / 2)
    ensures Or(x, y) % 2 == 1 <==> x % 2 == 1 || y % 2 == 1
  {
  }

  /** What is left of `x` above its low `w` bits. */
  function High(x: nat, w: nat): nat {
    if w == 0 then x else High(x / 2, w - 1)
  }

  lemma {:induction false} LowAndHigh(x: nat, w: nat)
    ensures x == Low(x, w) + Shl(High(x, w), w)
    ensures Low(x, w) < Pow2(w)
    ensures x < Pow2(w) ==> Low(x, w) == x
  {
    if w > 0 {
      LowAndHigh(x / 2, w - 1);
    }
  }

  /** Keeping the low bits is reducing modulo the width. */
  lemma LowIsMod(x: nat)
    ensures Low(x, 32) == Wrap32(x) && Low(x, 64) == Wrap64(x)
  {
    Widths();
    LowAndHigh(x, 32);
    ShlWidths(High(x, 32));
    ModOfSum(Low(x, 32), High(x, 32));
    LowAndHigh(x, 64);
    ShlWidths(High(x, 64));
    ModOfSum(Low(x, 64), High(x, 64));
  }

  lemma ModOfSum(low: nat, h: nat)
    ensures low < 0x1_0000_0000 ==> (low + 0x1_0000_0000 * h) % 0x1_0000_0000 == low
    ensures low < 0x1_0000_0000_0000_0000 ==> (low + 0x1_0000_0000_0000_0000 * h) % 0x1_0000_0000_0000_0000 == low
  {
  }

  lemma ShlWidths(x: nat)
    ensures Shl(x, 32) == TWO32 * x
    ensures Shl(x, 64) == TWO64 * x
  {
    ShlEight(x, 0); ShlEight(x, 8); ShlEight(x, 16); ShlEight(x, 24);
    ShlEight(x, 32); ShlEight(x, 40); ShlEight(x, 48); ShlEight(x, 56);
  }

  lemma ShlEight(x: nat, s: nat)
    ensures Shl(x, s + 8) == 256 * Shl(x, s)
  {
    assert Shl(x, s + 4) == 16 * Shl(x, s) by {
      assert Shl(x, s + 2) == 4 * Shl(x, s);
    }
    assert Shl(x, s + 6) == 4 * Shl(x, s + 4);
  }

  /** The 7-bit groups of a varint do not overlap, so or-ing one in is adding it, in any width. */
  lemma {:induction false} OrGroup(p: nat, c: nat, s: nat, w: nat)
    requires p < Pow2(s)
    ensures Low(p + Shl(c, s), w) == Or(Low(p, w), Low(Shl(c, s), w))
  {
    hide Low, Or, Shl, Pow2;
    if w == 0 {
      NoLowBits(p + Shl(c, s)); NoLowBits(p); NoLowBits(Shl(c, s));
      OrZero(0);
    } else if s == 0 {
      ShlNone(c);
      LowZero(w);
      OrZero(Low(c, w));
    } else {
      ShlParity(p, c, s);
      OrGroup(p / 2, c, s - 1, w - 1);
      LowStep(p + Shl(c, s), w);
      LowStep(p, w);
      LowStep(Shl(c, s), w);
      OrStep(Low(p, w), Low(Shl(c, s), w));
    }
  }

  lemma NoLowBits(x: nat)
    ensures Low(x, 0) == 0
  {
  }

  lemma ShlNone(c: nat)
    ensures Shl(c, 0) == c && Pow2(0) == 1
  {
  }

  /** A shifted value is even, and one bit less of the shift halves it. */
  lemma ShlParity(p: nat, c: nat, s: nat)
    requires s > 0 && p < Pow2(s)
    ensures p / 2 < Pow2(s - 1) && Shl(c, s) / 2 == Shl(c, s - 1) && Shl(c, s) % 2 == 0
    ensures (p + Shl(c, s)) / 2 == p / 2 + Shl(c, s - 1) && (p + Shl(c, s)) % 2 == p % 2
  {
    var h := Shl(c, s - 1);
    assert Shl(c, s) == 2 * h;
  }

  lemma LowStep(x: nat, w: nat)
    requires w > 0
    ensures Low(x, w) == x % 2 + 2 * Low(x / 2, w - 1)
    ensures Low(x, w) / 2 == Low(x / 2, w - 1) && Low(x, w) % 2 == x % 2
  {
    var low := Low(x / 2, w - 1);
    assert Low(x, w) == x % 2 + 2 * low;
  }

  lemma OrStep(x: nat, y: nat)
    ensures Or(x, y) == 2 * Or(x / 2, y / 2) + if x % 2 == 1 || y % 2 == 1 then 1 else 0
  {
    if x == 0 && y == 0 {
      OrZero(0);
    }
  }

  /** `OrGroup` at the two widths of the generated code. */
  lemma OrGroupMod(p: nat, c: nat, s: nat)
    requires p < Pow2(s)
    ensures Wrap64(p + Shl(c, s)) == Or(Wrap64(p), Wrap64(Shl(c, s)))
    ensures Wrap32(p + Shl(c, s)) == Or(Wrap32(p), Wrap32(Shl(c, s)))
  {
    OrGroup(p, c, s, 64);
    OrGroup(p, c, s, 32);
    var shifted := Shl(c, s);
    LowIsMod(p);
    LowIsMod(shifted);
    LowIsMod(p + shifted);
  }

  lemma {:induction false} LowZero(w: nat)
    ensures Low(0, w) == 0
  {
    if w > 0 {
      LowZero(w - 1);
    }
  }

  lemma {:induction false} Pow2IsShl(n: nat)
    ensures Pow2(n) == Shl(1, n)
  {
    if n > 0 {
      Pow2IsShl(n - 1);
    }
  }

  lemma Widths()
    ensures Pow2(32) == TWO32 && Pow2(63) == TWO63 && Pow2(64) == TWO64
  {
    Pow2IsShl(32);
    Pow2IsShl(64);
    ShlWidths(1);
    assert Pow2(64) == 2 * Pow2(63);
  }

  lemma {:induction false} ShlAdd(x: nat, y: nat, s: nat)
    ensures Shl(x + y, s) == Shl(x, s) + Shl(y, s)
  {
    if s > 0 {
      ShlAdd(x, y, s - 1);
    }
  }

  lemma {:induction false} ShlTwice(x: nat, s: nat)
    ensures Shl(2 * x, s) == Shl(x, s + 1)
  {
    if s > 0 {
      ShlTwice(x, s - 1);
    }
  }

  /** Shifting a 7-bit group that is followed by more groups. */
  lemma ShlGroup(c: nat, rest: nat, s: nat)
    ensures Shl(c + 128 * rest, s) == Shl(c, s) + Shl(rest, s + 7)
  {
    ShlAdd(c, 128 * rest, s);
    ShlTwice(64 * rest, s);
    ShlTwice(32 * rest, s + 1);
    ShlTwice(16 * rest, s + 2);
    ShlTwice(8 * rest, s + 3);
    ShlTwice(4 * rest, s + 4);
    ShlTwice(2 * rest, s + 5);
    ShlTwice(rest, s + 6);
  }

  lemma {:induction false} ShlBound(c: nat, s: nat)
    ensures c < 128 ==> Shl(c, s) + Pow2(s) <= Pow2(s + 7)
  {
    if s > 0 {
      ShlBound(c, s - 1);
      assert Pow2(s + 7) == 2 * Pow2(s + 6);
    } else {
      assert Pow2(7) == 128;
    }
  }

  /** The number of significant bits: `math/bits.Len64`. */
  function Len64(x: nat): nat {
    if x == 0 then 0 else 1 + Len64(x / 2)
  }

  lemma OrOne(x: nat)
    ensures Or(x, 1) == if x % 2 == 0 then x + 1 else x
  {
    OrZero(x / 2);
    assert Or(x, 1) == 2 * Or(x / 2, 0) + 1;
  }
}
