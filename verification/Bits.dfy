/** Shifts, masks and bitwise or on natural numbers, bit by bit. */
module Bits {

  type byte = b: int | 0 <= b < 256

  type uint64 = v: int | 0 <= v < 0x1_0000_0000_0000_0000

  /** Bit `b` of `v`. */
  predicate Bit(v: nat, b: nat) {
    if b == 0 then v % 2 == 1 else Bit(v / 2, b - 1)
  }

  function Shl(v: nat, s: nat): nat { if s == 0 then v else 2 * Shl(v, s - 1) }

  function Shr(v: nat, s: nat): nat { if s == 0 then v else Shr(v / 2, s - 1) }

  /** The low `w` bits: v & ((1 << w) - 1). */
  function Low(v: nat, w: nat): nat { if w == 0 then 0 else v % 2 + 2 * Low(v / 2, w - 1) }

  function Or(a: nat, b: nat): nat
    decreases a + b
  {
    if a == 0 then b else if b == 0 then a
    else 2 * Or(a / 2, b / 2) + if a % 2 == 1 || b % 2 == 1 then 1 else 0
  }

  /** The number of bits up to the highest one set. */
  function Width(v: nat): nat { if v == 0 then 0 else 1 + Width(v / 2) }

  // ---------------------------------------------------------------------------
  // The bits of each operation's result
  // ---------------------------------------------------------------------------

  lemma {:induction false} BitZero(b: nat)
    ensures !Bit(0, b)
  {
    if b > 0 { BitZero(b - 1); }
  }

  lemma {:induction false} BitShl(v: nat, s: nat, b: nat)
    ensures Bit(Shl(v, s), b) <==> b >= s && Bit(v, b - s)
    decreases s
  {
    if s > 0 && b > 0 { BitShl(v, s - 1, b - 1); }
  }

  lemma {:induction false} BitShr(v: nat, s: nat, b: nat)
    ensures Bit(Shr(v, s), b) <==> Bit(v, s + b)
    decreases s
  {
    if s > 0 { BitShr(v / 2, s - 1, b); }
  }

  lemma {:induction false} BitLow(v: nat, w: nat, b: nat)
    ensures Bit(Low(v, w), b) <==> b < w && Bit(v, b)
    decreases w
  {
    if w == 0 {
      BitZero(b);
    } else if b > 0 {
      BitLow(v / 2, w - 1, b - 1);
    }
  }

  lemma OrHalves(x: nat, y: nat)
    ensures Or(x, y) / 2 == Or(x / 2, y / 2)
    ensures Or(x, y) % 2 == 1 <==> x % 2 == 1 || y % 2 == 1
  {
  }

  lemma {:induction false} BitOr(x: nat, y: nat, b: nat)
    ensures Bit(Or(x, y), b) <==> Bit(x, b) || Bit(y, b)
    decreases b
  {
    hide Or;
    OrHalves(x, y);
    if b > 0 { BitOr(x / 2, y / 2, b - 1); }
  }

  lemma {:induction false} BitOne(b: nat)
    ensures Bit(1, b) <==> b == 0
  {
    if b > 0 { BitZero(b - 1); }
  }

  lemma {:induction false} HighBitsClear(v: nat, b: nat)
    requires b >= Width(v)
    ensures !Bit(v, b)
    decreases v
  {
    if v == 0 {
      BitZero(b);
    } else {
      HighBitsClear(v / 2, b - 1);
    }
  }

  /** Numbers with the same bits are equal. */
  lemma {:induction false} SameBits(x: nat, y: nat)
    requires forall b: nat :: Bit(x, b) <==> Bit(y, b)
    ensures x == y
    decreases x + y
  {
    if x + y > 0 {
      assert x % 2 == y % 2 by { assert Bit(x, 0) <==> Bit(y, 0); }
      forall b: nat ensures Bit(x / 2, b) <==> Bit(y / 2, b) {
        assert Bit(x, b + 1) <==> Bit(y, b + 1);
      }
      SameBits(x / 2, y / 2);
    }
  }

  lemma {:induction false} WidthMonotone(x: nat, y: nat)
    requires x <= y
    ensures Width(x) <= Width(y)
    decreases x
  {
    if x > 0 { WidthMonotone(x / 2, y / 2); }
  }

  function Pow2(n: nat): (r: nat)
    ensures r > 0
  {
    if n == 0 then 1 else 2 * Pow2(n - 1)
  }

  /** The width is the least number of bits that can hold the value. */
  lemma {:induction false} WidthExact(v: nat, n: nat)
    ensures Width(v) <= n <==> v < Pow2(n)
    decreases v
  {
    if v > 0 && n > 0 { WidthExact(v / 2, n - 1); }
  }

  lemma Pow2Byte(n: nat)
    ensures Pow2(n + 8) == 256 * Pow2(n)
  {
    assert Pow2(n + 8) == 2 * Pow2(n + 7) == 4 * Pow2(n + 6) == 8 * Pow2(n + 5) == 16 * Pow2(n + 4);
    assert Pow2(n + 4) == 2 * Pow2(n + 3) == 4 * Pow2(n + 2) == 8 * Pow2(n + 1);
  }

  lemma Pow2Zero()
    ensures Pow2(0) == 1
  {
  }

  lemma Pow2Of64()
    ensures Pow2(64) == 0x1_0000_0000_0000_0000
  {
    hide Pow2;
    Pow2Zero();
    Pow2Byte(0);
    Pow2Byte(8);
    Pow2Byte(16);
    Pow2Byte(24);
    Pow2Byte(32);
    Pow2Byte(40);
    Pow2Byte(48);
    Pow2Byte(56);
  }

  lemma {:induction false} Pow2Monotone(a: nat, b: nat)
    requires a <= b
    ensures Pow2(a) <= Pow2(b)
    decreases b
  {
    if a < b { Pow2Monotone(a, b - 1); }
  }

  lemma WidthOf64(v: uint64)
    ensures Width(v) <= 64
  {
    hide Pow2;
    Pow2Of64();
    WidthExact(v, 64);
  }

  lemma WidthOfByte(x: byte)
    ensures Width(x) <= 8
  {
    assert Pow2(8) == 256;
    WidthExact(x, 8);
  }

  /** A number whose bits from 8 on are clear is a byte. */
  lemma IsByte(v: nat)
    requires forall b: nat :: b >= 8 ==> !Bit(v, b)
    ensures v < 256
  {
    forall b: nat ensures Bit(v, b) <==> Bit(Low(v, 8), b) { BitLow(v, 8, b); }
    SameBits(v, Low(v, 8));
    LowBelow(v, 8);
    assert Pow2(8) == 256;
  }

  lemma {:induction false} LowBelow(v: nat, w: nat)
    ensures Low(v, w) < Pow2(w)
    decreases w
  {
    if w > 0 { LowBelow(v / 2, w - 1); }
  }
}
