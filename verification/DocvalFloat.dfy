/** The order-preserving encoding of a float8 as a signed 64-bit key
    (include/weave/docvals.h:227-271), over the bit patterns of section 3 of
    IEEE 754: a sign, eleven exponent bits and fifty-two fraction bits.
  */
module DocvalFloat {
  import opened Bits

  const SIGN: nat := 0x8000_0000_0000_0000
  const FRACTIONS: nat := 0x10_0000_0000_0000
  const INF: nat := 0x7FF0_0000_0000_0000
  const INT64_MAX: int := 0x7FFF_FFFF_FFFF_FFFF

  /** The bits below the sign. */
  function Magnitude(bits: uint64): (m: nat)
    ensures m < SIGN
  {
    bits % SIGN
  }

  predicate Negative(bits: uint64) { bits >= SIGN }

  predicate IsNaN(bits: uint64) { Magnitude(bits) > INF }

  /** The absolute value in units of the least positive double; one past every
      finite one for infinity. */
  function Scaled(m: nat): nat
    requires m <= INF
  {
    var exponent, fraction := m / FRACTIONS, m % FRACTIONS;
    if exponent == 0 then fraction else Shl(FRACTIONS + fraction, exponent - 1)
  }

  /** The number a pattern stands for, in the same units. */
  function Number(bits: uint64): int
    requires !IsNaN(bits)
  {
    var scaled: int := Scaled(Magnitude(bits));
    if Negative(bits) then -scaled else scaled
  }

  /** PostgreSQL's float8 order: NaN equals NaN and is above everything else. */
  predicate Below(a: uint64, b: uint64) {
    if IsNaN(b) then !IsNaN(a)
    else !IsNaN(a) && Number(a) < Number(b)
  }

  /** A 64-bit word as a signed integer. */
  function AsSigned(bits: uint64): int { if bits >= SIGN then bits - 0x1_0000_0000_0000_0000 else bits }

  /** Exclusive or with the sign bit. */
  function FlipSign(bits: uint64): uint64 { if bits >= SIGN then bits - SIGN else bits + SIGN }

  /** weave_dv_encode_f8(). */
  function Encode(bits: uint64): (key: int)
    ensures -0x8000_0000_0000_0000 <= key <= INT64_MAX
  {
    if IsNaN(bits) then INT64_MAX
    else
      var canonical := if Magnitude(bits) == 0 then 0 else bits;
      var ordered := if Negative(canonical) then 0xFFFF_FFFF_FFFF_FFFF - canonical else canonical + SIGN;
      AsSigned(FlipSign(ordered))
  }

  // ---------------------------------------------------------------------------
  // Magnitudes are ordered as their bits are
  // ---------------------------------------------------------------------------

  lemma {:induction false} ShlGrows(a: nat, b: nat, s: nat)
    requires a < b
    ensures Shl(a, s) < Shl(b, s)
    decreases s
  {
    if s > 0 { ShlGrows(a, b, s - 1); }
  }

  /** A larger exponent beats any fraction. */
  lemma {:induction false} NextBinade(a: nat, b: nat, s: nat, t: nat)
    requires a < 2 * FRACTIONS && b >= FRACTIONS && s < t
    ensures Shl(a, s) < Shl(b, t)
    decreases s
  {
    if s > 0 {
      NextBinade(a, b, s - 1, t - 1);
    } else {
      AtLeast(b, t);
    }
  }

  lemma {:induction false} AtLeast(b: nat, t: nat)
    requires t > 0
    ensures Shl(b, t) >= 2 * b
    decreases t
  {
    if t > 1 { AtLeast(b, t - 1); }
  }

  lemma ScaledGrows(m: nat, n: nat)
    requires m < n <= INF
    ensures Scaled(m) < Scaled(n)
  {
    var e, f := m / FRACTIONS, m % FRACTIONS;
    var e', f' := n / FRACTIONS, n % FRACTIONS;
    assert e < e' || (e == e' && f < f');
    if e == e' {
      if e > 0 { ShlGrows(FRACTIONS + f, FRACTIONS + f', e - 1); }
    } else if e > 0 {
      NextBinade(FRACTIONS + f, FRACTIONS + f', e - 1, e' - 1);
    } else if e' > 1 {
      AtLeast(FRACTIONS + f', e' - 1);
    }
  }

  lemma ScaledZero(m: nat)
    requires m <= INF
    ensures Scaled(m) == 0 <==> m == 0
  {
    if m > 0 {
      ScaledGrows(0, m);
    }
  }

  /** The key of a number: its magnitude, or below zero its complement. */
  lemma EncodeIs(bits: uint64)
    requires !IsNaN(bits)
    ensures var m: int := Magnitude(bits); Encode(bits) == if Negative(bits) && m != 0 then -m - 1 else m
  {
  }

  /** Keys compare exactly as PostgreSQL compares the doubles: the two zeros are
      one key, NaN is above all, and order is kept both ways. */
  lemma EncodePreservesOrder(a: uint64, b: uint64)
    ensures Encode(a) < Encode(b) <==> Below(a, b)
  {
    hide Scaled, Encode;
    if !IsNaN(a) && !IsNaN(b) {
      var m, n := Magnitude(a), Magnitude(b);
      EncodeIs(a);
      EncodeIs(b);
      ScaledZero(m);
      ScaledZero(n);
      if m < n { ScaledGrows(m, n); }
      if n < m { ScaledGrows(n, m); }
    } else {
      NaNIsTop(a);
      NaNIsTop(b);
    }
  }

  lemma NaNIsTop(bits: uint64)
    ensures if IsNaN(bits) then Encode(bits) == INT64_MAX else Encode(bits) < INT64_MAX
  {
    if !IsNaN(bits) { EncodeIs(bits); }
  }

  // ---------------------------------------------------------------------------
  // The classes of doubles, by their fields
  // ---------------------------------------------------------------------------

  /** The eleven bits of the exponent and the fifty-two of the fraction. */
  function Exponent(bits: uint64): nat { bits / 0x10_0000_0000_0000 % 2048 }

  function Fraction(bits: uint64): nat { bits % 0x10_0000_0000_0000 }

  lemma ClassByFields(bits: uint64)
    ensures IsNaN(bits) <==> Exponent(bits) == 2047 && Fraction(bits) != 0
    ensures Magnitude(bits) == INF <==> Exponent(bits) == 2047 && Fraction(bits) == 0
    ensures Magnitude(bits) == 0 <==> Exponent(bits) == 0 && Fraction(bits) == 0
    ensures Negative(bits) <==> bits / 0x8000_0000_0000_0000 == 1
  {
    var q, r := bits / 0x10_0000_0000_0000, Fraction(bits);
    assert bits == q * 0x10_0000_0000_0000 + r;
    assert 0 <= q < 4096;
    assert q % 2048 == if q >= 2048 then q - 2048 else q;
  }
}
