/** Document lengths quantized to one byte: a five-bit exponent and a three-bit
    mantissa (include/weave/for.h:243-292).
  */
module DoclenByte {
  import opened Bits

  type uint32 = v: int | 0 <= v < 0x1_0000_0000

  /** Four significant bits and where they stand, clamped to the largest code. */
  function Quantize(len: nat): nat {
    if len <= 7 then len
    else
      AtLeastFourBits(len);
      var exp := Width(len) - 4;
      var e := exp + 1;
      if e > 31 then 31 * 8 + 7 else e * 8 + Shr(len, exp) % 8
  }

  /** weave_doclen_to_byte(). */
  function ToByte(len: uint32): (b: byte) {
    WidthOf32(len);
    Quantize(len)
  }

  lemma AtLeastFourBits(len: nat)
    requires len >= 8
    ensures Width(len) >= 4
  {
    assert Width(8) == 4;
    WidthMonotone(8, len);
  }

  /** weave_byte_to_doclen(), with the 32-bit shift cutting what overflows. */
  function FromByte(b: byte): (len: uint32) {
    var mant, e := b % 8, b / 8;
    if e == 0 then mant else Shl(8 + mant, e - 1) % 0x1_0000_0000
  }

  /** The largest byte the encoder produces. */
  const TOP: byte := 239

  lemma WidthOf32(len: uint32)
    ensures Width(len) <= 32
  {
    assert Pow2(32) == 0x1_0000_0000 by {
      hide Pow2;
      Pow2Zero();
      Pow2Byte(0);
      Pow2Byte(8);
      Pow2Byte(16);
      Pow2Byte(24);
    }
    WidthExact(len, 32);
  }

  // ---------------------------------------------------------------------------
  // Halving a length lowers the exponent by one
  // ---------------------------------------------------------------------------

  lemma ToByteHalves(len: uint32)
    requires len >= 16
    ensures ToByte(len) == ToByte(len / 2) + 8 && ToByte(len) <= TOP
  {
    hide Shl;
    WidthOf32(len);
    WidthOf32(len / 2);
    AtLeastFourBits(len / 2);
  }

  lemma ToByteSmall(len: uint32)
    requires len < 16
    ensures ToByte(len) == len
  {
    if len >= 8 {
      assert Width(8) == 4;
      WidthMonotone(8, len);
      WidthMonotone(len, 15);
      assert Width(15) == 4;
    }
  }

  lemma {:induction false} ShlMonotone(v: nat, v': nat, s: nat, s': nat)
    requires v <= v' && s <= s'
    ensures Shl(v, s) <= Shl(v', s')
    decreases s'
  {
    if s' > 0 {
      if s == s' { ShlMonotone(v, v', s - 1, s' - 1); } else { ShlMonotone(v, v', s, s' - 1); }
    }
  }

  lemma ShlFour(v: nat, s: nat)
    ensures Shl(v, s + 4) == 16 * Shl(v, s)
  {
    assert Shl(v, s + 4) == 2 * Shl(v, s + 3) == 4 * Shl(v, s + 2) == 8 * Shl(v, s + 1);
  }

  lemma Shl28(v: nat)
    ensures Shl(v, 28) == 0x1000_0000 * v
  {
    assert Shl(v, 0) == v;
    hide Shl;
    ShlFour(v, 0);
    ShlFour(v, 4);
    ShlFour(v, 8);
    ShlFour(v, 12);
    ShlFour(v, 16);
    ShlFour(v, 20);
    ShlFour(v, 24);
  }

  lemma FromByteUnclipped(b: byte)
    requires 8 <= b <= TOP
    ensures FromByte(b) == Shl(8 + b % 8, b / 8 - 1)
  {
    hide Shl;
    ShlMonotone(8 + b % 8, 15, b / 8 - 1, 28);
    Shl28(15);
  }

  lemma FromByteDoubles(b: byte)
    requires 16 <= b <= TOP
    ensures FromByte(b) == 2 * FromByte(b - 8)
  {
    FromByteUnclipped(b);
    FromByteUnclipped(b - 8);
  }

  // ---------------------------------------------------------------------------
  // The encoder is the floor inverse of the decoder
  // ---------------------------------------------------------------------------

  /** A length encodes to the largest byte that decodes to no more than it. */
  lemma {:induction false} FloorInverse(b: byte, len: uint32)
    requires b <= TOP
    ensures FromByte(b) <= len <==> b <= ToByte(len)
    decreases b
  {
    hide ToByte;
    if b < 16 {
      if b >= 8 { FromByteUnclipped(b); }
      assert FromByte(b) == b;
      if len < 16 { ToByteSmall(len); } else { ToByteAtLeast(len); }
    } else {
      hide FromByte;
      FromByteDoubles(b);
      if len < 16 {
        ToByteSmall(len);
        FromByteSmall(b - 8);
      } else {
        ToByteHalves(len);
        FloorInverse(b - 8, len / 2);
      }
    }
  }

  lemma ToByteAtLeast(len: uint32)
    requires len >= 16
    ensures ToByte(len) >= 16
  {
    hide Shr, Width;
    ToByteHalves(len);
    if len / 2 < 16 { ToByteSmall(len / 2); } else { ToByteHalves(len / 2); }
  }

  lemma {:induction false} FromByteSmall(b: byte)
    requires 8 <= b <= TOP
    ensures FromByte(b) >= 8
    decreases b
  {
    if b < 16 { FromByteUnclipped(b); } else { FromByteDoubles(b); FromByteSmall(b - 8); }
  }

  /** Longer documents never decode shorter; what decodes re-encodes as itself;
      no length is rounded up; lengths below 16 are exact. */
  lemma Quantization(len: uint32, longer: uint32, b: byte)
    requires len <= longer && b <= TOP
    ensures ToByte(len) <= ToByte(longer) <= TOP
    ensures ToByte(FromByte(b)) == b
    ensures FromByte(ToByte(len)) <= len && (len < 16 ==> FromByte(ToByte(len)) == len)
  {
    hide FromByte, ToByte;
    WithinTop(longer);
    WithinTop(len);
    FloorInverse(ToByte(len), len);
    FloorInverse(ToByte(len), longer);
    FloorInverse(b, FromByte(b));
    WithinTop(FromByte(b));
    FloorInverse(ToByte(FromByte(b)), FromByte(b));
    if b < ToByte(FromByte(b)) { StrictlyMonotone(b, ToByte(FromByte(b))); }
    if len < 16 {
      ToByteSmall(len);
      DecodesSmall(len);
    }
  }

  lemma DecodesSmall(b: byte)
    requires b < 16
    ensures FromByte(b) == b
  {
    if b >= 8 { FromByteUnclipped(b); }
  }

  lemma WithinTop(len: uint32)
    ensures ToByte(len) <= TOP
  {
    if len < 16 { ToByteSmall(len); } else { ToByteHalves(len); }
  }

  lemma {:induction false} StrictlyMonotone(b: byte, c: byte)
    requires c <= TOP && b < c
    ensures FromByte(b) < FromByte(c)
    decreases c
  {
    hide FromByte;
    if b < 16 && c < 16 {
      DecodesSmall(b);
      DecodesSmall(c);
    } else if b < 16 {
      FromByteDoubles(c);
      DecodesSmall(b);
      FromByteSmall(c - 8);
    } else {
      FromByteDoubles(b);
      FromByteDoubles(c);
      StrictlyMonotone(b - 8, c - 8);
    }
  }

  /** Every byte the encoder never writes loses its leading one to the shift. */
  lemma NeverWrittenWraps(c: byte)
    requires c > TOP
    ensures FromByte(c) < FromByte(TOP)
  {
    var v := 8 + c % 8;
    FromByteUnclipped(TOP);
    Shl28(15);
    Shl28(v);
    assert Shl(v, 29) == 2 * Shl(v, 28) && Shl(v, 30) == 2 * Shl(v, 29);
    assert c / 8 == 30 || c / 8 == 31;
  }

  /** A byte decodes to more than every smaller byte exactly when the encoder can
      have written it. */
  lemma AscendsIffWritten(c: byte)
    ensures c <= TOP <==> forall b: byte :: b < c ==> FromByte(b) < FromByte(c)
    ensures c <= TOP <==> exists len: uint32 :: ToByte(len) == c
  {
    hide FromByte, ToByte;
    if c <= TOP {
      forall b: byte | b < c ensures FromByte(b) < FromByte(c) { StrictlyMonotone(b, c); }
      Quantization(FromByte(c), FromByte(c), c);
    } else {
      NeverWrittenWraps(c);
      forall len: uint32 ensures ToByte(len) != c { WithinTop(len); }
    }
  }
}
