/** Edit units of a byte string: the decoder of include/weave/uleven.h.

    A unit is one byte in byte mode and one UTF-8 character in UTF-8 mode.  A
    byte that begins no well-formed character is escaped, alone, to 0xDC00 plus
    its value.  The reference the decoder is proved against is the encoder of
    section 3 of RFC 3629, which shares no code with it.
  */
module EditUnits {

  import Bits

  type byte = Bits.byte

  datatype UnitMode = ByteMode | Utf8Mode

  /** One decoded unit, the bytes it consumed, and whether the boundary after it
      is self-delimiting. */
  datatype Decoded = Decoded(unit: nat, size: nat, clean: bool)

  const ESCAPE := 0xDC00

  // ---------------------------------------------------------------------------
  // The reference encoder (RFC 3629, section 3)
  // ---------------------------------------------------------------------------

  predicate IsScalar(cp: nat) { cp <= 0x10FFFF && !(0xD800 <= cp <= 0xDFFF) }

  function Encode(cp: nat): (s: seq<byte>)
    requires IsScalar(cp)
    ensures 1 <= |s| <= 4
  {
    if cp < 0x80 then [cp]
    else if cp < 0x800 then [0xC0 + cp / 64, 0x80 + cp % 64]
    else if cp < 0x10000 then [0xE0 + cp / 4096, 0x80 + cp / 64 % 64, 0x80 + cp % 64]
    else [0xF0 + cp / 262144, 0x80 + cp / 4096 % 64, 0x80 + cp / 64 % 64, 0x80 + cp % 64]
  }

  // ---------------------------------------------------------------------------
  // The decoder
  // ---------------------------------------------------------------------------

  /** `c & 0xC0 == 0x80`: a continuation byte. */
  predicate IsContinuation(c: byte) { 0x80 <= c < 0xC0 }

  /** Continuation bytes a lead byte calls for; 0 when it can begin no
      multi-byte sequence. */
  function Need(b: byte): (n: nat)
    ensures n <= 3
  {
    if 0xC2 <= b <= 0xDF then 1
    else if 0xE0 <= b <= 0xEF then 2
    else if 0xF0 <= b <= 0xF4 then 3
    else 0
  }

  /** The payload bits of a lead byte: `b & 0x1F`, `b & 0x0F`, `b & 0x07`. */
  function LeadBits(b: byte): nat
  {
    if Need(b) == 1 then b as nat % 32 else if Need(b) == 2 then b as nat % 16 else b as nat % 8
  }

  /** The six payload bits of a continuation byte: `c & 0x3F`. */
  function Low6(c: byte): nat { c as nat % 64 }

  /** `cp = cp << 6 | (c & 0x3F)` folded over continuation bytes. */
  function Accumulate(cp: nat, s: seq<byte>): nat
    decreases |s|
  {
    if s == [] then cp else Accumulate(cp * 64 + Low6(s[0]), s[1..])
  }

  predicate AllContinuation(s: seq<byte>) { forall i :: 0 <= i < |s| ==> IsContinuation(s[i]) }

  /** An overlong form, an encoded surrogate, or a value past the last scalar. */
  predicate Rejected(need: nat, cp: nat) {
    || (need == 2 && (cp < 0x800 || 0xD800 <= cp <= 0xDFFF))
    || (need == 3 && (cp < 0x10000 || cp > 0x10FFFF))
  }

  /** The unit at the front of a nonempty byte string. */
  function DecodeUnit(s: seq<byte>, mode: UnitMode): (d: Decoded)
    requires |s| > 0
    ensures 1 <= d.size <= |s|
  {
    var b := s[0];
    var need := Need(b);
    if mode == ByteMode || b < 0x80 then Decoded(b, 1, true)
    else if need == 0 then Decoded(ESCAPE + b, 1, true)
    else if need >= |s| || !AllContinuation(s[1..need + 1]) then Decoded(ESCAPE + b, 1, false)
    else
      var cp := Accumulate(LeadBits(b), s[1..need + 1]);
      if Rejected(need, cp) then Decoded(ESCAPE + b, 1, false)
      else Decoded(cp, need + 1, true)
  }

  /** The edit units of a byte string. */
  function Units(s: seq<byte>, mode: UnitMode): seq<nat>
    decreases |s|
  {
    if s == [] then []
    else var d := DecodeUnit(s, mode); [d.unit] + Units(s[d.size..], mode)
  }

  /** The fold written out for the three lengths that occur. */
  lemma AccumulateShort(cp: nat, s: seq<byte>)
    requires 1 <= |s| <= 3
    decreases |s|
    ensures |s| == 1 ==> Accumulate(cp, s) == cp * 64 + Low6(s[0])
    ensures |s| == 2 ==> Accumulate(cp, s) == (cp * 64 + Low6(s[0])) * 64 + Low6(s[1])
    ensures |s| == 3 ==>
              Accumulate(cp, s) == ((cp * 64 + Low6(s[0])) * 64 + Low6(s[1])) * 64 + Low6(s[2])
  {
    if |s| > 1 {
      AccumulateShort(cp * 64 + Low6(s[0]), s[1..]);
    }
  }

  lemma AccumulateSnoc(cp: nat, s: seq<byte>, c: byte)
    ensures Accumulate(cp, s + [c]) == Accumulate(cp, s) * 64 + Low6(c)
    decreases |s|
  {
    if s != [] {
      assert (s + [c])[1..] == s[1..] + [c];
      AccumulateSnoc(cp * 64 + Low6(s[0]), s[1..], c);
    } else {
      assert (s + [c])[1..] == [];
    }
  }

  lemma AccumulateNothing(cp: nat)
    ensures Accumulate(cp, []) == cp
  {
  }

  /** Decode the unit at `pos`, the offset after it and the soundness flag,
      reading only inside the string. */
  method UnitEx(s: seq<byte>, pos: nat, mode: UnitMode) returns (unit: nat, next: nat, clean: bool)
    requires pos < |s|
    ensures pos < next <= |s|
    ensures Decoded(unit, next - pos, clean) == DecodeUnit(s[pos..], mode)
  {
    ghost var t := s[pos..];
    var b := s[pos];
    clean := true;
    if mode == ByteMode || b < 0x80 { return b, pos + 1, true; }
    var need: nat, cp: nat;
    if 0xC2 <= b <= 0xDF { need, cp := 1, b as nat % 32; }
    else if 0xE0 <= b <= 0xEF { need, cp := 2, b as nat % 16; }
    else if 0xF0 <= b <= 0xF4 { need, cp := 3, b as nat % 8; }
    else { return ESCAPE + b, pos + 1, true; }
    if pos + need >= |s| { return ESCAPE + b, pos + 1, false; }
    hide Accumulate;
    AccumulateNothing(LeadBits(b));
    for i := 1 to need + 1
      invariant cp == Accumulate(LeadBits(b), t[1..i])
      invariant AllContinuation(t[1..i])
    {
      var c := s[pos + i];
      assert c == t[i] == t[1..need + 1][i - 1];
      if !(0x80 <= c < 0xC0) { return ESCAPE + b, pos + 1, false; }
      assert t[1..i + 1] == t[1..i] + [c];
      AccumulateSnoc(LeadBits(b), t[1..i], c);
      cp := cp * 64 + c as nat % 64;
    }
    if (need == 2 && (cp < 0x800 || 0xD800 <= cp <= 0xDFFF))
       || (need == 3 && (cp < 0x10000 || cp > 0x10FFFF)) {
      return ESCAPE + b, pos + 1, false;
    }
    unit, next := cp, pos + need + 1;
  }

  /** The number of edit units, without decoding into an array. */
  method CountUnits(s: seq<byte>, mode: UnitMode) returns (n: nat)
    ensures n == |Units(s, mode)|
  {
    var pos := 0;
    n := 0;
    while pos < |s|
      invariant pos <= |s|
      invariant n + |Units(s[pos..], mode)| == |Units(s, mode)|
    {
      var unit, next, clean := UnitEx(s, pos, mode);
      assert s[next..] == s[pos..][next - pos..];
      pos, n := next, n + 1;
    }
  }

  // ---------------------------------------------------------------------------
  // The decoder meets RFC 3629
  // ---------------------------------------------------------------------------

  lemma DivMod64(n: nat, hi: nat, lo: nat)
    requires lo < 64
    ensures n == hi * 64 + lo <==> hi == n / 64 && lo == n % 64
  {
  }

  /** A two-byte lead and continuation carry a value, and back. */
  lemma TwoBytes(cp: nat, b0: byte, b1: byte)
    requires Need(b0) == 1 && IsContinuation(b1)
    ensures cp == LeadBits(b0) * 64 + Low6(b1)
            <==> (cp < 0x800 && b0 == 0xC0 + cp / 64 && b1 == 0x80 + cp % 64)
    ensures LeadBits(b0) * 64 + Low6(b1) >= 0x80
  {
  }

  lemma ThreeBytes(cp: nat, b0: byte, b1: byte, b2: byte)
    requires Need(b0) == 2 && IsContinuation(b1) && IsContinuation(b2)
    ensures cp == (LeadBits(b0) * 64 + Low6(b1)) * 64 + Low6(b2)
            <==> (&& cp < 0x10000 && b0 == 0xE0 + cp / 4096
                  && b1 == 0x80 + cp / 64 % 64 && b2 == 0x80 + cp % 64)
  {
    var c1 := LeadBits(b0) * 64 + Low6(b1);
    DivMod64(cp, c1, Low6(b2));
    DivMod64(cp / 64, LeadBits(b0), Low6(b1));
    assert cp / 4096 == cp / 64 / 64;
  }

  lemma FourBytes(cp: nat, b0: byte, b1: byte, b2: byte, b3: byte)
    requires Need(b0) == 3 && IsContinuation(b1) && IsContinuation(b2) && IsContinuation(b3)
    ensures cp == ((LeadBits(b0) * 64 + Low6(b1)) * 64 + Low6(b2)) * 64 + Low6(b3)
            <==> (&& cp < 0x140000 && b0 == 0xF0 + cp / 262144
                  && b1 == 0x80 + cp / 4096 % 64 && b2 == 0x80 + cp / 64 % 64 && b3 == 0x80 + cp % 64)
  {
    var c1 := LeadBits(b0) * 64 + Low6(b1);
    var c2 := c1 * 64 + Low6(b2);
    DivMod64(cp, c2, Low6(b3));
    DivMod64(cp / 64, c1, Low6(b2));
    DivMod64(cp / 64 / 64, LeadBits(b0), Low6(b1));
    assert cp / 4096 == cp / 64 / 64;
    assert cp / 262144 == cp / 64 / 64 / 64;
  }

  /** What a lead byte and its continuation bytes decode to. */
  lemma DecodeLead(s: seq<byte>, cp: nat)
    requires |s| > 0 && 0 < Need(s[0]) < |s|
    requires AllContinuation(s[1..Need(s[0]) + 1])
    requires cp == Accumulate(LeadBits(s[0]), s[1..Need(s[0]) + 1])
    ensures DecodeUnit(s, Utf8Mode) == if Rejected(Need(s[0]), cp) then Decoded(ESCAPE + s[0], 1, false)
                                       else Decoded(cp, Need(s[0]) + 1, true)
  {
  }

  /** The decoder reads back what the encoder wrote, whatever follows it. */
  lemma DecodeEncoded(cp: nat, tail: seq<byte>)
    requires IsScalar(cp)
    ensures DecodeUnit(Encode(cp) + tail, Utf8Mode) == Decoded(cp, |Encode(cp)|, true)
  {
    var e := Encode(cp);
    var s := e + tail;
    assert s[0] == e[0];
    if cp >= 0x80 {
      EncodedShape(cp);
      assert s[1..Need(s[0]) + 1] == e[1..];
      DecodeLead(s, cp);
    }
  }

  /** The encoder writes a lead byte and the continuation bytes it calls for. */
  lemma EncodedShape(cp: nat)
    requires IsScalar(cp) && cp >= 0x80
    ensures var e := Encode(cp);
            && Need(e[0]) == |e| - 1 && AllContinuation(e[1..])
            && Accumulate(LeadBits(e[0]), e[1..]) == cp
            && !Rejected(|e| - 1, cp)
  {
    var e := Encode(cp);
    AccumulateShort(LeadBits(e[0]), e[1..]);
    if cp < 0x800 {
      assert 2 <= cp / 64 < 32;
      TwoBytes(cp, e[0], e[1]);
    } else if cp < 0x10000 {
      assert cp / 4096 < 16;
      ThreeBytes(cp, e[0], e[1], e[2]);
    } else {
      assert cp / 262144 <= 4;
      FourBytes(cp, e[0], e[1], e[2], e[3]);
    }
  }

  /** A unit of more than one byte, or an ASCII byte, is a scalar whose encoding
      is exactly the bytes consumed. */
  lemma DecodedIsEncoding(s: seq<byte>)
    requires |s| > 0
    requires s[0] < 0x80 || DecodeUnit(s, Utf8Mode).size > 1
    ensures var d := DecodeUnit(s, Utf8Mode);
            IsScalar(d.unit) && Encode(d.unit) == s[..d.size] && d.clean
  {
    if s[0] < 0x80 {
      assert s[..1] == [s[0]];
    } else {
      var need := Need(s[0]);
      var t := s[1..need + 1];
      assert AllContinuation(t);
      assert forall i :: 0 <= i < need ==> IsContinuation(t[i]) && s[1 + i] == t[i];
      WideDecoding(s, t);
    }
  }

  lemma WideDecoding(s: seq<byte>, t: seq<byte>)
    requires |s| > 0 && s[0] >= 0x80 && 0 < Need(s[0]) < |s|
    requires t == s[1..Need(s[0]) + 1] && AllContinuation(t)
    requires !Rejected(|t|, Accumulate(LeadBits(s[0]), t))
    ensures var cp := Accumulate(LeadBits(s[0]), t);
            IsScalar(cp) && Encode(cp) == s[..|t| + 1]
  {
    assert s[..|t| + 1] == [s[0]] + t;
    WideEncoding(s[0], t);
  }

  lemma WideEncoding(b: byte, t: seq<byte>)
    requires 0 < Need(b) == |t| && AllContinuation(t)
    requires !Rejected(|t|, Accumulate(LeadBits(b), t))
    ensures var cp := Accumulate(LeadBits(b), t);
            IsScalar(cp) && Encode(cp) == [b] + t
  {
    var cp := Accumulate(LeadBits(b), t);
    AccumulateShort(LeadBits(b), t);
    if |t| == 1 {
      TwoBytes(cp, b, t[0]);
    } else if |t| == 2 {
      ThreeBytes(cp, b, t[0], t[1]);
    } else {
      FourBytes(cp, b, t[0], t[1], t[2]);
    }
  }

  /** A unit is a character exactly when the string begins with that character's
      encoding; otherwise the first byte is escaped alone. */
  lemma DecodesIffEncoded(s: seq<byte>, cp: nat)
    requires |s| > 0 && IsScalar(cp)
    ensures DecodeUnit(s, Utf8Mode).unit == cp <==> Encode(cp) <= s
    ensures (forall c: nat :: IsScalar(c) ==> !(Encode(c) <= s))
            <==> (s[0] >= 0x80 && DecodeUnit(s, Utf8Mode).unit == ESCAPE + s[0])
  {
    var d := DecodeUnit(s, Utf8Mode);
    forall c: nat | IsScalar(c) && Encode(c) <= s
      ensures d.unit == c
    {
      assert s == Encode(c) + s[|Encode(c)|..];
      DecodeEncoded(c, s[|Encode(c)|..]);
    }
    if s[0] < 0x80 || d.size > 1 {
      DecodedIsEncoding(s);
    }
  }

  // ---------------------------------------------------------------------------
  // Nothing is lost: decoding is injective
  // ---------------------------------------------------------------------------

  /** The bytes one unit stands for. */
  function UnitBytes(u: nat, mode: UnitMode): seq<byte>
  {
    if mode == ByteMode then (if u < 256 then [u] else [])
    else if ESCAPE <= u < ESCAPE + 256 then [u - ESCAPE]
    else if IsScalar(u) then Encode(u) else []
  }

  function Reencode(us: seq<nat>, mode: UnitMode): seq<byte>
  {
    if us == [] then [] else UnitBytes(us[0], mode) + Reencode(us[1..], mode)
  }

  lemma UnitBytesOfDecoded(s: seq<byte>, mode: UnitMode)
    requires |s| > 0
    ensures var d := DecodeUnit(s, mode); UnitBytes(d.unit, mode) == s[..d.size]
  {
    var d := DecodeUnit(s, mode);
    if mode == Utf8Mode && (s[0] < 0x80 || d.size > 1) {
      DecodedIsEncoding(s);
    } else {
      assert s[..1] == [s[0]];
    }
  }

  /** Re-encoding the decoded units, escapes back to their byte, reproduces the
      string, whatever its bytes. */
  lemma {:induction false} ReencodeUnits(s: seq<byte>, mode: UnitMode)
    ensures Reencode(Units(s, mode), mode) == s
    decreases |s|
  {
    hide DecodeUnit;
    if s != [] {
      var d := DecodeUnit(s, mode);
      ReencodeUnits(s[d.size..], mode);
      UnitBytesOfDecoded(s, mode);
      assert s == s[..d.size] + s[d.size..];
    }
  }

  /** Two strings with the same units are the same string. */
  lemma UnitsInjective(s: seq<byte>, t: seq<byte>, mode: UnitMode)
    ensures Units(s, mode) == Units(t, mode) <==> s == t
  {
    ReencodeUnits(s, mode);
    ReencodeUnits(t, mode);
  }

  // ---------------------------------------------------------------------------
  // Unit boundaries
  // ---------------------------------------------------------------------------

  /** The byte offset reached after `n` units. */
  function Offset(s: seq<byte>, mode: UnitMode, n: nat): (o: nat)
    requires n <= |Units(s, mode)|
    ensures o <= |s|
    decreases |s|
  {
    if n == 0 then 0
    else
      var d := DecodeUnit(s, mode);
      d.size + Offset(s[d.size..], mode, n - 1)
  }

  /** The suffix after `n` units decodes to the remaining units. */
  lemma {:induction false} UnitsAfter(s: seq<byte>, mode: UnitMode, n: nat)
    requires n <= |Units(s, mode)|
    ensures Units(s[Offset(s, mode, n)..], mode) == Units(s, mode)[n..]
    decreases n
  {
    hide DecodeUnit;
    if n > 0 {
      var d := DecodeUnit(s, mode);
      var t := s[d.size..];
      UnitsAfter(t, mode, n - 1);
      assert s[Offset(s, mode, n)..] == t[Offset(t, mode, n - 1)..];
    }
  }

  /** Stepping over one more unit. */
  lemma {:induction false} OffsetStep(s: seq<byte>, mode: UnitMode, n: nat)
    requires n < |Units(s, mode)|
    ensures var o := Offset(s, mode, n);
            && o < |s|
            && Units(s, mode)[n] == DecodeUnit(s[o..], mode).unit
            && Offset(s, mode, n + 1) == o + DecodeUnit(s[o..], mode).size
    decreases n
  {
    hide DecodeUnit;
    if n > 0 {
      var d := DecodeUnit(s, mode);
      var t := s[d.size..];
      OffsetStep(t, mode, n - 1);
      assert s[Offset(s, mode, n)..] == t[Offset(t, mode, n - 1)..];
    }
  }

  /** There is a unit at index `n` exactly when bytes remain there. */
  lemma UnitAt(s: seq<byte>, mode: UnitMode, n: nat)
    requires n <= |Units(s, mode)|
    ensures var o := Offset(s, mode, n);
            && (o < |s| <==> n < |Units(s, mode)|)
            && (o < |s| ==> && Units(s, mode)[n] == DecodeUnit(s[o..], mode).unit
                            && Offset(s, mode, n + 1) == o + DecodeUnit(s[o..], mode).size)
  {
    hide DecodeUnit;
    UnitsAfter(s, mode, n);
    if n < |Units(s, mode)| { OffsetStep(s, mode, n); }
  }

  lemma {:induction false} OffsetMonotone(s: seq<byte>, mode: UnitMode, m: nat, n: nat)
    requires m <= n <= |Units(s, mode)|
    ensures Offset(s, mode, m) + (n - m) <= Offset(s, mode, n)
    decreases n
  {
    hide DecodeUnit;
    if m < n {
      OffsetMonotone(s, mode, m, n - 1);
      OffsetStep(s, mode, n - 1);
    }
  }

  /** Was the `n`th unit's boundary self-delimiting? */
  predicate CleanAt(s: seq<byte>, mode: UnitMode, n: nat)
    requires n < |Units(s, mode)|
  {
    OffsetStep(s, mode, n);
    DecodeUnit(s[Offset(s, mode, n)..], mode).clean
  }

  // ---------------------------------------------------------------------------
  // Stability under extension
  // ---------------------------------------------------------------------------

  /** `tail` is the nonempty, incomplete beginning of some character's encoding. */
  ghost predicate Pending(tail: seq<byte>) {
    exists cp: nat :: IsScalar(cp) && PendingFor(tail, cp)
  }

  ghost predicate PendingFor(tail: seq<byte>, cp: nat)
    requires IsScalar(cp)
  {
    0 < |tail| < |Encode(cp)| && tail == Encode(cp)[..|tail|]
  }

  /** A character decoded inside the shared bytes is decoded in both strings. */
  lemma SharedCharacter(s: seq<byte>, t: seq<byte>, n: nat)
    requires 0 < n <= |s| && n <= |t| && s[..n] == t[..n]
    requires 1 < DecodeUnit(s, Utf8Mode).size <= n
    ensures DecodeUnit(t, Utf8Mode) == DecodeUnit(s, Utf8Mode)
  {
    var d := DecodeUnit(s, Utf8Mode);
    DecodedIsEncoding(s);
    assert s[..d.size] == s[..n][..d.size] == t[..n][..d.size] == t[..d.size];
    assert t == Encode(d.unit) + t[d.size..];
    DecodeEncoded(d.unit, t[d.size..]);
  }

  /** Two strings that agree on their first `n` bytes decode the same first unit
      unless those bytes are the incomplete beginning of a character that the
      second string completes. */
  lemma SameUnitUnlessPending(s: seq<byte>, t: seq<byte>, n: nat, mode: UnitMode)
    requires 0 < n <= |s| && n <= |t| && s[..n] == t[..n]
    requires DecodeUnit(s, mode).size <= n
    ensures var ds, dt := DecodeUnit(s, mode), DecodeUnit(t, mode);
            || (ds.unit == dt.unit && ds.size == dt.size)
            || (&& mode == Utf8Mode && !ds.clean && ds.size == 1
                && IsScalar(dt.unit) && Encode(dt.unit) <= t && PendingFor(s[..n], dt.unit))
  {
    var ds, dt := DecodeUnit(s, mode), DecodeUnit(t, mode);
    assert s[0] == s[..n][0] == t[..n][0] == t[0];
    if mode == Utf8Mode && s[0] >= 0x80 {
      if ds.size > 1 {
        SharedCharacter(s, t, n);
      } else if 1 < dt.size <= n {
        SharedCharacter(t, s, n);
      } else if dt.size > n {
        DecodedIsEncoding(t);
        assert t[..n] == t[..dt.size][..n];
      }
    }
  }

  /** A clean unit is decoded the same in every string sharing its bytes. */
  lemma CleanIsStable(s: seq<byte>, t: seq<byte>, mode: UnitMode)
    requires |s| > 0 && DecodeUnit(s, mode).clean
    requires s[..DecodeUnit(s, mode).size] <= t
    ensures DecodeUnit(t, mode).unit == DecodeUnit(s, mode).unit
    ensures DecodeUnit(t, mode).size == DecodeUnit(s, mode).size
  {
    var n := DecodeUnit(s, mode).size;
    assert t[..n] == s[..n];
    SameUnitUnlessPending(s, t, n, mode);
  }

  // ---------------------------------------------------------------------------
  // The flag is exact
  // ---------------------------------------------------------------------------

  /** Every string that begins with the bytes of the first unit decodes it alike. */
  ghost predicate Stable(s: seq<byte>, mode: UnitMode)
    requires |s| > 0
  {
    var d := DecodeUnit(s, mode);
    forall t: seq<byte> :: d.size <= |t| && s[..d.size] <= t ==>
      DecodeUnit(t, mode).unit == d.unit && DecodeUnit(t, mode).size == d.size
  }

  /** A character whose encoding begins with a given lead byte. */
  function CharacterOf(b: byte): (cp: nat)
    requires Need(b) > 0
    ensures IsScalar(cp) && Encode(cp)[0] == b && |Encode(cp)| == Need(b) + 1
  {
    if b < 0xE0 then (b - 0xC0) * 64
    else if b == 0xE0 then 0x800
    else if b < 0xF0 then (b - 0xE0) * 4096
    else if b == 0xF0 then 0x10000
    else (b - 0xF0) * 262144
  }

  /** A lead byte is not escaped in every string that begins with it. */
  lemma EscapedLeadIsUnstable(s: seq<byte>)
    requires |s| > 0 && Need(s[0]) > 0 && DecodeUnit(s, Utf8Mode).size == 1
    ensures !Stable(s, Utf8Mode)
  {
    var t := Encode(CharacterOf(s[0]));
    DecodeEncoded(CharacterOf(s[0]), []);
    assert t + [] == t;
    assert s[..1] == [t[0]] && s[..1] <= t;
  }

  /** The flag is set exactly when nothing that follows can change the unit: at
      every boundary in byte mode, and in UTF-8 mode everywhere but after an
      escaped lead byte. */
  lemma CleanIffStable(s: seq<byte>, mode: UnitMode)
    requires |s| > 0
    ensures DecodeUnit(s, mode).clean <==> Stable(s, mode)
    ensures mode == ByteMode ==> DecodeUnit(s, mode).clean
    ensures mode == Utf8Mode ==> (DecodeUnit(s, mode).clean <==> DecodeUnit(s, mode).size > 1 || Need(s[0]) == 0)
  {
    var d := DecodeUnit(s, mode);
    if d.clean {
      forall t: seq<byte> | d.size <= |t| && s[..d.size] <= t
        ensures DecodeUnit(t, mode).unit == d.unit && DecodeUnit(t, mode).size == d.size
      {
        CleanIsStable(s, t, mode);
      }
    } else {
      EscapedLeadIsUnstable(s);
    }
  }
}
