/** Frame-of-reference bit packing (include/weave/for.h:44-241): a width byte,
    then every value in `width` bits of a little-endian bit stream.
  */
module ForCodec {
  import opened Bits

  // ---------------------------------------------------------------------------
  // The bit stream
  // ---------------------------------------------------------------------------

  /** Bit `j` of a byte string, counted from the low bit of the first byte. */
  predicate StreamBit(bits: seq<byte>, j: nat) {
    j / 8 < |bits| && Bit(bits[j / 8], j % 8)
  }

  /** The low `w` bits of `v`, lowest first. */
  function BitsOf(v: nat, w: nat): (r: seq<bool>)
    ensures |r| == w
  {
    seq(w, b requires b >= 0 => Bit(v, b))
  }

  /** The bits of every value, one after the other. */
  function Stream(vals: seq<uint64>, w: nat): (r: seq<bool>)
    ensures |r| == |vals| * w
  {
    if vals == [] then [] else Stream(vals[..|vals| - 1], w) + BitsOf(vals[|vals| - 1], w)
  }

  /** Bytes needed for `n` values of `w` bits, and the width byte. */
  function Size(n: nat, w: nat): nat { 1 + (n * w + 7) / 8 }

  /** The stream's bytes have room for every bit, and one fewer would not. */
  lemma SizeIsLeast(n: nat, w: nat)
    ensures n * w <= 8 * (Size(n, w) - 1) < n * w + 8
  {
    var x := n * w;
    assert 8 * ((x + 7) / 8) == x + 7 - (x + 7) % 8;
  }

  /** The bytes carry the stream, and zero bits after it. */
  ghost predicate Carries(bits: seq<byte>, stream: seq<bool>) {
    forall j: nat :: StreamBit(bits, j) <==> j < |stream| && stream[j]
  }

  /** Every value fits in `w` bits, and one of them needs them all. */
  ghost predicate Fits(vals: seq<uint64>, w: nat) {
    && (forall i :: 0 <= i < |vals| ==> Width(vals[i]) <= w)
    && (w > 0 ==> exists i :: 0 <= i < |vals| && Width(vals[i]) == w)
  }

  /** The column that holds `vals`. */
  ghost predicate IsColumn(col: seq<byte>, vals: seq<uint64>) {
    && |col| > 0 && |col| == Size(|vals|, col[0]) && Fits(vals, col[0]) && Carries(col[1..], Stream(vals, col[0]))
  }

  // ---------------------------------------------------------------------------
  // Packing
  // ---------------------------------------------------------------------------

  method BitWidth(maxval: uint64) returns (w: nat)
    ensures w == Width(maxval) <= 64
  {
    WidthOf64(maxval);
    w := 0;
    var v := maxval;
    while v != 0
      invariant w + Width(v) == Width(maxval)
    {
      w := w + 1;
      v := v / 2;
    }
  }

  /** What setting one bit does to the stream. */
  lemma SetOne(bits: seq<byte>, stream: seq<bool>)
    requires |stream| < 8 * |bits| && Carries(bits, stream)
    ensures var a := |stream|;
            && Or(bits[a / 8], Shl(1, a % 8)) < 256
            && Carries(bits[a / 8 := Or(bits[a / 8], Shl(1, a % 8))], stream + [true])
  {
    var a := |stream|;
    var old8, x := bits[a / 8], Or(bits[a / 8], Shl(1, a % 8));
    forall b: nat ensures Bit(x, b) <==> Bit(old8, b) || b == a % 8 {
      BitOr(old8, Shl(1, a % 8), b);
      BitShl(1, a % 8, b);
      if b >= a % 8 { BitOne(b - a % 8); }
    }
    forall b: nat | b >= 8 ensures !Bit(x, b) {
      WidthOfByte(old8);
      HighBitsClear(old8, b);
    }
    IsByte(x);
    var bits' := bits[a / 8 := x];
    forall j: nat ensures StreamBit(bits', j) <==> j < a + 1 && (stream + [true])[j] {
      assert StreamBit(bits, j) <==> j < |stream| && stream[j];
    }
  }

  lemma SkipOne(bits: seq<byte>, stream: seq<bool>)
    requires Carries(bits, stream)
    ensures Carries(bits, stream + [false])
  {
    forall j: nat ensures StreamBit(bits, j) <==> j < |stream| + 1 && (stream + [false])[j] {
      assert StreamBit(bits, j) <==> j < |stream| && stream[j];
    }
  }

  method PackValue(v: uint64, width: nat, buf: array<byte>, end: nat, ghost stream: seq<bool>, bitpos: nat)
    requires 0 < end <= buf.Length && bitpos == |stream| && bitpos + width <= 8 * (end - 1)
    requires Carries(buf[1..end], stream)
    modifies buf
    ensures Carries(buf[1..end], stream + BitsOf(v, width))
    ensures buf[0] == old(buf[0]) && buf[end..] == old(buf[end..])
  {
    hide Carries, Or;
    assert stream + BitsOf(v, 0) == stream;
    for b := 0 to width
      invariant Carries(buf[1..end], stream + BitsOf(v, b))
      invariant buf[0] == old(buf[0]) && buf[end..] == old(buf[end..])
    {
      ghost var so_far := stream + BitsOf(v, b);
      if Bit(v, b) {
        var abs := bitpos + b;
        SetOne(buf[1..end], so_far);
        ghost var bits := buf[1..end];
        buf[1 + abs / 8] := Or(buf[1 + abs / 8], Shl(1, abs % 8));
        assert buf[1..end] == bits[abs / 8 := buf[1 + abs / 8]];
        assert stream + BitsOf(v, b + 1) == so_far + [true];
      } else {
        SkipOne(buf[1..end], so_far);
        assert stream + BitsOf(v, b + 1) == so_far + [false];
      }
    }
  }

  lemma {:induction false} StreamOfZeros(vals: seq<uint64>)
    ensures Stream(vals, 0) == []
    decreases |vals|
  {
  }

  lemma NoBits(bits: seq<byte>)
    requires forall i :: 0 <= i < |bits| ==> bits[i] == 0
    ensures Carries(bits, [])
  {
    forall j: nat ensures !StreamBit(bits, j) { BitZero(j % 8); }
  }

  lemma MulMonotone(a: nat, b: nat, w: nat)
    requires a <= b
    ensures a * w <= b * w && (a + 1) * w == a * w + w
  {
  }

  /** The width of the largest value. */
  method ColumnWidth(vals: seq<uint64>) returns (width: nat)
    ensures width <= 64 && Fits(vals, width)
  {
    var maxv: uint64 := 0;
    for i := 0 to |vals|
      invariant forall j :: 0 <= j < i ==> vals[j] <= maxv
      invariant maxv > 0 ==> exists j :: 0 <= j < i && vals[j] == maxv
    {
      if vals[i] > maxv { maxv := vals[i]; }
    }
    width := BitWidth(maxv);
    AllFit(vals, maxv);
  }

  /** Set the bits of every value in a zeroed column. */
  method PackValues(vals: seq<uint64>, width: nat, buf: array<byte>, nbytes: nat)
    requires 0 < width && nbytes == Size(|vals|, width) <= buf.Length
    requires forall i :: 1 <= i < nbytes ==> buf[i] == 0
    modifies buf
    ensures Carries(buf[1..nbytes], Stream(vals, width))
    ensures buf[0] == old(buf[0]) && buf[nbytes..] == old(buf[nbytes..])
  {
    hide Carries, Stream;
    NoBits(buf[1..nbytes]);
    var bitpos := 0;
    EmptyStream(width);
    assert vals[..0] == [];
    for i := 0 to |vals|
      invariant bitpos == i * width && buf[0] == old(buf[0])
      invariant Carries(buf[1..nbytes], Stream(vals[..i], width))
      invariant buf[nbytes..] == old(buf[nbytes..])
    {
      MulMonotone(i, |vals| - 1, width);
      MulMonotone(|vals| - 1, |vals|, width);
      StreamSnoc(vals, i, width);
      PackValue(vals[i], width, buf, nbytes, Stream(vals[..i], width), bitpos);
      bitpos := bitpos + width;
    }
    assert vals[..|vals|] == vals;
  }

  lemma EmptyStream(w: nat)
    ensures Stream([], w) == []
  {
  }

  /** Pack `vals` at the width of the largest; returns the bytes written. */
  method Pack(vals: seq<uint64>, buf: array<byte>) returns (nbytes: nat)
    requires forall w :: 0 <= w <= 64 && Fits(vals, w) ==> Size(|vals|, w) <= buf.Length
    modifies buf
    ensures 0 < nbytes <= buf.Length && IsColumn(buf[..nbytes], vals)
    ensures buf[nbytes..] == old(buf[nbytes..])
  {
    hide Carries, Stream, Fits;
    var width := ColumnWidth(vals);
    buf[0] := width;
    if width == 0 {
      StreamOfZeros(vals);
      NoBits([]);
      assert buf[..1][1..] == [];
      return 1;
    }
    nbytes := 1 + (|vals| * width + 7) / 8;
    forall i | 1 <= i < nbytes { buf[i] := 0; }
    PackValues(vals, width, buf, nbytes);
    assert buf[..nbytes][1..] == buf[1..nbytes];
  }

  lemma StreamSnoc(vals: seq<uint64>, i: nat, w: nat)
    requires i < |vals|
    ensures Stream(vals[..i + 1], w) == Stream(vals[..i], w) + BitsOf(vals[i], w)
  {
    assert vals[..i + 1][..i] == vals[..i];
  }

  lemma AllFit(vals: seq<uint64>, maxv: uint64)
    requires forall j :: 0 <= j < |vals| ==> vals[j] <= maxv
    requires maxv > 0 ==> exists j :: 0 <= j < |vals| && vals[j] == maxv
    ensures Fits(vals, Width(maxv))
  {
    forall j | 0 <= j < |vals| ensures Width(vals[j]) <= Width(maxv) { WidthMonotone(vals[j], maxv); }
  }

  // ---------------------------------------------------------------------------
  // Reading
  // ---------------------------------------------------------------------------

  /** The number in bits [pos, pos + w) of the stream. */
  function Field(bits: seq<byte>, pos: nat, w: nat): nat
    decreases w
  {
    if w == 0 then 0 else (if StreamBit(bits, pos) then 1 else 0) + 2 * Field(bits, pos + 1, w - 1)
  }

  lemma {:induction false} BitField(bits: seq<byte>, pos: nat, w: nat, b: nat)
    ensures Bit(Field(bits, pos, w), b) <==> b < w && StreamBit(bits, pos + b)
    decreases w
  {
    hide StreamBit;
    if w == 0 {
      BitZero(b);
    } else if b > 0 {
      BitField(bits, pos + 1, w - 1, b - 1);
    }
  }

  /** The bits a value keeps: a width byte past 64 is corrupt, and reads as 64. */
  function Kept(width: nat): nat { if width >= 64 then 64 else width }

  /** Element `i` of a column, also of a corrupt one. */
  function Value(col: seq<byte>, i: nat): nat
    requires |col| > 0
  {
    Field(col[1..], i * col[0], Kept(col[0]))
  }

  /** The byte length a column of `n` values declares. */
  function ByteLen(col: seq<byte>, n: nat): nat
    requires |col| > 0
  {
    if col[0] == 0 then 1 else Size(n, col[0])
  }

  lemma {:induction false} FieldBound(bits: seq<byte>, pos: nat, w: nat)
    ensures Field(bits, pos, w) < Pow2(w)
    decreases w
  {
    if w > 0 { FieldBound(bits, pos + 1, w - 1); }
  }

  lemma FieldIs64(bits: seq<byte>, pos: nat, w: nat)
    requires w <= 64
    ensures Field(bits, pos, w) < 0x1_0000_0000_0000_0000
  {
    FieldBound(bits, pos, w);
    Pow2Monotone(w, 64);
    Pow2Of64();
  }

  /** Little-endian load of `nb` bytes. */
  method Load(bits: seq<byte>, start: nat, nb: nat) returns (w: nat)
    requires start + nb <= |bits|
    ensures forall t: nat :: Bit(w, t) <==> t < 8 * nb && StreamBit(bits, 8 * start + t)
  {
    w := 0;
    forall t: nat ensures !Bit(0, t) { BitZero(t); }
    for k := 0 to nb
      invariant forall t: nat :: Bit(w, t) <==> t < 8 * k && StreamBit(bits, 8 * start + t)
    {
      ghost var w0 := w;
      w := Or(w, Shl(bits[start + k], k * 8));
      forall t: nat ensures Bit(w, t) <==> t < 8 * (k + 1) && StreamBit(bits, 8 * start + t) {
        BitOr(w0, Shl(bits[start + k], k * 8), t);
        LoadedBit(bits, start, k, t);
      }
    }
  }

  lemma LoadedBit(bits: seq<byte>, start: nat, k: nat, t: nat)
    requires start + k < |bits|
    ensures Bit(Shl(bits[start + k], k * 8), t) <==> 8 * k <= t < 8 * k + 8 && StreamBit(bits, 8 * start + t)
  {
    BitShl(bits[start + k], k * 8, t);
    if t >= 8 * k {
      WidthOfByte(bits[start + k]);
      if t >= 8 * k + 8 { HighBitsClear(bits[start + k], t - 8 * k); }
    }
  }

  /** The value at bit `bitpos`: a word load, shift and mask, over a nine-byte
      window when eight bytes do not cover it. */
  method Extract(bits: seq<byte>, bitpos: nat, width: nat) returns (r: uint64)
    requires 0 < width < 256 && bitpos + width <= 8 * |bits|
    ensures r == Field(bits, bitpos, Kept(width))
  {
    hide Field, StreamBit, Or, Shl, Shr, Low, Bit;
    var start, shift := bitpos / 8, bitpos % 8;
    var v;
    if shift + width <= 64 {
      var nb := (shift + width + 7) / 8;
      var w := Load(bits, start, nb);
      v := Low(Shr(w, shift), width);
      forall b: nat ensures Bit(v, b) <==> Bit(Field(bits, bitpos, width), b) {
        BitLow(Shr(w, shift), width, b);
        BitShr(w, shift, b);
        BitField(bits, bitpos, width, b);
      }
    } else {
      var lo := Load(bits, start, 8);
      var hi := bits[start + 8];
      if shift == 0 {
        v := Low(lo, Kept(width));
        forall b: nat ensures Bit(v, b) <==> Bit(Field(bits, bitpos, Kept(width)), b) {
          BitLow(lo, Kept(width), b);
          BitField(bits, bitpos, Kept(width), b);
        }
      } else {
        v := Low(Or(Shr(lo, shift), Low(Shl(hi, 64 - shift), 64)), Kept(width));
        forall b: nat ensures Bit(v, b) <==> Bit(Field(bits, bitpos, Kept(width)), b) {
          BitLow(Or(Shr(lo, shift), Low(Shl(hi, 64 - shift), 64)), Kept(width), b);
          BitOr(Shr(lo, shift), Low(Shl(hi, 64 - shift), 64), b);
          BitShr(lo, shift, b);
          BitLow(Shl(hi, 64 - shift), 64, b);
          HighByte(bits, start, shift, b);
          BitField(bits, bitpos, Kept(width), b);
        }
      }
    }
    SameBits(v, Field(bits, bitpos, Kept(width)));
    FieldIs64(bits, bitpos, Kept(width));
    r := v;
  }

  lemma HighByte(bits: seq<byte>, start: nat, shift: nat, b: nat)
    requires start + 8 < |bits| && 0 < shift < 8
    ensures Bit(Shl(bits[start + 8], 64 - shift), b) <==>
              64 - shift <= b < 72 - shift && StreamBit(bits, 8 * start + shift + b)
  {
    BitShl(bits[start + 8], 64 - shift, b);
    if b >= 64 - shift {
      var t := b - (64 - shift);
      WidthOfByte(bits[start + 8]);
      if t >= 8 { HighBitsClear(bits[start + 8], t); }
    }
  }

  /** Random access to element `i`. */
  method Get(col: seq<byte>, i: nat) returns (v: uint64)
    requires |col| > 0 && ByteLen(col, i + 1) <= |col|
    ensures v == Value(col, i)
  {
    var width := col[0];
    if width == 0 { return 0; }
    MulMonotone(i, i, width);
    v := Extract(col[1..], i * width, width);
  }

  /** Unpack `n` values; returns the bytes consumed. */
  method Unpack(col: seq<byte>, n: nat, out: array<uint64>) returns (nbytes: nat)
    requires |col| > 0 && ByteLen(col, n) <= |col| && n <= out.Length
    modifies out
    ensures nbytes == ByteLen(col, n)
    ensures forall i :: 0 <= i < n ==> out[i] == Value(col, i)
    ensures out[n..] == old(out[n..])
  {
    hide Field;
    var width := col[0];
    if width == 0 {
      for i := 0 to n
        invariant forall j :: 0 <= j < i ==> out[j] == 0
        invariant out[n..] == old(out[n..])
      {
        out[i] := 0;
      }
      forall i | 0 <= i < n ensures Value(col, i) == 0 { ZeroWidth(col, i); }
      return 1;
    }
    var bitpos: nat := 0;
    for i := 0 to n
      invariant bitpos == i * width
      invariant forall j :: 0 <= j < i ==> out[j] == Value(col, j)
      invariant out[n..] == old(out[n..])
    {
      MulMonotone(i + 1, n, width);
      MulMonotone(i, i, width);
      out[i] := Extract(col[1..], bitpos, width);
      bitpos := bitpos + width;
    }
    nbytes := 1 + (n * width + 7) / 8;
  }

  lemma ZeroWidth(col: seq<byte>, i: nat)
    requires |col| > 0 && col[0] == 0
    ensures Value(col, i) == 0
  {
  }

  // ---------------------------------------------------------------------------
  // Round trip
  // ---------------------------------------------------------------------------

  lemma {:induction false} StreamAt(vals: seq<uint64>, w: nat, i: nat, b: nat)
    requires i < |vals| && b < w
    ensures i * w + b < |Stream(vals, w)| && (Stream(vals, w)[i * w + b] <==> Bit(vals[i], b))
    decreases |vals|
  {
    hide Bit;
    var n := |vals| - 1;
    MulMonotone(i, i, w);
    MulMonotone(i + 1, |vals|, w);
    assert Stream(vals, w) == Stream(vals[..n], w) + BitsOf(vals[n], w);
    if i < n {
      MulMonotone(i + 1, n, w);
      StreamAt(vals[..n], w, i, b);
    }
  }

  /** Every element of a packed column reads back as it was, and the column is as
      long as its width byte says. */
  lemma RoundTrip(col: seq<byte>, vals: seq<uint64>)
    requires IsColumn(col, vals)
    ensures ByteLen(col, |vals|) == |col|
    ensures forall i :: 0 <= i < |vals| ==> Value(col, i) == vals[i] && ByteLen(col, i + 1) <= |col|
  {
    hide Stream, StreamBit, Field, Bit;
    var w := col[0];
    forall i | 0 <= i < |vals| ensures Value(col, i) == vals[i] && ByteLen(col, i + 1) <= |col| {
      MulMonotone(i + 1, |vals|, w);
      WidthOf64(vals[i]);
      SomeWidth(vals, w);
      forall b: nat ensures Bit(Value(col, i), b) <==> Bit(vals[i], b) {
        BitField(col[1..], i * w, Kept(w), b);
        if b < w { StreamAt(vals, w, i, b); } else { HighBitsClear(vals[i], b); }
      }
      SameBits(Value(col, i), vals[i]);
    }
  }

  lemma SomeWidth(vals: seq<uint64>, w: nat)
    requires Fits(vals, w)
    ensures w <= 64
  {
    if w > 0 {
      var i :| 0 <= i < |vals| && Width(vals[i]) == w;
      WidthOf64(vals[i]);
    }
  }

  /** A sequence of values has one packed form. */
  lemma ColumnIsCanonical(a: seq<byte>, b: seq<byte>, vals: seq<uint64>)
    requires IsColumn(a, vals) && IsColumn(b, vals)
    ensures a == b
  {
    hide Stream;
    assert a[0] == b[0];
    forall i | 0 <= i < |a| - 1 ensures a[1..][i] == b[1..][i] {
      forall t: nat ensures Bit(a[1..][i], t) <==> Bit(b[1..][i], t) {
        if t < 8 {
          assert StreamBit(a[1..], 8 * i + t) <==> StreamBit(b[1..], 8 * i + t);
        } else {
          WidthOfByte(a[1..][i]);
          WidthOfByte(b[1..][i]);
          HighBitsClear(a[1..][i], t);
          HighBitsClear(b[1..][i], t);
        }
      }
      SameBits(a[1..][i], b[1..][i]);
    }
    assert a == [a[0]] + a[1..] && b == [b[0]] + b[1..];
  }
}
