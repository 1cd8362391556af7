/** Building a docvalues store, signed or text, and reading it back value by value
    (include/weave/docvals.h:800-987).
  */
module DocvalBuild {
  import opened Basics
  import opened Bits
  import opened DocvalStore

  // ---------------------------------------------------------------------------
  // Encoding words
  // ---------------------------------------------------------------------------

  function Enc16(v: nat): (b: seq<byte>)
    requires v < 0x1_0000
    ensures |b| == 2
  {
    [v % 256, v / 256]
  }

  function Enc32(v: nat): (b: seq<byte>)
    requires v < 0x1_0000_0000
    ensures |b| == 4
  {
    [v % 256, v / 256 % 256, v / 0x1_0000 % 256, v / 0x100_0000]
  }

  function Enc64(v: uint64): (b: seq<byte>)
    ensures |b| == 8
  {
    Enc32(v % 0x1_0000_0000) + Enc32(v / 0x1_0000_0000)
  }

  function Unsigned(v: int): uint64
    requires -0x8000_0000_0000_0000 <= v < 0x8000_0000_0000_0000
  {
    if v < 0 then v + 0x1_0000_0000_0000_0000 else v
  }

  /** `bytes` stand at `off`. */
  ghost predicate Holds(img: Image, off: nat, bytes: seq<byte>) {
    off + |bytes| <= |img| && img[off..off + |bytes|] == bytes
  }

  lemma HoldsParts(img: Image, off: nat, a: seq<byte>, b: seq<byte>)
    requires Holds(img, off, a + b)
    ensures Holds(img, off, a) && Holds(img, off + |a|, b)
  {
    var s := img[off..off + |a + b|];
    assert s[..|a|] == a && s[|a|..] == b;
  }

  /** What stands before `cut` stays when only bytes from `cut` on change. */
  lemma HoldsKept(img: Image, img': Image, cut: nat, off: nat, bytes: seq<byte>)
    requires Holds(img, off, bytes) && off + |bytes| <= cut <= |img| == |img'| && img'[..cut] == img[..cut]
    ensures Holds(img', off, bytes)
  {
    assert img'[off..off + |bytes|] == img'[..cut][off..off + |bytes|];
    assert img[off..off + |bytes|] == img[..cut][off..off + |bytes|];
  }

  lemma HoldsAt(img: Image, off: nat, bytes: seq<byte>, i: nat)
    requires Holds(img, off, bytes) && i < |bytes|
    ensures img[off + i] == bytes[i]
  {
    assert img[off..off + |bytes|][i] == bytes[i];
  }

  lemma Reads16(img: Image, off: nat, v: nat)
    requires v < 0x1_0000 && Holds(img, off, Enc16(v))
    ensures U16(img, off) == v
  {
    HoldsAt(img, off, Enc16(v), 0);
    HoldsAt(img, off, Enc16(v), 1);
  }

  lemma Reads32(img: Image, off: nat, v: nat)
    requires v < 0x1_0000_0000 && Holds(img, off, Enc32(v))
    ensures U32(img, off) == v
  {
    HoldsAt(img, off, Enc32(v), 0);
    HoldsAt(img, off, Enc32(v), 1);
    HoldsAt(img, off, Enc32(v), 2);
    HoldsAt(img, off, Enc32(v), 3);
    Recompose(v);
  }

  lemma Recompose(v: nat)
    requires v < 0x1_0000_0000
    ensures v % 256 + 256 * (v / 256 % 256) + 0x1_0000 * (v / 0x1_0000 % 256) + 0x100_0000 * (v / 0x100_0000) == v
  {
    var a := v / 256;
    assert v / 0x1_0000 == a / 256;
    var b := a / 256;
    assert v / 0x100_0000 == b / 256;
  }

  lemma Reads64(img: Image, off: nat, v: uint64)
    requires Holds(img, off, Enc64(v))
    ensures U64(img, off) == v
  {
    hide Enc32, U32;
    HoldsParts(img, off, Enc32(v % 0x1_0000_0000), Enc32(v / 0x1_0000_0000));
    Reads32(img, off, v % 0x1_0000_0000);
    Reads32(img, off + 4, v / 0x1_0000_0000);
  }

  // ---------------------------------------------------------------------------
  // Writing
  // ---------------------------------------------------------------------------

  method Put(buf: array<byte>, off: nat, bytes: seq<byte>)
    requires off + |bytes| <= buf.Length
    modifies buf
    ensures Holds(buf[..], off, bytes) && buf[..off] == old(buf[..off])
    ensures buf[off + |bytes|..] == old(buf[off + |bytes|..])
  {
    forall i | 0 <= i < |bytes| { buf[off + i] := bytes[i]; }
  }

  /** The words stand one after the other from `off`. */
  ghost predicate HoldsWords(img: Image, off: nat, words: seq<uint64>) {
    forall i :: 0 <= i < |words| ==> Holds(img, off + 8 * i, Enc64(words[i]))
  }

  method PutWords(buf: array<byte>, off: nat, words: seq<uint64>)
    requires off + 8 * |words| <= buf.Length
    modifies buf
    ensures HoldsWords(buf[..], off, words) && buf[..off] == old(buf[..off])
  {
    hide Enc64, Holds;
    for i := 0 to |words|
      invariant HoldsWords(buf[..], off, words[..i]) && buf[..off] == old(buf[..off])
    {
      ghost var img := buf[..];
      Put(buf, off + 8 * i, Enc64(words[i]));
      WordsSnoc(img, buf[..], off, words, i);
      assert buf[..off] == buf[..off + 8 * i][..off];
    }
    assert words[..|words|] == words;
  }

  lemma WordsSnoc(img: Image, img': Image, off: nat, words: seq<uint64>, i: nat)
    requires i < |words| && off + 8 * i <= |img| == |img'| && HoldsWords(img, off, words[..i])
    requires img'[..off + 8 * i] == img[..off + 8 * i] && Holds(img', off + 8 * i, Enc64(words[i]))
    ensures HoldsWords(img', off, words[..i + 1])
  {
    hide Enc64, Holds;
    forall j | 0 <= j < |words[..i + 1]| ensures Holds(img', off + 8 * j, Enc64(words[..i + 1][j])) {
      if j < i {
        assert words[..i][j] == words[j];
        HoldsKept(img, img', off + 8 * i, off + 8 * j, Enc64(words[j]));
      }
    }
  }

  lemma WordsKept(img: Image, img': Image, cut: nat, off: nat, words: seq<uint64>)
    requires HoldsWords(img, off, words) && off + 8 * |words| <= cut <= |img| == |img'| && img'[..cut] == img[..cut]
    ensures HoldsWords(img', off, words)
  {
    hide Enc64, Holds;
    forall i | 0 <= i < |words| ensures Holds(img', off + 8 * i, Enc64(words[i])) {
      HoldsKept(img, img', cut, off + 8 * i, Enc64(words[i]));
    }
  }

  ghost predicate HoldsOffs(img: Image, off: nat, offs: seq<nat>) {
    forall i :: 0 <= i < |offs| ==> offs[i] < 0x1_0000_0000 && Holds(img, off + 4 * i, Enc32(offs[i]))
  }

  method PutOffs(buf: array<byte>, off: nat, offs: seq<nat>)
    requires off + 4 * |offs| <= buf.Length && forall i :: 0 <= i < |offs| ==> offs[i] < 0x1_0000_0000
    modifies buf
    ensures HoldsOffs(buf[..], off, offs) && buf[..off] == old(buf[..off])
  {
    hide Enc32, Holds;
    for i := 0 to |offs|
      invariant HoldsOffs(buf[..], off, offs[..i]) && buf[..off] == old(buf[..off])
    {
      ghost var img := buf[..];
      Put(buf, off + 4 * i, Enc32(offs[i]));
      OffsSnoc(img, buf[..], off, offs, i);
      assert buf[..off] == buf[..off + 4 * i][..off];
    }
    assert offs[..|offs|] == offs;
  }

  lemma OffsSnoc(img: Image, img': Image, off: nat, offs: seq<nat>, i: nat)
    requires i < |offs| && off + 4 * i <= |img| == |img'| && HoldsOffs(img, off, offs[..i]) && offs[i] < 0x1_0000_0000
    requires img'[..off + 4 * i] == img[..off + 4 * i] && Holds(img', off + 4 * i, Enc32(offs[i]))
    ensures HoldsOffs(img', off, offs[..i + 1])
  {
    hide Enc32, Holds;
    var s := offs[..i + 1];
    forall j | 0 <= j < |s| ensures s[j] < 0x1_0000_0000 && Holds(img', off + 4 * j, Enc32(s[j])) {
      if j < i {
        assert offs[..i][j] == offs[j];
        HoldsKept(img, img', off + 4 * i, off + 4 * j, Enc32(offs[j]));
      }
    }
  }

  lemma OffsKept(img: Image, img': Image, cut: nat, off: nat, offs: seq<nat>)
    requires HoldsOffs(img, off, offs) && off + 4 * |offs| <= cut <= |img| == |img'| && img'[..cut] == img[..cut]
    ensures HoldsOffs(img', off, offs)
  {
    hide Enc32, Holds;
    forall i | 0 <= i < |offs| ensures offs[i] < 0x1_0000_0000 && Holds(img', off + 4 * i, Enc32(offs[i])) {
      HoldsKept(img, img', cut, off + 4 * i, Enc32(offs[i]));
    }
  }

  /** Bit `i` of the bitmap at `off`. */
  predicate MarkedAt(img: Image, off: nat, i: nat)
    requires off + i / 8 < |img|
  {
    Bit(img[off + i / 8], i % 8)
  }

  /** Bit `i` of the bitmap at `off` says whether document `i` is NULL; the bits past
      the last document are clear. */
  ghost predicate HoldsBits(img: Image, off: nat, nulls: seq<bool>, n: nat) {
    && off + (|nulls| + 7) / 8 <= |img| && n <= |nulls|
    && forall i :: 0 <= i < 8 * ((|nulls| + 7) / 8) ==> (MarkedAt(img, off, i) <==> i < n && nulls[i])
  }

  method PutBits(buf: array<byte>, off: nat, end: nat, nulls: seq<bool>)
    requires off + (|nulls| + 7) / 8 <= end <= buf.Length && forall i :: off <= i < end ==> buf[i] == 0
    modifies buf
    ensures HoldsBits(buf[..], off, nulls, |nulls|) && buf[..off] == old(buf[..off])
    ensures buf[off + (|nulls| + 7) / 8..] == old(buf[off + (|nulls| + 7) / 8..])
  {
    hide Or, Shl, Bit;
    forall i: nat ensures !Bit(0, i % 8) { BitZero(i % 8); }
    for i := 0 to |nulls|
      invariant HoldsBits(buf[..], off, nulls, i) && buf[..off] == old(buf[..off])
      invariant buf[off + (|nulls| + 7) / 8..] == old(buf[off + (|nulls| + 7) / 8..])
    {
      if nulls[i] {
        ghost var img := buf[..];
        OneMoreBit(img, off, nulls, i);
        buf[off + i / 8] := Or(buf[off + i / 8], Shl(1, i % 8));
        assert buf[..] == img[off + i / 8 := Or(img[off + i / 8], Shl(1, i % 8))];
      } else {
        NoMoreBit(buf[..], off, nulls, i);
      }
    }
  }

  lemma NoMoreBit(img: Image, off: nat, nulls: seq<bool>, n: nat)
    requires n < |nulls| && !nulls[n] && HoldsBits(img, off, nulls, n)
    ensures HoldsBits(img, off, nulls, n + 1)
  {
  }

  lemma OneMoreBit(img: Image, off: nat, nulls: seq<bool>, n: nat)
    requires n < |nulls| && nulls[n] && HoldsBits(img, off, nulls, n)
    ensures var x := Or(img[off + n / 8], Shl(1, n % 8));
            x < 256 && HoldsBits(img[off + n / 8 := x], off, nulls, n + 1)
  {
    hide Bit, Or, Shl;
    var old8, x := img[off + n / 8], Or(img[off + n / 8], Shl(1, n % 8));
    forall b: nat ensures Bit(x, b) <==> Bit(old8, b) || b == n % 8 {
      BitOr(old8, Shl(1, n % 8), b);
      BitShl(1, n % 8, b);
      if b >= n % 8 { BitOne(b - n % 8); }
    }
    forall b: nat | b >= 8 ensures !Bit(x, b) {
      WidthOfByte(old8);
      HighBitsClear(old8, b);
    }
    IsByte(x);
    var img' := img[off + n / 8 := x];
    forall i | 0 <= i < 8 * ((|nulls| + 7) / 8) ensures MarkedAt(img', off, i) <==> i < n + 1 && nulls[i] {
      assert MarkedAt(img, off, i) <==> i < n && nulls[i];
      if i / 8 == n / 8 { assert i == n <==> i % 8 == n % 8; }
    }
  }

  lemma BitsKept(img: Image, img': Image, cut: nat, off: nat, nulls: seq<bool>)
    requires HoldsBits(img, off, nulls, |nulls|) && off + (|nulls| + 7) / 8 <= cut <= |img| == |img'|
    requires img'[..cut] == img[..cut]
    ensures HoldsBits(img', off, nulls, |nulls|)
  {
    forall i | 0 <= i < 8 * ((|nulls| + 7) / 8)
      ensures MarkedAt(img', off, i) <==> i < |nulls| && nulls[i]
    {
      assert MarkedAt(img, off, i) <==> i < |nulls| && nulls[i];
      assert img'[off + i / 8] == img'[..cut][off + i / 8] == img[off + i / 8];
    }
  }

  // ---------------------------------------------------------------------------
  // The header
  // ---------------------------------------------------------------------------

  predicate HeaderFits(h: Header) {
    && h.magic < 0x1_0000_0000 && h.version < 0x1_0000 && h.kind < 0x1_0000 && h.ndocs < 0x1_0000_0000
    && h.nullOff < 0x1_0000_0000 && h.zonemapOff < 0x1_0000_0000 && h.valuesOff < 0x1_0000_0000
    && h.docidsOff < 0x1_0000_0000 && h.dictOff < 0x1_0000_0000
  }

  function HeaderBytes(h: Header): (b: seq<byte>)
    requires HeaderFits(h)
    ensures |b| == HEADER
  {
    Enc32(h.magic) + (Enc16(h.version) + (Enc16(h.kind) + (Enc32(h.ndocs) + (Enc32(h.nullOff)
      + (Enc32(h.zonemapOff) + (Enc32(h.valuesOff) + (Enc32(h.docidsOff) + Enc32(h.dictOff))))))))
  }

  lemma HeaderReads(img: Image, h: Header)
    requires HeaderFits(h) && Holds(img, 0, HeaderBytes(h))
    ensures |img| >= HEADER && HeaderOf(img) == h
  {
    hide Enc16, Enc32, U16, U32, Holds;
    var b8 := Enc32(h.dictOff);
    var b7 := Enc32(h.docidsOff) + b8;
    var b6 := Enc32(h.valuesOff) + b7;
    var b5 := Enc32(h.zonemapOff) + b6;
    var b4 := Enc32(h.nullOff) + b5;
    var b3 := Enc32(h.ndocs) + b4;
    var b2 := Enc16(h.kind) + b3;
    var b1 := Enc16(h.version) + b2;
    HoldsParts(img, 0, Enc32(h.magic), b1);
    HoldsParts(img, 4, Enc16(h.version), b2);
    HoldsParts(img, 6, Enc16(h.kind), b3);
    HoldsParts(img, 8, Enc32(h.ndocs), b4);
    HoldsParts(img, 12, Enc32(h.nullOff), b5);
    HoldsParts(img, 16, Enc32(h.zonemapOff), b6);
    HoldsParts(img, 20, Enc32(h.valuesOff), b7);
    HoldsParts(img, 24, Enc32(h.docidsOff), b8);
    HoldsLong(img, 28, b8);
    Reads32(img, 0, h.magic);
    Reads16(img, 4, h.version);
    Reads16(img, 6, h.kind);
    Reads32(img, 8, h.ndocs);
    Reads32(img, 12, h.nullOff);
    Reads32(img, 16, h.zonemapOff);
    Reads32(img, 20, h.valuesOff);
    Reads32(img, 24, h.docidsOff);
    Reads32(img, 28, h.dictOff);
  }

  lemma HoldsLong(img: Image, off: nat, bytes: seq<byte>)
    requires Holds(img, off, bytes)
    ensures off + |bytes| <= |img|
  {
  }

  // ---------------------------------------------------------------------------
  // The store
  // ---------------------------------------------------------------------------

  datatype Nulls = NoNulls | Marked(marks: seq<bool>)

  /** Versions 1 and 2 hold signed values, version 3 ordinals into a dictionary. */
  datatype Store = Store(version: nat, values: seq<int>, docids: seq<uint64>, nulls: Nulls,
                         offs: seq<nat>, blob: seq<byte>)

  predicate Marks(t: Store, i: nat)
    requires t.nulls.Marked? ==> |t.nulls.marks| == |t.values|
    requires i < |t.values|
  {
    t.nulls.Marked? && t.nulls.marks[i]
  }

  function BitmapOff(t: Store): nat { Align8(HEADER + 16 * |t.values|) }

  function BitmapEnd(t: Store): nat {
    if t.nulls.Marked? then BitmapOff(t) + (|t.values| + 7) / 8 else HEADER + 16 * |t.values|
  }

  function DictStart(t: Store): nat { Align8(BitmapEnd(t)) }

  function BlobStart(t: Store): nat { DictStart(t) + 4 + 4 * |t.offs| }

  /** Ordinals that name entries, monotone offsets that fit 32 bits. */
  ghost predicate DictBuildable(t: Store)
    requires t.nulls.Marked? ==> |t.nulls.marks| == |t.values|
  {
    && (forall i :: 0 <= i < |t.values| && !Marks(t, i) ==> 0 <= t.values[i] < |t.offs| - 1)
    && 0 < |t.offs| <= 0x1_0000_0000 && t.offs[0] == 0 && t.offs[|t.offs| - 1] == |t.blob|
    && (forall i, j :: 0 <= i <= j < |t.offs| ==> t.offs[i] <= t.offs[j])
    && |t.blob| < 0x1_0000_0000 && DictStart(t) < 0x1_0000_0000
  }

  /** Ascending docids, 64-bit values, regions whose offsets fit 32 bits, and for a
      text store a dictionary. */
  ghost predicate Buildable(t: Store) {
    && 1 <= t.version <= 3 && (t.version == 1 ==> t.nulls.NoNulls?)
    && |t.docids| == |t.values| && (t.nulls.Marked? ==> |t.nulls.marks| == |t.values|)
    && (forall i :: 0 <= i < |t.values| ==> -0x8000_0000_0000_0000 <= t.values[i] < 0x8000_0000_0000_0000)
    && Ascends(t.docids)
    && HEADER + 8 * |t.values| < 0x1_0000_0000 && (t.nulls.Marked? ==> BitmapOff(t) < 0x1_0000_0000)
    && (t.version == 3 ==> DictBuildable(t))
  }

  function StoreHeader(t: Store): Header {
    Header(MAGIC, t.version, if t.version == 3 then KIND_TEXT else KIND_INT8, |t.values|,
           if t.nulls.Marked? then BitmapOff(t) else 0, 0,
           HEADER, HEADER + 8 * |t.values|, if t.version == 3 then DictStart(t) else 0)
  }

  function Words(t: Store): (w: seq<uint64>)
    requires forall i :: 0 <= i < |t.values| ==> -0x8000_0000_0000_0000 <= t.values[i] < 0x8000_0000_0000_0000
    ensures |w| == |t.values|
  {
    seq(|t.values|, i requires 0 <= i < |t.values| => Unsigned(t.values[i]))
  }

  /** The header, both arrays and the bitmap. */
  ghost predicate DocsLaid(img: Image, t: Store)
    requires Buildable(t)
  {
    && HeaderFits(StoreHeader(t)) && Holds(img, 0, HeaderBytes(StoreHeader(t)))
    && HoldsWords(img, HEADER, Words(t)) && HoldsWords(img, HEADER + 8 * |t.values|, t.docids)
    && (t.nulls.Marked? ==> HoldsBits(img, BitmapOff(t), t.nulls.marks, |t.values|))
  }

  /** Every region of a text store is where the layout puts it. */
  ghost predicate Laid(img: Image, t: Store)
    requires Buildable(t) && t.version == 3
  {
    && BlobStart(t) + |t.blob| <= |img| && DocsLaid(img, t)
    && |t.offs| - 1 < 0x1_0000_0000 && Holds(img, DictStart(t), Enc32(|t.offs| - 1))
    && HoldsOffs(img, DictStart(t) + 4, t.offs) && Holds(img, BlobStart(t), t.blob)
  }

  /** Where the zeroes under the bitmap begin and end: a text store's run from the
      docids to the dictionary. */
  function ZeroStart(t: Store): nat { if t.version == 3 then HEADER + 16 * |t.values| else BitmapOff(t) }

  function ZeroEnd(t: Store): nat { if t.version == 3 then DictStart(t) else BitmapEnd(t) }

  /** Between the docids and the dictionary only bits of the bitmap are set. */
  ghost predicate Padded(img: Image, t: Store) {
    DictStart(t) <= |img|
    && forall i :: HEADER + 16 * |t.values| <= i < DictStart(t)
                   && !(t.nulls.Marked? && BitmapOff(t) <= i < BitmapEnd(t))
         ==> img[i] == 0
  }

  lemma PaddedKept(s: Image, s': Image, t: Store)
    requires Padded(s, t) && |s| == |s'| && s'[..DictStart(t)] == s[..DictStart(t)]
    ensures Padded(s', t)
  {
    forall i | 0 <= i < DictStart(t) ensures s'[i] == s[i] {
      assert s'[i] == s'[..DictStart(t)][i] && s[i] == s[..DictStart(t)][i];
    }
  }

  lemma PaddedByZeros(zeros: Image, s: Image, t: Store)
    requires Buildable(t) && t.version == 3 && DictStart(t) <= |zeros| == |s|
    requires forall i :: HEADER + 16 * |t.values| <= i < DictStart(t) ==> zeros[i] == 0
    requires if t.nulls.Marked?
             then s[..BitmapOff(t)] == zeros[..BitmapOff(t)] && s[BitmapEnd(t)..] == zeros[BitmapEnd(t)..]
             else s == zeros
    ensures Padded(s, t)
  {
    Fits(t);
    hide Buildable;
    if t.nulls.Marked? {
      forall i | 0 <= i < BitmapOff(t) ensures s[i] == zeros[i] {
        assert s[i] == s[..BitmapOff(t)][i] && zeros[i] == zeros[..BitmapOff(t)][i];
      }
      forall i | BitmapEnd(t) <= i < |s| ensures s[i] == zeros[i] {
        assert s[i] == s[BitmapEnd(t)..][i - BitmapEnd(t)] && zeros[i] == zeros[BitmapEnd(t)..][i - BitmapEnd(t)];
      }
    }
  }

  method PutDocs(t: Store, buf: array<byte>)
    requires Buildable(t) && ZeroEnd(t) <= buf.Length
    modifies buf
    ensures DocsLaid(buf[..], t) && (t.version == 3 ==> Padded(buf[..], t))
  {
    hide Holds, HoldsWords, HoldsBits, HeaderBytes, Buildable, Padded;
    Fits(t);
    Put(buf, 0, HeaderBytes(StoreHeader(t)));
    ghost var s0 := buf[..];
    PutWords(buf, HEADER, Words(t));
    ghost var s1 := buf[..];
    HoldsKept(s0, s1, HEADER, 0, HeaderBytes(StoreHeader(t)));
    var doff, dend := HEADER + 8 * |t.values|, HEADER + 16 * |t.values|;
    PutWords(buf, doff, t.docids);
    ghost var s2 := buf[..];
    KeepStart(s1, s2, doff, t);
    WordsKept(s1, s2, doff, HEADER, Words(t));
    forall i | ZeroStart(t) <= i < ZeroEnd(t) { buf[i] := 0; }
    ghost var s3 := buf[..];
    if t.nulls.Marked? {
      PutBits(buf, BitmapOff(t), ZeroEnd(t), t.nulls.marks);
      Shorter(s3, buf[..], dend, BitmapOff(t));
    }
    ghost var s4 := buf[..];
    if t.version == 3 { PaddedByZeros(s3, s4, t); }
    assert s4[..dend] == s2[..dend];
    KeepStart(s2, s4, dend, t);
    WordsKept(s2, s4, dend, HEADER, Words(t));
    WordsKept(s2, s4, dend, doff, t.docids);
  }

  /** Fill `buf` with a store of signed values. */
  method BuildInt8(t: Store, buf: array<byte>)
    requires Buildable(t) && t.version < 3 && BitmapEnd(t) <= buf.Length
    modifies buf
    ensures WellFormed(buf[..]) && ReadsBack(buf[..], t) && HeaderOf(buf[..]).dictOff == 0
  {
    hide Holds, WellFormed, ReadsBack, DocsLaid, Buildable;
    PutDocs(t, buf);
    LaidReadsBackInt8(buf[..], t);
  }

  /** Fill `buf` with a text store, region after region. */
  method BuildText(t: Store, buf: array<byte>)
    requires Buildable(t) && t.version == 3 && BlobStart(t) + |t.blob| <= buf.Length
    modifies buf
    ensures WellFormed(buf[..]) && ReadsBack(buf[..], t) && Padded(buf[..], t)
  {
    hide Holds, HoldsOffs, Enc32, WellFormed, ReadsBack, DocsLaid, Buildable, Padded;
    Fits(t);
    PutDocs(t, buf);
    ghost var s4 := buf[..];
    Put(buf, DictStart(t), Enc32(|t.offs| - 1));
    ghost var s5 := buf[..];
    PutOffs(buf, DictStart(t) + 4, t.offs);
    ghost var s6 := buf[..];
    HoldsKept(s5, s6, DictStart(t) + 4, DictStart(t), Enc32(|t.offs| - 1));
    Put(buf, BlobStart(t), t.blob);
    ghost var s7 := buf[..];
    HoldsKept(s6, s7, BlobStart(t), DictStart(t), Enc32(|t.offs| - 1));
    OffsKept(s6, s7, BlobStart(t), DictStart(t) + 4, t.offs);
    Shorter(s6, s7, DictStart(t), BlobStart(t));
    Shorter(s5, s6, DictStart(t), DictStart(t) + 4);
    KeepRegions(s4, s7, t);
    PaddedKept(s4, s7, t);
    LaidReadsBack(s7, t);
  }

  lemma Fits(t: Store)
    requires Buildable(t)
    ensures HeaderFits(StoreHeader(t)) && (t.version == 3 ==> 0 <= |t.offs| - 1 < 0x1_0000_0000)
    ensures HEADER + 16 * |t.values| <= BitmapEnd(t) <= ZeroEnd(t) <= DictStart(t) < BlobStart(t)
    ensures |t.docids| == |t.values| && (t.nulls.Marked? ==> |t.nulls.marks| == |t.values|)
    ensures t.nulls.Marked? ==> && HEADER + 16 * |t.values| <= BitmapOff(t) <= BitmapOff(t) + (|t.values| + 7) / 8
                                && BitmapOff(t) + (|t.values| + 7) / 8 == BitmapEnd(t)
    ensures t.nulls.Marked? ==> HEADER + 16 * |t.values| <= ZeroStart(t) <= BitmapOff(t)
    ensures forall i :: 0 <= i < |t.values| ==> -0x8000_0000_0000_0000 <= t.values[i] < 0x8000_0000_0000_0000
    ensures t.version == 3 ==> forall i :: 0 <= i < |t.offs| ==> t.offs[i] < 0x1_0000_0000
  {
  }

  lemma Shorter(s: Image, s': Image, cut: nat, longer: nat)
    requires cut <= longer <= |s| == |s'| && s'[..longer] == s[..longer]
    ensures s'[..cut] == s[..cut]
  {
    assert s'[..cut] == s'[..longer][..cut];
    assert s[..cut] == s[..longer][..cut];
  }

  lemma KeepStart(s: Image, s': Image, cut: nat, t: Store)
    requires HeaderFits(StoreHeader(t)) && Holds(s, 0, HeaderBytes(StoreHeader(t)))
    requires HEADER <= cut <= |s| == |s'| && s'[..cut] == s[..cut]
    ensures Holds(s', 0, HeaderBytes(StoreHeader(t)))
  {
    HoldsKept(s, s', cut, 0, HeaderBytes(StoreHeader(t)));
  }

  /** What was written before the dictionary stands after it is. */
  lemma KeepRegions(s: Image, s': Image, t: Store)
    requires Buildable(t) && DocsLaid(s, t)
    requires DictStart(t) <= |s| == |s'| && s'[..DictStart(t)] == s[..DictStart(t)]
    ensures DocsLaid(s', t)
  {
    hide Holds, HoldsWords, HoldsBits, Buildable;
    Fits(t);
    var cut := DictStart(t);
    HoldsKept(s, s', cut, 0, HeaderBytes(StoreHeader(t)));
    WordsKept(s, s', cut, HEADER, Words(t));
    WordsKept(s, s', cut, HEADER + 8 * |t.values|, t.docids);
    if t.nulls.Marked? { BitsKept(s, s', cut, BitmapOff(t), t.nulls.marks); }
  }

  // ---------------------------------------------------------------------------
  // Reading back
  // ---------------------------------------------------------------------------

  /** The readers return what was stored, document by document and entry by entry. */
  ghost predicate ReadsBack(img: Image, t: Store) {
    && WellFormed(img) && HeaderOf(img).version == t.version && HeaderOf(img).ndocs == |t.values| == |t.docids|
    && (t.nulls.Marked? ==> |t.nulls.marks| == |t.values|)
    && (forall i :: 0 <= i < |t.values| ==>
          Value(img, i) == t.values[i] && Docid(img, i) == t.docids[i] && (IsNull(img, i) <==> Marks(t, i)))
    && (t.version == 3 ==> Ndict(img) == |t.offs| - 1 && forall j :: 0 <= j < |t.offs| - 1 ==> EntryReads(img, t, j))
  }

  ghost predicate EntryReads(img: Image, t: Store, j: nat)
    requires DictOk(img) && j < Ndict(img) && j + 1 < |t.offs|
  {
    t.offs[j] <= t.offs[j + 1] <= |t.blob| && Entry(img, j) == t.blob[t.offs[j]..t.offs[j + 1]]
  }

  lemma ReadsDocs(img: Image, t: Store, i: nat)
    requires Buildable(t) && DocsLaid(img, t) && FixedPart(img) && HeaderOf(img) == StoreHeader(t) && i < |t.values|
    ensures Value(img, i) == t.values[i] && Docid(img, i) == t.docids[i] && (IsNull(img, i) <==> Marks(t, i))
  {
    hide Holds, Enc64, Enc32, U64, FixedPart;
    Reads64(img, HEADER + 8 * i, Words(t)[i]);
    Reads64(img, HEADER + 8 * |t.values| + 8 * i, t.docids[i]);
    if t.nulls.Marked? { assert MarkedAt(img, BitmapOff(t), i) <==> t.nulls.marks[i]; }
  }

  lemma LaidFixed(img: Image, t: Store)
    requires Buildable(t) && DocsLaid(img, t) && BitmapEnd(t) <= |img|
    ensures FixedPart(img) && HeaderOf(img) == StoreHeader(t)
  {
    hide Holds, HoldsWords, HoldsOffs, HoldsBits, HeaderBytes, HeaderOf;
    Fits(t);
    HeaderReads(img, StoreHeader(t));
  }

  lemma LaidDict(img: Image, t: Store)
    requires Buildable(t) && t.version == 3 && Laid(img, t) && FixedPart(img) && HeaderOf(img) == StoreHeader(t)
    ensures DictOk(img) && Ndict(img) == |t.offs| - 1
    ensures forall j :: 0 <= j < |t.offs| ==> Offs(img, j) == t.offs[j]
  {
    hide Holds, HoldsWords, HoldsBits, HeaderBytes, HeaderOf, Enc32, U32;
    Fits(t);
    Reads32(img, DictStart(t), |t.offs| - 1);
    forall j | 0 <= j < |t.offs| ensures DictFits(img) && Ndict(img) == |t.offs| - 1 && Offs(img, j) == t.offs[j] {
      Reads32(img, DictStart(t) + 4 + 4 * j, t.offs[j]);
    }
    assert Offs(img, 0) == 0;
  }

  lemma LaidEntry(img: Image, t: Store, j: nat)
    requires Buildable(t) && t.version == 3 && Laid(img, t) && DictOk(img) && HeaderOf(img) == StoreHeader(t)
    requires Ndict(img) == |t.offs| - 1 && j < |t.offs| - 1
    requires Offs(img, j) == t.offs[j] && Offs(img, j + 1) == t.offs[j + 1]
    ensures EntryReads(img, t, j)
  {
    hide HoldsWords, HoldsBits, HoldsOffs, HeaderBytes, HeaderOf, Enc32, U32, DictOk, Ndict, Offs;
    assert t.offs[j] <= t.offs[j + 1] <= t.offs[|t.offs| - 1];
    var b := BlobStart(t);
    HoldsSlice(img, b, t.blob, t.offs[j], t.offs[j + 1]);
    assert OffsEnd(StoreHeader(t), |t.offs| - 1) == b;
  }

  lemma HoldsSlice(img: Image, off: nat, bytes: seq<byte>, x: nat, y: nat)
    requires Holds(img, off, bytes) && x <= y <= |bytes|
    ensures off + y <= |img| && img[off + x..off + y] == bytes[x..y]
  {
    forall i | x <= i < y ensures img[off + i] == bytes[i] { HoldsAt(img, off, bytes, i); }
    var a, b := img[off + x..off + y], bytes[x..y];
    forall i | 0 <= i < y - x ensures a[i] == b[i] { assert a[i] == img[off + (x + i)]; }
  }

  /** The documents of a laid store read back. */
  lemma LaidDocs(img: Image, t: Store)
    requires Buildable(t) && DocsLaid(img, t) && BitmapEnd(t) <= |img|
    ensures FixedPart(img) && HeaderOf(img) == StoreHeader(t) && DocidsAscend(img)
    ensures forall i :: 0 <= i < |t.values| ==>
              Value(img, i) == t.values[i] && Docid(img, i) == t.docids[i] && (IsNull(img, i) <==> Marks(t, i))
  {
    hide DocsLaid, FixedPart, HeaderOf, Value, Docid, IsNull;
    LaidFixed(img, t);
    forall i | 0 <= i < |t.values|
      ensures Value(img, i) == t.values[i] && Docid(img, i) == t.docids[i] && (IsNull(img, i) <==> Marks(t, i))
    {
      ReadsDocs(img, t, i);
    }
  }

  lemma LaidReadsBackInt8(img: Image, t: Store)
    requires Buildable(t) && t.version < 3 && DocsLaid(img, t) && BitmapEnd(t) <= |img|
    ensures WellFormed(img) && ReadsBack(img, t) && HeaderOf(img).dictOff == 0
  {
    hide DocsLaid, FixedPart, HeaderOf, Value, Docid, IsNull, DocidsAscend;
    LaidDocs(img, t);
  }

  lemma LaidReadsBack(img: Image, t: Store)
    requires Buildable(t) && t.version == 3 && Laid(img, t)
    ensures WellFormed(img) && ReadsBack(img, t)
  {
    Fits(t);
    hide DocsLaid, FixedPart, DictOk, DictFits, HeaderOf, Value, Docid, IsNull, Ndict, Offs, Entry, DocidsAscend;
    LaidDocs(img, t);
    hide Laid;
    LaidDict(img, t);
    forall j | 0 <= j < |t.offs| - 1 ensures EntryReads(img, t, j) { LaidEntry(img, t, j); }
  }
}
