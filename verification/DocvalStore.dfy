/** The docvalues store image: its validator, a trust boundary over bytes read
    from disk, and the readers that rely on it (include/weave/docvals.h:75-523,
    611-652). Words are little-endian.
  */
module DocvalStore {
  import opened Bits

  type Image = seq<byte>

  const MAGIC: nat := 0x57445631
  const KIND_INT8: nat := 1
  const KIND_TEXT: nat := 2
  const HEADER: nat := 32

  // ---------------------------------------------------------------------------
  // Words
  // ---------------------------------------------------------------------------

  function ByteAt(img: Image, o: nat): (v: nat)
    requires o < |img|
    ensures v < 256
  {
    img[o]
  }

  function U16(img: Image, o: nat): (v: nat)
    requires o + 2 <= |img|
    ensures v < 0x1_0000
  {
    ByteAt(img, o) + 256 * ByteAt(img, o + 1)
  }

  function U32(img: Image, o: nat): (v: nat)
    requires o + 4 <= |img|
    ensures v < 0x1_0000_0000
  {
    U16(img, o) + 0x1_0000 * U16(img, o + 2)
  }

  function U64(img: Image, o: nat): (v: uint64)
    requires o + 8 <= |img|
  {
    U32(img, o) + 0x1_0000_0000 * U32(img, o + 4)
  }

  /** The signed reading of a 64-bit word. */
  function Signed(v: uint64): int { if v >= 0x8000_0000_0000_0000 then v - 0x1_0000_0000_0000_0000 else v }

  function Align8(x: nat): nat { (x + 7) / 8 * 8 }

  /** The least multiple of eight not below `x`. */
  lemma Align8Is(x: nat)
    ensures Align8(x) % 8 == 0 && x <= Align8(x) < x + 8
  {
  }

  // ---------------------------------------------------------------------------
  // The header and the regions it declares
  // ---------------------------------------------------------------------------

  datatype Header = Header(magic: nat, version: nat, kind: nat, ndocs: nat, nullOff: nat,
                           zonemapOff: nat, valuesOff: nat, docidsOff: nat, dictOff: nat)

  function HeaderOf(img: Image): Header
    requires |img| >= HEADER
  {
    Header(U32(img, 0), U16(img, 4), U16(img, 6), U32(img, 8), U32(img, 12),
           U32(img, 16), U32(img, 20), U32(img, 24), U32(img, 28))
  }

  /** The end of the docid array. */
  function DocidsEnd(h: Header): nat { HEADER + 16 * h.ndocs }

  /** The end of the null bitmap, if there is one. */
  function RegionEnd(h: Header): nat {
    if h.nullOff == 0 then DocidsEnd(h) else Align8(DocidsEnd(h)) + (h.ndocs + 7) / 8
  }

  predicate FixedPart(img: Image) {
    && |img| >= HEADER
    && var h := HeaderOf(img);
       && h.magic == MAGIC && 1 <= h.version <= 3
       && h.kind == (if h.version == 3 then KIND_TEXT else KIND_INT8)
       && h.valuesOff == HEADER && h.zonemapOff == 0
       && h.docidsOff == HEADER + 8 * h.ndocs && DocidsEnd(h) <= |img|
       && (h.nullOff != 0 ==> h.version != 1 && h.nullOff == Align8(DocidsEnd(h)) && RegionEnd(h) <= |img|)
  }

  /** The signed value in slot `i`. */
  function Value(img: Image, i: nat): int
    requires FixedPart(img) && i < HeaderOf(img).ndocs
  {
    Signed(U64(img, HEADER + 8 * i))
  }

  /** The docid in slot `i`. */
  function Docid(img: Image, i: nat): uint64
    requires FixedPart(img) && i < HeaderOf(img).ndocs
  {
    U64(img, HeaderOf(img).docidsOff + 8 * i)
  }

  predicate IsNull(img: Image, i: nat)
    requires FixedPart(img) && i < HeaderOf(img).ndocs
  {
    var h := HeaderOf(img);
    h.nullOff != 0 && Bit(img[h.nullOff + i / 8], i % 8)
  }

  /** The docids ascend strictly. */
  ghost predicate DocidsAscend(img: Image)
    requires FixedPart(img)
  {
    forall i, j :: 0 <= i < j < HeaderOf(img).ndocs ==> Docid(img, i) < Docid(img, j)
  }

  // ---------------------------------------------------------------------------
  // The dictionary
  // ---------------------------------------------------------------------------

  /** The dictionary's offsets lie inside the image. */
  predicate DictFits(img: Image) {
    && FixedPart(img)
    && var h := HeaderOf(img);
       && h.version == 3 && h.dictOff == Align8(RegionEnd(h)) && h.dictOff + 4 <= |img|
       && OffsEnd(h, U32(img, h.dictOff)) <= |img|
  }

  function OffsEnd(h: Header, ndict: nat): nat { h.dictOff + 4 + 4 * (ndict + 1) }

  function Ndict(img: Image): nat
    requires DictFits(img)
  {
    U32(img, HeaderOf(img).dictOff)
  }

  function Offs(img: Image, j: nat): nat
    requires DictFits(img) && j <= Ndict(img)
  {
    U32(img, HeaderOf(img).dictOff + 4 + 4 * j)
  }

  /** Offsets start at 0 and never decrease, and the payload is inside the image. */
  ghost predicate DictOk(img: Image) {
    && DictFits(img) && Offs(img, 0) == 0
    && (forall i, j :: 0 <= i <= j <= Ndict(img) ==> Offs(img, i) <= Offs(img, j))
    && OffsEnd(HeaderOf(img), Ndict(img)) + Offs(img, Ndict(img)) <= |img|
  }

  /** Dictionary entry `ord`, its bytes. */
  function Entry(img: Image, ord: nat): seq<byte>
    requires DictOk(img) && ord < Ndict(img)
  {
    var blob := OffsEnd(HeaderOf(img), Ndict(img));
    assert Offs(img, ord) <= Offs(img, ord + 1) <= Offs(img, Ndict(img));
    img[blob + Offs(img, ord)..blob + Offs(img, ord + 1)]
  }

  /** Every value that is not NULL names an entry. */
  ghost predicate OrdinalsName(img: Image)
    requires DictFits(img)
  {
    forall i :: 0 <= i < HeaderOf(img).ndocs && !IsNull(img, i) ==> 0 <= Value(img, i) < Ndict(img)
  }

  /** What an accepted image guarantees every reader. */
  ghost predicate WellFormed(img: Image) {
    && FixedPart(img) && DocidsAscend(img)
    && (HeaderOf(img).version == 3 ==> DictOk(img) && OrdinalsName(img))
  }

  // ---------------------------------------------------------------------------
  // The validator
  // ---------------------------------------------------------------------------

  datatype Verdict = Accepted | Refused(reason: string)

  /** weave_docvals_validate(): accept exactly the well-formed images. */
  method Validate(img: Image) returns (r: Verdict)
    ensures r.Accepted? <==> WellFormed(img)
  {
    hide U16, U32, U64, Bit;
    r := ValidateFixed(img);
    if r.Refused? { return; }
    var h := HeaderOf(img);
    if h.version == 3 {
      r := ValidateDict(img);
      if r.Refused? { return; }
    }
    r := ValidateDocids(img);
    if r.Refused? { return; }
    if h.version == 3 {
      r := ValidateOrdinals(img);
    }
  }

  method ValidateFixed(img: Image) returns (r: Verdict)
    ensures r.Accepted? <==> FixedPart(img)
  {
    hide U16, U32;
    if |img| < HEADER { return Refused("image shorter than header"); }
    var h := HeaderOf(img);
    if h.magic != MAGIC { return Refused("bad magic"); }
    if h.version != 1 && h.version != 2 && h.version != 3 { return Refused("unsupported version"); }
    if h.version == 3 {
      if h.kind != KIND_TEXT { return Refused("unsupported value kind"); }
    } else if h.kind != KIND_INT8 {
      return Refused("unsupported value kind");
    }
    if h.valuesOff != HEADER { return Refused("values_off"); }
    if h.zonemapOff != 0 { return Refused("zonemap_off"); }
    var docidsNeed := h.valuesOff + h.ndocs * 8;
    if h.docidsOff != docidsNeed { return Refused("docids_off"); }
    var totalNeed := h.docidsOff + h.ndocs * 8;
    if |img| < totalNeed { return Refused("too short for ndocs"); }
    if h.nullOff != 0 {
      var nullNeed := Align8(totalNeed);
      if h.version == 1 { return Refused("null_off set on version 1"); }
      if h.nullOff != nullNeed { return Refused("null_off"); }
      var bitmapEnd := h.nullOff + (h.ndocs + 7) / 8;
      if |img| < bitmapEnd { return Refused("too short for the null bitmap"); }
    }
    return Accepted;
  }

  method ValidateDict(img: Image) returns (r: Verdict)
    requires FixedPart(img) && HeaderOf(img).version == 3
    ensures r.Accepted? <==> DictOk(img)
  {
    hide U16, U32;
    var h := HeaderOf(img);
    var dictNeed := Align8(RegionEnd(h));
    if h.dictOff == 0 { return Refused("no dictionary"); }
    if h.dictOff != dictNeed { return Refused("dict_off"); }
    var offsBase := h.dictOff + 4;
    if |img| < offsBase { return Refused("too short for the dictionary header"); }
    var ndict := U32(img, h.dictOff);
    var offsEnd := offsBase + (ndict + 1) * 4;
    if |img| < offsEnd { return Refused("too short for the dictionary offsets"); }
    var prevo := U32(img, offsBase);
    if prevo != 0 { return Refused("offs[0]"); }
    for j := 1 to ndict + 1
      invariant prevo == Offs(img, j - 1) && Offs(img, 0) == 0
      invariant forall a, b :: 0 <= a <= b <= j - 1 ==> Offs(img, a) <= Offs(img, b)
    {
      var o := U32(img, offsBase + j * 4);
      assert o == Offs(img, j);
      if o < prevo { return Refused("offsets decrease"); }
      prevo := o;
    }
    if |img| < offsEnd + prevo { return Refused("too short for the dictionary blob"); }
    return Accepted;
  }

  method ValidateDocids(img: Image) returns (r: Verdict)
    requires FixedPart(img)
    ensures r.Accepted? <==> DocidsAscend(img)
  {
    hide U64;
    var h := HeaderOf(img);
    var prev: uint64 := 0;
    for i := 0 to h.ndocs
      invariant i > 0 ==> prev == Docid(img, i - 1)
      invariant forall a, b :: 0 <= a < b < i ==> Docid(img, a) < Docid(img, b)
    {
      var d := U64(img, h.docidsOff + i * 8);
      assert d == Docid(img, i);
      if i > 0 && d <= prev { return Refused("docids do not ascend strictly"); }
      prev := d;
    }
    return Accepted;
  }

  method ValidateOrdinals(img: Image) returns (r: Verdict)
    requires DictFits(img)
    ensures r.Accepted? <==> OrdinalsName(img)
  {
    hide U32, U64, Bit;
    for i := 0 to HeaderOf(img).ndocs
      invariant forall a :: 0 <= a < i && !IsNull(img, a) ==> 0 <= Value(img, a) < Ndict(img)
    {
      if !IsNull(img, i) {
        var v := Value(img, i);
        if v < 0 || v >= Ndict(img) { return Refused("ordinal out of range"); }
      }
    }
    return Accepted;
  }
}
