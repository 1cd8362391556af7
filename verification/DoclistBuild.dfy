/** Writing a document list, and reading it back (include/weave/doclist.h:335-395).
    A set's encoding is a function of its members.
  */
module DoclistBuild {
  import opened Basics
  import opened Bits
  import opened DocvalStore
  import opened DocvalBuild
  import opened Doclist

  const UINT32_MAX: nat := 0xFFFF_FFFF

  predicate ListHeaderFits(h: ListHeader) {
    && h.magic < 0x1_0000_0000 && h.version < 0x1_0000 && h.flags < 0x1_0000
    && h.ndocs < 0x1_0000_0000_0000_0000 && h.nnull < 0x1_0000_0000_0000_0000
    && h.alllen < 0x1_0000_0000 && h.nulllen < 0x1_0000_0000
    && h.reserved < 0x1_0000_0000 && h.reserved2 < 0x1_0000_0000
  }

  function ListHeaderBytes(h: ListHeader): (b: seq<byte>)
    requires ListHeaderFits(h)
    ensures |b| == HDRSIZE
  {
    Enc32(h.magic) + (Enc16(h.version) + (Enc16(h.flags) + (Enc64(h.ndocs) + (Enc64(h.nnull)
      + (Enc32(h.alllen) + (Enc32(h.nulllen) + (Enc32(h.reserved) + Enc32(h.reserved2))))))))
  }

  /** The header reads back, field by field. */
  lemma ListHeaderReads(img: Image, h: ListHeader)
    requires ListHeaderFits(h) && Holds(img, 0, ListHeaderBytes(h))
    ensures |img| >= HDRSIZE && ListHeaderOf(img) == h
  {
    hide Enc16, Enc32, Enc64, U16, U32, U64, Holds;
    var b8 := Enc32(h.reserved2);
    var b7 := Enc32(h.reserved) + b8;
    var b6 := Enc32(h.nulllen) + b7;
    var b5 := Enc32(h.alllen) + b6;
    var b4 := Enc64(h.nnull) + b5;
    var b3 := Enc64(h.ndocs) + b4;
    var b2 := Enc16(h.flags) + b3;
    var b1 := Enc16(h.version) + b2;
    HoldsParts(img, 0, Enc32(h.magic), b1);
    HoldsParts(img, 4, Enc16(h.version), b2);
    HoldsParts(img, 6, Enc16(h.flags), b3);
    HoldsParts(img, 8, Enc64(h.ndocs), b4);
    HoldsParts(img, 16, Enc64(h.nnull), b5);
    HoldsParts(img, 24, Enc32(h.alllen), b6);
    HoldsParts(img, 28, Enc32(h.nulllen), b7);
    HoldsParts(img, 32, Enc32(h.reserved), b8);
    HoldsLong(img, 36, b8);
    Reads32(img, 0, h.magic);
    Reads16(img, 4, h.version);
    Reads16(img, 6, h.flags);
    Reads64(img, 8, h.ndocs);
    Reads64(img, 16, h.nnull);
    Reads32(img, 24, h.alllen);
    Reads32(img, 28, h.nulllen);
    Reads32(img, 32, h.reserved);
    Reads32(img, 36, h.reserved2);
  }

  /** What the writer is given, and how it encodes a set. */
  datatype Lists = Lists(all: seq<uint64>, nul: seq<uint64>, flags: nat, encode: seq<uint64> -> seq<byte>)

  function AllPart(s: Lists): seq<byte> { s.encode(s.all) }

  function NullPart(s: Lists): seq<byte> { if |s.nul| > 0 then s.encode(s.nul) else [] }

  function HeaderFor(s: Lists): ListHeader {
    ListHeader(DOCLIST_MAGIC, 1, s.flags, |s.all|, |s.nul|, |AllPart(s)|, |NullPart(s)|, 0, 0)
  }

  /** Sets a machine can hold, and flags of the field's width. */
  predicate Holdable(s: Lists) {
    |s.all| < 0x1_0000_0000_0000_0000 && |s.nul| < 0x1_0000_0000_0000_0000 && s.flags < 0x1_0000
  }

  /** weave_doclist_encode(): header, ALL and NULL, each in its place. */
  method Encode(s: Lists) returns (r: Option<Image>)
    requires Holdable(s)
    ensures r.None? <==> s.all == [] || |AllPart(s)| > UINT32_MAX || |NullPart(s)| > UINT32_MAX
    ensures r.Some? ==> && |r.value| >= HDRSIZE && ListHeaderOf(r.value) == HeaderFor(s)
                        && NullOff(|AllPart(s)|) + |NullPart(s)| == |r.value|
                        && AllBytes(r.value) == AllPart(s) && NullBytes(r.value) == NullPart(s)
    ensures r.Some? ==> forall i :: HDRSIZE + |AllPart(s)| <= i < NullOff(|AllPart(s)|) ==> r.value[i] == 0
  {
    hide Holds, ListHeaderBytes, U16, U32, U64;
    if |s.all| == 0 { return None; }
    var all, nul := AllPart(s), NullPart(s);
    if |all| > UINT32_MAX || |nul| > UINT32_MAX { return None; }
    var h, off := HeaderFor(s), NullOff(|all|);
    var buf := new byte[off + |nul|](_ => 0);
    ghost var zeros := buf[..];
    Put(buf, 0, ListHeaderBytes(h));
    ghost var s0 := buf[..];
    TailKept(zeros, s0, HDRSIZE);
    Put(buf, HDRSIZE, all);
    ghost var s1 := buf[..];
    TailKept(s0, s1, HDRSIZE + |all|);
    HoldsKept(s0, s1, HDRSIZE, 0, ListHeaderBytes(h));
    Put(buf, off, nul);
    ghost var s2 := buf[..];
    Shorter(s1, s2, HDRSIZE, off);
    assert forall i :: 0 <= i < off ==> s2[i] == s2[..off][i] == s1[..off][i] == s1[i];
    HoldsKept(s1, s2, HDRSIZE, 0, ListHeaderBytes(h));
    HoldsKept(s1, s2, off, HDRSIZE, all);
    ListHeaderReads(s2, h);
    HoldsIs(s2, HDRSIZE, all);
    HoldsIs(s2, off, nul);
    r := Some(buf[..]);
  }

  lemma TailKept(img: Image, img': Image, cut: nat)
    requires cut <= |img| == |img'| && img'[cut..] == img[cut..]
    ensures forall i :: cut <= i < |img| ==> img'[i] == img[i]
  {
    forall i | cut <= i < |img| ensures img'[i] == img[i] { assert img'[cut..][i - cut] == img[cut..][i - cut]; }
  }

  lemma HoldsIs(img: Image, off: nat, bytes: seq<byte>)
    requires Holds(img, off, bytes)
    ensures off + |bytes| <= |img| && img[off..off + |bytes|] == bytes
  {
  }

  /** The iterator gives back what the encoder was given, from at least a header. */
  ghost predicate Reversible(s: Lists, members: Members) {
    && members(s.encode(s.all)) == s.all && |s.encode(s.all)| >= 8
    && members(s.encode(s.nul)) == s.nul && |s.encode(s.nul)| >= 8
  }

  /** A written image is accepted, and holds the two sets, if they ascend, NULL lies
      within ALL and the flags are known. */
  lemma WrittenIsSound(s: Lists, img: Image, members: Members)
    requires Holdable(s) && s.all != [] && Reversible(s, members)
    requires |img| >= HDRSIZE && ListHeaderOf(img) == HeaderFor(s)
    requires NullOff(|AllPart(s)|) + |NullPart(s)| == |img|
    requires AllBytes(img) == AllPart(s) && NullBytes(img) == NullPart(s)
    ensures Sound(img, members) <==> && Ascends(s.all) && Ascends(s.nul) && s.flags < 2 && |s.nul| <= |s.all|
                                     && forall i :: 0 <= i < |s.nul| ==> s.nul[i] in s.all
  {
    hide U16, U32, U64, AllBytes, NullBytes;
  }
}
