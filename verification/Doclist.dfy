/** The segment document list: the validator, the decoder it licenses, and the
    sort that precedes every write (include/weave/doclist.h). The sparse-map
    encoding is not modelled: a set is the answers its iterator gives, in order.
  */
module Doclist {
  import opened Basics
  import opened Bits
  import opened DocvalStore

  const DOCLIST_MAGIC: nat := 0x57444c31
  const HDRSIZE: nat := 40

  /** The answers the member iterator gives over the bytes of one set. */
  type Members = seq<byte> -> seq<uint64>

  datatype ListHeader = ListHeader(magic: nat, version: nat, flags: nat, ndocs: nat, nnull: nat,
                                   alllen: nat, nulllen: nat, reserved: nat, reserved2: nat)

  function ListHeaderOf(img: Image): ListHeader
    requires |img| >= HDRSIZE
  {
    ListHeader(U32(img, 0), U16(img, 4), U16(img, 6), U64(img, 8), U64(img, 16),
               U32(img, 24), U32(img, 28), U32(img, 32), U32(img, 36))
  }

  function NullOff(alllen: nat): nat { HDRSIZE + Align8(alllen) }

  predicate HeaderOk(img: Image) {
    && |img| >= HDRSIZE
    && var h := ListHeaderOf(img);
       && h.magic == DOCLIST_MAGIC && h.version == 1 && h.flags < 2 && h.reserved == 0 && h.reserved2 == 0
       && 0 < h.ndocs && h.nnull <= h.ndocs && (h.nnull == 0 <==> h.nulllen == 0)
       && h.alllen >= 8 && (h.nulllen != 0 ==> h.nulllen >= 8)
       && NullOff(h.alllen) + h.nulllen == |img|
  }

  function AllBytes(img: Image): seq<byte>
    requires |img| >= HDRSIZE && NullOff(ListHeaderOf(img).alllen) + ListHeaderOf(img).nulllen == |img|
  {
    img[HDRSIZE..HDRSIZE + ListHeaderOf(img).alllen]
  }

  function NullBytes(img: Image): seq<byte>
    requires |img| >= HDRSIZE && NullOff(ListHeaderOf(img).alllen) + ListHeaderOf(img).nulllen == |img|
  {
    img[NullOff(ListHeaderOf(img).alllen)..]
  }

  /** ALL has the declared size, NULL has the declared size and is part of ALL. */
  ghost predicate SetsOk(all: seq<uint64>, nul: seq<uint64>, ndocs: nat, nnull: nat) {
    && Ascends(all) && |all| == ndocs
    && (nnull > 0 ==> Ascends(nul) && |nul| == nnull && forall i :: 0 <= i < |nul| ==> nul[i] in all)
  }

  ghost predicate Sound(img: Image, members: Members) {
    && HeaderOk(img)
    && SetsOk(members(AllBytes(img)), members(NullBytes(img)), ListHeaderOf(img).ndocs, ListHeaderOf(img).nnull)
  }

  // ---------------------------------------------------------------------------
  // The walk
  // ---------------------------------------------------------------------------

  /** One walk over a set, refusing a member that does not ascend. */
  class Walk {
    const raw: seq<uint64>
    var pos: nat
    var last: uint64
    var started: bool

    ghost predicate Valid()
      reads this
    {
      && pos <= |raw| && (started <==> pos > 0) && (pos > 0 ==> last == raw[pos - 1]) && Ascends(raw[..pos])
    }

    constructor (raw: seq<uint64>)
      ensures Valid() && pos == 0 && this.raw == raw
    {
      this.raw := raw;
      pos, last, started := 0, 0, false;
    }

    method Next() returns (more: bool, v: uint64, bad: bool)
      requires Valid()
      modifies this
      ensures Valid()
      ensures more ==> !bad && pos == old(pos) + 1 && v == raw[old(pos)]
      ensures !more ==> pos == old(pos)
      ensures !more && !bad ==> pos == |raw|
      ensures bad ==> !Ascends(raw) && old(pos) > 0
    {
      if pos == |raw| { return false, 0, false; }
      v := raw[pos];
      if started && v <= last { return false, 0, true; }
      assert raw[..pos + 1] == raw[..pos] + [v];
      pos, last, started := pos + 1, v, true;
      return true, v, false;
    }
  }

  lemma WholeWalk(w: Walk)
    requires w.Valid() && w.pos == |w.raw|
    ensures Ascends(w.raw)
  {
    assert w.raw[..w.pos] == w.raw;
  }

  // ---------------------------------------------------------------------------
  // The validator
  // ---------------------------------------------------------------------------

  /** weave_doclist_check(): accept exactly the sound images. */
  method Check(img: Image, members: Members) returns (r: Verdict)
    ensures r.Accepted? <==> Sound(img, members)
  {
    hide U16, U32, U64;
    if |img| < HDRSIZE { return Refused("shorter than its header"); }
    var h := ListHeaderOf(img);
    if h.magic != DOCLIST_MAGIC { return Refused("magic"); }
    if h.version != 1 { return Refused("version"); }
    if h.flags >= 2 { return Refused("unknown flag bits"); }
    if h.reserved != 0 || h.reserved2 != 0 { return Refused("reserved words"); }
    if h.ndocs == 0 { return Refused("empty"); }
    if h.nnull > h.ndocs { return Refused("more NULL documents than documents"); }
    if (h.nnull == 0) != (h.nulllen == 0) { return Refused("NULL set length"); }
    if h.alllen < 8 || (h.nulllen != 0 && h.nulllen < 8) { return Refused("set shorter than its header"); }
    if NullOff(h.alllen) + h.nulllen != |img| { return Refused("length"); }
    var wa := new Walk(members(AllBytes(img)));
    if h.nnull == 0 {
      r := CheckAll(wa, h.ndocs);
    } else {
      var wn := new Walk(members(NullBytes(img)));
      r := CheckBoth(wa, wn, h.ndocs, h.nnull);
    }
  }

  method CheckAll(wa: Walk, ndocs: nat) returns (r: Verdict)
    requires wa.Valid() && wa.pos == 0
    modifies wa
    ensures r.Accepted? <==> Ascends(wa.raw) && |wa.raw| == ndocs
  {
    var more, a, bad := wa.Next();
    var na := 0;
    while more
      invariant wa.Valid() && (more ==> na + 1 == wa.pos) && (!more ==> na == wa.pos)
      invariant !more && !bad ==> wa.pos == |wa.raw|
      invariant bad ==> !Ascends(wa.raw)
      decreases |wa.raw| - wa.pos, more
    {
      na := na + 1;
      more, a, bad := wa.Next();
    }
    if bad { return Refused("ALL set does not ascend"); }
    WholeWalk(wa);
    return if na == ndocs then Accepted else Refused("ALL set disagrees with ndocs");
  }

  /** Everything walked in ALL so far, except the member in hand, is below `x`. */
  ghost predicate AllBelow(raw: seq<uint64>, n: nat, x: uint64)
    requires n <= |raw|
  {
    forall i :: 0 <= i < n ==> raw[i] < x
  }

  ghost predicate SubsetSoFar(nul: seq<uint64>, nn: nat, all: seq<uint64>, na: nat)
    requires nn <= |nul| && na <= |all|
  {
    forall i :: 0 <= i < nn ==> nul[i] in all[..na]
  }

  lemma PrefixMembers(nul: seq<uint64>, nn: nat, all: seq<uint64>, na: nat, na': nat)
    requires nn <= |nul| && na <= na' <= |all| && SubsetSoFar(nul, nn, all, na)
    ensures SubsetSoFar(nul, nn, all, na')
  {
    assert all[..na'] == all[..na] + all[na..na'];
  }

  /** Advance ALL to the first member not below `x`. */
  method AdvanceTo(wa: Walk, x: uint64, havea0: bool, a0: uint64) returns (havea: bool, a: uint64, bad: bool)
    requires wa.Valid() && (havea0 ==> wa.pos > 0 && a0 == wa.raw[wa.pos - 1])
    requires !havea0 ==> wa.pos == |wa.raw|
    requires AllBelow(wa.raw, if havea0 then wa.pos - 1 else wa.pos, x)
    modifies wa
    ensures wa.Valid() && wa.pos >= old(wa.pos) && (bad ==> !havea && !Ascends(wa.raw))
    ensures havea ==> wa.pos > 0 && a == wa.raw[wa.pos - 1] && a >= x
    ensures !havea && !bad ==> wa.pos == |wa.raw|
    ensures AllBelow(wa.raw, if havea then wa.pos - 1 else wa.pos, x)
  {
    havea, a, bad := havea0, a0, false;
    while havea && a < x
      invariant wa.Valid() && wa.pos >= old(wa.pos) && (bad ==> !havea && !Ascends(wa.raw))
      invariant havea ==> wa.pos > 0 && a == wa.raw[wa.pos - 1]
      invariant !havea && !bad ==> wa.pos == |wa.raw|
      invariant AllBelow(wa.raw, if havea then wa.pos - 1 else wa.pos, x)
      decreases |wa.raw| - wa.pos, havea
    {
      havea, a, bad := wa.Next();
    }
  }

  /** A member of NULL that ALL has passed by is not in ALL. */
  lemma PassedBy(all: seq<uint64>, pos: nat, havea: bool, x: uint64)
    requires pos <= |all| && Ascends(all) && (havea ==> pos > 0 && all[pos - 1] > x) && (!havea ==> pos == |all|)
    requires AllBelow(all, if havea then pos - 1 else pos, x)
    ensures x !in all
  {
    forall i | 0 <= i < |all| ensures all[i] != x {
      if havea && i >= pos { assert all[pos - 1] < all[i]; }
    }
  }

  method CheckBoth(wa: Walk, wn: Walk, ndocs: nat, nnull: nat) returns (r: Verdict)
    requires wa.Valid() && wa.pos == 0 && wn.Valid() && wn.pos == 0 && wa != wn && nnull > 0
    modifies wa, wn
    ensures r.Accepted? <==> SetsOk(wa.raw, wn.raw, ndocs, nnull)
  {
    hide Ascends, AllBelow;
    var havea, a, bada := wa.Next();
    var more, x, badn := wn.Next();
    NothingBelow(wa.raw, x);
    while more
      invariant wa.Valid() && wn.Valid() && !bada && (badn ==> !more && !Ascends(wn.raw))
      invariant more ==> wn.pos > 0 && x == wn.raw[wn.pos - 1]
      invariant !more && !badn ==> wn.pos == |wn.raw|
      invariant havea ==> wa.pos > 0 && a == wa.raw[wa.pos - 1]
      invariant !havea ==> wa.pos == |wa.raw|
      invariant SubsetSoFar(wn.raw, if more then wn.pos - 1 else wn.pos, wa.raw, wa.pos)
      invariant more ==> AllBelow(wa.raw, if havea then wa.pos - 1 else wa.pos, x)
      decreases |wn.raw| - wn.pos, more
    {
      ghost var pos0 := wa.pos;
      havea, a, bada := AdvanceTo(wa, x, havea, a);
      PrefixMembers(wn.raw, wn.pos - 1, wa.raw, pos0, wa.pos);
      if !havea || a != x {
        NotInAll(wa.raw, wn.raw, wa.pos, wn.pos - 1, havea, bada, x);
        return Refused("NULL set is not a subset of ALL");
      }
      more, x, badn := wn.Next();
      if more { BelowNext(wa, wn, a, x); }
    }
    r := FinishBoth(wa, wn, ndocs, nnull, havea, badn);
  }

  lemma NothingBelow(raw: seq<uint64>, x: uint64)
    ensures AllBelow(raw, 0, x)
  {
  }

  lemma NotInAll(all: seq<uint64>, nul: seq<uint64>, pos: nat, i: nat, havea: bool, bad: bool, x: uint64)
    requires pos <= |all| && i < |nul| && nul[i] == x && (bad ==> !Ascends(all))
    requires (havea ==> pos > 0 && all[pos - 1] > x) && (!havea && !bad ==> pos == |all|)
    requires AllBelow(all, if havea then pos - 1 else pos, x)
    ensures !Ascends(all) || x !in all
  {
    if Ascends(all) { PassedBy(all, pos, havea, x); }
  }

  /** The next NULL member is above everything already passed in ALL. */
  lemma BelowNext(wa: Walk, wn: Walk, a: uint64, x: uint64)
    requires wa.Valid() && wn.Valid() && wa.pos > 0 && a == wa.raw[wa.pos - 1]
    requires wn.pos > 1 && wn.raw[wn.pos - 2] == a && wn.raw[wn.pos - 1] == x
    ensures AllBelow(wa.raw, wa.pos - 1, x)
  {
    var s, n := wa.raw[..wa.pos], wn.raw[..wn.pos];
    assert n[wn.pos - 2] < n[wn.pos - 1];
    forall i | 0 <= i < wa.pos - 1 ensures wa.raw[i] < x { assert s[i] < s[wa.pos - 1]; }
  }

  /** Drain ALL, then compare the counts. */
  method FinishBoth(wa: Walk, wn: Walk, ndocs: nat, nnull: nat, havea0: bool, badn: bool) returns (r: Verdict)
    requires wa.Valid() && wn.Valid() && wa != wn && nnull > 0
    requires (badn ==> !Ascends(wn.raw)) && (!badn ==> wn.pos == |wn.raw|)
    requires !havea0 ==> wa.pos == |wa.raw|
    requires SubsetSoFar(wn.raw, wn.pos, wa.raw, wa.pos)
    modifies wa
    ensures r.Accepted? <==> SetsOk(wa.raw, wn.raw, ndocs, nnull)
  {
    hide Ascends;
    ghost var pos0 := wa.pos;
    var havea, bada := havea0, false;
    while havea
      invariant wa.Valid() && wa.pos >= pos0 && (bada ==> !havea && !Ascends(wa.raw))
      invariant !havea && !bada ==> wa.pos == |wa.raw|
      decreases |wa.raw| - wa.pos, havea
    {
      var a;
      havea, a, bada := wa.Next();
    }
    if bada || badn { return Refused("set does not ascend"); }
    WholeWalk(wa);
    WholeWalk(wn);
    PrefixMembers(wn.raw, wn.pos, wa.raw, pos0, wa.pos);
    assert wa.raw[..wa.pos] == wa.raw;
    if wa.pos != ndocs { return Refused("ALL set disagrees with ndocs"); }
    if wn.pos != nnull { return Refused("NULL set disagrees with nnull"); }
    return Accepted;
  }

  // ---------------------------------------------------------------------------
  // The decoder
  // ---------------------------------------------------------------------------

  /** Fill `out` with a set of exactly `n` ascending members. */
  method DecodeSet(raw: seq<uint64>, n: nat, out: array<uint64>) returns (ok: bool)
    requires n <= out.Length
    modifies out
    ensures ok <==> Ascends(raw) && |raw| == n
    ensures ok ==> out[..n] == raw
    ensures out[n..] == old(out[n..])
  {
    hide Ascends;
    var w := new Walk(raw);
    var k := 0;
    var more, v, bad := w.Next();
    while more
      invariant w.Valid() && w.raw == raw && (more ==> k + 1 == w.pos && v == raw[k]) && (!more ==> k == w.pos)
      invariant k <= n && out[..k] == raw[..k] && out[n..] == old(out[n..])
      invariant (!more && !bad ==> k == |raw|) && (bad ==> !more && !Ascends(raw))
      decreases |raw| - w.pos, more
    {
      if k >= n { return false; }
      out[k] := v;
      k := k + 1;
      assert out[..k] == out[..k - 1] + [v] && raw[..k] == raw[..k - 1] + [v];
      more, v, bad := w.Next();
    }
    if bad { return false; }
    WholeWalk(w);
    assert raw[..k] == raw;
    return k == n;
  }

  /** What decoding checks again: the length, and each set's order and size. */
  ghost predicate Consistent(img: Image, members: Members) {
    && |img| >= HDRSIZE
    && var h := ListHeaderOf(img);
       && NullOff(h.alllen) + h.nulllen == |img|
       && Ascends(members(AllBytes(img))) && |members(AllBytes(img))| == h.ndocs
       && (h.nnull > 0 ==> Ascends(members(NullBytes(img))) && |members(NullBytes(img))| == h.nnull)
  }

  /** weave_doclist_decode(), into arrays of at least the declared sizes: exactly
      the consistent images decode, whether validated or not, and nothing is
      written past the declared sizes. */
  method Decode(img: Image, members: Members, all: array<uint64>, nul: array<uint64>) returns (ok: bool)
    requires |img| >= HDRSIZE ==> ListHeaderOf(img).ndocs <= all.Length && ListHeaderOf(img).nnull <= nul.Length
    requires all != nul
    modifies all, nul
    ensures ok <==> Consistent(img, members)
    ensures ok ==> && |img| >= HDRSIZE
                   && var h := ListHeaderOf(img);
                      && Ascends(all[..h.ndocs]) && all[..h.ndocs] == members(AllBytes(img))
                      && (h.nnull > 0 ==> Ascends(nul[..h.nnull]) && nul[..h.nnull] == members(NullBytes(img)))
    ensures |img| >= HDRSIZE ==> all[ListHeaderOf(img).ndocs..] == old(all[ListHeaderOf(img).ndocs..])
    ensures |img| >= HDRSIZE ==> nul[ListHeaderOf(img).nnull..] == old(nul[ListHeaderOf(img).nnull..])
    ensures Sound(img, members) ==>
              ok && forall i :: 0 <= i < ListHeaderOf(img).nnull ==> nul[i] in all[..ListHeaderOf(img).ndocs]
  {
    hide U16, U32, U64;
    if |img| < HDRSIZE { return false; }
    var h := ListHeaderOf(img);
    if NullOff(h.alllen) + h.nulllen != |img| { return false; }
    ok := DecodeSet(members(AllBytes(img)), h.ndocs, all);
    if !ok || h.nnull == 0 { return; }
    ok := DecodeSet(members(NullBytes(img)), h.nnull, nul);
  }

  // ---------------------------------------------------------------------------
  // Sort and dedupe
  // ---------------------------------------------------------------------------

  ghost predicate Sorted(s: seq<uint64>) { forall i, j :: 0 <= i < j < |s| ==> s[i] <= s[j] }

  /** The dedupe loop over a sorted array: what is left ascends strictly and has
      exactly the same members. */
  method Uniq(v: array<uint64>, n: nat) returns (o: nat)
    requires n <= v.Length && Sorted(v[..n])
    modifies v
    ensures o <= n && Ascends(v[..o]) && v[n..] == old(v[n..])
    ensures forall x :: x in v[..o] <==> x in old(v[..n])
  {
    ghost var s := v[..n];
    o := 0;
    for i := 0 to n
      invariant o <= i && Ascends(v[..o]) && v[i..] == old(v[i..])
      invariant forall x :: x in v[..o] <==> x in s[..i]
      invariant o > 0 ==> i > 0 && v[o - 1] == s[i - 1]
      invariant i > 0 ==> o > 0
    {
      assert v[i] == v[i..][0] == old(v[i..])[0] == s[i];
      assert s[..i + 1] == s[..i] + [s[i]];
      if o == 0 || v[o - 1] != v[i] {
        ghost var before := v[..o];
        UniqStep(before, s, i);
        v[o] := v[i];
        o := o + 1;
        assert v[..o] == before + [s[i]];
      }
      assert v[i + 1..] == old(v[i..])[1..];
    }
    assert s[..n] == s;
  }

  lemma UniqStep(before: seq<uint64>, s: seq<uint64>, i: nat)
    requires Sorted(s) && i < |s| && Ascends(before) && (before == [] || before[|before| - 1] != s[i])
    requires forall x :: x in before <==> x in s[..i]
    ensures Ascends(before + [s[i]])
  {
    forall k | 0 <= k < |before| ensures before[k] < s[i] {
      var last := before[|before| - 1];
      assert last in before && last in s[..i];
      var j :| 0 <= j < i && s[..i][j] == last;
      assert s[j] <= s[i] && last < s[i];
      if k < |before| - 1 { assert before[k] < last; }
    }
  }

  /** A set has one strictly ascending list, so what is left does not depend on how
      the library sort orders equal members. */
  lemma {:induction false} OneAscendingList(a: seq<uint64>, b: seq<uint64>)
    requires Ascends(a) && Ascends(b) && forall x :: x in a <==> x in b
    ensures a == b
    decreases |a|
  {
    hide Ascends;
    if a != [] { assert a[0] in a; }
    if b != [] { assert b[0] in b; }
    if a != [] && b != [] {
      var x := a[|a| - 1];
      assert x in a && x in b;
      var y := b[|b| - 1];
      assert y in b && y in a;
      LastIsLargest(a, y);
      LastIsLargest(b, x);
      var a', b' := a[..|a| - 1], b[..|b| - 1];
      FrontAscends(a);
      FrontAscends(b);
      forall z ensures z in a' <==> z in b' {
        BeforeLast(a, z);
        BeforeLast(b, z);
      }
      OneAscendingList(a', b');
      assert a == a' + [x] && b == b' + [y];
    }
  }

  lemma FrontAscends(s: seq<uint64>)
    requires Ascends(s) && s != []
    ensures Ascends(s[..|s| - 1])
  {
  }

  lemma LastIsLargest(s: seq<uint64>, x: uint64)
    requires Ascends(s) && x in s
    ensures x <= s[|s| - 1]
  {
    var i :| 0 <= i < |s| && s[i] == x;
    if i < |s| - 1 { assert s[i] < s[|s| - 1]; }
  }

  lemma BeforeLast(s: seq<uint64>, z: int)
    requires Ascends(s) && s != []
    ensures z in s[..|s| - 1] <==> z in s && z != s[|s| - 1]
  {
    assert s == s[..|s| - 1] + [s[|s| - 1]];
    if z in s[..|s| - 1] {
      var i :| 0 <= i < |s| - 1 && s[i] == z;
      assert s[i] < s[|s| - 1];
    }
  }
}
