/** The edit-distance block bound of include/weave/edist.h.

    A dictionary page is summarised by the extremes of its terms' character
    lengths and distinct-trigram counts.  Edits are counted in characters and
    trigrams in bytes, so the trigram deficit has to be divided by the number of
    byte trigrams one character edit can destroy.
  */
module EdistBound {
  import opened Basics
  import opened EditDistance
  import opened EditUnits

  /** The bytes of one character. */
  type Character = seq<byte>

  const UINT32: nat := 0x1_0000_0000

  /** The server encoding, the trigram hash, and the extractor's output cap. */
  datatype Encoding = Encoding(maxcharlen: nat, hash: seq<byte> -> nat, cap: nat)

  /** Characters have 1 to `maxcharlen` bytes, and an ASCII byte is a character. */
  ghost predicate WellEncoded(t: seq<Character>, maxcharlen: nat) {
    forall c | c in t :: 1 <= |c| <= maxcharlen && (c[0] < 0x80 ==> |c| == 1)
  }

  function Bytes(t: seq<Character>): seq<byte> {
    if t == [] then [] else t[0] + Bytes(t[1..])
  }

  predicate AllAscii(s: seq<byte>) { forall i :: 0 <= i < |s| ==> s[i] < 0x80 }

  // ---------------------------------------------------------------------------
  // Trigrams
  // ---------------------------------------------------------------------------

  function Pad(s: seq<byte>): seq<byte>
    requires 0 < |s| < 3
  {
    s + seq(3 - |s|, _ => 0x20 as byte)
  }

  function Gram(s: seq<byte>, i: nat): seq<byte>
    requires i + 3 <= |s|
  {
    s[i..i + 3]
  }

  /** Hashes of the trigrams beginning at positions lo, .., hi - 1. */
  function HashesAt(s: seq<byte>, h: seq<byte> -> nat, lo: nat, hi: nat): (r: set<nat>)
    requires lo <= hi && (lo < hi ==> hi + 2 <= |s|)
    ensures |r| <= hi - lo
    decreases hi - lo
  {
    if lo == hi then {} else HashesAt(s, h, lo, hi - 1) + {h(Gram(s, hi - 1))}
  }

  lemma NoHashes(s: seq<byte>, h: seq<byte> -> nat)
    ensures HashesAt(s, h, 0, 0) == {}
  {
  }

  lemma HashesAtSnoc(s: seq<byte>, h: seq<byte> -> nat, i: nat)
    requires i + 3 <= |s|
    ensures HashesAt(s, h, 0, i + 1) == HashesAt(s, h, 0, i) + {h(s[i..i + 3])}
  {
  }

  lemma AddedCardinality<T>(s: set<T>, x: T)
    ensures x in s ==> s + {x} == s
    ensures x !in s ==> |s + {x}| == |s| + 1
  {
  }

  lemma {:induction false} HashAtMember(s: seq<byte>, h: seq<byte> -> nat, lo: nat, hi: nat, i: nat)
    requires lo <= i < hi && hi + 2 <= |s|
    ensures h(Gram(s, i)) in HashesAt(s, h, lo, hi)
    decreases hi - lo
  {
    if i < hi - 1 { HashAtMember(s, h, lo, hi - 1, i); }
  }

  lemma {:induction false} MemberHashAt(s: seq<byte>, h: seq<byte> -> nat, lo: nat, hi: nat, x: nat) returns (i: nat)
    requires lo <= hi && (lo < hi ==> hi + 2 <= |s|) && x in HashesAt(s, h, lo, hi)
    ensures lo <= i < hi && x == h(Gram(s, i))
    decreases hi - lo
  {
    if x == h(Gram(s, hi - 1)) { i := hi - 1; } else { i := MemberHashAt(s, h, lo, hi - 1, x); }
  }

  /** The distinct trigram hashes of a byte string: one padded trigram when it is
      shorter than three bytes. */
  function Hashes(s: seq<byte>, h: seq<byte> -> nat): set<nat> {
    if s == [] then {}
    else if |s| < 3 then {h(Pad(s))}
    else HashesAt(s, h, 0, |s| - 2)
  }

  /** Which bytes are hashed: each three in a row, or the one or two there are with
      spaces after them. */
  lemma HashesAre(s: seq<byte>, h: seq<byte> -> nat, x: nat)
    ensures |s| == 1 ==> Hashes(s, h) == {h([s[0], 0x20, 0x20])}
    ensures |s| == 2 ==> Hashes(s, h) == {h([s[0], s[1], 0x20])}
    ensures |s| >= 3 ==> (x in Hashes(s, h) <==> exists i :: 0 <= i <= |s| - 3 && x == h(Gram(s, i)))
  {
    if |s| == 1 {
      assert Pad(s) == [s[0], 0x20, 0x20];
    } else if |s| == 2 {
      assert Pad(s) == [s[0], s[1], 0x20];
    } else if |s| >= 3 {
      if x in Hashes(s, h) { var i := MemberHashAt(s, h, 0, |s| - 2, x); }
      if i :| 0 <= i <= |s| - 3 && x == h(Gram(s, i)) { HashAtMember(s, h, 0, |s| - 2, i); }
    }
  }

  /** The count the extractor reports. */
  function Ntrg(s: seq<byte>, enc: Encoding): nat { Min(|Hashes(s, enc.hash)|, enc.cap) }

  /** The deduplicating extractor, which stores at most `cap` hashes. */
  method ExtractTrigrams(s: seq<byte>, enc: Encoding) returns (out: seq<nat>)
    ensures |out| == Ntrg(s, enc)
    ensures forall x | x in out :: x in Hashes(s, enc.hash)
    ensures forall i, j :: 0 <= i < j < |out| ==> out[i] != out[j]
  {
    hide HashesAt, Pad;
    out := [];
    if |s| == 0 { return; }
    if |s| < 3 {
      if 0 < enc.cap { out := [enc.hash(Pad(s))]; }
      return;
    }
    NoHashes(s, enc.hash);
    for i := 0 to |s| - 2
      invariant |out| == Min(|HashesAt(s, enc.hash, 0, i)|, enc.cap)
      invariant forall x | x in out :: x in HashesAt(s, enc.hash, 0, i)
      invariant |out| < enc.cap ==> forall x | x in HashesAt(s, enc.hash, 0, i) :: x in out
      invariant forall a, b :: 0 <= a < b < |out| ==> out[a] != out[b]
    {
      var x := enc.hash(s[i..i + 3]);
      ghost var seen := HashesAt(s, enc.hash, 0, i);
      HashesAtSnoc(s, enc.hash, i);
      AddedCardinality(seen, x);
      var dup := x in out;
      if !dup && |out| < enc.cap { out := out + [x]; }
    }
  }

  // ---------------------------------------------------------------------------
  // One edit loses few trigrams
  // ---------------------------------------------------------------------------

  /** A trigram that does not touch the spliced run survives it. */
  lemma TrigramSurvives(u: seq<byte>, r: seq<byte>, n: seq<byte>, v: seq<byte>, h: seq<byte> -> nat, i: nat)
    requires i + 3 <= |u + r + v| && (i + 3 <= |u| || |u| + |r| <= i)
    ensures h(Gram(u + r + v, i)) in Hashes(u + n + v, h)
  {
    var x, y := u + r + v, u + n + v;
    if i + 3 <= |u| {
      assert Gram(x, i) == u[i..i + 3] == Gram(y, i);
      HashAtMember(y, h, 0, |y| - 2, i);
    } else {
      var j, k := i - |u| - |r|, i - |r| + |n|;
      assert x[|u| + |r|..] == v == y[|u| + |n|..];
      assert Gram(x, i) == x[|u| + |r|..][j..j + 3] == y[|u| + |n|..][j..j + 3] == Gram(y, k);
      HashAtMember(y, h, 0, |y| - 2, k);
    }
  }

  /** Splicing out `r` and splicing in `n` loses at most |r| + 2 distinct trigrams. */
  lemma SpliceLosesFew(u: seq<byte>, r: seq<byte>, n: seq<byte>, v: seq<byte>, h: seq<byte> -> nat)
    ensures |Hashes(u + r + v, h) - Hashes(u + n + v, h)| <= |r| + 2
  {
    var x, y := u + r + v, u + n + v;
    var lost := Hashes(x, h) - Hashes(y, h);
    if |x| < 3 {
      SubsetSize(lost, Hashes(x, h));
    } else {
      var lo := Min(if |u| >= 2 then |u| - 2 else 0, |x| - 2);
      var hi := Min(|u| + |r|, |x| - 2);
      forall g | g in lost ensures g in HashesAt(x, h, lo, hi) {
        var i := MemberHashAt(x, h, 0, |x| - 2, g);
        if i + 3 <= |u| || |u| + |r| <= i {
          TrigramSurvives(u, r, n, v, h, i);
        } else {
          HashAtMember(x, h, lo, hi, i);
        }
      }
      SubsetSize(lost, HashesAt(x, h, lo, hi));
    }
  }

  lemma {:induction false} BytesConcat(a: seq<Character>, b: seq<Character>)
    ensures Bytes(a + b) == Bytes(a) + Bytes(b)
    decreases |a|
  {
    if a == [] {
      assert a + b == b;
    } else {
      assert (a + b)[1..] == a[1..] + b;
      BytesConcat(a[1..], b);
    }
  }

  lemma BytesOfOne(c: Character)
    ensures Bytes([c]) == c
  {
    var one: seq<Character> := [c];
    assert one[1..] == [];
    assert Bytes([]) == [];
  }

  lemma BytesAround(u: seq<Character>, c: seq<Character>, v: seq<Character>)
    ensures Bytes(u + c + v) == Bytes(u) + Bytes(c) + Bytes(v)
  {
    BytesConcat(u + c, v);
    BytesConcat(u, c);
  }

  /** A single edit replaces at most one character by at most one character. */
  lemma EditShape<T(!new)>(x: seq<T>, y: seq<T>, i: nat) returns (u: seq<T>, r: seq<T>, n: seq<T>, v: seq<T>)
    requires EditAt(x, y, i)
    ensures x == u + r + v && y == u + n + v && |r| <= 1 && |n| <= 1
  {
    if i < |x| && y == x[..i] + x[i + 1..] {
      u, r, n, v := x[..i], [x[i]], [], x[i + 1..];
    } else if i < |y| && x == y[..i] + y[i + 1..] {
      u, r, n, v := y[..i], [], [y[i]], y[i + 1..];
    } else {
      u, r, n, v := x[..i], [x[i]], [y[i]], x[i + 1..];
      assert y == y[..i] + [y[i]] + y[i + 1..];
    }
  }

  ghost predicate ShortCharacters(t: seq<Character>, a: nat) { forall c | c in t :: |c| <= a }

  /** One character edit, of characters of at most `a` bytes, loses at most a + 2
      distinct byte trigrams. */
  lemma EditLosesFew(x: seq<Character>, y: seq<Character>, i: nat, a: nat, h: seq<byte> -> nat)
    requires EditAt(x, y, i) && ShortCharacters(x, a)
    ensures |Hashes(Bytes(x), h) - Hashes(Bytes(y), h)| <= a + 2
  {
    var u, r, n, v := EditShape(x, y, i);
    BytesAround(u, r, v);
    BytesAround(u, n, v);
    assert |Bytes(r)| <= a by {
      if r != [] { assert r[0] in x; BytesOfOne(r[0]); assert r == [r[0]]; }
    }
    SpliceLosesFew(Bytes(u), Bytes(r), Bytes(n), Bytes(v), h);
  }

  lemma LossesAdd(a: set<nat>, b: set<nat>, c: set<nat>)
    ensures |a - c| <= |a - b| + |b - c|
  {
    SubsetSize(a - c, (a - b) + (b - c));
  }

  lemma {:induction false} ScriptLosesFew(path: seq<seq<Character>>, p: seq<Character>, t: seq<Character>,
                                          a: nat, h: seq<byte> -> nat)
    requires Script(path, p, t)
    requires forall i :: 0 <= i < |path| ==> ShortCharacters(path[i], a)
    ensures |Hashes(Bytes(p), h) - Hashes(Bytes(t), h)| <= (a + 2) * (|path| - 1)
    decreases |path|
  {
    if |path| > 1 {
      var q := path[..|path| - 1];
      var last := q[|q| - 1];
      ScriptLosesFew(q, p, last, a, h);
      assert OneEdit(path[|q| - 1], path[|q|]);
      var i: nat :| EditAt(last, t, i);
      EditLosesFew(last, t, i, a, h);
      LossesAdd(Hashes(Bytes(p), h), Hashes(Bytes(last), h), Hashes(Bytes(t), h));
      assert (a + 2) * (|q| - 1) + (a + 2) == (a + 2) * (|path| - 1);
    }
  }

  /** The trigram deficit: each edit accounts for at most a + 2 of it.  Capping
      both counts cannot widen it. */
  lemma TrigramDeficit(p: seq<Character>, t: seq<Character>, a: nat, enc: Encoding)
    requires ShortCharacters(p, a) && ShortCharacters(t, a)
    ensures Ntrg(Bytes(p), enc) - Ntrg(Bytes(t), enc) <= (a + 2) * Lev(p, t)
  {
    var path := OptimalScript(p, t);
    forall i | 0 <= i < |path| ensures ShortCharacters(path[i], a) {
      assert Within(path[i], p, t);
    }
    ScriptLosesFew(path, p, t, a, enc.hash);
    var hp, ht := Hashes(Bytes(p), enc.hash), Hashes(Bytes(t), enc.hash);
    assert hp == (hp - ht) + (hp * ht);
    SubsetSize(hp * ht, ht);
  }

  // ---------------------------------------------------------------------------
  // The block statistics and the bound
  // ---------------------------------------------------------------------------

  /** What is measured of one term or of the pattern. */
  datatype Measure = Measure(bytes: nat, chars: nat, ntrg: nat, ascii: bool)

  ghost function MeasureOf(t: seq<Character>, enc: Encoding): Measure {
    Measure(|Bytes(t)|, |t|, Ntrg(Bytes(t), enc), enc.maxcharlen <= 1 || AllAscii(Bytes(t)))
  }

  ghost function Measures(terms: seq<seq<Character>>, enc: Encoding): seq<Measure> {
    seq(|terms|, j requires 0 <= j < |terms| => MeasureOf(terms[j], enc))
  }

  datatype Stats = Stats(nterms: nat, minchars: nat, maxchars: nat, minbytes: nat, maxbytes: nat,
                         mintrg: nat, maxtrg: nat, allAscii: bool)

  datatype Pattern = Pattern(chars: nat, bytes: nat, ntrg: nat, allAscii: bool, trgdiv: nat)

  const TRGDIV_ASCII: nat := 3

  /** `lo` and `hi` are the least and the greatest of the measured values. */
  ghost predicate Extremes(ms: seq<Measure>, f: Field, lo: nat, hi: nat) {
    && (forall i :: 0 <= i < |ms| ==> lo <= Value(f, ms[i]) <= hi)
    && (ms == [] ==> lo == hi == 0)
    && (ms != [] ==> (exists i :: 0 <= i < |ms| && Value(f, ms[i]) == lo)
                     && (exists i :: 0 <= i < |ms| && Value(f, ms[i]) == hi))
  }

  datatype Field = BytesField | CharsField | NtrgField

  function Value(f: Field, m: Measure): nat {
    match f case BytesField => m.bytes case CharsField => m.chars case NtrgField => m.ntrg
  }

  lemma ExtremesSnoc(ms: seq<Measure>, m: Measure, f: Field, lo: nat, hi: nat)
    requires Extremes(ms, f, lo, hi)
    ensures ms == [] ==> Extremes(ms + [m], f, Value(f, m), Value(f, m))
    ensures ms != [] ==> Extremes(ms + [m], f, if Value(f, m) < lo then Value(f, m) else lo,
                                  if Value(f, m) > hi then Value(f, m) else hi)
  {
    var n := ms + [m];
    assert n[|ms|] == m && forall i :: 0 <= i < |ms| ==> n[i] == ms[i];
  }

  /** The statistics of one dictionary page, folded one term at a time. */
  class BlockStats {
    var nterms: nat
    var minchars: nat
    var maxchars: nat
    var minbytes: nat
    var maxbytes: nat
    var mintrg: nat
    var maxtrg: nat
    var allAscii: bool
    ghost var folded: seq<Measure>

    function View(): Stats
      reads this
    {
      Stats(nterms, minchars, maxchars, minbytes, maxbytes, mintrg, maxtrg, allAscii)
    }

    ghost predicate Valid()
      reads this
    {
      nterms == |folded| && Summarizes(View(), folded)
    }

    constructor ()
      ensures Valid() && folded == []
    {
      nterms, minchars, maxchars, minbytes, maxbytes, mintrg, maxtrg, allAscii := 0, 0, 0, 0, 0, 0, 0, true;
      folded := [];
    }

    method Add(bytes: nat, chars: nat, ntrg: nat, ascii: bool)
      requires Valid() && nterms + 1 < UINT32
      modifies this
      ensures Valid() && folded == old(folded) + [Measure(bytes, chars, ntrg, ascii)]
    {
      hide Summarizes;
      ghost var before, m := View(), Measure(bytes, chars, ntrg, ascii);
      if nterms == 0 {
        minchars, maxchars, minbytes, maxbytes, mintrg, maxtrg := chars, chars, bytes, bytes, ntrg, ntrg;
      } else {
        minchars, maxchars := Min(chars, minchars), Max(chars, maxchars);
        minbytes, maxbytes := Min(bytes, minbytes), Max(bytes, maxbytes);
        mintrg, maxtrg := Min(ntrg, mintrg), Max(ntrg, maxtrg);
      }
      allAscii, nterms := allAscii && ascii, nterms + 1;
      SummarizesSnoc(before, folded, m, View());
      folded := folded + [m];
    }
  }

  lemma SummarizesSnoc(st: Stats, ms: seq<Measure>, m: Measure, st': Stats)
    requires Summarizes(st, ms) && st.nterms + 1 < UINT32
    requires st' == if st.nterms == 0
                    then Stats(1, m.chars, m.chars, m.bytes, m.bytes, m.ntrg, m.ntrg, st.allAscii && m.ascii)
                    else Stats(st.nterms + 1, Min(m.chars, st.minchars), Max(m.chars, st.maxchars),
                               Min(m.bytes, st.minbytes), Max(m.bytes, st.maxbytes),
                               Min(m.ntrg, st.mintrg), Max(m.ntrg, st.maxtrg), st.allAscii && m.ascii)
    ensures Summarizes(st', ms + [m])
  {
    hide Extremes;
    ExtremesSnoc(ms, m, CharsField, st.minchars, st.maxchars);
    ExtremesSnoc(ms, m, BytesField, st.minbytes, st.maxbytes);
    ExtremesSnoc(ms, m, NtrgField, st.mintrg, st.maxtrg);
    var n := ms + [m];
    assert n[|ms|] == m && forall i :: 0 <= i < |ms| ==> n[i] == ms[i];
  }

  /** `st` is the exact summary of the measured terms. */
  ghost predicate Summarizes(st: Stats, ms: seq<Measure>) {
    && st.nterms == |ms| < UINT32
    && Extremes(ms, CharsField, st.minchars, st.maxchars)
    && Extremes(ms, BytesField, st.minbytes, st.maxbytes)
    && Extremes(ms, NtrgField, st.mintrg, st.maxtrg)
    && (st.allAscii <==> forall i :: 0 <= i < |ms| ==> ms[i].ascii)
  }

  /** The pattern, reduced to the numbers the bound needs. */
  function PatternInit(bytes: nat, chars: nat, ntrg: nat, ascii: bool, maxcharlen: nat): Pattern {
    var div := if maxcharlen <= 1 then TRGDIV_ASCII else (maxcharlen + 2) % UINT32;
    Pattern(chars, bytes, ntrg, if maxcharlen <= 1 then true else ascii,
            if div < TRGDIV_ASCII then TRGDIV_ASCII else div)
  }

  function PatternOf(p: seq<Character>, enc: Encoding): Pattern {
    PatternInit(|Bytes(p)|, |p|, Ntrg(Bytes(p), enc), AllAscii(Bytes(p)), enc.maxcharlen)
  }

  /** The larger of the length deficit and the rounded-up trigram deficit. */
  function Lower(p: Pattern, st: Stats): nat
    requires p.trgdiv >= TRGDIV_ASCII
  {
    if st.nterms == 0 then 0
    else
      var ld := if p.chars < st.minchars then st.minchars - p.chars
                else if p.chars > st.maxchars then p.chars - st.maxchars else 0;
      var div := if p.allAscii && st.allAscii then TRGDIV_ASCII else p.trgdiv;
      var td := if p.ntrg < st.mintrg then st.mintrg - p.ntrg
                else if p.ntrg > st.maxtrg then p.ntrg - st.maxtrg else 0;
      var tq := (td + div - 1) % UINT32 / div;
      if ld > tq then ld else tq
  }

  lemma QuotientBelow(n: nat, div: nat, m: nat)
    requires div > 0 && n < m * div
    ensures n / div < m
  {
    assert n / div * div <= n;
    MulCancel(n / div, m, div);
  }

  lemma MulCancel(a: nat, b: nat, c: nat)
    requires a * c < b * c
    ensures a < b
  {
  }

  lemma RoundedQuotient(td: nat, div: nat, d: nat)
    requires div > 0 && td <= div * d
    ensures (td + div - 1) % UINT32 / div <= d
  {
    var n := (td + div - 1) % UINT32;
    assert (d + 1) * div == div * d + div;
    QuotientBelow(n, div, d + 1);
  }

  lemma AsciiCharactersAreShort(t: seq<Character>, enc: Encoding)
    requires WellEncoded(t, enc.maxcharlen)
    ensures ShortCharacters(t, enc.maxcharlen)
    ensures enc.maxcharlen <= 1 || AllAscii(Bytes(t)) ==> ShortCharacters(t, 1)
  {
    if AllAscii(Bytes(t)) {
      forall i | 0 <= i < |t| ensures |t[i]| <= 1 {
        assert t == t[..i] + [t[i]] + t[i + 1..];
        BytesAround(t[..i], [t[i]], t[i + 1..]);
        assert t[i] in t;
        BytesOfOne(t[i]);
        assert Bytes(t)[|Bytes(t[..i])|] == t[i][0];
      }
    }
  }

  /** The bound is at most the pattern's character edit distance to
      any term folded into the block, whatever the hash, the cap,
      the encoding's character lengths, or the lengths of the strings. */
  lemma BoundIsSound(p: seq<Character>, terms: seq<seq<Character>>, st: Stats, enc: Encoding, i: nat)
    requires 1 <= enc.maxcharlen < UINT32 - 2 && i < |terms|
    requires WellEncoded(p, enc.maxcharlen)
    requires forall j :: 0 <= j < |terms| ==> WellEncoded(terms[j], enc.maxcharlen)
    requires Summarizes(st, Measures(terms, enc))
    ensures Lower(PatternOf(p, enc), st) <= Lev(p, terms[i])
  {
    hide Ntrg, Bytes, Lev, WellEncoded;
    var pat, t := PatternOf(p, enc), terms[i];
    assert Measures(terms, enc)[i] == MeasureOf(t, enc);
    ExtremesBound(Measures(terms, enc), CharsField, st.minchars, st.maxchars, i);
    ExtremesBound(Measures(terms, enc), NtrgField, st.mintrg, st.maxtrg, i);
    LevLengthDeficit(p, t);
    var div := if pat.allAscii && st.allAscii then TRGDIV_ASCII else pat.trgdiv;
    DeficitWithin(p, t, div, enc, pat.allAscii && st.allAscii);
    RoundedQuotient(if pat.ntrg < st.mintrg then st.mintrg - pat.ntrg
                    else if pat.ntrg > st.maxtrg then pat.ntrg - st.maxtrg else 0, div, Lev(p, t));
  }

  lemma ExtremesBound(ms: seq<Measure>, f: Field, lo: nat, hi: nat, i: nat)
    requires Extremes(ms, f, lo, hi) && i < |ms|
    ensures lo <= Value(f, ms[i]) <= hi
  {
  }

  /** The divisor the code picks is large enough, in both directions. */
  lemma DeficitWithin(p: seq<Character>, t: seq<Character>, div: nat, enc: Encoding, ascii: bool)
    requires 1 <= enc.maxcharlen < UINT32 - 2
    requires WellEncoded(p, enc.maxcharlen) && WellEncoded(t, enc.maxcharlen)
    requires ascii ==> PatternOf(p, enc).allAscii && MeasureOf(t, enc).ascii
    requires div == if ascii then TRGDIV_ASCII else PatternOf(p, enc).trgdiv
    ensures Ntrg(Bytes(p), enc) - Ntrg(Bytes(t), enc) <= div * Lev(p, t)
    ensures Ntrg(Bytes(t), enc) - Ntrg(Bytes(p), enc) <= div * Lev(p, t)
  {
    hide Bytes, Lev, Ntrg, WellEncoded;
    AsciiCharactersAreShort(p, enc);
    AsciiCharactersAreShort(t, enc);
    assert div - 2 == if ascii || enc.maxcharlen <= 1 then 1 else enc.maxcharlen;
    TrigramDeficit(p, t, div - 2, enc);
    TrigramDeficit(t, p, div - 2, enc);
    LevSymmetric(p, t);
  }

  /** The bound is attained: on a page holding one term, the pattern followed by
      more characters, it is the exact distance. */
  lemma BoundIsAttained(p: seq<Character>, w: seq<Character>, st: Stats, enc: Encoding)
    requires 1 <= enc.maxcharlen < UINT32 - 2 && WellEncoded(p + w, enc.maxcharlen)
    requires Summarizes(st, Measures([p + w], enc))
    ensures Lower(PatternOf(p, enc), st) == Lev(p, p + w) == |w|
  {
    hide Bytes, Ntrg, Hashes, Lev;
    forall c | c in p ensures c in p + w { }
    BoundIsSound(p, [p + w], st, enc, 0);
    ExtremesBound(Measures([p + w], enc), CharsField, st.minchars, st.maxchars, 0);
    LevLengthDeficit(p, p + w);
    LevAppended(p, w);
    var i :| 0 <= i < |Measures([p + w], enc)| && Value(CharsField, Measures([p + w], enc)[i]) == st.minchars;
  }

  // ---------------------------------------------------------------------------
  // The bound is all that the two deficits give
  // ---------------------------------------------------------------------------

  /** Trigrams one edit may destroy, for this pattern against this block. */
  function Divisor(p: Pattern, st: Stats): nat { if p.allAscii && st.allAscii then TRGDIV_ASCII else p.trgdiv }

  /** `d` edits can bring the pattern's length and its trigram count, each edit
      moving one character and `Divisor` trigrams, into the block's ranges. */
  predicate Reconciles(p: Pattern, st: Stats, d: nat) {
    && st.minchars <= p.chars + d && p.chars <= st.maxchars + d
    && st.mintrg <= p.ntrg + Divisor(p, st) * d && p.ntrg <= st.maxtrg + Divisor(p, st) * d
  }

  /** Rounding up is exact while nothing wraps. */
  lemma RoundedUp(td: nat, div: nat, d: nat)
    requires div > 0 && td + div <= UINT32
    ensures (td + div - 1) % UINT32 / div <= d <==> td <= div * d
  {
    if td <= div * d {
      RoundedQuotient(td, div, d);
    } else {
      var n := td + div - 1;
      assert n % UINT32 == n;
      assert n >= (d + 1) * div;
      AtLeastQuotient(n, div, d + 1);
    }
  }

  lemma AtLeastQuotient(n: nat, div: nat, m: nat)
    requires div > 0 && n >= m * div
    ensures n / div >= m
  {
    if n / div < m {
      assert n < (n / div + 1) * div;
      MulMonotone(n / div + 1, m, div);
    }
  }

  lemma MulMonotone(a: nat, b: nat, c: nat)
    requires a <= b
    ensures a * c <= b * c
  {
  }

  /** Against a nonempty block the bound is the least number of edits that
      reconciles both the length and the trigram count. */
  lemma LowerIsLeast(p: Pattern, st: Stats, d: nat)
    requires p.trgdiv >= TRGDIV_ASCII && st.nterms > 0 && st.minchars <= st.maxchars && st.mintrg <= st.maxtrg
    requires p.ntrg + p.trgdiv <= UINT32 && st.mintrg + p.trgdiv <= UINT32
    ensures Lower(p, st) <= d <==> Reconciles(p, st, d)
  {
    var div := Divisor(p, st);
    var td := if p.ntrg < st.mintrg then st.mintrg - p.ntrg
              else if p.ntrg > st.maxtrg then p.ntrg - st.maxtrg else 0;
    RoundedUp(td, div, d);
    if td == 0 { assert div * d >= 0; }
  }

  /** The letter `x`, `n` times. */
  function RunOf(x: byte, n: nat): (s: seq<Character>)
    ensures |s| == n && forall i :: 0 <= i < n ==> s[i] == [x]
  {
    seq(n, _ => [x])
  }

  lemma {:induction false} BytesOfSingles(t: seq<Character>)
    requires forall i :: 0 <= i < |t| ==> |t[i]| == 1
    ensures |Bytes(t)| == |t| && forall i :: 0 <= i < |t| ==> Bytes(t)[i] == t[i][0]
    decreases |t|
  {
    if t != [] { BytesOfSingles(t[1..]); }
  }

  /** With distinct hashes every trigram counts. */
  lemma {:induction false} DistinctHashes(s: seq<byte>, h: seq<byte> -> nat, n: nat)
    requires n + 2 <= |s| && forall i, j :: 0 <= i < j < n ==> h(Gram(s, i)) != h(Gram(s, j))
    ensures |HashesAt(s, h, 0, n)| == n
    decreases n
  {
    if n > 0 {
      DistinctHashes(s, h, n - 1);
      if h(Gram(s, n - 1)) in HashesAt(s, h, 0, n - 1) {
        var i := MemberHashAt(s, h, 0, n - 1, h(Gram(s, n - 1)));
        assert false;
      }
    }
  }

  /** A run of one letter has one trigram. */
  lemma {:induction false} OneHash(s: seq<byte>, h: seq<byte> -> nat, x: byte, n: nat)
    requires 0 < n && n + 2 <= |s| && forall i :: 0 <= i < |s| ==> s[i] == x
    ensures HashesAt(s, h, 0, n) == {h([x, x, x])}
    decreases n
  {
    assert Gram(s, n - 1) == [x, x, x];
    if n > 1 { OneHash(s, h, x, n - 1); }
  }

  /** ASCII, and every trigram hashed to a value of its own. */
  ghost predicate SpreadAscii(p: seq<Character>, enc: Encoding) {
    && 3 <= |p| <= enc.cap && (forall i :: 0 <= i < |p| ==> |p[i]| == 1 && p[i][0] < 0x80)
    && |Bytes(p)| == |p|
    && forall i, j :: 0 <= i < j < |p| - 2 ==> enc.hash(Gram(Bytes(p), i)) != enc.hash(Gram(Bytes(p), j))
  }

  lemma SpreadMeasure(p: seq<Character>, enc: Encoding)
    requires SpreadAscii(p, enc)
    ensures AllAscii(Bytes(p)) && Ntrg(Bytes(p), enc) == |p| - 2
  {
    BytesOfSingles(p);
    hide Bytes, HashesAt, Gram;
    DistinctHashes(Bytes(p), enc.hash, |p| - 2);
  }

  lemma RunMeasure(x: byte, n: nat, enc: Encoding)
    requires 3 <= n <= enc.cap && x < 0x80
    ensures MeasureOf(RunOf(x, n), enc) == Measure(n, n, 1, true)
  {
    BytesOfSingles(RunOf(x, n));
    OneHash(Bytes(RunOf(x, n)), enc.hash, x, n - 2);
  }

  lemma StatsOfOne(st: Stats, m: Measure)
    requires Summarizes(st, [m])
    ensures st.nterms == 1 && st.minchars == st.maxchars == m.chars && st.mintrg == st.maxtrg == m.ntrg
    ensures st.allAscii == m.ascii
  {
    ExtremesBound([m], CharsField, st.minchars, st.maxchars, 0);
    ExtremesBound([m], NtrgField, st.mintrg, st.maxtrg, 0);
    assert [m][0] == m;
  }

  /** Where lengths say nothing: an ASCII pattern whose trigrams hash apart, against
      a run of one letter as long. The bound is a third of the missing trigrams,
      rounded up. */
  lemma TrigramsDecide(p: seq<Character>, x: byte, st: Stats, enc: Encoding)
    requires SpreadAscii(p, enc) && |p| < UINT32 - 2 && x < 0x80 && 1 <= enc.maxcharlen < UINT32 - 2
    requires Summarizes(st, Measures([RunOf(x, |p|)], enc))
    ensures Lower(PatternOf(p, enc), st) == (|p| - 1) / 3
  {
    hide SpreadAscii, Bytes, Ntrg, AllAscii, Summarizes, RunOf;
    SpreadMeasure(p, enc);
    SpreadSize(p, enc);
    RunMeasure(x, |p|, enc);
    assert Measures([RunOf(x, |p|)], enc) == [MeasureOf(RunOf(x, |p|), enc)];
    StatsOfOne(st, MeasureOf(RunOf(x, |p|), enc));
  }

  lemma SpreadSize(p: seq<Character>, enc: Encoding)
    requires SpreadAscii(p, enc)
    ensures 3 <= |p| <= enc.cap
  {
  }
}
