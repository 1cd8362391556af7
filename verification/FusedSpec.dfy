/** What a fused top-k scan must return: channels and their contract
    (include/weave/channel.h), the candidate set and the fused score, and the
    k best candidates under (score descending, position ascending).
  */
module FusedSpec {
  import opened Basics
  import opened BinaryHeap

  type Warp = n: nat | n <= 0xFFFF_FFFF

  const END: Warp := 0xFFFF_FFFF

  /** An exact score; `Veto` is the minus infinity of a non-match. */
  datatype Score = Veto | Val(v: real)

  /** A channel: what its operations answer at each position, fixed for the scan,
      and the position the core remembers for it. */
  class Channel {
    const seekTo: Warp -> Warp      // the answer to seek(target)
    const scoreAt: Warp -> Score    // the unweighted score at a position
    const blockEnd: Warp -> Warp    // the block end published on landing there
    const boundAt: Warp -> real     // the unweighted block bound there
    const maxscore: real
    const weight: real
    const required: bool

    var cur: Warp
    var blkend: Warp
    var nseek: nat

    constructor (seekTo: Warp -> Warp, scoreAt: Warp -> Score, blockEnd: Warp -> Warp, boundAt: Warp -> real,
                 maxscore: real, weight: real, required: bool)
      ensures this.seekTo == seekTo && this.scoreAt == scoreAt && this.blockEnd == blockEnd
      ensures this.boundAt == boundAt && this.maxscore == maxscore && this.weight == weight
      ensures this.required == required && nseek == 0
    {
      this.seekTo, this.scoreAt, this.blockEnd, this.boundAt := seekTo, scoreAt, blockEnd, boundAt;
      this.maxscore, this.weight, this.required := maxscore, weight, required;
      cur, blkend, nseek := 0, 0, 0;
    }
  }

  // ---------------------------------------------------------------------------
  // The contract
  // ---------------------------------------------------------------------------

  /** The channel can contribute at `p`. */
  predicate Reach(c: Channel, p: Warp) { p < END && c.seekTo(p) == p }

  /** The last position the bound taken at `p` speaks for. */
  function BlockEnd(c: Channel, p: Warp): Warp { if c.blockEnd(p) < p then p else c.blockEnd(p) }

  /** The weighted contribution; an absent channel contributes nothing. */
  function Contribution(c: Channel, p: Warp): real {
    if Reach(c, p) && c.scoreAt(p).Val? then c.weight * c.scoreAt(p).v else 0.0
  }

  /** (C1): seek answers with the smallest position it can contribute at. */
  ghost predicate MonotoneSeek(c: Channel) {
    forall t: Warp :: && t <= c.seekTo(t)
                      && (c.seekTo(t) < END ==> Reach(c, c.seekTo(t)))
                      && NoReach(c, t, c.seekTo(t))
  }

  ghost predicate NoReach(c: Channel, lo: Warp, hi: Warp) {
    forall q: Warp :: lo <= q < hi ==> !Reach(c, q)
  }

  /** (C5): a predicate scores 0 where it matches. */
  ghost predicate PureGate(c: Channel) {
    forall p: Warp :: Reach(c, p) && c.scoreAt(p).Val? ==> c.scoreAt(p).v == 0.0
  }

  /** What is asked of a channel's answers, apart from its bounds. */
  ghost predicate Seeks(c: Channel) { MonotoneSeek(c) && (c.required ==> PureGate(c)) }

  // ---------------------------------------------------------------------------
  // Candidates and the fused score
  // ---------------------------------------------------------------------------

  datatype Query = Query(chans: seq<Channel>, live: Warp -> bool, nwarp: Warp)

  function Sum(cs: seq<Channel>, p: Warp): real {
    if cs == [] then 0.0 else Contribution(cs[0], p) + Sum(cs[1..], p)
  }

  ghost predicate Candidate(q: Query, p: Warp) {
    && p < q.nwarp && q.live(p)
    && (forall c | c in q.chans && c.required :: Reach(c, p))
    && (forall c | c in q.chans && Reach(c, p) :: c.scoreAt(p).Val?)
    && ((forall c | c in q.chans :: c.required) || exists c :: c in q.chans && !c.required && Reach(c, p))
  }

  /** The candidates below `n`, with their fused scores. */
  ghost function Hits(q: Query, n: nat): (r: set<Entry>)
    requires n <= END
    ensures forall e | e in r :: e.id < n
  {
    if n == 0 then {}
    else Hits(q, n - 1) + if Candidate(q, n - 1) then {Entry(Sum(q.chans, n - 1), n - 1)} else {}
  }

  /** k candidates lie below `p`, so a scan that has passed them has a threshold. */
  ghost predicate Full(q: Query, k: nat, p: Warp) { |Hits(q, p)| >= k }

  /** The bound taken at `p` is at least the contribution at `r`, if it speaks for `r`. */
  ghost predicate BoundCovers(c: Channel, p: Warp, r: Warp) {
    Reach(c, p) && p <= r <= BlockEnd(c, p) ==> Contribution(c, r) <= c.weight * c.boundAt(p)
  }

  /** (C2), as far as a scan for `k` rows relies on it: a bound that can be weighed
      against a threshold is at least the contribution to every candidate of its
      block, 0 for a candidate the channel misses. */
  ghost predicate TrueBound(q: Query, k: nat, c: Channel) {
    forall p: Warp, r: Warp :: Full(q, k, p) && Candidate(q, r) ==> BoundCovers(c, p, r)
  }

  ghost predicate CeilingCovers(c: Channel, r: Warp) { Contribution(c, r) <= c.weight * c.maxscore }

  /** The ceiling, likewise, for the candidates past the first `k`. */
  ghost predicate TrueCeiling(q: Query, k: nat, c: Channel) {
    forall r: Warp :: Full(q, k, r) && Candidate(q, r) ==> CeilingCovers(c, r)
  }

  ghost predicate AllSeek(q: Query) { forall c | c in q.chans :: Seeks(c) }

  /** The scored channels' bounds and ceilings hold for the candidates of the query. */
  ghost predicate AllBounded(q: Query, k: nat) {
    forall c | c in q.chans && !c.required :: TrueBound(q, k, c) && TrueCeiling(q, k, c)
  }

  ghost predicate AllHonest(q: Query, k: nat) { AllSeek(q) && AllBounded(q, k) }

  lemma {:induction false} HitsGrow(q: Query, m: nat, n: nat)
    requires m <= n <= END
    ensures Hits(q, m) <= Hits(q, n)
    decreases n
  {
    if m < n { HitsGrow(q, m, n - 1); }
  }

  lemma SameSize<T>(a: set<T>, b: set<T>)
    requires a <= b && |a| == |b|
    ensures a == b
  {
    assert b == a + (b - a);
  }

  lemma HitCount(q: Query, m: nat, n: nat)
    requires m <= n <= END
    ensures |Hits(q, m)| <= |Hits(q, n)|
  {
    HitsGrow(q, m, n);
    SubsetSize(Hits(q, m), Hits(q, n));
  }

  /** `top` holds the k best of `all`; every other entry is worse than each of them. */
  ghost predicate TopSet(top: set<Entry>, all: set<Entry>, k: nat) {
    && top <= all
    && |top| == (if |all| <= k then |all| else k)
    && forall x, y :: x in top && y in all - top ==> Worse(ByScoreThenId, y, x)
  }

  /** `out` lists the k best of `all`, best first. */
  ghost predicate TopList(out: seq<Entry>, all: set<Entry>, k: nat) {
    && (forall i, j :: 0 <= i < j < |out| ==> Worse(ByScoreThenId, out[j], out[i]))
    && TopSet((set e | e in out), all, k)
  }

  /** Entries of `all` have distinct positions, so there is only one such list. */
  lemma TopListIsUnique(a: seq<Entry>, b: seq<Entry>, all: set<Entry>, k: nat)
    requires TopList(a, all, k) && TopList(b, all, k)
    ensures a == b
  {
    var sa, sb := (set e | e in a), (set e | e in b);
    TopSetIsUnique(sa, sb, all, k);
    forall e ensures e in a <==> e in b {
      assert e in a <==> e in sa;
      assert e in b <==> e in sb;
    }
    SortedListIsUnique(a, b);
  }

  lemma OutsideIsWorse(top: set<Entry>, all: set<Entry>, k: nat, x: Entry, y: Entry)
    requires TopSet(top, all, k) && x in top && y in all && y !in top
    ensures Worse(ByScoreThenId, y, x) && !Worse(ByScoreThenId, x, y)
  {
    assert y in all - top;
  }

  lemma TopSetIsUnique(sa: set<Entry>, sb: set<Entry>, all: set<Entry>, k: nat)
    requires TopSet(sa, all, k) && TopSet(sb, all, k)
    ensures sa == sb
  {
    if x :| x in sa && x !in sb {
      assert |sb - sa| == |sb| - |sb * sa| && |sa - sb| == |sa| - |sa * sb|;
      assert sb * sa == sa * sb && x in sa - sb;
      assert |sa - sb| > 0;
      var y :| y in sb - sa;
      OutsideIsWorse(sa, all, k, x, y);
      OutsideIsWorse(sb, all, k, y, x);
    }
    assert sa <= sb;
    assert sb == sa + (sb - sa);
  }

  lemma {:induction false} SortedListIsUnique(a: seq<Entry>, b: seq<Entry>)
    requires forall i, j :: 0 <= i < j < |a| ==> Worse(ByScoreThenId, a[j], a[i])
    requires forall i, j :: 0 <= i < j < |b| ==> Worse(ByScoreThenId, b[j], b[i])
    requires forall e :: e in a <==> e in b
    ensures a == b
  {
    if a == [] {
      assert b == [] by { assert forall i :: 0 <= i < |b| ==> b[i] in b; }
    } else {
      assert a[0] in b && b[0] in a;
      var i :| 0 <= i < |b| && b[i] == a[0];
      var j :| 0 <= j < |a| && a[j] == b[0];
      assert a[0] == b[0];
      forall e ensures e in a[1..] <==> e in b[1..] {
        if e in a[1..] {
          var n :| 0 <= n < |a[1..]| && a[1..][n] == e;
          assert Worse(ByScoreThenId, a[n + 1], a[0]) && e in a;
        }
        if e in b[1..] {
          var n :| 0 <= n < |b[1..]| && b[1..][n] == e;
          assert Worse(ByScoreThenId, b[n + 1], b[0]) && e in b;
        }
      }
      SortedListIsUnique(a[1..], b[1..]);
      assert a == [a[0]] + a[1..] && b == [b[0]] + b[1..];
    }
  }

  // ---------------------------------------------------------------------------
  // Passing over positions
  // ---------------------------------------------------------------------------

  /** A full heap none of whose entries scores below `s`. */
  ghost predicate Beaten(top: set<Entry>, k: nat, s: real) {
    |top| == k && forall x | x in top :: s <= x.score
  }

  ghost predicate Passable(q: Query, top: set<Entry>, k: nat, p: Warp) {
    Candidate(q, p) ==> Beaten(top, k, Sum(q.chans, p))
  }

  /** A position that holds no candidate, or one that ties or loses, leaves the
      top set as it is: an earlier position wins a tie. */
  lemma {:induction false} PassOver(q: Query, top: set<Entry>, k: nat, lo: Warp, hi: Warp)
    requires lo <= hi && TopSet(top, Hits(q, lo), k)
    requires forall p: Warp :: lo <= p < hi ==> Passable(q, top, k, p)
    ensures TopSet(top, Hits(q, hi), k)
    decreases hi
  {
    hide Candidate, TopSet, Beaten;
    if lo < hi {
      var p: Warp := hi - 1;
      PassOver(q, top, k, lo, p);
      assert Passable(q, top, k, p);
      if Candidate(q, p) {
        PassOne(top, Hits(q, p), k, Entry(Sum(q.chans, p), p));
      } else {
        assert Hits(q, hi) == Hits(q, p);
      }
    }
  }

  lemma PassOne(top: set<Entry>, all: set<Entry>, k: nat, e: Entry)
    requires TopSet(top, all, k) && Beaten(top, k, e.score)
    requires forall x | x in all :: x.id < e.id
    ensures TopSet(top, all + {e}, k)
  {
    assert e !in all;
    assert |all + {e}| == |all| + 1;
    TopIsSmaller(top, all, k);
    forall x, y | x in top && y in all + {e} - top ensures Worse(ByScoreThenId, y, x) {
      if y != e { assert y in all - top; }
    }
  }

  lemma TopIsSmaller(top: set<Entry>, all: set<Entry>, k: nat)
    requires TopSet(top, all, k)
    ensures |top| <= |all| && |top| <= k && (|top| < k ==> top == all)
  {
    assert all == top + (all - top);
    if |top| < k { assert |all - top| == 0; }
  }

  /** A candidate admitted while there is room. */
  lemma AdmitWithRoom(q: Query, top: set<Entry>, k: nat, p: Warp)
    requires p < END && TopSet(top, Hits(q, p), k) && |top| < k && Candidate(q, p)
    ensures TopSet(top + {Entry(Sum(q.chans, p), p)}, Hits(q, p + 1), k)
  {
    TopIsSmaller(top, Hits(q, p), k);
    assert Entry(Sum(q.chans, p), p) !in top;
  }

  /** A candidate that strictly beats a full heap's worst entry replaces it. */
  lemma AdmitByReplacing(q: Query, top: set<Entry>, k: nat, p: Warp, worst: Entry)
    requires p < END && TopSet(top, Hits(q, p), k) && |top| == k && Candidate(q, p)
    requires worst in top && worst.score < Sum(q.chans, p)
    requires forall x | x in top && x != worst :: Worse(ByScoreThenId, worst, x)
    ensures TopSet(top - {worst} + {Entry(Sum(q.chans, p), p)}, Hits(q, p + 1), k)
  {
    var e := Entry(Sum(q.chans, p), p);
    var all, top' := Hits(q, p), top - {worst} + {e};
    assert e !in all && e !in top;
    assert |top'| == k;
    TopIsSmaller(top, all, k);
    assert |all + {e}| == |all| + 1;
    forall x, y | x in top' && y in all + {e} - top' ensures Worse(ByScoreThenId, y, x) {
      assert y == worst || y in all - top;
      if x == e && y != worst { assert Worse(ByScoreThenId, y, worst); }
    }
  }

  // ---------------------------------------------------------------------------
  // Sums over channels
  // ---------------------------------------------------------------------------

  lemma {:induction false} SumConcat(a: seq<Channel>, b: seq<Channel>, p: Warp)
    ensures Sum(a + b, p) == Sum(a, p) + Sum(b, p)
    decreases |a|
  {
    if a == [] {
      assert a + b == b;
    } else {
      assert (a + b)[1..] == a[1..] + b;
      SumConcat(a[1..], b, p);
    }
  }

  lemma RemoveOne(a: seq<Channel>, b: seq<Channel>, i: nat)
    requires multiset(a) == multiset(b) && |a| > 0 && i < |b| && b[i] == a[0]
    ensures multiset(a[1..]) == multiset(b[..i] + b[i + 1..])
  {
    var m := multiset{a[0]};
    assert a == [a[0]] + a[1..];
    assert multiset(a) == m + multiset(a[1..]);
    assert b == b[..i] + ([b[i]] + b[i + 1..]);
    assert multiset(b) == multiset(b[..i]) + (m + multiset(b[i + 1..]));
    assert multiset(a[1..]) == multiset(a) - m;
  }

  lemma SumOne(c: Channel, p: Warp)
    ensures Sum([c], p) == Contribution(c, p)
  {
    var one := [c];
    assert one[1..] == [];
  }

  /** The fused score does not depend on the order channels are summed in. */
  lemma {:induction false} SumPermutation(a: seq<Channel>, b: seq<Channel>, p: Warp)
    requires multiset(a) == multiset(b)
    ensures Sum(a, p) == Sum(b, p)
    decreases |a|
  {
    if a == [] {
      assert |multiset(b)| == 0;
      assert b == [];
    } else {
      assert a[0] in multiset(b);
      var i :| 0 <= i < |b| && b[i] == a[0];
      var rest := b[..i] + b[i + 1..];
      RemoveOne(a, b, i);
      assert b == b[..i] + [b[i]] + b[i + 1..];
      SumPermutation(a[1..], rest, p);
      SumConcat(b[..i], b[i + 1..], p);
      SumConcat(b[..i] + [b[i]], b[i + 1..], p);
      SumConcat(b[..i], [b[i]], p);
      SumOne(b[i], p);
    }
  }
}
