/** The other half of FusedSafety: a scored channel that is not safe makes the
    fused scan of src/am/fuse.c return a wrong list, in company that is.
  */
module FusedMisled {
  import opened Basics
  import opened BinaryHeap
  import opened FusedSpec
  import opened FusedSteps
  import opened FusedTrace
  import opened FusedReference
  import opened FusedSafety

  // ---------------------------------------------------------------------------
  // Stopping before a better candidate
  // ---------------------------------------------------------------------------

  lemma {:induction false} NoHits(q: Query, lo: nat, hi: nat)
    requires lo <= hi <= END && forall p: Warp :: lo <= p < hi ==> !Candidate(q, p)
    ensures Hits(q, hi) == Hits(q, lo)
    decreases hi
  {
    hide Candidate;
    if lo < hi { NoHits(q, lo, hi - 1); }
  }

  /** The heap of one fills at the first candidate. */
  lemma FirstFills(q: Query, m: Warp)
    requires m < END && Candidate(q, m) && forall p: Warp :: p < m ==> !Candidate(q, p)
    ensures Hits(q, m + 1) == {Entry(Sum(q.chans, m), m)} && Fills(q, 1, m + 1)
  {
    hide Candidate;
    NoHits(q, 0, m);
    assert Hits(q, 0) == {};
  }

  lemma BetterIsMissed(q: Query, out: seq<Entry>, first: Entry, h: Warp, r: Warp)
    requires h <= r < q.nwarp && Hits(q, h) == {first} && TopList(out, Hits(q, h), 1)
    requires Candidate(q, r) && Sum(q.chans, r) > first.score
    ensures !TopList(out, Hits(q, q.nwarp), 1)
  {
    hide Candidate, Hits;
    var best := Entry(Sum(q.chans, r), r);
    CandidateIsHit(q, q.nwarp, r);
    var top := set e | e in out;
    assert top <= {first};
    assert best in Hits(q, q.nwarp) && best !in top;
    if TopSet(top, Hits(q, q.nwarp), 1) {
      SubsetSize({best}, Hits(q, q.nwarp));
      assert |top| == 1;
      var x :| x in top;
      OutsideIsWorse(top, Hits(q, q.nwarp), 1, x, best);
    }
  }

  // ---------------------------------------------------------------------------
  // A ceiling below zero
  // ---------------------------------------------------------------------------

  /** A channel that reaches one position, with one contribution. */
  ghost predicate OnlyAt(a: Channel, m: Warp, x: real, ceiling: real) {
    && !a.required && a.weight == 1.0 && a.maxscore == ceiling && m < END
    && (forall t: Warp :: a.seekTo(t) == (if t <= m then m else END) && a.scoreAt(t) == Val(x))
    && (forall t: Warp :: a.blockEnd(t) == t && a.boundAt(t) == ceiling)
  }

  lemma OnlyAtIsGood(a: Channel, m: Warp, x: real, ceiling: real)
    requires OnlyAt(a, m, x, ceiling) && x <= ceiling && 0.0 <= ceiling
    ensures GoodCompany(a)
    ensures forall p: Warp :: Contribution(a, p) == (if p == m then x else 0.0) && (Reach(a, p) <==> p == m)
  {
    forall p: Warp ensures Reach(a, p) <==> p == m {}
  }

  lemma SumOfThree(a: Channel, b: Channel, c: Channel, p: Warp)
    ensures Sum([a, b, c], p) == Contribution(a, p) + Contribution(b, p) + Contribution(c, p)
  {
    assert [a, b, c] == [a, b] + [c] && [a, b] == [a] + [b];
    SumSnoc([a, b], c, p);
    SumSnoc([a], b, p);
    SumOne(a, p);
  }

  function Ceil(c: Channel): real { c.weight * c.maxscore }

  lemma CeilingsOfThree(a: Channel, b: Channel, c: Channel)
    ensures CeilSum([a, b, c]) == Ceil(a) + Ceil(b) + Ceil(c)
    ensures CeilSum([a, b, c][1..]) == Ceil(b) + Ceil(c) && CeilSum([a, b, c][2..]) == Ceil(c)
  {
    var s := [a, b, c];
    assert s[2..] == [c] && s[1..] == [b, c];
    assert [c][1..] == [] && [b, c][1..] == [c];
    assert CeilSum([c]) == Ceil(c) && CeilSum([b, c]) == Ceil(b) + CeilSum([c]);
  }

  /** Distinct ceilings leave one order. */
  lemma OrderOfThree(a: Channel, b: Channel, c: Channel, sc: seq<Channel>)
    requires ByCeiling([a, b, c], sc) && Ceil(a) > Ceil(b) > Ceil(c)
    ensures sc == [a, b, c]
  {
    var xs := [a, b, c];
    assert multiset(sc) == multiset(xs) && Falling(sc);
    SameMembers(xs, sc);
    assert xs[0] in sc && xs[1] in sc && xs[2] in sc;
    assert sc[0] in xs && sc[1] in xs && sc[2] in xs;
    FallingOrder(a, b, c, sc);
  }

  ghost predicate Falling(sc: seq<Channel>) {
    forall i, j :: 0 <= i < j < |sc| ==> Ceil(sc[i]) >= Ceil(sc[j])
  }

  lemma FallingOrder(a: Channel, b: Channel, c: Channel, sc: seq<Channel>)
    requires |sc| == 3 && Falling(sc) && Ceil(a) > Ceil(b) > Ceil(c)
    requires a in sc && b in sc && c in sc
    ensures sc == [a, b, c]
  {
    hide Ceil;
    assert Ceil(sc[0]) >= Ceil(sc[1]) >= Ceil(sc[2]);
  }

  lemma SameMembers(xs: seq<Channel>, ys: seq<Channel>)
    requires multiset(xs) == multiset(ys)
    ensures |xs| == |ys| && forall x :: x in xs <==> x in ys
  {
    assert |multiset(xs)| == |xs| && |multiset(ys)| == |ys|;
    forall x ensures x in xs <==> x in ys {
      assert x in xs <==> x in multiset(xs);
      assert x in ys <==> x in multiset(ys);
    }
  }

  /** The query of the first company: `m` and `r` are live, and only they. */
  ghost predicate PairQuery(q: Query, a: Channel, b: Channel, c: Channel, m: Warp, r: Warp) {
    && q.chans == [a, b, c] && m < r < END && q.nwarp == r + 1
    && (forall p: Warp :: q.live(p) <==> p == m || p == r)
  }

  /** `a` lifts `m` to the ceiling of `c`; `b` reaches the better `r` alone. */
  ghost predicate FirstCompany(q: Query, a: Channel, b: Channel, c: Channel, m: Warp, r: Warp) {
    && PairQuery(q, a, b, c, m, r)
    && !c.required && Ceil(c) < 0.0 && !Vetoes(c, m) && !Reach(c, r)
    && OnlyAt(a, m, Ceil(c) - Contribution(c, m), a.maxscore)
    && a.maxscore > 0.0 && a.maxscore >= Ceil(c) - Contribution(c, m)
    && OnlyAt(b, r, 0.0, 0.0)
  }

  lemma FirstCompanyCandidates(q: Query, a: Channel, b: Channel, c: Channel, m: Warp, r: Warp)
    requires FirstCompany(q, a, b, c, m, r)
    ensures Candidate(q, m) && Candidate(q, r) && forall p: Warp :: p < m ==> !Candidate(q, p)
    ensures Sum(q.chans, m) == Ceil(c) && Sum(q.chans, r) == 0.0
  {
    OnlyAtIsGood(a, m, Ceil(c) - Contribution(c, m), a.maxscore);
    OnlyAtIsGood(b, r, 0.0, 0.0);
    SumOfThree(a, b, c, m);
    SumOfThree(a, b, c, r);
    assert a in q.chans && b in q.chans;
  }

  /** Once `m` is in the heap only `a` is essential, and `a` is exhausted. */
  lemma FirstCompanyIdles(q: Query, a: Channel, b: Channel, c: Channel, m: Warp, r: Warp)
    requires FirstCompany(q, a, b, c, m, r)
    ensures StopsAt(q, 1, [a, b, c], m + 1)
  {
    hide Candidate, Contribution, Reach;
    FirstCompanyCandidates(q, a, b, c, m, r);
    FirstFills(q, m);
    var sc, theta := [a, b, c], Fin(Ceil(c));
    CeilingsOfThree(a, b, c);
    assert SplitAt(sc, theta, 3) == SplitAt(sc, theta, 2) == SplitAt(sc, theta, 1) == 1 by {
      assert sc[0..] == sc;
    }
    assert sc[..1] == [a] && [a][1..] == [];
    assert First(sc[..1], m + 1) == END;
    assert Idle(q, sc, 1, theta, m + 1);
    assert forall t: real :: Lowest({Entry(Ceil(c), m)}, t) ==> t == Ceil(c);
  }

  lemma FirstCompanyIsGood(q: Query, a: Channel, b: Channel, c: Channel, m: Warp, r: Warp)
    requires FirstCompany(q, a, b, c, m, r) && Seeks(c) && c.weight > 0.0
    ensures GoodCompany(a) && GoodCompany(b)
    ensures AllSeek(q) && Accepted(q.chans, 1) && AllScored(q.chans)
  {
    hide Seeks, KeptWherePresent, Safe, OnlyAt;
    OnlyAtIsGood(a, m, Ceil(c) - Contribution(c, m), a.maxscore);
    OnlyAtIsGood(b, r, 0.0, 0.0);
  }

  lemma FirstCompanyMisled(q: Query, a: Channel, b: Channel, c: Channel, m: Warp, r: Warp, sc: seq<Channel>,
                           out: seq<Entry>)
    requires FirstCompany(q, a, b, c, m, r) && ByCeiling(q.chans, sc)
    requires forall h: Warp :: StopsAt(q, 1, sc, h) ==> TopList(out, Hits(q, h), 1)
    ensures StopsAt(q, 1, sc, m + 1) && !TopList(out, Hits(q, q.nwarp), 1)
  {
    hide StopsAt, TopList, Hits, Candidate, ByCeiling, Vetoes, Reach, Contribution;
    OrderOfThree(a, b, c, sc);
    FirstCompanyIdles(q, a, b, c, m, r);
    FirstCompanyCandidates(q, a, b, c, m, r);
    FirstFills(q, m);
    BetterIsMissed(q, out, Entry(Ceil(c), m), m + 1, r);
  }

  method MakeOnlyAt(m: Warp, x: real, ceiling: real) returns (a: Channel)
    requires m < END
    ensures fresh(a) && OnlyAt(a, m, x, ceiling)
  {
    a := new Channel(t => if t <= m then m else END, _ => Val(x), t => t, _ => ceiling, ceiling, 1.0, false);
  }

  /** A channel with a ceiling below 0 that misses a position hides the better
      document there: the companions' bounds are true, and the list is wrong. */
  method CeilingMisleads(c: Channel, m: Warp, r: Warp)
    returns (chans: seq<Channel>, live: Warp -> bool, nwarp: Warp, out: array<Entry>, err: FuseError, n: nat)
    requires !c.required && c.weight > 0.0 && Seeks(c)
    requires Ceil(c) < 0.0 && m < r < END && !Vetoes(c, m) && !Reach(c, r)
    modifies c
    ensures c in chans && forall d | d in chans && d != c :: GoodCompany(d)
    ensures n <= out.Length && err == Ok && !TopList(out[..n], Hits(Query(chans, live, nwarp), nwarp), 1)
  {
    hide Seeks, StopsAt, TopList, Hits, Candidate, AllBounded, AllSeek, AllScored, Accepted, ByCeiling, GoodCompany;
    hide OnlyAt;
    hide Vetoes, Reach, Contribution;
    var x := Ceil(c) - Contribution(c, m);
    var a := MakeOnlyAt(m, x, if x > 1.0 then x else 1.0);
    OnlyAtCeiling(a, m, x, if x > 1.0 then x else 1.0);
    var b := MakeOnlyAt(r, 0.0, 0.0);
    chans, live, nwarp := [a, b, c], p => p == m || p == r, r + 1;
    FirstCompanyIsGood(Query(chans, live, nwarp), a, b, c, m, r);
    out := new Entry[1];
    ghost var sc;
    err, n, sc := TopK(chans, out, 1, live, nwarp, out);
    FirstCompanyMisled(Query(chans, live, nwarp), a, b, c, m, r, sc, out[..n]);
  }

  lemma OnlyAtCeiling(a: Channel, m: Warp, x: real, ceiling: real)
    requires OnlyAt(a, m, x, ceiling)
    ensures a.maxscore == ceiling
  {
  }

  // ---------------------------------------------------------------------------
  // A bound below zero
  // ---------------------------------------------------------------------------

  /** A channel that reaches three positions, its second block spanning the third. */
  ghost predicate AtThree(a: Channel, m: Warp, p: Warp, r: Warp, x: real, ceiling: real) {
    && !a.required && a.weight == 1.0 && a.maxscore == ceiling && m < p < r < END
    && (forall t: Warp :: a.seekTo(t) == (if t <= m then m else if t <= p then p else if t <= r then r else END))
    && (forall t: Warp :: a.scoreAt(t) == Val(if t == m then x else 0.0))
    && (forall t: Warp :: && a.blockEnd(t) == (if t == p then r else t)
                          && a.boundAt(t) == (if t == m then ceiling else 0.0))
  }

  lemma AtThreeIsGood(a: Channel, m: Warp, p: Warp, r: Warp, x: real, ceiling: real)
    requires AtThree(a, m, p, r, x, ceiling) && x <= ceiling && 0.0 <= ceiling
    ensures GoodCompany(a)
    ensures forall t: Warp :: && Contribution(a, t) == (if t == m then x else 0.0)
                              && (Reach(a, t) <==> t == m || t == p || t == r)
  {
    forall t: Warp ensures Reach(a, t) <==> t == m || t == p || t == r {}
  }

  /** `a` reaches `m`, `p` and `r`; `c` spans `r` from `p` with a bound below 0
      and lifts `m` no higher than that bound. */
  ghost predicate SecondCompany(q: Query, a: Channel, c: Channel, m: Warp, p: Warp, r: Warp) {
    && q.chans == [a, c] && m < p < r < END && q.nwarp == r + 1
    && (forall t: Warp :: q.live(t) <==> t == m || t == p || t == r)
    && !c.required && Seeks(c) && Ceil(c) >= 0.0 && c.weight * c.boundAt(p) < 0.0
    && Spans(c, p, r) && !Vetoes(c, m) && !Reach(c, r)
    && AtThree(a, m, p, r, c.weight * c.boundAt(p) - Contribution(c, m), a.maxscore)
    && a.maxscore >= 0.0 && a.maxscore >= c.weight * c.boundAt(p) - Contribution(c, m)
  }

  lemma SumOfTwo(a: Channel, c: Channel, p: Warp)
    ensures Sum([a, c], p) == Contribution(a, p) + Contribution(c, p)
  {
    assert [a, c] == [a] + [c];
    SumSnoc([a], c, p);
    SumOne(a, p);
  }

  lemma SecondCompanyCandidates(q: Query, a: Channel, c: Channel, m: Warp, p: Warp, r: Warp)
    requires SecondCompany(q, a, c, m, p, r)
    ensures Candidate(q, m) && Candidate(q, r) && forall t: Warp :: t < m ==> !Candidate(q, t)
    ensures Sum(q.chans, m) == c.weight * c.boundAt(p) && Sum(q.chans, r) == 0.0
  {
    hide MonotoneSeek;
    AtThreeIsGood(a, m, p, r, c.weight * c.boundAt(p) - Contribution(c, m), a.maxscore);
    SumOfTwo(a, c, m);
    SumOfTwo(a, c, r);
    assert a in q.chans;
  }

  /** Positions that are not live, up to one from which the scan is idle. */
  lemma {:induction false} IdleBefore(q: Query, sc: seq<Channel>, n: nat, theta: Theta, lo: Warp, p: Warp)
    requires n <= |sc| && lo <= p < END && (forall i :: 0 <= i < |sc| ==> MonotoneSeek(sc[i]))
    requires forall t: Warp :: lo <= t < p ==> !q.live(t)
    requires (exists i :: 0 <= i < n && Reach(sc[i], p)) && Idle(q, sc, n, theta, p)
    ensures Idle(q, sc, n, theta, lo)
    decreases p - lo
  {
    hide MonotoneSeek, Reach;
    if lo < p {
      var i :| 0 <= i < n && Reach(sc[i], p);
      FirstAtMost(sc[..n], lo, p, i);
      var first := First(sc[..n], lo);
      IdleBefore(q, sc, n, theta, if first > lo then first else lo + 1, p);
    }
  }

  lemma BoundSumOfTwo(x: Channel, y: Channel, p: Warp)
    requires Reach(x, p) && Reach(y, p)
    ensures Reaching([x, y], p) == [x, y]
    ensures BoundSum([x, y], p) == x.weight * x.boundAt(p) + y.weight * y.boundAt(p)
  {
    hide Reach;
    assert [x, y][..1] == [x] && [x][..0] == [];
    assert Reaching([x], p) == [x];
    assert [x, y][1..] == [y];
    BoundSumOne(y, p);
  }

  lemma SecondCompanyAtBlock(q: Query, a: Channel, c: Channel, m: Warp, p: Warp, r: Warp)
    requires SecondCompany(q, a, c, m, p, r)
    ensures MonotoneSeek(a) && MonotoneSeek(c) && Spans(a, p, r) && Spans(c, p, r) && a.weight * a.boundAt(p) == 0.0
  {
    AtThreeIsGood(a, m, p, r, c.weight * c.boundAt(p) - Contribution(c, m), a.maxscore);
  }

  /** At `p` the two bounds sum to what `m` scored, and the range runs past `r`. */
  lemma IdleAtBlock(q: Query, x: Channel, y: Channel, p: Warp, r: Warp, theta: Theta)
    requires p <= r < END && q.nwarp == r + 1 && q.live(p)
    requires MonotoneSeek(x) && MonotoneSeek(y) && Spans(x, p, r) && Spans(y, p, r)
    requires AtMost(x.weight * x.boundAt(p) + y.weight * y.boundAt(p), theta)
    ensures Idle(q, [x, y], 2, theta, p)
  {
    hide MonotoneSeek, Reach, First;
    var sc := [x, y];
    assert sc[..2] == sc;
    BoundSumOfTwo(x, y, p);
    assert RangeOk(sc, p, r);
    FirstAtMost(sc, p, p, 0);
    forall e: Warp | p <= e < END && RangeOk(sc, p, e) && Longest(sc, p, e) ensures Idle(q, sc, 2, theta, e + 1) {
      assert r <= e;
    }
    assert IdleHere(q, sc, 2, theta, p);
  }

  lemma SecondCompanyIdles(q: Query, a: Channel, c: Channel, m: Warp, p: Warp, r: Warp, sc: seq<Channel>)
    requires SecondCompany(q, a, c, m, p, r) && (sc == [a, c] || sc == [c, a])
    ensures StopsAt(q, 1, sc, m + 1)
  {
    hide Candidate, Contribution, Reach, MonotoneSeek, Idle;
    SecondCompanyCandidates(q, a, c, m, p, r);
    FirstFills(q, m);
    var b := c.weight * c.boundAt(p);
    assert sc[1..] == [sc[1]] && [sc[1]][1..] == [];
    assert CeilSum(sc[1..]) >= 0.0;
    assert SplitAt(sc, Fin(b), 2) == 2;
    SecondCompanyAtBlock(q, a, c, m, p, r);
    IdleAtBlock(q, sc[0], sc[1], p, r, Fin(b));
    assert sc == [sc[0], sc[1]] && Reach(sc[0], p);
    IdleBefore(q, sc, 2, Fin(b), m + 1, p);
    assert forall t: real :: Lowest({Entry(b, m)}, t) ==> t == b;
  }

  lemma OrderOfTwo(a: Channel, c: Channel, sc: seq<Channel>)
    requires ByCeiling([a, c], sc) && a != c
    ensures sc == [a, c] || sc == [c, a]
  {
    var xs := [a, c];
    SameMembers(xs, sc);
    assert xs[0] in sc && xs[1] in sc && sc[0] in xs && sc[1] in xs;
  }

  lemma SecondCompanyIsGood(q: Query, a: Channel, c: Channel, m: Warp, p: Warp, r: Warp)
    requires SecondCompany(q, a, c, m, p, r) && c.weight > 0.0
    ensures GoodCompany(a)
    ensures AllSeek(q) && Accepted(q.chans, 1) && AllScored(q.chans)
  {
    hide Seeks, KeptWherePresent, Safe, AtThree, Vetoes, Reach, Contribution, Spans;
    AtThreeIsGood(a, m, p, r, c.weight * c.boundAt(p) - Contribution(c, m), a.maxscore);
  }

  lemma SecondCompanyMisled(q: Query, a: Channel, c: Channel, m: Warp, p: Warp, r: Warp, sc: seq<Channel>,
                            out: seq<Entry>)
    requires SecondCompany(q, a, c, m, p, r) && a != c && ByCeiling(q.chans, sc)
    requires forall h: Warp :: StopsAt(q, 1, sc, h) ==> TopList(out, Hits(q, h), 1)
    ensures StopsAt(q, 1, sc, m + 1) && !TopList(out, Hits(q, q.nwarp), 1)
  {
    hide StopsAt, TopList, Hits, Candidate, ByCeiling, Vetoes, Reach, Contribution, Seeks;
    OrderOfTwo(a, c, sc);
    SecondCompanyIdles(q, a, c, m, p, r, sc);
    SecondCompanyCandidates(q, a, c, m, p, r);
    FirstFills(q, m);
    BetterIsMissed(q, out, Entry(c.weight * c.boundAt(p), m), m + 1, r);
  }

  method MakeAtThree(m: Warp, p: Warp, r: Warp, x: real, ceiling: real) returns (a: Channel)
    requires m < p < r < END
    ensures fresh(a) && AtThree(a, m, p, r, x, ceiling) && a.maxscore == ceiling
  {
    a := new Channel(t => if t <= m then m else if t <= p then p else if t <= r then r else END,
                     t => Val(if t == m then x else 0.0), t => if t == p then r else t,
                     t => if t == m then ceiling else 0.0, ceiling, 1.0, false);
  }

  /** A block with a bound below 0 hides the better document it spans. */
  method BoundMisleads(c: Channel, m: Warp, p: Warp, r: Warp)
    returns (chans: seq<Channel>, live: Warp -> bool, nwarp: Warp, out: array<Entry>, err: FuseError, n: nat)
    requires !c.required && c.weight > 0.0 && Seeks(c) && Ceil(c) >= 0.0
    requires m < p < r < END && Spans(c, p, r) && !Vetoes(c, m) && !Reach(c, r) && c.weight * c.boundAt(p) < 0.0
    modifies c
    ensures c in chans && forall d | d in chans && d != c :: GoodCompany(d)
    ensures n <= out.Length && err == Ok && !TopList(out[..n], Hits(Query(chans, live, nwarp), nwarp), 1)
  {
    hide Seeks, StopsAt, TopList, Hits, Candidate, AllBounded, AllSeek, AllScored, Accepted, ByCeiling, GoodCompany;
    hide AtThree;
    hide Vetoes, Reach, Contribution, Spans;
    var x := c.weight * c.boundAt(p) - Contribution(c, m);
    var a := MakeAtThree(m, p, r, x, if x > 0.0 then x else 0.0);
    chans, live, nwarp := [a, c], t => t == m || t == p || t == r, r + 1;
    SecondCompanyIsGood(Query(chans, live, nwarp), a, c, m, p, r);
    out := new Entry[1];
    ghost var sc;
    err, n, sc := TopK(chans, out, 1, live, nwarp, out);
    SecondCompanyMisled(Query(chans, live, nwarp), a, c, m, p, r, sc, out[..n]);
  }

  // ---------------------------------------------------------------------------
  // Safety is necessary
  // ---------------------------------------------------------------------------

  /** Where a channel is not safe: it lets `m` through, misses `r`, and its
      ceiling, or a bound that speaks for `r`, is below 0. */
  ghost predicate UnsafeAt(c: Channel, m: Warp, p: Warp, r: Warp) {
    && m < r < END && !Vetoes(c, m) && !Reach(c, r)
    && (Ceil(c) < 0.0 || (m < p && Spans(c, p, r) && c.weight * c.boundAt(p) < 0.0))
  }

  lemma UnsafeSomewhere(c: Channel)
    ensures !Safe(c) <==> exists m: Warp, p: Warp, r: Warp :: UnsafeAt(c, m, p, r)
  {
    hide Reach, Vetoes;
    if !CeilingSafe(c) {
      var m: Warp, r: Warp :| m < r < END && !Vetoes(c, m) && !Reach(c, r);
      assert UnsafeAt(c, m, 0, r);
    } else if !BoundSafe(c) {
      var m: Warp, p: Warp, r: Warp :| && m < p && r < END && Spans(c, p, r) && !Vetoes(c, m) && !Reach(c, r)
                                       && c.weight * c.boundAt(p) < 0.0;
      assert UnsafeAt(c, m, p, r);
    }
  }

  /** Next to a scored channel that is not safe, channels that are get a wrong
      list from the scan. */
  method UnsafeMisleads(c: Channel, m: Warp, p: Warp, r: Warp)
    returns (chans: seq<Channel>, live: Warp -> bool, nwarp: Warp, out: array<Entry>, err: FuseError, n: nat)
    requires !c.required && c.weight > 0.0 && Seeks(c) && UnsafeAt(c, m, p, r)
    modifies c
    ensures c in chans && forall d | d in chans && d != c :: GoodCompany(d)
    ensures n <= out.Length && err == Ok && !TopList(out[..n], Hits(Query(chans, live, nwarp), nwarp), 1)
  {
    hide Seeks, TopList, Hits, GoodCompany;
    if Ceil(c) < 0.0 {
      chans, live, nwarp, out, err, n := CeilingMisleads(c, m, r);
    } else {
      chans, live, nwarp, out, err, n := BoundMisleads(c, m, p, r);
    }
  }
}
