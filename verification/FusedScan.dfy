/** The fused-threshold top-k scan of src/am/fuse.c: its state, its loop, and the
    proof that its heap ends with the k best candidates.
  */
module FusedScan {
  import opened Basics
  import opened BinaryHeap
  import opened FusedSpec
  import opened FusedSteps
  import opened FusedTrace

  class FuseState {
    var query: Query
    var sc: seq<Channel>        // scored, by descending weighted ceiling
    var rq: seq<Channel>        // required, in the caller's order
    var ceil: seq<real>
    var suffix: seq<real>
    var split: nat              // essential channels are sc[..split]
    var heap: array<Entry>
    var k: nat
    var nheap: nat
    var theta: Theta
    var stop: Stop

    ghost predicate ChannelsValid()
      reads this`query, this`sc, this`rq, this`ceil, this`suffix
    {
      |ceil| == |sc| && |suffix| == |sc| + 1 && |query.chans| > 0 && Partitioned(query, sc, rq, ceil, suffix)
    }

    ghost predicate HeapValid()
      reads this`heap, this`k, this`nheap, this`theta, heap
    {
      && 0 < k <= heap.Length && nheap <= k && HeapOrdered(ByScoreThenId, heap[..nheap])
      && theta == if nheap == k then Fin(heap[0].score) else NegInf
    }

    ghost predicate Valid()
      reads this`query, this`sc, this`rq, this`ceil, this`suffix, this`split
      reads this`heap, this`k, this`nheap, this`theta, heap
    {
      && ChannelsValid() && HeapValid()
      && split <= |sc| && (split < |sc| ==> AtMost(suffix[split], theta))
    }

    /** The heap holds exactly the k best candidates below `p`. */
    ghost predicate Tracks(top: set<Entry>, p: Warp)
      reads this`query, this`heap, this`k, this`nheap, heap
    {
      nheap <= heap.Length && multiset(heap[..nheap]) == multiset(top) && TopSet(top, Hits(query, p), k)
    }

    lemma TrackedSize(top: set<Entry>, p: Warp)
      requires HeapValid() && Tracks(top, p)
      ensures |top| == nheap
    {
      assert |multiset(heap[..nheap])| == nheap;
    }

    /** No entry of a full heap scores below the threshold. */
    lemma ThetaBeats(top: set<Entry>, p: Warp, s: real)
      requires HeapValid() && Tracks(top, p) && AtMost(s, theta)
      ensures Beaten(top, k, s)
    {
      TrackedSize(top, p);
      forall x | x in top ensures s <= x.score {
        assert x in multiset(heap[..nheap]);
        var i :| 0 <= i < nheap && heap[..nheap][i] == x;
        RootIsWorst(ByScoreThenId, heap[..nheap], i);
      }
    }

    /** Positions that hold no candidate, or one that cannot beat the threshold,
        may be passed over. */
    lemma PassTo(top: set<Entry>, lo: Warp, hi: Warp)
      requires HeapValid() && Tracks(top, lo) && lo <= hi
      requires Hopeless(lo, hi)
      ensures Tracks(top, hi)
    {
      hide TopSet, Candidate, Beaten;
      forall q: Warp | lo <= q < hi ensures Passable(query, top, k, q) {
        if Candidate(query, q) { ThetaBeats(top, lo, Sum(query.chans, q)); }
      }
      PassOver(query, top, k, lo, hi);
    }

    /** Admit a document: push it, or replace the worst entry of a full heap. */
    method Push(p: Warp, s: real)
      requires HeapValid() && (nheap < k || !AtMost(s, theta))
      modifies this`nheap, this`theta, heap
      ensures HeapValid()
      ensures nheap == if old(nheap) < k then old(nheap) + 1 else k
      ensures old(nheap) < k ==> multiset(heap[..nheap]) == old(multiset(heap[..nheap])) + multiset{Entry(s, p)}
      ensures old(nheap) == k ==>
                multiset(heap[..nheap]) == old(multiset(heap[..nheap])) - multiset{old(heap[0])} + multiset{Entry(s, p)}
      ensures old(theta).Fin? ==> theta.Fin? && theta.v >= old(theta).v
    {
      hide HeapOrdered, Up, Down, Worse;
      if nheap < k {
        Insert(ByScoreThenId, heap, nheap, Entry(s, p));
        nheap := nheap + 1;
        theta := if nheap == k then Fin(heap[0].score) else NegInf;
      } else {
        Replace(Entry(s, p));
      }
    }

    /** Put a better entry in the place of a full heap's worst. */
    method Replace(e: Entry)
      requires HeapValid() && nheap == k && !AtMost(e.score, theta)
      modifies this`theta, heap
      ensures HeapValid()
      ensures multiset(heap[..k]) == old(multiset(heap[..k])) - multiset{old(heap[0])} + multiset{e}
      ensures theta.Fin? && theta.v >= old(theta).v
    {
      hide HeapOrdered, Up, Down, Worse;
      NotBelowRoot(heap[..k], e);
      ReplaceRoot(ByScoreThenId, heap, k, e);
      assert heap[0] in multiset(heap[..k]);
      theta := Fin(heap[0].score);
    }

    lemma NotBelowRoot(h: seq<Entry>, e: Entry)
      requires HeapOrdered(ByScoreThenId, h) && |h| > 0 && e.score > h[0].score
      ensures forall x | x in multiset(h) - multiset{h[0]} + multiset{e} :: x.score >= h[0].score
    {
      forall x | x in multiset(h) ensures x.score >= h[0].score {
        var i :| 0 <= i < |h| && h[i] == x;
        RootIsWorst(ByScoreThenId, h, i);
      }
    }

    /** The partition only ever moves left, as the threshold grows. */
    method Repartition()
      requires ChannelsValid() && HeapValid() && split <= |sc| && (split < |sc| ==> AtMost(suffix[split], theta))
      modifies this`split
      ensures Valid() && split <= old(split)
      ensures split > 0 ==> !AtMost(suffix[split - 1], theta)
      ensures split == SplitAt(sc, theta, old(split))
    {
      hide Partitioned, CeilSum, SplitAt, HeapOrdered;
      while split > 0 && AtMost(suffix[split - 1], theta)
        invariant split <= |sc| && split <= old(split) && (split < |sc| ==> AtMost(suffix[split], theta))
        invariant SplitAt(sc, theta, split) == SplitAt(sc, theta, old(split))
      {
        SplitOneStep(split);
        split := split - 1;
      }
      SplitOneStep(split);
    }

    lemma SplitOneStep(n: nat)
      requires ChannelsValid() && n <= |sc|
      ensures SplitAt(sc, theta, n) == if n > 0 && AtMost(suffix[n - 1], theta) then SplitAt(sc, theta, n - 1) else n
    {
      hide CeilSum;
    }

    // -------------------------------------------------------------------------
    // Why positions may be passed over
    // -------------------------------------------------------------------------

    /** No candidate in [lo, hi) beats the threshold. */
    ghost predicate Hopeless(lo: Warp, hi: Warp)
      reads this`query, this`theta
    {
      forall q: Warp :: lo <= q < hi && Candidate(query, q) ==> AtMost(Sum(query.chans, q), theta)
    }

    lemma Membership(c: Channel)
      requires ChannelsValid()
      ensures c in query.chans <==> c in sc || c in rq
      ensures c in sc ==> !c.required
      ensures c in rq ==> c.required
    {
      assert c in query.chans <==> c in multiset(query.chans);
      assert c in sc + rq <==> c in multiset(sc + rq);
    }

    lemma ScoredSum(q: Warp)
      requires ChannelsValid() && AllSeek(query)
      ensures Sum(query.chans, q) == Sum(sc, q) && Sum(rq, q) == 0.0
    {
      forall i | 0 <= i < |rq| ensures PureGate(rq[i]) {
        Membership(rq[i]);
        assert Seeks(rq[i]);
      }
      GatesAddNothing(rq, q);
      SumPermutation(query.chans, sc + rq, q);
      SumConcat(sc, rq, q);
    }

    lemma AllMonotone()
      requires ChannelsValid() && AllSeek(query)
      ensures forall i :: 0 <= i < |sc| ==> MonotoneSeek(sc[i])
      ensures forall i :: 0 <= i < |rq| ==> MonotoneSeek(rq[i])
    {
      forall i | 0 <= i < |sc| ensures MonotoneSeek(sc[i]) {
        Membership(sc[i]);
        assert Seeks(sc[i]);
      }
      forall i | 0 <= i < |rq| ensures MonotoneSeek(rq[i]) {
        Membership(rq[i]);
        assert Seeks(rq[i]);
      }
    }

    /** What passing over a position at or past `p` relies on: nothing before the
        heap is full, and true bounds from then on. */
    ghost predicate Trusted(p: Warp)
      reads this`query, this`k, this`theta
    {
      theta == NegInf || (AllBounded(query, k) && Full(query, k, p))
    }

    lemma TrustedHere(top: set<Entry>, p: Warp)
      requires HeapValid() && Tracks(top, p) && (theta == NegInf || AllBounded(query, k))
      ensures Trusted(p)
    {
      hide Hits, HeapOrdered, AllBounded, Worse;
      if theta.Fin? {
        TrackedSize(top, p);
        SubsetSize(top, Hits(query, p));
      }
    }

    /** A trusted scan with a threshold has bounds and ceilings that cover every
        later candidate. */
    lemma ScoredCovered(p: Warp, r: Warp)
      requires ChannelsValid() && Trusted(p) && theta.Fin? && p <= r && Candidate(query, r)
      ensures forall i :: 0 <= i < |sc| ==> BoundCovers(sc[i], p, r) && CeilingCovers(sc[i], r)
    {
      hide Candidate, BoundCovers, CeilingCovers, Partitioned, Hits;
      HitCount(query, p, r);
      forall i | 0 <= i < |sc| ensures BoundCovers(sc[i], p, r) && CeilingCovers(sc[i], r) {
        Membership(sc[i]);
        assert TrueBound(query, k, sc[i]) && TrueCeiling(query, k, sc[i]);
      }
    }

    /** What being a candidate means for the two kinds of channel. */
    lemma CandidateShape(q: Warp)
      requires ChannelsValid()
      ensures Candidate(query, q) <==>
              && q < query.nwarp && query.live(q)
              && AllReach(rq, q) && AllVal(rq, q) && AllVal(Reaching(sc, q), q)
              && (|sc| == 0 || |Reaching(sc, q)| > 0)
    {
      hide Partitioned;
      if Candidate(query, q) {
        forall i | 0 <= i < |rq| ensures Reach(rq[i], q) && rq[i].scoreAt(q).Val? { Membership(rq[i]); }
        forall i | 0 <= i < |Reaching(sc, q)| ensures Reaching(sc, q)[i].scoreAt(q).Val? {
          Membership(Reaching(sc, q)[i]);
        }
        if |sc| > 0 {
          Membership(sc[0]);
          var c :| c in query.chans && !c.required && Reach(c, q);
          Membership(c);
          assert c in Reaching(sc, q);
        }
      }
      if && q < query.nwarp && query.live(q)
         && AllReach(rq, q) && AllVal(rq, q) && AllVal(Reaching(sc, q), q)
         && (|sc| == 0 || |Reaching(sc, q)| > 0) {
        forall c | c in query.chans ensures c.required ==> Reach(c, q) { Membership(c); }
        forall c | c in query.chans && Reach(c, q) ensures c.scoreAt(q).Val? {
          Membership(c);
          if c in sc { assert c in Reaching(sc, q); }
        }
        if |sc| == 0 {
          forall c | c in query.chans ensures c.required { Membership(c); }
        } else {
          Membership(Reaching(sc, q)[0]);
        }
      }
    }

    lemma SomeScored()
      requires ChannelsValid() && |rq| == 0
      ensures |sc| > 0
    {
      Membership(query.chans[0]);
    }

    lemma NotCommonIsHopeless(lo: Warp, hi: Warp)
      requires ChannelsValid() && NotCommon(rq, lo, hi)
      ensures Hopeless(lo, hi)
    {
      hide Candidate, Partitioned;
      forall q: Warp | lo <= q < hi ensures !Candidate(query, q) {
        assert SomeMisses(rq, q);
        CandidateShape(q);
      }
    }

    /** Positions no essential channel reaches. */
    lemma NonEssentialIsHopeless(lo: Warp, hi: Warp)
      requires Valid() && AllSeek(query) && Trusted(lo) && 0 < split
      requires forall i :: 0 <= i < split ==> NoReach(sc[i], lo, hi)
      ensures Hopeless(lo, hi)
    {
      hide Candidate, AllSeek, Contribution, Trusted;
      forall q: Warp | lo <= q < hi && Candidate(query, q) ensures AtMost(Sum(query.chans, q), theta) {
        assert forall i :: 0 <= i < split ==> !Reach(sc[i], q);
        if split == |sc| {
          CandidateShape(q);
          NoneReaching(sc, q);
        } else {
          ScoredSum(q);
          ScoredCovered(lo, q);
          CeilingsCover(sc, split, q);
        }
      }
    }

    /** The global ceiling cannot beat the threshold. */
    lemma CeilingIsHopeless(lo: Warp, hi: Warp)
      requires ChannelsValid() && AllSeek(query) && Trusted(lo) && AtMost(suffix[0], theta)
      ensures Hopeless(lo, hi)
    {
      hide Candidate, AllSeek, Contribution, Trusted;
      forall q: Warp | lo <= q < hi && Candidate(query, q) ensures AtMost(Sum(query.chans, q), theta) {
        ScoredSum(q);
        ScoredCovered(lo, q);
        CeilingsCover(sc, 0, q);
        assert sc[0..] == sc;
      }
    }

    /** The range a block prune skips. */
    lemma BlockIsHopeless(p: Warp, ub: real, rend: Warp, con: seq<Channel>)
      requires ChannelsValid() && AllSeek(query) && Trusted(p) && Bounded(sc, p, ub, rend, con) && AtMost(ub, theta)
      ensures Hopeless(p, rend + 1)
    {
      hide Candidate, AllSeek, Contribution, Trusted;
      forall q: Warp | p <= q < rend + 1 && Candidate(query, q) ensures AtMost(Sum(query.chans, q), theta) {
        ScoredSum(q);
        ScoredCovered(p, q);
        BoundsCoverRange(sc, p, q, rend);
      }
    }

    // -------------------------------------------------------------------------
    // The loop
    // -------------------------------------------------------------------------

    /** No candidate lies at or past the end of the warp. */
    lemma PastTheEnd(p: Warp, top: set<Entry>)
      requires HeapValid() && query.nwarp <= p && Tracks(top, p)
      ensures Tracks(top, query.nwarp)
    {
      HitsEnd(query, p);
    }

    /** Admit the candidate at `p`. */
    method Admit(p: Warp, s: real, ghost top: set<Entry>, ghost good: bool) returns (ghost top': set<Entry>)
      requires HeapValid() && (nheap < k || !AtMost(s, theta)) && p < END
      requires good ==> Tracks(top, p) && Candidate(query, p) && s == Sum(query.chans, p)
      modifies this`nheap, this`theta, heap
      ensures HeapValid() && (old(theta).Fin? ==> theta.Fin? && theta.v >= old(theta).v)
      ensures good ==> Tracks(top', p + 1)
    {
      hide HeapOrdered, TopSet, Candidate, Hits;
      top' := if good then Admitted(p, s, top) else top;
      if good { AdmittedTracks(p, s, top); }
      Push(p, s);
    }

    /** The tracked set with the candidate at `p` in it. */
    ghost function Admitted(p: Warp, s: real, top: set<Entry>): set<Entry>
      requires 0 < heap.Length
      reads this`heap, this`nheap, this`k, heap
    {
      if nheap < k then top + {Entry(s, p)} else top - {heap[0]} + {Entry(s, p)}
    }

    lemma AdmittedTracks(p: Warp, s: real, top: set<Entry>)
      requires HeapValid() && (nheap < k || !AtMost(s, theta)) && p < END
      requires Tracks(top, p) && Candidate(query, p) && s == Sum(query.chans, p)
      ensures TopSet(Admitted(p, s, top), Hits(query, p + 1), k)
      ensures multiset(Admitted(p, s, top))
           == (if nheap < k then multiset(heap[..nheap]) else multiset(heap[..nheap]) - multiset{heap[0]})
              + multiset{Entry(s, p)}
    {
      hide HeapOrdered, TopSet, Candidate, Hits;
      TrackedSize(top, p);
      NotTracked(top, p, Entry(s, p));
      if nheap < k { AdmitWithRoom(query, top, k, p); } else { AdmitOverRoot(p, s, top); }
    }

    lemma NotTracked(top: set<Entry>, p: Warp, e: Entry)
      requires HeapValid() && Tracks(top, p) && e.id == p
      ensures e !in top
      ensures multiset(top) + multiset{e} == multiset(top + {e})
      ensures forall w | w in top :: multiset(top) - multiset{w} + multiset{e} == multiset(top - {w} + {e})
    {
    }

    lemma AdmitOverRoot(p: Warp, s: real, top: set<Entry>)
      requires HeapValid() && p < END && nheap == k && !AtMost(s, theta)
      requires Tracks(top, p) && Candidate(query, p) && s == Sum(query.chans, p)
      ensures heap[0] in top && TopSet(top - {heap[0]} + {Entry(s, p)}, Hits(query, p + 1), k)
    {
      hide HeapOrdered, TopSet, Candidate, Hits;
      TrackedSize(top, p);
      var h := heap[..nheap];
      assert h[0] in multiset(h);
      forall x | x in top && x != h[0] ensures Worse(ByScoreThenId, h[0], x) {
        assert x in multiset(h);
        var i :| 0 <= i < |h| && h[i] == x;
        RootIsWorst(ByScoreThenId, h, i);
        DistinctIds(top, p, x, h[0]);
      }
      AdmitByReplacing(query, top, k, p, h[0]);
    }

    lemma DistinctIds(top: set<Entry>, p: Warp, x: Entry, y: Entry)
      requires Tracks(top, p) && x in top && y in top && x != y
      ensures x.id != y.id
    {
      HitsDistinct(query, p, x, y);
    }

    /** The heap tracks the candidates below `p`, and no channel has passed a
        position at or past `p` that it reaches. */
    ghost predicate On(top: set<Entry>, p: Warp)
      reads this`query, this`sc, this`rq, this`heap, this`k, this`nheap, heap, set c | c in sc, set c | c in rq
    {
      Tracks(top, p) && AllReady(sc, p) && AllReady(rq, p)
    }

    lemma Members()
      requires ChannelsValid()
      ensures forall c | c in sc :: c in query.chans && c !in rq
      ensures forall c | c in rq :: c in query.chans && c !in sc
    {
      forall c | c in sc ensures c in query.chans && c !in rq { Membership(c); }
      forall c | c in rq ensures c in query.chans && c !in sc { Membership(c); }
    }

    lemma PassOn(top: set<Entry>, lo: Warp, hi: Warp)
      requires HeapValid() && On(top, lo) && lo <= hi && Hopeless(lo, hi)
      ensures On(top, hi)
    {
      hide Tracks, Candidate;
      PassTo(top, lo, hi);
      ReadyLater(sc, lo, hi);
      ReadyLater(rq, lo, hi);
    }

    lemma Finish(top: set<Entry>, p: Warp)
      requires HeapValid() && On(top, p) && Hopeless(p, if p <= query.nwarp then query.nwarp else p)
      ensures Tracks(top, query.nwarp)
    {
      if p <= query.nwarp { PassTo(top, p, query.nwarp); } else { PastTheEnd(p, top); }
    }

    /** Go on to the next document all required channels reach; without any, stay. */
    method FindCommon(p0: Warp, ghost top: set<Entry>, ghost good: bool) returns (r: Found)
      requires Valid() && p0 < query.nwarp
      requires good ==> AllSeek(query) && On(top, p0)
      modifies this`stop, set c | c in query.chans
      ensures !r.SkipTo? && (r.Backward? ==> !good)
      ensures stop == (if r.Finished? then RequiredStop else old(stop)) && (r.Finished? ==> |rq| > 0)
      ensures r.Finished? && good ==> Tracks(top, query.nwarp)
      ensures r.At? ==> p0 <= r.p < query.nwarp
      ensures r.At? && good ==> On(top, r.p) && AllReach(rq, r.p)
      ensures |rq| == 0 ==> r == At(p0) && (old(AllReady(sc, p0)) ==> AllReady(sc, p0))
    {
      hide Partitioned, HeapOrdered, HeapValid, TopSet, Hits, Candidate, Seeks, Reach, Stands, Ready, Tracks;
      hide Idle, IdleHere;
      hide Hopeless, AllSeek, Trusted, NotCommon, NoReach, AllReady, MonotoneSeek;
      Members();
      if |rq| == 0 { return At(p0); }
      if good { AllMonotone(); }
      var ok, p := Intersect(rq, p0);
      if !ok { return Backward; }
      if good {
        NotCommonIsHopeless(p0, p);
        ReadyLater(sc, p0, p);
        PassTo(top, p0, p);
      }
      if p == END || p >= query.nwarp {
        stop := RequiredStop;
        if good { PastTheEnd(p, top); }
        return Finished;
      }
      return At(p);
    }

    /** The scan stands at `p` and admits nothing from there on. */
    ghost predicate Quiet(p: Warp)
      reads this`query, this`sc, this`rq, this`split, this`theta, set c | c in sc
    {
      AllSeek(query) && |rq| == 0 && split <= |sc| && AllReady(sc, p) && Idle(query, sc, split, theta, p)
    }

    ghost predicate QuietHere(p: Warp)
      reads this`query, this`sc, this`rq, this`split, this`theta, set c | c in sc
    {
      && AllSeek(query) && |rq| == 0 && split <= |sc| && AllReady(sc, p)
      && p < END && IdleHere(query, sc, split, theta, p)
    }

    /** The pivot of a quiet scan. */
    lemma QuietPivot(p: Warp, lo: Warp, wasQuiet: bool)
      requires ChannelsValid() && AllSeek(query) && 0 < split <= |sc| && p <= lo && p < query.nwarp && |rq| == 0
      requires wasQuiet ==> Idle(query, sc, split, theta, p)
      requires !AtMost(suffix[0], theta) && AllReady(sc, p)
      requires forall i :: 0 <= i < split ==> NoReach(sc[i], p, lo)
      requires lo < END ==> exists i :: 0 <= i < split && Reach(sc[i], lo)
      ensures wasQuiet ==> if lo > p then Quiet(lo) else QuietHere(p)
    {
      hide Hits, Candidate, AllReady, NoReach, MonotoneSeek, Reach, IdleHere;
      AllMonotone();
      if lo < END {
        var i :| 0 <= i < split && Reach(sc[i], lo);
        assert Reach(sc[..split][i], lo);
      }
      FirstIs(sc[..split], p, lo);
      assert sc[0..] == sc;
      if lo > p { ReadyLater(sc, p, lo); }
    }

    /** Stay if an essential channel reaches `p`, else skip to the next it reaches. */
    method FindCandidate(p: Warp, ghost top: set<Entry>, ghost good: bool, ghost quiet: bool) returns (r: Found)
      requires Valid() && p < query.nwarp
      requires good ==> AllSeek(query) && Trusted(p) && On(top, p) && AllReach(rq, p)
      requires quiet ==> Quiet(p) && !AtMost(suffix[0], theta)
      modifies this`stop, set c | c in query.chans
      ensures r.Backward? ==> !good && !quiet
      ensures stop == (if r.Finished? then NoCandidate else old(stop)) && (r.Finished? ==> split == 0 && |rq| == 0)
      ensures quiet ==> (r.SkipTo? ==> Quiet(r.p)) && (r.At? ==> QuietHere(p))
      ensures r.Finished? && good ==> Tracks(top, query.nwarp)
      ensures r.SkipTo? ==> p < r.p && (good ==> On(top, r.p))
      ensures r.At? ==> r.p == p
      ensures r.At? && good ==> On(top, p)
      ensures r.At? && good && !AtMost(suffix[0], theta) && |sc| > 0 ==> |Reaching(sc, p)| > 0
    {
      hide Partitioned, HeapOrdered, HeapValid, TopSet, Hits, Candidate, Seeks, Reach, Stands, Ready, Tracks;
      hide Idle, IdleHere;
      hide Hopeless, AllSeek, Trusted, NotCommon, NoReach, AllReady, MonotoneSeek;
      Members();
      if split > 0 {
        if good || quiet { AllMonotone(); }
        var ok, q := Pivot(sc, split, p);
        if !ok { return Backward; }
        if good { NonEssentialIsHopeless(p, q); }
        if quiet { QuietPivot(p, q, quiet); }
        if q > p {
          if good { PassOn(top, p, q); }
          return SkipTo(q);
        }
        if good { SomeReaching(sc, p); }
      } else if |rq| == 0 {
        stop := NoCandidate;
        if good {
          SomeScored();
          CeilingIsHopeless(p, query.nwarp);
          Finish(top, p);
        }
        return Finished;
      }
      return At(p);
    }

    /** A scored document is a candidate, and `s` its fused score. */
    lemma ScoredIsCandidate(p: Warp, con: seq<Channel>, s: real)
      requires ChannelsValid() && AllSeek(query) && p < query.nwarp && query.live(p)
      requires AllReach(rq, p) && con == Reaching(sc, p) && (|sc| == 0 || |con| > 0)
      requires AllVal(rq, p) && AllVal(con, p) && s == Sum(rq, p) + Sum(con, p)
      ensures Candidate(query, p) && s == Sum(query.chans, p)
    {
      hide Candidate, Partitioned, AllSeek;
      CandidateShape(p);
      ScoredSum(p);
      SumReaching(sc, p);
    }

    /** What scoring a document at `p` establishes when it gives up on it. */
    ghost predicate GivenUp(con: seq<Channel>, p: Warp)
      reads this`rq, this`theta
    {
      theta == NegInf || AllCovered(con, p) ==>
        !AllVal(rq, p) || !AllVal(con, p) || AtMost(Sum(rq, p) + Sum(con, p), theta)
    }

    /** A document given up on is no candidate, or cannot beat the threshold. */
    lemma AbandonedIsHopeless(p: Warp, con: seq<Channel>)
      requires ChannelsValid() && AllSeek(query) && Trusted(p) && p < END && con == Reaching(sc, p)
      requires GivenUp(con, p)
      ensures Hopeless(p, p + 1)
    {
      hide Candidate, Partitioned, AllSeek, AllVal, Trusted, BoundCovers, CeilingCovers;
      if Candidate(query, p) {
        CandidateShape(p);
        ScoredSum(p);
        SumReaching(sc, p);
        if theta.Fin? { ScoredCovered(p, p); }
      }
    }

    lemma OneIsHopeless(p: Warp)
      requires p < END && (Candidate(query, p) ==> AtMost(Sum(query.chans, p), theta))
      ensures Hopeless(p, p + 1)
    {
    }

    lemma Standing(p: Warp)
      requires forall c | c in sc :: Stands(c, p)
      ensures AllReady(sc, p)
    {
    }

    /** Steps 3 to 5 at the candidate position: drop the dead, bound the range,
        score and admit. */
    method Visit(p: Warp, ghost top: set<Entry>, ghost good: bool, ghost quiet: bool)
      returns (r: Found, ghost top': set<Entry>)
      requires Valid() && p < query.nwarp
      requires good ==> && AllSeek(query) && Trusted(p) && On(top, p) && AllReach(rq, p)
                        && (|sc| > 0 ==> |Reaching(sc, p)| > 0)
      requires quiet ==> QuietHere(p)
      modifies this`nheap, this`theta, this`split, heap, set c | c in query.chans
      ensures Valid() && !r.At?
      ensures r.Backward? ==> !good && !quiet
      ensures r.Finished? ==> theta == old(theta)
      ensures quiet ==> && heap[..] == old(heap[..]) && nheap == old(nheap) && theta == old(theta) && top' == top
                        && (r.SkipTo? ==> Quiet(r.p))
      ensures old(nheap) < k ==> && split == SplitAt(sc, theta, old(split))
                                 && (nheap != old(nheap) ==> r == SkipTo(p + 1))
      ensures r.Finished? && good ==> Tracks(top', query.nwarp)
      ensures r.SkipTo? ==> p < r.p && (good ==> On(top', r.p))
    {
      hide Partitioned, HeapOrdered, TopSet, Hits, Candidate, Seeks, Reach, Ready, Stands, Tracks;
      hide AllSeek, Trusted, NoReach, AllReady, MonotoneSeek, AllReach, AllVal, AllCovered, Hopeless, HeapValid, Sum;
      hide Bounded, Longest, Reaching, Idle, IdleHere, Quiet, QuietHere;
      top' := top;
      Members();
      if quiet { QuietSeeks(p); }
      if good { AllMonotone(); }
      NoThreshold(split);
      if !query.live(p) {
        if good {
          DeadIsHopeless(p);
          PassOn(top, p, p + 1);
        }
        if quiet { QuietAfterDead(p); }
        return SkipTo(p + 1), top;
      }
      var ok := AdvanceAll(sc, p);
      if !ok { return Backward, top; }
      if good || quiet { Standing(p); }
      var ub, rend, con := BoundRange(sc, p);
      if AtMost(ub, theta) {
        if good { BlockRange(p, ub, rend, con, top); }
        if quiet { QuietAfterBlock(p, ub, rend, con); }
        if rend < p { return Backward, top; }
        if rend >= END - 1 { return Finished, top; }
        return SkipTo(rend + 1), top;
      }
      if good { BoundedAtLeast(sc, p, ub, rend, con); }
      if quiet { QuietAfterBlock(p, ub, rend, con); }
      r, top' := Score(p, con, top, good);
    }

    lemma QuietSeeks(p: Warp)
      requires ChannelsValid() && QuietHere(p)
      ensures AllReady(sc, p) && forall c | c in sc :: MonotoneSeek(c)
      ensures AllSeek(query) && |rq| == 0 && IdleHere(query, sc, split, theta, p)
    {
      hide AllSeek, AllReady, MonotoneSeek, IdleHere;
      AllMonotone();
    }

    /** Before the heap is full the partition does not move. */
    lemma NoThreshold(n: nat)
      requires HeapValid() && n <= |sc|
      ensures nheap < k ==> theta == NegInf && SplitAt(sc, NegInf, n) == n
    {
    }

    lemma QuietAfterDead(p: Warp)
      requires QuietHere(p) && !query.live(p)
      ensures Quiet(p + 1)
    {
      hide AllSeek, AllReady, Idle;
      ReadyLater(sc, p, p + 1);
    }

    lemma QuietAfterBlock(p: Warp, ub: real, rend: Warp, con: seq<Channel>)
      requires AllSeek(query) && |rq| == 0 && split <= |sc| && AllReady(sc, p)
      requires p < END && IdleHere(query, sc, split, theta, p)
      requires query.live(p) && Bounded(sc, p, ub, rend, con) && Longest(sc, p, rend)
      ensures AtMost(ub, theta) && p <= rend < END && Quiet(rend + 1)
    {
      hide AllSeek, AllReady, Idle, Longest, RangeOk;
      ReadyLater(sc, p, rend + 1);
    }

    lemma DeadIsHopeless(p: Warp)
      requires p < END && !query.live(p)
      ensures Hopeless(p, p + 1)
    {
    }

    lemma BlockRange(p: Warp, ub: real, rend: Warp, con: seq<Channel>, top: set<Entry>)
      requires Valid() && AllSeek(query) && Trusted(p) && On(top, p) && p < query.nwarp
      requires Bounded(sc, p, ub, rend, con) && AtMost(ub, theta)
      ensures p <= rend < END && On(top, rend + 1)
      ensures rend >= END - 1 ==> Tracks(top, query.nwarp)
    {
      hide Partitioned, HeapOrdered, TopSet, Hits, Candidate, AllSeek, Trusted, AllReady, Tracks;
      BlockIsHopeless(p, ub, rend, con);
      PassOn(top, p, rend + 1);
      if rend >= END - 1 { Finish(top, p); }
    }

    /** Step 5: score the document and admit it if it beats the threshold. */
    method Score(p: Warp, con: seq<Channel>, ghost top: set<Entry>, ghost good: bool)
      returns (r: Found, ghost top': set<Entry>)
      requires Valid() && p < query.nwarp && query.live(p)
      requires good ==> && AllSeek(query) && Trusted(p) && On(top, p) && AllReach(rq, p)
                        && con == Reaching(sc, p) && (|sc| > 0 ==> |con| > 0)
      modifies this`nheap, this`theta, this`split, heap
      ensures Valid() && r == SkipTo(p + 1)
      ensures good ==> On(top', p + 1)
      ensures old(nheap) < k ==> split == SplitAt(sc, theta, old(split))
    {
      hide Partitioned, HeapOrdered, TopSet, Hits, Candidate, Seeks, Reach, Ready, Tracks;
      hide AllSeek, Trusted, AllReady, AllReach, AllVal, AllCovered, Hopeless, Sum, Reaching;
      top' := top;
      NoThreshold(split);
      var s := ScoreDocument(rq, con, p, theta);
      if good { assert AllReach(con, p) by { ReachingReach(sc, p); } }
      if s.Some? && (nheap < k || !AtMost(s.value, theta)) {
        if good {
          ScoredIsCandidate(p, con, s.value);
          ReadyLater(sc, p, p + 1);
          ReadyLater(rq, p, p + 1);
        }
        top' := Admit(p, s.value, top, good);
        Repartition();
      } else if good {
        AbandonedIsHopeless(p, con);
        PassOn(top, p, p + 1);
      }
      r := SkipTo(p + 1);
    }

    /** A turn that does not end the scan leaves the reason alone; one that does gives
        one, except after a block that runs to the end. */
    ghost predicate EndsFor(r: Found, before: Stop)
      reads this`stop, this`split, this`rq
    {
      || stop == before
      || (r.Finished? && stop == RequiredStop && |rq| > 0)
      || (r.Finished? && stop == NoCandidate && split == 0 && |rq| == 0)
    }

    /** One turn of the loop, past the two tests that end it. */
    method Iterate(p: Warp, ghost top: set<Entry>, ghost good: bool, ghost quiet: bool)
      returns (r: Found, ghost top': set<Entry>)
      requires Valid() && p < query.nwarp && !AtMost(suffix[0], theta)
      requires good ==> AllSeek(query) && On(top, p) && (theta == NegInf || AllBounded(query, k))
      requires quiet ==> Quiet(p)
      modifies this`stop, this`nheap, this`theta, this`split, heap, set c | c in query.chans
      ensures Valid() && !r.At?
      ensures EndsFor(r, old(stop)) && (r.Finished? ==> theta == old(theta))
      ensures r.Backward? ==> !good && !quiet
      ensures r.Finished? && good ==> Tracks(top', query.nwarp)
      ensures r.SkipTo? ==> p < r.p && (good ==> On(top', r.p))
      ensures quiet ==> nheap == old(nheap) && top' == top && (r.SkipTo? ==> Quiet(r.p))
      ensures quiet ==> forall h: Warp :: old(Tracks(top, h)) ==> Tracks(top, h)
      ensures old(nheap) < k ==> split == SplitAt(sc, theta, old(split))
      ensures old(nheap) < k && nheap != old(nheap) ==> r.SkipTo? && (good ==> |Hits(query, r.p - 1)| < k)
    {
      hide Partitioned, HeapOrdered, TopSet, Hits, Candidate, Seeks, Reach, Ready, On, Trusted, Quiet, QuietHere;
      hide AllSeek, AllBounded, AllReady, AllReach, AllVal, AllCovered, Hopeless, Sum, Reaching, HeapValid, SplitAt;
      hide Idle, IdleHere;
      top' := top;
      NoThreshold(split);
      if quiet { QuietMeans(p); }
      r := FindCommon(p, top, good);
      if !r.At? { return; }
      if good { TrustedOn(top, r.p); }
      if quiet { QuietIs(p); }
      r := FindCandidate(r.p, top, good, quiet);
      if !r.At? { return; }
      if good {
        TrustedOn(top, r.p);
        if nheap < k { NotYetFull(top, r.p); }
      }
      r, top' := Visit(r.p, top, good, quiet);
    }

    /** Where a run stands at `p`. With true bounds it tracks the best candidates
        passed. If it is idle once the heap fills, at `h`, it tracks them until
        then, and keeps what it has from there on. */
    ghost predicate Progress(early: bool, h: Warp, top: set<Entry>, p: Warp)
      reads this`query, this`sc, this`rq, this`split, this`theta, this`heap, this`k, this`nheap, heap
      reads set c | c in sc, set c | c in rq
    {
      && (early ==> AllSeek(query) && |rq| == 0 && StopsAt(query, k, sc, h))
      && (AllHonest(query, k) || (early && nheap < k) ==> On(top, p))
      && (early && nheap < k ==> split == |sc|)
      && (early && nheap >= k ==> Tracks(top, h) && Quiet(p))
    }

    /** What a run that has ended holds. */
    ghost predicate Ended(early: bool, h: Warp, top: set<Entry>)
      reads this`query, this`heap, this`k, this`nheap, heap
    {
      && (AllHonest(query, k) ==> Tracks(top, query.nwarp))
      && (early ==> Tracks(top, if nheap < k then query.nwarp else h))
    }

    lemma ProgressStarts(early: bool, h: Warp)
      requires Valid() && nheap == 0 && forall c | c in query.chans :: c.nseek == 0
      requires early ==> AllSeek(query) && |rq| == 0 && split == |sc| && StopsAt(query, k, sc, h)
      ensures Progress(early, h, {}, 0)
    {
      hide Partitioned, HeapOrdered, On, Tracks, Quiet, AllSeek, AllBounded, StopsAt;
      NothingYet();
    }

    /** The two tests at the head of the loop end it rightly. */
    lemma HeadEnds(early: bool, h: Warp, top: set<Entry>, p: Warp)
      requires Valid() && Progress(early, h, top, p) && (p >= query.nwarp || AtMost(suffix[0], theta))
      ensures Ended(early, h, top)
    {
      hide Partitioned, HeapOrdered, On, Tracks, Quiet, AllSeek, AllBounded, StopsAt, Trusted, HeapValid;
      NoThreshold(split);
      if AllHonest(query, k) || (early && nheap < k) {
        if p >= query.nwarp {
          PastEnd(top, p);
        } else {
          TrustedOn(top, p);
          CeilingEnd(top, p);
        }
      }
    }

    /** One turn of the loop keeps the run's progress. */
    method Turn(p: Warp, ghost early: bool, ghost h: Warp, ghost top: set<Entry>)
      returns (r: Found, ghost top': set<Entry>)
      requires Valid() && p < query.nwarp && !AtMost(suffix[0], theta) && Progress(early, h, top, p)
      modifies this`stop, this`nheap, this`theta, this`split, heap, set c | c in query.chans
      ensures Valid() && !r.At?
      ensures EndsFor(r, old(stop)) && (r.Finished? ==> theta == old(theta))
      ensures r.Backward? ==> !AllHonest(query, k) && !early
      ensures r.Finished? ==> Ended(early, h, top')
      ensures r.SkipTo? ==> p < r.p && Progress(early, h, top', r.p)
    {
      hide Partitioned, HeapOrdered, HeapValid, On, Tracks, Quiet, AllSeek, AllBounded, StopsAt, Hits, SplitAt, Sum;
      ghost var good := AllHonest(query, k) || (early && nheap < k);
      ghost var quiet := early && nheap >= k;
      NoThreshold(split);
      r, top' := Iterate(p, top, good, quiet);
      NoThreshold(|sc|);
      if early && !quiet && nheap >= k { FilledNow(top', r.p - 1, h); }
    }

    /** The reason recorded for a scan that ended with the loop at `at`: past the warp,
        or at the global ceiling, or found by the turn taken there, which records
        none when a block runs to the end. */
    ghost predicate StopIsTrue(at: Warp)
      reads this`query, this`stop, this`split, this`rq, this`suffix, this`theta
    {
      && |suffix| > 0
      && (stop == Exhausted <==> at >= query.nwarp)
      && (stop == CeilingStop <==> at < query.nwarp && AtMost(suffix[0], theta))
      && (stop == RequiredStop ==> |rq| > 0)
      && (stop == NoCandidate ==> split == 0 && |rq| == 0)
    }

    /** The scan, as weave_fuse_run(): exact with true bounds, and with any bounds
        at all exact up to where the heap fills, which is where it ends when the
        scan is idle from there on. */
    method Run() returns (err: FuseError, ghost top: set<Entry>, ghost at: Warp)
      requires Valid() && nheap == 0 && forall c | c in query.chans :: c.nseek == 0
      modifies this`stop, this`nheap, this`theta, this`split, heap, set c | c in query.chans
      ensures Valid() && (err == Ok || err == C1Violation)
      ensures old(stop) == StopNone && err == Ok ==> StopIsTrue(at)
      ensures AllHonest(query, k) ==> err == Ok && Tracks(top, query.nwarp)
      ensures forall h: Warp :: AllSeek(query) && |rq| == 0 && old(split) == |sc| && StopsAt(query, k, sc, h) ==>
                err == Ok && Tracks(top, h)
    {
      hide Partitioned, HeapOrdered, HeapValid, Tracks, AllHonest, AllSeek, StopsAt, Progress, Ended;
      ghost var early := AllSeek(query) && |rq| == 0 && split == |sc| && exists h: Warp :: StopsAt(query, k, sc, h);
      ghost var h: Warp := 0;
      if early { h :| StopsAt(query, k, sc, h); }
      var p: Warp := 0;
      top, at := {}, 0;
      ProgressStarts(early, h);
      while true
        invariant Valid() && Progress(early, h, top, p) && stop == old(stop)
        decreases END - p
      {
        if p == END || p >= query.nwarp {
          stop := Exhausted;
          HeadEnds(early, h, top, p);
          EndedThere(early, h, top);
          return Ok, top, p;
        }
        if AtMost(suffix[0], theta) {
          stop := CeilingStop;
          HeadEnds(early, h, top, p);
          EndedThere(early, h, top);
          return Ok, top, p;
        }
        var r;
        r, top := Turn(p, early, h, top);
        match r {
          case Backward => return C1Violation, top, p;
          case Finished =>
            EndedThere(early, h, top);
            return Ok, top, p;
          case SkipTo(q) => p := q;
        }
      }
    }

    lemma EndedThere(early: bool, h: Warp, top: set<Entry>)
      requires HeapValid() && Ended(early, h, top) && (early ==> StopsAt(query, k, sc, h))
      ensures AllHonest(query, k) ==> Tracks(top, query.nwarp)
      ensures early ==> forall g: Warp :: StopsAt(query, k, sc, g) ==> Tracks(top, g)
    {
      hide HeapValid, Tracks, AllHonest, StopsAt;
      if early { StoppedThere(top, h); }
    }

    lemma QuietMeans(p: Warp)
      requires Quiet(p)
      ensures AllSeek(query) && |rq| == 0 && AllReady(sc, p) && Idle(query, sc, split, theta, p)
    {
    }

    lemma QuietIs(p: Warp)
      requires AllSeek(query) && |rq| == 0 && split <= |sc| && AllReady(sc, p) && Idle(query, sc, split, theta, p)
      ensures Quiet(p)
    {
    }

    lemma NotYetFull(top: set<Entry>, p: Warp)
      requires HeapValid() && On(top, p) && nheap < k
      ensures |Hits(query, p)| < k
    {
      hide Hits, HeapOrdered, AllReady;
      TrackedSize(top, p);
    }

    /** The visit that fills the heap leaves the scan where `StopsAt` says. */
    lemma FilledNow(top: set<Entry>, p: Warp, h: Warp)
      requires Valid() && AllSeek(query) && |rq| == 0 && p < END && On(top, p + 1) && nheap >= k
      requires |Hits(query, p)| < k && StopsAt(query, k, sc, h) && split == SplitAt(sc, theta, |sc|)
      ensures h == p + 1 && Tracks(top, h) && Quiet(h)
    {
      hide Hits, HeapOrdered, AllReady, AllSeek, Partitioned, SplitAt, Idle;
      TrackedSize(top, p + 1);
      SubsetSize(top, Hits(query, p + 1));
      FillsOnce(query, k, h, p + 1);
      SameSize(top, Hits(query, h));
      LowestIsRoot(top, h);
    }

    lemma LowestIsRoot(top: set<Entry>, p: Warp)
      requires HeapValid() && Tracks(top, p) && nheap == k
      ensures Lowest(top, heap[0].score) && theta == Fin(heap[0].score)
    {
      hide Hits, TopSet, HeapOrdered;
      var h := heap[..nheap];
      assert h[0] in multiset(h);
      forall e | e in top ensures h[0].score <= e.score {
        assert e in multiset(h);
        var i :| 0 <= i < |h| && h[i] == e;
        RootIsWorst(ByScoreThenId, h, i);
      }
    }

    /** A scan that ends with what it had when the heap filled. */
    lemma StoppedThere(top: set<Entry>, h: Warp)
      requires HeapValid() && StopsAt(query, k, sc, h) && Tracks(top, if nheap < k then query.nwarp else h)
      ensures forall g: Warp :: StopsAt(query, k, sc, g) ==> Tracks(top, g)
    {
      hide Hits, HeapOrdered, Idle;
      if nheap < k {
        TrackedSize(top, query.nwarp);
        if h <= query.nwarp { HitCount(query, h, query.nwarp); } else { HitsEnd(query, h); }
      }
      forall g: Warp | StopsAt(query, k, sc, g) ensures Tracks(top, g) { FillsOnce(query, k, g, h); }
    }

    lemma TrustedOn(top: set<Entry>, p: Warp)
      requires HeapValid() && On(top, p) && (theta == NegInf || AllBounded(query, k))
      ensures Trusted(p)
    {
      hide Tracks, AllReady, Trusted, HeapValid;
      TrustedHere(top, p);
    }

    lemma NothingYet()
      requires Valid() && nheap == 0 && forall c | c in query.chans :: c.nseek == 0
      ensures On({}, 0) && nheap < k
    {
      hide Partitioned, HeapOrdered;
      Members();
    }

    lemma PastEnd(top: set<Entry>, p: Warp)
      requires HeapValid() && On(top, p) && query.nwarp <= p
      ensures Tracks(top, query.nwarp)
    {
      hide Candidate;
      Finish(top, p);
    }

    lemma CeilingEnd(top: set<Entry>, p: Warp)
      requires Valid() && AllSeek(query) && Trusted(p) && On(top, p) && p < query.nwarp && AtMost(suffix[0], theta)
      ensures Tracks(top, query.nwarp)
    {
      hide Candidate, Partitioned, HeapOrdered, AllSeek, Trusted;
      CeilingIsHopeless(p, query.nwarp);
      Finish(top, p);
    }

    // -------------------------------------------------------------------------
    // Setup
    // -------------------------------------------------------------------------

    constructor ()
      ensures sc == [] && rq == []
    {
      query, sc, rq, ceil, suffix, split := Query([], _ => true, 0), [], [], [], [0.0], 0;
      heap := new Entry[0];
      k, nheap, theta, stop := 0, 0, NegInf, StopNone;
    }

    /** Bring the scored channels into descending order of ceiling, one at a time. */
    method SortScored()
      requires Ceilings(sc, ceil)
      modifies this`sc, this`ceil
      ensures multiset(sc) == multiset(old(sc)) && Ceilings(sc, ceil) && Descending(ceil)
    {
      hide Ceilings;
      assert |ceil| == |sc| by { CeilingsLength(sc, ceil); }
      if |sc| == 0 { return; }
      for i := 1 to |sc|
        invariant |sc| == |ceil| == |old(sc)| && multiset(sc) == multiset(old(sc)) && Ceilings(sc, ceil)
        invariant Descending(ceil[..i])
      {
        sc, ceil := InsertDown(sc, ceil, i);
      }
      assert ceil[..|sc|] == ceil;
    }

    /** Order the scored channels, sum their ceilings, and start with all essential. */
    method Partition()
      requires Split(query.chans, sc, rq) && Ceilings(sc, ceil)
      modifies this`sc, this`ceil, this`suffix, this`split
      ensures Partitioned(query, sc, rq, ceil, suffix) && |ceil| == |sc| && |suffix| == |sc| + 1 && split == |sc|
    {
      hide Split, Ceilings, Descending, CeilSum;
      ghost var sc0 := sc;
      SortScored();
      suffix := CeilSuffixes(sc, ceil);
      split := |sc|;
      SplitPermuted(query.chans, sc0, sc, rq);
      CeilingsLength(sc, ceil);
    }

    lemma EmptyHeap(h: seq<Entry>)
      requires h == []
      ensures HeapOrdered(ByScoreThenId, h)
    {
    }

    /** Validate, reset, split, sort and sum, as weave_fuse_init(). */
    method Init(chans: seq<Channel>, heap: array<Entry>, k: nat, live: Warp -> bool, nwarp: Warp)
      returns (err: FuseError)
      requires k <= heap.Length
      modifies this, set c | c in chans
      ensures err == BadNChan <==> |chans| < 1 || |chans| > MAX_CHAN
      ensures err == BadK <==> 1 <= |chans| <= MAX_CHAN && k < 1
      ensures err == BadWeight <==> 1 <= |chans| <= MAX_CHAN && k >= 1 && !forall c | c in chans :: c.weight > 0.0
      ensures err != C1Violation
      ensures err == Ok ==> && Valid() && this.heap == heap && this.k == k && nheap == 0 && split == |sc|
                            && stop == StopNone && query == Query(chans, live, nwarp)
                            && forall c | c in chans :: c.nseek == 0
    {
      hide Split, Ceilings, Descending, CeilSum, HeapOrdered, Partitioned;
      if |chans| < 1 || |chans| > MAX_CHAN { return BadNChan; }
      if k < 1 { return BadK; }
      query := Query(chans, live, nwarp);
      this.heap, this.k, nheap, theta, stop := heap, k, 0, NegInf, StopNone;
      var ok;
      ok, sc, rq, ceil := SplitChannels(chans);
      if !ok { return BadWeight; }
      Partition();
      EmptyHeap(heap[..0]);
      return Ok;
    }

    // -------------------------------------------------------------------------
    // Draining the heap
    // -------------------------------------------------------------------------

    /** Heapsort in place, copy out unless `out` is the heap, and empty the heap. */
    method Drain(out: array<Entry>) returns (n: nat)
      requires HeapValid() && nheap <= out.Length
      modifies this`nheap, this`theta, heap, out
      ensures n == old(nheap) <= out.Length && nheap == 0 && theta == NegInf
      ensures Placed(ByScoreThenId, out[..n], 0) && multiset(out[..n]) == multiset(old(heap[..nheap]))
    {
      hide HeapOrdered, Placed;
      n := nheap;
      HeapSort(ByScoreThenId, heap, n);
      if out != heap { CopyOut(out, n); }
      nheap := 0;
      theta := NegInf;
    }

    method CopyOut(out: array<Entry>, n: nat)
      requires out != heap && n <= heap.Length && n <= out.Length
      modifies out
      ensures out[..n] == heap[..n]
    {
      for i := 0 to n
        invariant out[..i] == heap[..i]
      {
        out[i] := heap[i];
        assert out[..i + 1] == out[..i] + [heap[i]];
      }
    }
  }
}
