/** What a channel must promise for the fused scan of src/am/fuse.c to be exact.
    The contract of include/weave/channel.h speaks of the positions a channel
    reaches; the scan also weighs a bound against documents the channel misses,
    where it contributes 0. The difference is settled here, first for one query,
    then for every company a channel may be put in.
  */
module FusedSafety {
  import opened BinaryHeap
  import opened FusedSpec

  // ---------------------------------------------------------------------------
  // One query
  // ---------------------------------------------------------------------------

  /** The bound taken at `p` speaks for `r`. */
  predicate Spans(c: Channel, p: Warp, r: Warp) { Reach(c, p) && p <= r <= BlockEnd(c, p) }

  /** (C2) wherever the channel is present. */
  ghost predicate BoundWherePresent(c: Channel) {
    forall p: Warp, r: Warp :: Spans(c, p, r) && Reach(c, r) ==> BoundCovers(c, p, r)
  }

  /** The ceiling wherever the channel is present. */
  ghost predicate CeilingWherePresent(c: Channel) {
    forall r: Warp :: Reach(c, r) ==> CeilingCovers(c, r)
  }

  ghost predicate KeptWherePresent(c: Channel) { BoundWherePresent(c) && CeilingWherePresent(c) }

  /** A ceiling that holds where the channel is present serves the scan iff it is
      at least 0 or no candidate past the first `k` is missed. */
  lemma CeilingHoldsIff(q: Query, k: nat, c: Channel)
    requires CeilingWherePresent(c)
    ensures TrueCeiling(q, k, c) <==>
              0.0 <= c.weight * c.maxscore || forall r: Warp :: Full(q, k, r) && Candidate(q, r) ==> Reach(c, r)
  {
    hide Full, Candidate, Reach;
    if 0.0 <= c.weight * c.maxscore {
      forall r: Warp ensures CeilingCovers(c, r) {}
    } else {
      forall r: Warp ensures CeilingCovers(c, r) <==> Reach(c, r) {}
    }
  }

  /** A bound that holds where the channel is present serves the scan iff no block
      with a bound below 0 spans a candidate the channel misses. */
  lemma BoundHoldsIff(q: Query, k: nat, c: Channel)
    requires BoundWherePresent(c)
    ensures TrueBound(q, k, c) <==>
              forall p: Warp, r: Warp :: Full(q, k, p) && Candidate(q, r) && Spans(c, p, r) && !Reach(c, r) ==>
                0.0 <= c.weight * c.boundAt(p)
  {
    hide Full, Candidate, Reach;
    forall p: Warp, r: Warp
      ensures BoundCovers(c, p, r) <==> (Spans(c, p, r) && !Reach(c, r) ==> 0.0 <= c.weight * c.boundAt(p))
    {
    }
  }

  /** With one scored channel every candidate is reached, so nothing more is
      asked than the contract where the channel is present. */
  lemma LoneScoredIsHonest(q: Query, k: nat, c: Channel)
    requires AllSeek(q) && c in q.chans && !c.required && forall d | d in q.chans && d != c :: d.required
    requires KeptWherePresent(c)
    ensures AllHonest(q, k)
  {
    hide Full, AllSeek;
    forall r: Warp | Candidate(q, r) ensures Reach(c, r) {}
    CeilingHoldsIff(q, k, c);
    BoundHoldsIff(q, k, c);
  }

  // ---------------------------------------------------------------------------
  // Every company
  // ---------------------------------------------------------------------------

  predicate Vetoes(c: Channel, p: Warp) { Reach(c, p) && c.scoreAt(p).Veto? }

  /** A ceiling below 0 needs the channel to reach every position after the first
      that it does not veto. */
  ghost predicate CeilingSafe(c: Channel) {
    || 0.0 <= c.weight * c.maxscore
    || forall m: Warp, r: Warp :: m < r < END && !Vetoes(c, m) ==> Reach(c, r)
  }

  /** A bound below 0 needs its block to span no position the channel misses,
      unless the channel vetoes everything before the block. */
  ghost predicate BoundSafe(c: Channel) {
    forall m: Warp, p: Warp, r: Warp :: m < p && r < END && Spans(c, p, r) && !Vetoes(c, m) && !Reach(c, r) ==>
      0.0 <= c.weight * c.boundAt(p)
  }

  ghost predicate Safe(c: Channel) { CeilingSafe(c) && BoundSafe(c) }

  /** A scored channel that keeps its contract where it is present and is safe. */
  ghost predicate GoodCompany(c: Channel) {
    !c.required && c.weight > 0.0 && Seeks(c) && KeptWherePresent(c) && Safe(c)
  }

  lemma {:induction false} HitsAreCandidates(q: Query, n: nat, e: Entry)
    requires n <= END && e in Hits(q, n)
    ensures e.id < n && Candidate(q, e.id) && e.score == Sum(q.chans, e.id)
    decreases n
  {
    if e in Hits(q, n - 1) { HitsAreCandidates(q, n - 1, e); }
  }

  lemma CandidateIsHit(q: Query, n: nat, p: Warp)
    requires p < n <= END && Candidate(q, p)
    ensures Entry(Sum(q.chans, p), p) in Hits(q, n)
  {
    HitsGrow(q, p + 1, n);
  }

  /** Past the first candidate, some earlier position is not vetoed. */
  lemma FullHasCandidate(q: Query, k: nat, p: Warp) returns (m: Warp)
    requires k >= 1 && Full(q, k, p)
    ensures m < p && Candidate(q, m)
  {
    hide Candidate, Hits;
    assert |Hits(q, p)| >= 1;
    var e :| e in Hits(q, p);
    HitsAreCandidates(q, p, e);
    m := e.id;
  }

  /** Safe channels are honest in every query. */
  lemma SafeIsHonest(q: Query, k: nat)
    requires k >= 1 && AllSeek(q)
    requires forall c | c in q.chans && !c.required :: KeptWherePresent(c) && Safe(c)
    ensures AllHonest(q, k)
  {
    hide AllSeek, Full, Reach;
    forall c | c in q.chans && !c.required ensures TrueBound(q, k, c) && TrueCeiling(q, k, c) {
      assert KeptWherePresent(c) && Safe(c);
      forall p: Warp | Full(q, k, p) ensures exists m: Warp :: m < p && !Vetoes(c, m) {
        var m := FullHasCandidate(q, k, p);
        assert !Vetoes(c, m);
      }
      CeilingHoldsIff(q, k, c);
      BoundHoldsIff(q, k, c);
    }
  }
}
