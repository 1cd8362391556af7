/** The vector channel in the docid space: a channel over dense lanes, composed
    with the strictly ascending map from lanes to docids
    (include/weave/vecdocmap.h, src/am/vecdocmap.c).
  */
module VecDocMap {
  import opened FusedSpec
  import opened FusedSafety
  import opened Gate

  /** The first lane whose docid is at or past `target`, or their number. */
  method LowerBound(docid: seq<nat>, target: nat) returns (lo: nat)
    requires KeysOk(docid)
    ensures lo == Below(docid, target)
  {
    var hi := |docid|;
    lo := 0;
    while lo < hi
      invariant lo <= hi <= |docid|
      invariant forall i :: 0 <= i < lo ==> docid[i] < target
      invariant hi < |docid| ==> docid[hi] >= target
    {
      var mid := lo + (hi - lo) / 2;
      if docid[mid] < target { lo := mid + 1; } else { hi := mid; }
    }
    BelowIsSplit(docid, target, lo);
  }

  /** The refusals of weave_vecdoc_chan_init(): no lane, an order that is not
      strict, a docid past the position space. */
  method Accepts(docid: seq<nat>) returns (ok: bool)
    ensures ok <==> |docid| > 0 && KeysOk(docid)
  {
    if |docid| == 0 { return false; }
    for i := 1 to |docid|
      invariant forall a, b :: 0 <= a < b < i ==> docid[a] < docid[b]
    {
      if docid[i] <= docid[i - 1] { return false; }
    }
    return docid[|docid| - 1] < END;
  }

  // ---------------------------------------------------------------------------
  // The composed channel
  // ---------------------------------------------------------------------------

  /** The lane to answer a docid target with, or the sentinel. */
  function LaneFor(inner: Channel, docid: seq<nat>, target: Warp): Warp {
    var lo := Below(docid, target);
    if lo >= |docid| || lo > END then END
    else
      var l := inner.seekTo(lo);
      if l >= |docid| then END else l
  }

  function DocidOf(docid: seq<nat>, l: Warp): Warp {
    if l < |docid| && docid[l] < END then docid[l] else END
  }

  /** The last lane the inner block speaks for, kept to the lanes there are. */
  function LastLane(inner: Channel, docid: seq<nat>, l: Warp): Warp
    requires l < |docid| <= END
  {
    var last := if inner.blockEnd(l) >= |docid| then |docid| - 1 else inner.blockEnd(l);
    if last < l then l else last
  }

  /** `outer` is `inner` with its lanes renamed to docids. */
  ghost predicate Relabels(outer: Channel, inner: Channel, docid: seq<nat>) {
    && 0 < |docid| <= END && KeysOk(docid)
    && outer.weight == inner.weight && outer.maxscore == inner.maxscore && outer.required == inner.required
    && (forall t: Warp :: outer.seekTo(t) == DocidOf(docid, LaneFor(inner, docid, t)))
    && (forall l: Warp :: l < |docid| && Reach(inner, l) ==> SameLane(outer, inner, docid, l))
  }

  ghost predicate SameLane(outer: Channel, inner: Channel, docid: seq<nat>, l: Warp)
    requires l < |docid| <= END && KeysOk(docid)
  {
    && outer.scoreAt(docid[l]) == inner.scoreAt(l) && outer.boundAt(docid[l]) == inner.boundAt(l)
    && outer.blockEnd(docid[l]) == docid[LastLane(inner, docid, l)]
  }

  lemma LaneOrder(docid: seq<nat>, a: nat, b: nat)
    requires KeysOk(docid) && a < |docid| && b < |docid|
    ensures a < b <==> docid[a] < docid[b]
    ensures a == b <==> docid[a] == docid[b]
  {
  }

  lemma BelowLane(docid: seq<nat>, l: nat)
    requires KeysOk(docid) && l < |docid|
    ensures Below(docid, docid[l]) == l
  {
    BelowIsSplit(docid, docid[l], l);
  }

  lemma {:induction false} BelowSplits(docid: seq<nat>, t: nat)
    requires KeysOk(docid)
    ensures var n := Below(docid, t);
            (forall i :: 0 <= i < n ==> docid[i] < t) && (n < |docid| ==> docid[n] >= t)
    decreases |docid|
  {
    if docid != [] && docid[0] < t {
      KeysTail(docid);
      BelowSplits(docid[1..], t);
      assert docid == [docid[0]] + docid[1..];
    }
  }

  /** The docids reached are those of the lanes reached. */
  lemma ReachedLane(outer: Channel, inner: Channel, docid: seq<nat>, p: Warp) returns (l: Warp)
    requires Relabels(outer, inner, docid) && MonotoneSeek(inner) && Reach(outer, p)
    ensures l < |docid| && docid[l] == p && Reach(inner, l)
  {
    hide KeysOk;
    var lo := Below(docid, p);
    BelowSplits(docid, p);
    l := inner.seekTo(lo);
    assert lo <= l;
    LaneOrder(docid, lo, l);
  }

  lemma LaneIsReached(outer: Channel, inner: Channel, docid: seq<nat>, l: Warp)
    requires Relabels(outer, inner, docid) && l < |docid| && Reach(inner, l)
    ensures docid[l] < END && Reach(outer, docid[l])
  {
    BelowLane(docid, l);
  }

  /** (C1) survives: the composition of three monotone maps. */
  lemma RelabelMonotone(outer: Channel, inner: Channel, docid: seq<nat>)
    requires Relabels(outer, inner, docid) && MonotoneSeek(inner)
    ensures MonotoneSeek(outer)
  {
    hide Relabels;
    forall t: Warp
      ensures t <= outer.seekTo(t) && (outer.seekTo(t) < END ==> Reach(outer, outer.seekTo(t)))
           && NoReach(outer, t, outer.seekTo(t))
    {
      RelabelSeekAt(outer, inner, docid, t);
    }
  }

  lemma RelabelSeekAt(outer: Channel, inner: Channel, docid: seq<nat>, t: Warp)
    requires Relabels(outer, inner, docid) && MonotoneSeek(inner)
    ensures t <= outer.seekTo(t) && (outer.seekTo(t) < END ==> Reach(outer, outer.seekTo(t)))
    ensures NoReach(outer, t, outer.seekTo(t))
  {
    hide KeysOk;
    var lo := Below(docid, t);
    BelowSplits(docid, t);
    if lo < |docid| {
      var l := inner.seekTo(lo);
      assert lo <= l;
      if l < |docid| {
        assert Reach(inner, l);
        LaneIsReached(outer, inner, docid, l);
        LaneOrder(docid, lo, l);
      }
    }
    forall q: Warp | t <= q < outer.seekTo(t) ensures !Reach(outer, q) {
      if Reach(outer, q) { NotPassed(outer, inner, docid, t, q); }
    }
  }

  lemma LaterIsFurther(inner: Channel, lo: Warp, lo': Warp)
    requires MonotoneSeek(inner) && lo <= lo'
    ensures inner.seekTo(lo) <= inner.seekTo(lo')
  {
    var l := inner.seekTo(lo');
    assert NoReach(inner, lo, inner.seekTo(lo));
    if l < END { assert Reach(inner, l); }
  }

  lemma NotPassed(outer: Channel, inner: Channel, docid: seq<nat>, t: Warp, q: Warp)
    requires Relabels(outer, inner, docid) && MonotoneSeek(inner) && t <= q && Reach(outer, q)
    ensures outer.seekTo(t) <= q
  {
    hide KeysOk;
    var m := ReachedLane(outer, inner, docid, q);
    var lo := Below(docid, t);
    BelowSplits(docid, t);
    assert lo <= m;
    var l := inner.seekTo(lo);
    assert NoReach(inner, lo, l);
    assert l <= m;
    LaneOrder(docid, l, m);
  }

  lemma RelabelContribution(outer: Channel, inner: Channel, docid: seq<nat>, l: Warp)
    requires Relabels(outer, inner, docid) && l < |docid| && Reach(inner, l)
    ensures docid[l] < END && Contribution(outer, docid[l]) == Contribution(inner, l)
  {
    LaneIsReached(outer, inner, docid, l);
    assert SameLane(outer, inner, docid, l);
  }

  /** The ceiling survives. */
  lemma RelabelCeiling(outer: Channel, inner: Channel, docid: seq<nat>)
    requires Relabels(outer, inner, docid) && MonotoneSeek(inner) && CeilingWherePresent(inner)
    ensures CeilingWherePresent(outer)
  {
    hide Relabels, KeysOk, MonotoneSeek, Reach, Contribution;
    RelabelSizes(outer, inner, docid);
    forall q: Warp | Reach(outer, q) ensures CeilingCovers(outer, q) {
      var l := ReachedLane(outer, inner, docid, q);
      RelabelContribution(outer, inner, docid, l);
    }
  }

  /** (C2) survives where the channel is present: lanes inside the block stay
      inside it, because docids ascend strictly. */
  lemma RelabelBound(outer: Channel, inner: Channel, docid: seq<nat>)
    requires Relabels(outer, inner, docid) && MonotoneSeek(inner) && BoundWherePresent(inner)
    ensures BoundWherePresent(outer)
  {
    hide Relabels, Contribution, BlockEnd, Reach, MonotoneSeek, KeysOk, BoundWherePresent;
    assert BoundWherePresent(outer) by {
      forall p: Warp, q: Warp | Spans(outer, p, q) && Reach(outer, q) ensures BoundCovers(outer, p, q) {
        BoundKeptAt(outer, inner, docid, p, q);
      }
      PresentBounds(outer);
    }
  }

  lemma PresentBounds(c: Channel)
    requires forall p: Warp, q: Warp :: Spans(c, p, q) && Reach(c, q) ==> BoundCovers(c, p, q)
    ensures BoundWherePresent(c)
  {
  }

  lemma BoundKeptAt(outer: Channel, inner: Channel, docid: seq<nat>, p: Warp, q: Warp)
    requires Relabels(outer, inner, docid) && MonotoneSeek(inner) && BoundWherePresent(inner)
    requires Spans(outer, p, q) && Reach(outer, q)
    ensures BoundCovers(outer, p, q)
  {
    hide KeysOk, MonotoneSeek;
    var l := ReachedLane(outer, inner, docid, p);
    assert SameLane(outer, inner, docid, l);
    var last := LastLane(inner, docid, l);
    LaneOrder(docid, l, last);
    var m := ReachedLane(outer, inner, docid, q);
    RelabelContribution(outer, inner, docid, m);
    LaneOrder(docid, l, m);
    LaneOrder(docid, m, last);
    assert Spans(inner, l, m) && BoundCovers(inner, l, m);
  }

  /** The renamed block holds exactly the docids of the lanes the inner block speaks
      for: clamping to the lanes there are loses none. */
  lemma RelabelBlock(outer: Channel, inner: Channel, docid: seq<nat>, l: Warp, m: nat)
    requires Relabels(outer, inner, docid) && l <= m < |docid| && Reach(inner, l)
    ensures docid[l] < END && docid[l] <= docid[m]
    ensures docid[m] <= BlockEnd(outer, docid[l]) <==> m <= BlockEnd(inner, l)
  {
    hide KeysOk;
    RelabelSizes(outer, inner, docid);
    LaneBlock(outer, inner, docid, l);
    LaneOrder(docid, l, m);
    LaneOrder(docid, m, LastLane(inner, docid, l));
  }

  /** Some candidate inside the block that starts at lane `l` is not this channel's. */
  ghost predicate Gap(q: Query, outer: Channel, inner: Channel, docid: seq<nat>, l: Warp)
    requires l < |docid| <= END && KeysOk(docid)
  {
    exists r: Warp :: docid[l] <= r <= docid[LastLane(inner, docid, l)] && Candidate(q, r) && !Reach(outer, r)
  }

  /** A bound that can be weighed against a threshold and spans a foreign
      candidate, where the channel contributes 0, is at least 0. */
  ghost predicate GapsCovered(q: Query, k: nat, outer: Channel, inner: Channel, docid: seq<nat>)
    requires |docid| <= END && KeysOk(docid)
  {
    forall l: Warp :: l < |docid| && Reach(inner, l) && Full(q, k, docid[l]) && Gap(q, outer, inner, docid, l) ==>
      0.0 <= inner.weight * inner.boundAt(l)
  }

  lemma RelabelSizes(outer: Channel, inner: Channel, docid: seq<nat>)
    requires Relabels(outer, inner, docid)
    ensures 0 < |docid| <= END && KeysOk(docid)
    ensures outer.weight == inner.weight && outer.maxscore == inner.maxscore
  {
  }

  /** The scan may rely on the relabelled bound exactly when no block with a bound
      below 0 spans a candidate of another bolt. */
  lemma RelabelServesIff(q: Query, k: nat, outer: Channel, inner: Channel, docid: seq<nat>)
    requires Relabels(outer, inner, docid) && MonotoneSeek(inner) && BoundWherePresent(inner)
    ensures |docid| <= END && KeysOk(docid) && (TrueBound(q, k, outer) <==> GapsCovered(q, k, outer, inner, docid))
  {
    hide Relabels, KeysOk, BoundWherePresent, TrueBound, Candidate, Full, MonotoneSeek, Reach;
    RelabelSizes(outer, inner, docid);
    RelabelBound(outer, inner, docid);
    BoundHoldsIff(q, k, outer);
    forall l: Warp | l < |docid| && Reach(inner, l)
      ensures docid[l] < END && Reach(outer, docid[l]) && SameBlock(outer, inner, docid, l)
    {
      LaneIsReached(outer, inner, docid, l);
      LaneBlock(outer, inner, docid, l);
    }
    if GapsCovered(q, k, outer, inner, docid) {
      forall p: Warp, r: Warp | Full(q, k, p) && Candidate(q, r) && Spans(outer, p, r) && !Reach(outer, r)
        ensures 0.0 <= outer.weight * outer.boundAt(p)
      {
        var l := ReachedLane(outer, inner, docid, p);
        assert SameBlock(outer, inner, docid, l) && Gap(q, outer, inner, docid, l);
      }
    } else {
      var l: Warp :| && l < |docid| && Reach(inner, l) && Full(q, k, docid[l]) && Gap(q, outer, inner, docid, l)
                     && !(0.0 <= inner.weight * inner.boundAt(l));
      var r: Warp :| docid[l] <= r <= docid[LastLane(inner, docid, l)] && Candidate(q, r) && !Reach(outer, r);
      assert SameBlock(outer, inner, docid, l) && Spans(outer, docid[l], r);
    }
  }

  ghost predicate SameBlock(outer: Channel, inner: Channel, docid: seq<nat>, l: Warp)
    requires l < |docid| <= END && KeysOk(docid)
  {
    && docid[l] < END && BlockEnd(outer, docid[l]) == docid[LastLane(inner, docid, l)]
    && outer.weight * outer.boundAt(docid[l]) == inner.weight * inner.boundAt(l)
  }

  lemma LaneBlock(outer: Channel, inner: Channel, docid: seq<nat>, l: Warp)
    requires Relabels(outer, inner, docid) && l < |docid| && Reach(inner, l)
    ensures |docid| <= END && KeysOk(docid) && SameBlock(outer, inner, docid, l)
  {
    assert SameLane(outer, inner, docid, l);
    LaneOrder(docid, l, LastLane(inner, docid, l));
  }

  // ---------------------------------------------------------------------------
  // The adapter
  // ---------------------------------------------------------------------------

  class Adapter {
    const inner: Channel
    const docid: seq<nat>
    var lane: Warp
    var blkend: Warp

    constructor (inner: Channel, docid: seq<nat>)
      ensures this.inner == inner && this.docid == docid
    {
      this.inner, this.docid, lane, blkend := inner, docid, 0, 0;
    }

    /** Once the inner channel has run out, nothing is left at or past `target`. */
    ghost predicate Latched(target: Warp)
      reads inner
    {
      inner.cur == END ==> forall t: Warp :: t >= target ==> DocidOf(docid, LaneFor(inner, docid, t)) == END
    }

    /** vecdoc_seek(): the composed answer, the inner channel left on its lane and
        its block's end renamed. */
    method Seek(target: Warp) returns (p: Warp)
      requires 0 < |docid| <= END && KeysOk(docid) && MonotoneSeek(inner) && Latched(target)
      modifies this, inner
      ensures p == DocidOf(docid, LaneFor(inner, docid, target)) && Latched(target)
      ensures p < END ==> && lane == inner.cur == LaneFor(inner, docid, target) && lane < |docid|
                          && blkend == docid[LastLane(inner, docid, lane)]
      ensures old(inner.cur) == END || Below(docid, target) >= |docid| ==>
                p == END && inner.cur == old(inner.cur) && lane == old(lane) && blkend == old(blkend)
      ensures old(inner.cur) != END && Below(docid, target) < |docid| ==> (p == END <==> inner.cur == END)
    {
      if inner.cur == END { return END; }
      var lo := LowerBound(docid, target);
      if lo >= |docid| { return END; }
      var l := inner.seekTo(lo);
      inner.blkend := inner.blockEnd(l);
      inner.cur := l;
      if l == END || l >= |docid| {
        inner.cur := END;
        RunOut(target, lo);
        return END;
      }
      lane := l;
      var last := inner.blkend;
      if last >= |docid| { last := |docid| - 1; }
      if last < l { last := l; }
      blkend := docid[last];
      return docid[l];
    }

    /** An inner channel with no lane at or past `lo` has none past a later one. */
    lemma RunOut(target: Warp, lo: nat)
      requires |docid| <= END && KeysOk(docid) && MonotoneSeek(inner)
      requires lo == Below(docid, target) < |docid| && inner.seekTo(lo) >= |docid|
      ensures forall t: Warp :: t >= target ==> DocidOf(docid, LaneFor(inner, docid, t)) == END
    {
      forall t: Warp | t >= target ensures DocidOf(docid, LaneFor(inner, docid, t)) == END {
        BelowSplits(docid, target);
        BelowSplits(docid, t);
        var lo' := Below(docid, t);
        assert lo <= lo';
        if lo' < |docid| { LaterIsFurther(inner, lo, lo'); }
      }
    }
  }
}
