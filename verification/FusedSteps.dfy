/** The steps of the fused-threshold top-k scan of src/am/fuse.c: moving the
    channels, bounding a range, scoring a document, and ordering the channels.
  */
module FusedSteps {
  import opened Basics
  import opened BinaryHeap
  import opened FusedSpec

  const MAX_CHAN: nat := 64

  datatype FuseError = Ok | BadK | BadNChan | BadWeight | C1Violation

  datatype Stop = StopNone | Exhausted | CeilingStop | RequiredStop | NoCandidate

  // ---------------------------------------------------------------------------
  // Where channels stand
  // ---------------------------------------------------------------------------

  /** If the channel has been positioned, nothing it reaches at or past `p` lies
      before where it stands. */
  ghost predicate Ready(c: Channel, p: Warp)
    reads c
  {
    c.nseek > 0 ==> NoReach(c, p, c.cur) && (c.cur < END ==> Reach(c, c.cur) && c.blkend == BlockEnd(c, c.cur))
  }

  /** The channel stands on the first position at or past `p` it reaches. */
  ghost predicate Stands(c: Channel, p: Warp)
    reads c
  {
    c.nseek > 0 && p <= c.cur && Ready(c, p)
  }

  ghost predicate AllReady(cs: seq<Channel>, p: Warp)
    reads set c | c in cs
  {
    forall c | c in cs :: Ready(c, p)
  }

  /** Move one channel to `target` or past it, never backwards. */
  method Advance(c: Channel, target: Warp) returns (ok: bool)
    modifies c
    ensures ok ==> c.nseek > 0 && target <= c.cur
    ensures var behind := old(c.nseek == 0 || c.cur < target);
            && (ok <==> !behind || target <= c.seekTo(target))
            && c.nseek == old(c.nseek) + (if behind then 1 else 0)
            && c.cur == (if behind && ok then c.seekTo(target) else old(c.cur))
            && (behind && ok ==> c.blkend == BlockEnd(c, c.cur)) && (!behind ==> c.blkend == old(c.blkend))
    ensures MonotoneSeek(c) && old(Ready(c, target)) ==> ok && Stands(c, target)
  {
    if c.nseek > 0 && c.cur >= target { return true; }
    var p := c.seekTo(target);
    c.nseek := c.nseek + 1;
    c.blkend := c.blockEnd(p);
    if p < target { return false; }
    c.cur := p;
    if c.blkend < p { c.blkend := p; }
    return true;
  }

  method AdvanceAll(cs: seq<Channel>, p: Warp) returns (ok: bool)
    modifies set c | c in cs
    ensures ok ==> forall c | c in cs :: c.nseek > 0 && p <= c.cur
    ensures (forall c | c in cs :: MonotoneSeek(c)) && old(AllReady(cs, p)) ==>
              ok && forall c | c in cs :: Stands(c, p)
  {
    ghost var good := (forall c | c in cs :: MonotoneSeek(c)) && AllReady(cs, p);
    for i := 0 to |cs|
      invariant good ==> AllReady(cs, p)
      invariant forall j :: 0 <= j < i ==> cs[j].nseek > 0 && p <= cs[j].cur
    {
      ok := Advance(cs[i], p);
      if !ok { return; }
    }
    ok := true;
  }

  ghost predicate SomeMisses(rq: seq<Channel>, q: Warp) {
    exists i :: 0 <= i < |rq| && !Reach(rq[i], q)
  }

  /** No position in [lo, hi) is reached by every channel of `rq`. */
  ghost predicate NotCommon(rq: seq<Channel>, lo: Warp, hi: Warp) {
    forall q: Warp :: lo <= q < hi ==> SomeMisses(rq, q)
  }

  lemma NotCommonExtends(rq: seq<Channel>, i: nat, p0: Warp, p: Warp, hi: Warp)
    requires p0 <= p <= hi && i < |rq| && NotCommon(rq, p0, p) && NoReach(rq[i], p, hi)
    ensures NotCommon(rq, p0, hi)
  {
    forall q: Warp | p0 <= q < hi ensures SomeMisses(rq, q) {
      if q >= p { assert !Reach(rq[i], q); }
    }
  }

  /** One round over the required channels: where the furthest of them stands. */
  method FurthestRequired(rq: seq<Channel>, p: Warp) returns (ok: bool, hi: Warp)
    modifies set c | c in rq
    ensures ok ==> p <= hi && (hi < END ==> forall c | c in rq :: c.nseek > 0 && p <= c.cur <= hi)
    ensures (forall c | c in rq :: MonotoneSeek(c)) && old(AllReady(rq, p)) ==>
              && ok && AllReady(rq, p)
              && (hi > p ==> exists i :: 0 <= i < |rq| && NoReach(rq[i], p, hi))
  {
    ghost var good := (forall c | c in rq :: MonotoneSeek(c)) && AllReady(rq, p);
    hi := p;
    ghost var w := 0;
    for i := 0 to |rq|
      invariant p <= hi
      invariant forall j :: 0 <= j < i ==> rq[j].nseek > 0 && p <= rq[j].cur <= hi
      invariant good ==> AllReady(rq, p)
      invariant good && hi > p ==> 0 <= w < |rq| && NoReach(rq[w], p, hi)
    {
      var c := rq[i];
      ok := Advance(c, p);
      if !ok { return false, p; }
      if c.cur == END { return true, END; }
      if c.cur > hi { hi := c.cur; w := i; }
    }
    ok := true;
  }

  /** Rounds over the required channels until all stand on one position. */
  method Intersect(rq: seq<Channel>, p0: Warp) returns (ok: bool, p: Warp)
    modifies set c | c in rq
    ensures ok ==> p0 <= p
    ensures ok && p < END ==> forall c | c in rq :: c.nseek > 0 && c.cur == p
    ensures (forall c | c in rq :: MonotoneSeek(c)) && old(AllReady(rq, p0)) ==>
              && ok && AllReady(rq, p) && NotCommon(rq, p0, p)
              && (p < END ==> forall c | c in rq :: Reach(c, p))
  {
    ghost var good := (forall c | c in rq :: MonotoneSeek(c)) && AllReady(rq, p0);
    p := p0;
    while true
      invariant p0 <= p
      invariant good ==> AllReady(rq, p) && NotCommon(rq, p0, p)
      decreases END - p
    {
      var hi;
      ok, hi := FurthestRequired(rq, p);
      if !ok { return false, p; }
      if hi == p { return true, p; }
      if good {
        var i :| 0 <= i < |rq| && NoReach(rq[i], p, hi);
        NotCommonExtends(rq, i, p0, p, hi);
      }
      p := hi;
      if p == END { return true, END; }
    }
  }

  lemma StandsMeans(c: Channel, p: Warp)
    requires Stands(c, p)
    ensures Ready(c, p) && NoReach(c, p, c.cur) && (c.cur < END ==> Reach(c, c.cur))
  {
  }

  /** The smallest position at or past `p` any of the first `split` channels reaches. */
  method Pivot(sc: seq<Channel>, split: nat, p: Warp) returns (ok: bool, lo: Warp)
    requires 0 < split <= |sc|
    modifies set c | c in sc
    ensures ok ==> p <= lo && forall i :: 0 <= i < split ==> sc[i].nseek > 0 && p <= sc[i].cur && lo <= sc[i].cur
    ensures ok && lo < END ==> exists i :: 0 <= i < split && sc[i].cur == lo
    ensures (forall c | c in sc :: MonotoneSeek(c)) && old(AllReady(sc, p)) ==>
              && ok && AllReady(sc, p)
              && (forall i :: 0 <= i < split ==> NoReach(sc[i], p, lo))
              && (lo < END ==> exists i :: 0 <= i < split && Reach(sc[i], lo))
  {
    hide MonotoneSeek, Reach, BlockEnd, Stands;
    ghost var good := (forall c | c in sc :: MonotoneSeek(c)) && AllReady(sc, p);
    lo := END;
    ghost var w := 0;
    for i := 0 to split
      invariant p <= lo && forall j :: 0 <= j < i ==> sc[j].nseek > 0 && p <= sc[j].cur && lo <= sc[j].cur
      invariant lo < END ==> 0 <= w < i && sc[w].cur == lo
      invariant good ==> AllReady(sc, p) && forall j :: 0 <= j < i ==> NoReach(sc[j], p, lo)
      invariant good && lo < END ==> 0 <= w < i && Reach(sc[w], lo)
    {
      ok := Advance(sc[i], p);
      if !ok { return false, END; }
      if good { StandsMeans(sc[i], p); }
      if sc[i].cur < lo { lo := sc[i].cur; w := i; }
    }
    ok := true;
  }

  // ---------------------------------------------------------------------------
  // Bounding and scoring one document
  // ---------------------------------------------------------------------------

  /** The channels of `cs` that reach `p`, in order. */
  function Reaching(cs: seq<Channel>, p: Warp): (r: seq<Channel>)
    ensures forall i :: 0 <= i < |r| ==> r[i] in cs && Reach(r[i], p)
    ensures forall i :: 0 <= i < |cs| && Reach(cs[i], p) ==> cs[i] in r
  {
    if cs == [] then []
    else Reaching(cs[..|cs| - 1], p) + if Reach(cs[|cs| - 1], p) then [cs[|cs| - 1]] else []
  }

  lemma ReachingReach(cs: seq<Channel>, p: Warp)
    ensures AllReach(Reaching(cs, p), p)
  {
  }

  lemma {:induction false} NoneReaching(cs: seq<Channel>, p: Warp)
    requires forall i :: 0 <= i < |cs| ==> !Reach(cs[i], p)
    ensures Reaching(cs, p) == []
    decreases |cs|
  {
    if cs != [] { NoneReaching(cs[..|cs| - 1], p); }
  }

  lemma {:induction false} SumReaching(cs: seq<Channel>, p: Warp)
    ensures Sum(Reaching(cs, p), p) == Sum(cs, p)
    decreases |cs|
  {
    if cs != [] {
      var init, c := cs[..|cs| - 1], cs[|cs| - 1];
      SumReaching(init, p);
      assert cs == init + [c];
      SumConcat(init, [c], p);
      SumOne(c, p);
      SumConcat(Reaching(init, p), if Reach(c, p) then [c] else [], p);
    }
  }

  /** The sum of the weighted block bounds taken at `p`. */
  function BoundSum(cs: seq<Channel>, p: Warp): real {
    if cs == [] then 0.0 else cs[0].weight * cs[0].boundAt(p) + BoundSum(cs[1..], p)
  }

  lemma {:induction false} BoundSumConcat(a: seq<Channel>, b: seq<Channel>, p: Warp)
    ensures BoundSum(a + b, p) == BoundSum(a, p) + BoundSum(b, p)
    decreases |a|
  {
    if a == [] {
      assert a + b == b;
    } else {
      assert (a + b)[1..] == a[1..] + b;
      BoundSumConcat(a[1..], b, p);
    }
  }

  /** `rend` stays inside the block if the channel contributes at `p`, and before
      the next position it reaches if it does not. */
  ghost predicate InRange(c: Channel, p: Warp, rend: Warp)
    requires rend < END
  {
    if Reach(c, p) then rend <= BlockEnd(c, p) else NoReach(c, p, rend + 1)
  }

  ghost predicate RangeOk(cs: seq<Channel>, p: Warp, rend: Warp)
    requires rend < END
  {
    forall i :: 0 <= i < |cs| ==> InRange(cs[i], p, rend)
  }

  /** Within its range one channel contributes at most its bound, or nothing. */
  lemma BoundCoversRange(c: Channel, p: Warp, q: Warp, rend: Warp)
    requires rend < END && InRange(c, p, rend) && p <= q <= rend && BoundCovers(c, p, q)
    ensures Contribution(c, q) <= if Reach(c, p) then c.weight * c.boundAt(p) else 0.0
  {
    if !Reach(c, p) { assert !Reach(c, q); }
  }

  lemma BoundSumOne(c: Channel, p: Warp)
    ensures BoundSum([c], p) == c.weight * c.boundAt(p)
  {
    var one := [c];
    assert one[1..] == [];
  }

  lemma SumSnoc(cs: seq<Channel>, c: Channel, q: Warp)
    ensures Sum(cs + [c], q) == Sum(cs, q) + Contribution(c, q)
  {
    SumConcat(cs, [c], q);
    SumOne(c, q);
  }

  lemma ReachingBoundSnoc(cs: seq<Channel>, c: Channel, p: Warp)
    ensures BoundSum(Reaching(cs + [c], p), p)
         == BoundSum(Reaching(cs, p), p) + if Reach(c, p) then c.weight * c.boundAt(p) else 0.0
  {
    assert (cs + [c])[..|cs|] == cs;
    if Reach(c, p) {
      BoundSumConcat(Reaching(cs, p), [c], p);
      BoundSumOne(c, p);
    } else {
      assert Reaching(cs + [c], p) == Reaching(cs, p);
    }
  }

  /** Over the range a block prune skips, the bounds dominate the scored sum. */
  lemma {:induction false} BoundsCoverRange(cs: seq<Channel>, p: Warp, q: Warp, rend: Warp)
    requires rend < END && RangeOk(cs, p, rend) && p <= q <= rend
    requires forall i :: 0 <= i < |cs| ==> BoundCovers(cs[i], p, q)
    ensures Sum(cs, q) <= BoundSum(Reaching(cs, p), p)
    decreases |cs|
  {
    if cs != [] {
      hide BoundCovers, InRange, Contribution, BlockEnd, Reach, Sum, BoundSum, Reaching;
      var init, c := cs[..|cs| - 1], cs[|cs| - 1];
      BoundsCoverRange(init, p, q, rend);
      assert cs == init + [c];
      SumSnoc(init, c, q);
      ReachingBoundSnoc(init, c, p);
      BoundCoversRange(c, p, q, rend);
    }
  }

  /** What summing the bounds of the first channels has established. */
  ghost predicate Bounded(cs: seq<Channel>, p: Warp, ub: real, rend: Warp, con: seq<Channel>) {
    && p <= rend < END && con == Reaching(cs, p) && ub == BoundSum(con, p) && RangeOk(cs, p, rend)
  }

  lemma BoundedStep(cs: seq<Channel>, c: Channel, p: Warp, ub: real, rend: Warp, con: seq<Channel>, rend': Warp)
    requires Bounded(cs, p, ub, rend, con) && p <= rend' <= rend && InRange(c, p, rend')
    ensures Bounded(cs + [c], p, if Reach(c, p) then ub + c.weight * c.boundAt(p) else ub, rend',
                    if Reach(c, p) then con + [c] else con)
  {
    hide BlockEnd, Reach;
    assert (cs + [c])[..|cs|] == cs;
    BoundSumConcat(con, [c], p);
    BoundSumOne(c, p);
    forall i | 0 <= i < |cs + [c]| ensures InRange((cs + [c])[i], p, rend') {
      if i < |cs| { assert InRange(cs[i], p, rend); InRangeShrinks(cs[i], p, rend, rend'); }
    }
  }

  lemma InRangeShrinks(c: Channel, p: Warp, rend: Warp, rend': Warp)
    requires rend' <= rend < END && InRange(c, p, rend)
    ensures InRange(c, p, rend')
  {
  }

  /** No range that the bounds taken at `p` speak for ends after `rend`. */
  ghost predicate Longest(cs: seq<Channel>, p: Warp, rend: Warp) {
    forall e: Warp :: p <= e < END && RangeOk(cs, p, e) ==> e <= rend
  }

  lemma LongestStep(cs: seq<Channel>, c: Channel, p: Warp, rend: Warp, rend': Warp)
    requires Longest(cs, p, rend) && rend' <= rend
    requires rend' < rend ==> forall e: Warp :: rend' < e < END ==> !InRange(c, p, e)
    ensures Longest(cs + [c], p, rend')
  {
    hide InRange;
    forall e: Warp | p <= e < END && RangeOk(cs + [c], p, e) ensures e <= rend' {
      assert (cs + [c])[|cs|] == c && InRange(c, p, e);
      forall i | 0 <= i < |cs| ensures InRange(cs[i], p, e) { assert (cs + [c])[i] == cs[i]; }
      assert RangeOk(cs, p, e);
    }
  }

  /** Sum the block bounds of the channels standing on `p`, and find the end of
      the range those bounds speak for. */
  method BoundRange(sc: seq<Channel>, p: Warp) returns (ub: real, rend: Warp, con: seq<Channel>)
    requires p < END
    requires forall c | c in sc :: p <= c.cur
    ensures rend < END && (con == [] ==> ub == 0.0)
    ensures (forall c | c in sc :: Stands(c, p)) ==> Bounded(sc, p, ub, rend, con) && Longest(sc, p, rend)
  {
    hide Bounded, BoundSum, Reaching;
    ghost var good := forall c | c in sc :: Stands(c, p);
    ub, rend, con := 0.0, END - 1, [];
    NothingBounded(p);
    for i := 0 to |sc|
      invariant rend < END && (con == [] ==> ub == 0.0)
      invariant good ==> Bounded(sc[..i], p, ub, rend, con) && Longest(sc[..i], p, rend)
    {
      var c := sc[i];
      ghost var ub0, rend0, con0 := ub, rend, con;
      assert sc[..i + 1] == sc[..i] + [c];
      if c.cur == p {
        ub := ub + c.weight * c.boundAt(p);
        con := con + [c];
        if c.blkend < rend { rend := c.blkend; }
      } else if c.cur - 1 < rend {
        rend := c.cur - 1;
      }
      if good {
        assert c in sc && Stands(c, p);
        BoundedAtLeast(sc[..i], p, ub0, rend0, con0);
        BoundedStep(sc[..i], c, p, ub0, rend0, con0, rend);
        LongestStep(sc[..i], c, p, rend0, rend);
      }
    }
    assert sc[..|sc|] == sc;
  }

  lemma NothingBounded(p: Warp)
    requires p < END
    ensures Bounded([], p, 0.0, END - 1, [])
  {
  }

  lemma BoundedAtLeast(cs: seq<Channel>, p: Warp, ub: real, rend: Warp, con: seq<Channel>)
    requires Bounded(cs, p, ub, rend, con)
    ensures p <= rend && con == Reaching(cs, p)
  {
  }

  /** What the bounds from each contributing channel on add up to. */
  method BoundSuffixes(con: seq<Channel>, p: Warp) returns (csuffix: seq<real>)
    ensures |csuffix| == |con| + 1
    ensures forall j :: 0 <= j <= |con| ==> csuffix[j] == BoundSum(con[j..], p)
  {
    csuffix := [0.0];
    for j := |con| downto 0
      invariant |csuffix| == |con| - j + 1
      invariant forall i :: 0 <= i < |csuffix| ==> csuffix[i] == BoundSum(con[j + i..], p)
    {
      assert con[j..][1..] == con[j + 1..];
      csuffix := [csuffix[0] + con[j].weight * con[j].boundAt(p)] + csuffix;
    }
  }

  ghost predicate AllVal(cs: seq<Channel>, p: Warp) {
    forall i :: 0 <= i < |cs| ==> cs[i].scoreAt(p).Val?
  }

  ghost predicate AllReach(cs: seq<Channel>, p: Warp) {
    forall i :: 0 <= i < |cs| ==> Reach(cs[i], p)
  }

  /** At the position they stand on, the bounds dominate the contributions. */
  lemma {:induction false} BoundsCoverHere(cs: seq<Channel>, p: Warp)
    requires AllReach(cs, p) && forall i :: 0 <= i < |cs| ==> BoundCovers(cs[i], p, p)
    ensures Sum(cs, p) <= BoundSum(cs, p)
    decreases |cs|
  {
    if cs != [] {
      BoundsCoverHere(cs[1..], p);
      assert Reach(cs[0], p) && BoundCovers(cs[0], p, p);
      assert Contribution(cs[0], p) <= cs[0].weight * cs[0].boundAt(p);
    }
  }

  /** Score the required channels, any of which may veto. */
  method ScoreRequired(rq: seq<Channel>, p: Warp) returns (r: Option<real>)
    ensures r.None? <==> !AllVal(rq, p)
    ensures r.Some? && AllReach(rq, p) ==> r.value == Sum(rq, p)
  {
    var s := 0.0;
    for i := 0 to |rq|
      invariant AllVal(rq[..i], p)
      invariant AllReach(rq, p) ==> s == Sum(rq[..i], p)
    {
      assert rq[..i + 1] == rq[..i] + [rq[i]];
      match rq[i].scoreAt(p)
      case Veto =>
        return None;
      case Val(v) =>
        SumSnoc(rq[..i], rq[i], p);
        s := s + rq[i].weight * v;
    }
    assert rq[..|rq|] == rq;
    r := Some(s);
  }

  lemma SumNothing(p: Warp)
    ensures Sum([], p) == 0.0
  {
  }

  lemma ContributionOfVal(cs: seq<Channel>, p: Warp, j: nat)
    requires j < |cs| && AllReach(cs, p) && cs[j].scoreAt(p).Val?
    ensures Contribution(cs[j], p) == cs[j].weight * cs[j].scoreAt(p).v
  {
  }

  /** Score the contributing channels after the required ones, abandoning the
      document once what is left cannot lift it over the threshold. */
  method ScoreDocument(rq: seq<Channel>, con: seq<Channel>, p: Warp, theta: Theta) returns (r: Option<real>)
    ensures r.Some? && AllReach(rq, p) && AllReach(con, p) ==>
              AllVal(rq, p) && AllVal(con, p) && r.value == Sum(rq, p) + Sum(con, p)
    ensures r.None? && AllReach(rq, p) && AllReach(con, p) && (theta == NegInf || AllCovered(con, p)) ==>
              !AllVal(rq, p) || !AllVal(con, p) || AtMost(Sum(rq, p) + Sum(con, p), theta)
  {
    hide Sum, BoundSum, Reach, AllCovered, Contribution;
    SumNothing(p);
    var csuffix := BoundSuffixes(con, p);
    var rs := ScoreRequired(rq, p);
    if rs.None? { return None; }
    var s := rs.value;
    for j := 0 to |con|
      invariant AllVal(con[..j], p)
      invariant AllReach(rq, p) && AllReach(con, p) ==> s == Sum(rq, p) + Sum(con[..j], p)
    {
      assert con[..j + 1] == con[..j] + [con[j]];
      match con[j].scoreAt(p)
      case Veto =>
        return None;
      case Val(v) =>
        SumSnoc(con[..j], con[j], p);
        if AllReach(con, p) { ContributionOfVal(con, p, j); }
        s := s + con[j].weight * v;
        if AtMost(s + csuffix[j + 1], theta) {
          if AllReach(rq, p) && AllReach(con, p) && AllCovered(con, p) {
            BoundsCoverRest(con, p, j + 1);
            assert Sum(rq, p) + Sum(con, p) <= s + csuffix[j + 1];
          }
          return None;
        }
    }
    assert con[..|con|] == con;
    r := Some(s);
  }

  ghost predicate AllCovered(cs: seq<Channel>, p: Warp) { forall i :: 0 <= i < |cs| ==> BoundCovers(cs[i], p, p) }

  lemma BoundsCoverRest(con: seq<Channel>, p: Warp, j: nat)
    requires j <= |con| && AllReach(con, p) && AllCovered(con, p)
    ensures Sum(con, p) <= Sum(con[..j], p) + BoundSum(con[j..], p)
  {
    BoundsCoverHere(con[j..], p);
    assert con == con[..j] + con[j..];
    SumConcat(con[..j], con[j..], p);
  }

  // ---------------------------------------------------------------------------
  // The scan state
  // ---------------------------------------------------------------------------

  function CeilSum(cs: seq<Channel>): real {
    if cs == [] then 0.0 else cs[0].weight * cs[0].maxscore + CeilSum(cs[1..])
  }

  /** The scored sum is at most the sum of the ceilings of the channels that may
      reach the position, the first `n` being known not to. */
  lemma {:induction false} CeilingsCover(cs: seq<Channel>, n: nat, q: Warp)
    requires n <= |cs| && forall i :: 0 <= i < n ==> !Reach(cs[i], q)
    requires forall i :: 0 <= i < |cs| ==> CeilingCovers(cs[i], q)
    ensures Sum(cs, q) <= CeilSum(cs[n..])
    decreases |cs|
  {
    if cs != [] {
      if n > 0 {
        assert !Reach(cs[0], q);
        CeilingsCover(cs[1..], n - 1, q);
        assert cs[1..][n - 1..] == cs[n..];
      } else {
        assert CeilingCovers(cs[0], q);
        CeilingsCover(cs[1..], 0, q);
        assert cs[1..][0..] == cs[1..] && cs[0..] == cs;
      }
    }
  }

  lemma {:induction false} GatesAddNothing(rq: seq<Channel>, q: Warp)
    requires forall i :: 0 <= i < |rq| ==> PureGate(rq[i])
    ensures Sum(rq, q) == 0.0
    decreases |rq|
  {
    if rq != [] {
      assert PureGate(rq[0]);
      assert Contribution(rq[0], q) == 0.0;
      GatesAddNothing(rq[1..], q);
    }
  }

  ghost predicate Ceilings(sc: seq<Channel>, ceil: seq<real>) {
    |ceil| == |sc| && forall i :: 0 <= i < |sc| ==> ceil[i] == sc[i].weight * sc[i].maxscore
  }

  predicate AtLeast(a: real, b: real) { a >= b }

  ghost predicate Descending(ceil: seq<real>) {
    forall i, j :: 0 <= i < j < |ceil| ==> AtLeast(ceil[i], ceil[j])
  }

  /** The channels split into scored, by descending weighted ceiling with their
      suffix sums, and required. */
  ghost predicate Partitioned(query: Query, sc: seq<Channel>, rq: seq<Channel>, ceil: seq<real>, suffix: seq<real>) {
    && Split(query.chans, sc, rq)
    && Ceilings(sc, ceil) && Descending(ceil)
    && |suffix| == |sc| + 1 && (forall i :: 0 <= i <= |sc| ==> suffix[i] == CeilSum(sc[i..]))
  }

  datatype Found = At(p: Warp) | SkipTo(p: Warp) | Finished | Backward

  lemma SomeReaching(cs: seq<Channel>, p: Warp)
    ensures (exists i :: 0 <= i < |cs| && Reach(cs[i], p)) ==> |Reaching(cs, p)| > 0
  {
  }

  lemma ReadyLater(cs: seq<Channel>, lo: Warp, hi: Warp)
    requires AllReady(cs, lo) && lo <= hi
    ensures AllReady(cs, hi)
  {
    forall c | c in cs ensures Ready(c, hi) { assert Ready(c, lo); }
  }

  ghost predicate Split(chans: seq<Channel>, sc: seq<Channel>, rq: seq<Channel>) {
    && multiset(sc + rq) == multiset(chans)
    && (forall j :: 0 <= j < |sc| ==> !sc[j].required)
    && (forall j :: 0 <= j < |rq| ==> rq[j].required)
  }

  lemma SplitStep(chans: seq<Channel>, sc: seq<Channel>, rq: seq<Channel>, c: Channel)
    requires Split(chans, sc, rq)
    ensures if c.required then Split(chans + [c], sc, rq + [c]) else Split(chans + [c], sc + [c], rq)
  {
  }

  lemma SplitPermuted(chans: seq<Channel>, sc0: seq<Channel>, sc: seq<Channel>, rq: seq<Channel>)
    requires Split(chans, sc0, rq) && multiset(sc0) == multiset(sc)
    ensures Split(chans, sc, rq)
  {
    assert multiset(sc + rq) == multiset(sc0 + rq);
    forall j | 0 <= j < |sc| ensures !sc[j].required {
      assert sc[j] in multiset(sc0);
    }
  }

  /** Split the channels by kind, resetting and checking each. */
  method SplitChannels(chans: seq<Channel>) returns (ok: bool, sc: seq<Channel>, rq: seq<Channel>, ceil: seq<real>)
    modifies set c | c in chans
    ensures ok <==> forall c | c in chans :: c.weight > 0.0
    ensures ok ==> Split(chans, sc, rq) && Ceilings(sc, ceil)
                   && forall c | c in chans :: c.nseek == c.cur == c.blkend == 0
  {
    hide Ceilings, Split;
    sc, rq, ceil := [], [], [];
    NothingSplit();
    for i := 0 to |chans|
      invariant Split(chans[..i], sc, rq) && Ceilings(sc, ceil)
      invariant forall j :: 0 <= j < i ==> chans[j].nseek == chans[j].cur == chans[j].blkend == 0
                                           && chans[j].weight > 0.0
    {
      var c := chans[i];
      c.cur, c.blkend, c.nseek := 0, 0, 0;
      if c.weight <= 0.0 { return false, sc, rq, ceil; }
      assert chans[..i + 1] == chans[..i] + [c];
      SplitStep(chans[..i], sc, rq, c);
      if c.required {
        rq := rq + [c];
      } else {
        CeilingsSnoc(sc, ceil, c);
        sc, ceil := sc + [c], ceil + [c.weight * c.maxscore];
      }
    }
    assert chans[..|chans|] == chans;
    ok := true;
  }

  lemma NothingSplit()
    ensures Split([], [], []) && Ceilings([], [])
  {
  }

  lemma CeilingsSnoc(sc: seq<Channel>, ceil: seq<real>, c: Channel)
    requires Ceilings(sc, ceil)
    ensures Ceilings(sc + [c], ceil + [c.weight * c.maxscore])
  {
  }

  lemma {:induction false} HitsEnd(q: Query, p: Warp)
    requires q.nwarp <= p
    ensures Hits(q, p) == Hits(q, q.nwarp)
    decreases p
  {
    if q.nwarp < p { HitsEnd(q, p - 1); }
  }

  lemma {:induction false} HitsDistinct(q: Query, n: Warp, x: Entry, y: Entry)
    requires x in Hits(q, n) && y in Hits(q, n) && x != y
    ensures x.id != y.id
    decreases n
  {
    if n > 0 && x in Hits(q, n - 1) && y in Hits(q, n - 1) { HitsDistinct(q, n - 1, x, y); }
  }

  lemma CeilingsLength(sc: seq<Channel>, ceil: seq<real>)
    requires Ceilings(sc, ceil)
    ensures |ceil| == |sc|
  {
  }

  /** `s` with the element at `i` taken out and a hole opened after `j`. */
  function Opened<T>(s: seq<T>, j: int, i: nat): seq<T>
    requires -1 <= j < i < |s|
  {
    s[..j + 1] + [s[j + 1]] + s[j + 1..i] + s[i + 1..]
  }

  lemma OpenedStart<T>(s: seq<T>, i: nat)
    requires 0 < i < |s|
    ensures Opened(s, i - 1, i) == s
  {
  }

  lemma OpenedStep<T>(s: seq<T>, j: nat, i: nat)
    requires j < i < |s|
    ensures |Opened(s, j, i)| == |s|
    ensures Opened(s, j, i)[j + 1 := Opened(s, j, i)[j]] == Opened(s, j - 1, i)
  {
  }

  lemma OpenedPlace<T>(s: seq<T>, j: int, i: nat)
    requires -1 <= j < i < |s|
    ensures |Opened(s, j, i)| == |s|
    ensures Opened(s, j, i)[j + 1 := s[i]] == s[..j + 1] + [s[i]] + s[j + 1..i] + s[i + 1..]
    ensures multiset(Opened(s, j, i)[j + 1 := s[i]]) == multiset(s)
  {
    assert Opened(s, j, i)[j + 1 := s[i]] == s[..j + 1] + [s[i]] + s[j + 1..i] + s[i + 1..];
    assert s == s[..j + 1] + s[j + 1..i] + [s[i]] + s[i + 1..];
    MoveLeft(s[..j + 1], s[j + 1..i], [s[i]], s[i + 1..]);
  }

  lemma MoveLeft<T>(a: seq<T>, b: seq<T>, c: seq<T>, d: seq<T>)
    ensures multiset(a + b + c + d) == multiset(a + c + b + d)
  {
  }

  lemma OpenedAt<T>(s: seq<T>, j: int, i: nat)
    requires 0 <= j < i < |s|
    ensures |Opened(s, j, i)| == |s| && Opened(s, j, i)[j] == s[j]
  {
  }

  /** A value put between the larger and the smaller part of a descending sequence. */
  lemma PlacedDescending(left: seq<real>, x: real, right: seq<real>)
    requires Descending(left + right)
    requires forall i :: 0 <= i < |left| ==> AtLeast(left[i], x)
    requires forall i :: 0 <= i < |right| ==> AtLeast(x, right[i])
    ensures Descending(left + [x] + right)
  {
    hide AtLeast;
    var d, r := left + right, left + [x] + right;
    forall a, b | 0 <= a < b < |r| ensures AtLeast(r[a], r[b]) {
      var a', b' := if a > |left| then a - 1 else a, if b > |left| then b - 1 else b;
      if a == |left| {
        assert r[b] == right[b - |left| - 1];
      } else if b == |left| {
        assert r[a] == left[a];
      } else {
        assert r[a] == d[a'] && r[b] == d[b'];
      }
    }
  }

  lemma LeftPartLarger(c: seq<real>, j: nat, x: real)
    requires j < |c| && Descending(c) && AtLeast(c[j], x)
    ensures forall i :: 0 <= i <= j ==> AtLeast(c[i], x)
  {
    forall i | 0 <= i <= j ensures AtLeast(c[i], x) {
      if i < j { assert AtLeast(c[i], c[j]); }
    }
  }

  lemma CeilingsUpdate(sc: seq<Channel>, ceil: seq<real>, n: nat, c: Channel, v: real)
    requires Ceilings(sc, ceil) && n < |sc| && v == c.weight * c.maxscore
    ensures |ceil| == |sc| && Ceilings(sc[n := c], ceil[n := v])
  {
  }

  /** Move the channel at `i` left past every smaller ceiling. */
  method InsertDown(s0: seq<Channel>, c0: seq<real>, i: nat) returns (sc: seq<Channel>, ceil: seq<real>)
    requires 0 < i < |s0| == |c0| && Ceilings(s0, c0) && Descending(c0[..i])
    ensures |sc| == |ceil| == |s0| && multiset(sc) == multiset(s0) && Ceilings(sc, ceil)
    ensures Descending(ceil[..i + 1])
  {
    hide Opened, Descending, Ceilings;
    sc, ceil := s0, c0;
    var c, v := s0[i], c0[i];
    var j := i - 1;
    OpenedStart(s0, i);
    OpenedStart(c0, i);
    CeilingAt(s0, c0, i);
    while j >= 0 && !AtLeast(ceil[j], v)
      invariant -1 <= j < i && |sc| == |ceil| == |s0| && Ceilings(sc, ceil)
      invariant sc == Opened(s0, j, i) && ceil == Opened(c0, j, i)
      invariant forall m :: j < m < i ==> AtLeast(v, c0[m])
    {
      hide AtLeast;
      OpenedStep(s0, j, i);
      OpenedStep(c0, j, i);
      OpenedAt(c0, j, i);
      CeilingAt(sc, ceil, j);
      CeilingsUpdate(sc, ceil, j + 1, sc[j], ceil[j]);
      assert AtLeast(v, c0[j]) by { LessIsAtMost(c0[j], v); }
      sc := sc[j + 1 := sc[j]];
      ceil := ceil[j + 1 := ceil[j]];
      j := j - 1;
    }
    hide AtLeast;
    if j >= 0 { OpenedAt(c0, j, i); }
    CeilingsUpdate(sc, ceil, j + 1, c, v);
    InsertedAt(s0, c0, j, i);
    sc := sc[j + 1 := c];
    ceil := ceil[j + 1 := v];
  }

  /** The channel put in the hole after `j`. */
  lemma InsertedAt(s0: seq<Channel>, c0: seq<real>, j: int, i: nat)
    requires -1 <= j < i < |s0| == |c0| && Descending(c0[..i])
    requires forall m :: j < m < i ==> AtLeast(c0[i], c0[m])
    requires j >= 0 ==> AtLeast(c0[j], c0[i])
    ensures |Opened(s0, j, i)| == |Opened(c0, j, i)| == |s0|
    ensures multiset(Opened(s0, j, i)[j + 1 := s0[i]]) == multiset(s0)
    ensures Descending(Opened(c0, j, i)[j + 1 := c0[i]][..i + 1])
  {
    hide Opened, Descending, AtLeast;
    if j >= 0 { LeftPartLarger(c0[..i], j, c0[i]); }
    OpenedPlace(s0, j, i);
    OpenedPlace(c0, j, i);
    PlacedPrefix(c0, j, i);
  }

  lemma LessIsAtMost(a: real, b: real)
    requires !AtLeast(a, b)
    ensures AtLeast(b, a)
  {
  }

  lemma CeilingAt(sc: seq<Channel>, ceil: seq<real>, i: nat)
    requires Ceilings(sc, ceil) && i < |sc|
    ensures |ceil| == |sc| && ceil[i] == sc[i].weight * sc[i].maxscore
  {
  }

  lemma PlacedPrefix(c0: seq<real>, j: int, i: nat)
    requires -1 <= j < i < |c0| && Descending(c0[..i])
    requires forall m :: j < m < i ==> AtLeast(c0[i], c0[m])
    requires forall m :: 0 <= m <= j ==> AtLeast(c0[..i][m], c0[i])
    ensures Descending((c0[..j + 1] + [c0[i]] + c0[j + 1..i] + c0[i + 1..])[..i + 1])
  {
    hide Descending, AtLeast;
    var left, right := c0[..j + 1], c0[j + 1..i];
    assert left + right == c0[..i];
    forall m | 0 <= m < |left| ensures AtLeast(left[m], c0[i]) { assert left[m] == c0[..i][m]; }
    PlacedDescending(left, c0[i], right);
    assert (left + [c0[i]] + right + c0[i + 1..])[..i + 1] == left + [c0[i]] + right;
  }

  /** suffix[j] is the sum of the ceilings from j on. */
  method CeilSuffixes(sc: seq<Channel>, ceil: seq<real>) returns (suffix: seq<real>)
    requires Ceilings(sc, ceil)
    ensures |suffix| == |sc| + 1 && forall j :: 0 <= j <= |sc| ==> suffix[j] == CeilSum(sc[j..])
  {
    suffix := [0.0];
    for i := |sc| downto 0
      invariant |suffix| == |sc| - i + 1
      invariant forall j :: 0 <= j < |suffix| ==> suffix[j] == CeilSum(sc[i + j..])
    {
      assert sc[i..][1..] == sc[i + 1..];
      suffix := [suffix[0] + ceil[i]] + suffix;
    }
  }
}
