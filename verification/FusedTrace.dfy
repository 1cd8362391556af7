/** Where the fused scan of src/am/fuse.c stops changing its heap. Nothing here
    asks whether the channels' bounds are true: the first `k` candidates are
    admitted whatever the bounds say, and from there on the bounds, true or
    not, decide which positions are looked at.
  */
module FusedTrace {
  import opened BinaryHeap
  import opened FusedSpec
  import opened FusedSteps

  /** The first position at or past `p` that one of the channels reaches. */
  function First(cs: seq<Channel>, p: Warp): Warp {
    if cs == [] then END
    else if cs[0].seekTo(p) < First(cs[1..], p) then cs[0].seekTo(p) else First(cs[1..], p)
  }

  lemma {:induction false} FirstIs(cs: seq<Channel>, p: Warp, lo: Warp)
    requires p <= lo && forall i :: 0 <= i < |cs| ==> MonotoneSeek(cs[i]) && NoReach(cs[i], p, lo)
    requires lo < END ==> exists i :: 0 <= i < |cs| && Reach(cs[i], lo)
    ensures First(cs, p) == lo
    decreases |cs|
  {
    FirstAtLeast(cs, p, lo);
    if lo < END {
      var i :| 0 <= i < |cs| && Reach(cs[i], lo);
      FirstAtMost(cs, p, lo, i);
    }
  }

  lemma {:induction false} FirstAtLeast(cs: seq<Channel>, p: Warp, lo: Warp)
    requires p <= lo && forall i :: 0 <= i < |cs| ==> MonotoneSeek(cs[i]) && NoReach(cs[i], p, lo)
    ensures lo <= First(cs, p)
    decreases |cs|
  {
    if cs != [] {
      FirstAtLeast(cs[1..], p, lo);
      var c := cs[0];
      assert p <= c.seekTo(p) && (c.seekTo(p) < END ==> Reach(c, c.seekTo(p)));
    }
  }

  lemma {:induction false} FirstAtMost(cs: seq<Channel>, p: Warp, lo: Warp, i: nat)
    requires p <= lo && i < |cs| && MonotoneSeek(cs[i]) && Reach(cs[i], lo)
    ensures First(cs, p) <= lo
    decreases |cs|
  {
    if i == 0 {
      assert NoReach(cs[0], p, cs[0].seekTo(p));
    } else {
      FirstAtMost(cs[1..], p, lo, i - 1);
    }
  }

  /** Where the partition comes to rest, from `n` down, against a threshold. */
  function SplitAt(sc: seq<Channel>, theta: Theta, n: nat): (r: nat)
    requires n <= |sc|
    ensures r <= n
  {
    if n > 0 && AtMost(CeilSum(sc[n - 1..]), theta) then SplitAt(sc, theta, n - 1) else n
  }

  /** With the first `n` scored channels essential and a full heap at `theta`,
      every step from `p` on passes over its position. */
  ghost predicate Idle(q: Query, sc: seq<Channel>, n: nat, theta: Theta, p: Warp)
    requires n <= |sc|
    decreases END - p, 1
  {
    || p >= q.nwarp || AtMost(CeilSum(sc), theta) || n == 0
    || (var lo := First(sc[..n], p);
        if lo > p then Idle(q, sc, n, theta, lo) else IdleHere(q, sc, n, theta, p))
  }

  /** The document at `p` is dead, or its block cannot beat the threshold. */
  ghost predicate IdleHere(q: Query, sc: seq<Channel>, n: nat, theta: Theta, p: Warp)
    requires n <= |sc| && p < END
    decreases END - p, 0
  {
    if !q.live(p) then Idle(q, sc, n, theta, p + 1)
    else
      && AtMost(BoundSum(Reaching(sc, p), p), theta)
      && forall e: Warp :: p <= e < END && RangeOk(sc, p, e) && Longest(sc, p, e) ==> Idle(q, sc, n, theta, e + 1)
  }

  /** The lowest score in a set of entries. */
  ghost predicate Lowest(s: set<Entry>, t: real) {
    (exists e :: e in s && e.score == t) && forall e | e in s :: t <= e.score
  }

  /** The k-th candidate lies just before `h`. */
  ghost predicate Fills(q: Query, k: nat, h: Warp) {
    0 < h && |Hits(q, h - 1)| < k && |Hits(q, h)| == k
  }

  /** The heap fills at `h`, and the scan admits nothing from there on. */
  ghost predicate StopsAt(q: Query, k: nat, sc: seq<Channel>, h: Warp) {
    && Fills(q, k, h)
    && forall t: real :: Lowest(Hits(q, h), t) ==> Idle(q, sc, SplitAt(sc, Fin(t), |sc|), Fin(t), h)
  }

  lemma FillsOnce(q: Query, k: nat, h: Warp, p: Warp)
    requires Fills(q, k, h) && 0 < p && |Hits(q, p - 1)| < k && |Hits(q, p)| >= k
    ensures h == p
  {
    hide Hits;
    if h < p { HitCount(q, h, p - 1); } else if p < h { HitCount(q, p, h - 1); }
  }
}
