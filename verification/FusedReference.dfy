/** The brute-force reference of src/am/fuse.c, and the agreement of the fused
    scan with it.
  */
module FusedReference {
  import opened BinaryHeap
  import opened FusedSpec
  import opened FusedSteps
  import opened FusedTrace
  import opened FusedScan

  // ---------------------------------------------------------------------------
  // One document
  // ---------------------------------------------------------------------------

  /** Whether a channel lets the document at `p` through. */
  predicate Passes(c: Channel, p: Warp) {
    if Reach(c, p) then c.scoreAt(p).Val? else !c.required
  }

  ghost predicate AllPass(all: seq<Channel>, p: Warp) { forall i :: 0 <= i < |all| ==> Passes(all[i], p) }

  ghost predicate SomeScored(all: seq<Channel>, p: Warp) {
    exists i :: 0 <= i < |all| && !all[i].required && Reach(all[i], p)
  }

  /** Candidacy, channel by channel. */
  lemma CandidatePasses(q: Query, all: seq<Channel>, p: Warp)
    requires multiset(all) == multiset(q.chans)
    ensures Candidate(q, p) <==> && p < q.nwarp && q.live(p) && AllPass(all, p)
                                 && ((forall c | c in all :: c.required) || SomeScored(all, p))
  {
    forall c ensures c in q.chans <==> c in all {
      assert c in q.chans <==> c in multiset(q.chans);
      assert c in all <==> c in multiset(all);
    }
  }

  /** Seek a channel to `p` unless it is there already; does it stand on `p`? */
  method Probe(c: Channel, p: Warp) returns (standing: bool)
    requires p < END
    modifies c
    ensures MonotoneSeek(c) && old(Ready(c, p)) ==> Ready(c, p) && (standing <==> Reach(c, p))
  {
    if c.nseek == 0 || c.cur < p {
      c.cur := c.seekTo(p);
      c.nseek := c.nseek + 1;
      c.blkend := c.blockEnd(c.cur);
      if c.blkend < c.cur { c.blkend := c.cur; }
    }
    standing := c.cur == p;
  }

  ghost predicate AllMonotone(cs: seq<Channel>) { forall c | c in cs :: MonotoneSeek(c) }

  /** Score one document by probing every channel, in the scorer's order. */
  method ScoreAll(all: seq<Channel>, p: Warp) returns (vetoed: bool, reached: bool, s: real)
    requires p < END
    modifies set c | c in all
    ensures AllMonotone(all) && old(AllReady(all, p)) ==>
              && AllReady(all, p)
              && (vetoed <==> !AllPass(all, p))
              && (!vetoed ==> s == Sum(all, p) && (reached <==> SomeScored(all, p)))
  {
    hide MonotoneSeek, NoReach, Ready, Sum, Reach;
    ghost var good := AllMonotone(all) && AllReady(all, p);
    vetoed, reached, s := false, false, 0.0;
    SumNothing(p);
    for i := 0 to |all|
      invariant good ==> AllReady(all, p) && AllPass(all[..i], p) && s == Sum(all[..i], p)
      invariant good ==> (reached <==> SomeScored(all[..i], p))
    {
      var c := all[i];
      assert all[..i + 1] == all[..i] + [c];
      SumSnoc(all[..i], c, p);
      var standing := Probe(c, p);
      if !standing {
        if c.required { return true, reached, s; }
        assert good ==> Contribution(c, p) == 0.0;
      } else {
        if !c.required { reached := true; }
        match c.scoreAt(p)
        case Veto =>
          return true, reached, s;
        case Val(v) =>
          assert good ==> Contribution(c, p) == c.weight * v;
          s := s + c.weight * v;
      }
    }
    assert all[..|all|] == all;
  }

  // ---------------------------------------------------------------------------
  // Whole scans
  // ---------------------------------------------------------------------------

  /** A best-first listing of the top set is the top list. */
  lemma ListedTop(q: Query, s: seq<Entry>, top: set<Entry>, k: nat, h: Warp)
    requires Placed(ByScoreThenId, s, 0) && multiset(s) == multiset(top) && TopSet(top, Hits(q, h), k)
    ensures TopList(s, Hits(q, h), k)
  {
    hide TopSet, Hits;
    assert (set e | e in s) == top by {
      forall e ensures e in s <==> e in top { assert e in s <==> e in multiset(s); }
    }
    forall i, j | 0 <= i < j < |s| ensures Worse(ByScoreThenId, s[j], s[i]) {
      NoRepeats(s, top, i, j);
      assert s[i] in top && s[j] in top;
      TopIsHits(q, top, k, h, s[i], s[j]);
    }
  }

  lemma NoRepeats(s: seq<Entry>, top: set<Entry>, i: nat, j: nat)
    requires multiset(s) == multiset(top) && i < j < |s|
    ensures s[i] != s[j] && s[i] in s && s[j] in s
  {
    assert s == s[..i] + [s[i]] + s[i + 1..j] + [s[j]] + s[j + 1..];
    assert multiset(s)[s[j]] == 1;
  }

  lemma TopIsHits(q: Query, top: set<Entry>, k: nat, h: Warp, x: Entry, y: Entry)
    requires TopSet(top, Hits(q, h), k) && x in top && y in top && x != y
    ensures x.id != y.id
  {
    HitsDistinct(q, h, x, y);
  }

  /** Admission, or not, of one document by the reference. */
  method Consider(st: FuseState, p: Warp, ghost top: set<Entry>, ghost good: bool) returns (ghost top': set<Entry>)
    requires st.ChannelsValid() && st.HeapValid() && p < st.query.nwarp
    requires good ==> AllMonotone(st.rq + st.sc) && st.Tracks(top, p) && AllReady(st.rq + st.sc, p)
    modifies st`nheap, st`theta, st.heap, set c | c in st.query.chans
    ensures st.HeapValid()
    ensures good ==> st.Tracks(top', p + 1) && AllReady(st.rq + st.sc, p + 1)
  {
    hide Partitioned, HeapOrdered, TopSet, Hits, Candidate, MonotoneSeek, NoReach, Ready, Sum, Reach, Passes;
    hide AllMonotone;
    hide FuseState.Tracks, FuseState.Hopeless;
    top' := top;
    ghost var all := st.rq + st.sc;
    st.Members();
    Reorder(st);
    CandidatePasses(st.query, all, p);
    SumPermutation(all, st.query.chans, p);
    if st.query.live(p) {
      var vetoed, reached, s := ScoreAll(st.rq + st.sc, p);
      if !vetoed && (reached || |st.sc| == 0) && (st.nheap < st.k || !AtMost(s, st.theta)) {
        top' := st.Admit(p, s, top, good);
        if good { ReadyLater(all, p, p + 1); }
        return;
      }
    }
    if good {
      st.OneIsHopeless(p);
      st.PassTo(top, p, p + 1);
      ReadyLater(all, p, p + 1);
    }
  }

  lemma Reorder(st: FuseState)
    requires st.ChannelsValid()
    ensures multiset(st.rq + st.sc) == multiset(st.query.chans)
    ensures (forall c | c in st.rq + st.sc :: c.required) <==> |st.sc| == 0
  {
    assert multiset(st.rq + st.sc) == multiset(st.sc + st.rq);
    if |st.sc| > 0 { assert st.sc[0] in st.rq + st.sc; }
  }

  /** The arguments weave_fuse_init() accepts. */
  predicate Accepted(chans: seq<Channel>, k: nat) {
    1 <= |chans| <= MAX_CHAN && k >= 1 && forall c | c in chans :: c.weight > 0.0
  }

  /** Walk every position; ask for no bound. Only (C1) is needed of the channels. */
  method Reference(chans: seq<Channel>, live: Warp -> bool, nwarp: Warp, k: nat, out: array<Entry>) returns (n: nat)
    requires k <= out.Length
    modifies out, set c | c in chans
    ensures n <= out.Length
    ensures !Accepted(chans, k) ==> n == 0
    ensures Accepted(chans, k) && (forall c | c in chans :: MonotoneSeek(c)) ==>
              TopList(out[..n], Hits(Query(chans, live, nwarp), nwarp), k)
  {
    hide Partitioned, HeapOrdered, TopSet, TopList, Hits, Candidate, MonotoneSeek, Ready;
    var st := new FuseState();
    var err := st.Init(chans, out, k, live, nwarp);
    if err != Ok { return 0; }
    ghost var good := AllMonotone(chans);
    ghost var top := {};
    ReferenceStart(st);
    for p := 0 to nwarp
      invariant st.ChannelsValid() && st.HeapValid() && st.heap == out && st.k == k
      invariant st.query == Query(chans, live, nwarp)
      invariant good ==> st.Tracks(top, p) && AllReady(st.rq + st.sc, p) && AllMonotone(st.rq + st.sc)
    {
      top := Consider(st, p, top, good);
    }
    n := st.Drain(out);
    if good { ListedTop(st.query, out[..n], top, k, nwarp); }
  }

  lemma ReferenceStart(st: FuseState)
    requires st.ChannelsValid() && st.HeapValid() && st.nheap == 0 && forall c | c in st.query.chans :: c.nseek == 0
    ensures st.Tracks({}, 0) && AllReady(st.rq + st.sc, 0)
    ensures AllMonotone(st.query.chans) ==> AllMonotone(st.rq + st.sc)
  {
    hide Partitioned, HeapOrdered, MonotoneSeek;
    st.Members();
    assert st.heap[..0] == [];
  }

  /** `sc` holds the channels by descending weighted ceiling. */
  ghost predicate ByCeiling(chans: seq<Channel>, sc: seq<Channel>) {
    && multiset(sc) == multiset(chans)
    && forall i, j :: 0 <= i < j < |sc| ==> sc[i].weight * sc[i].maxscore >= sc[j].weight * sc[j].maxscore
  }

  ghost predicate AllScored(chans: seq<Channel>) { forall c | c in chans :: !c.required }

  /** The fused scan: weave_fuse_init(), weave_fuse_run(), weave_fuse_drain(). With
      true bounds it returns the top list. Without required channels it returns,
      whatever the bounds, the first `k` candidates if it is idle after them. */
  method TopK(chans: seq<Channel>, heap: array<Entry>, k: nat, live: Warp -> bool, nwarp: Warp, out: array<Entry>)
    returns (err: FuseError, n: nat, ghost sc: seq<Channel>)
    requires k <= heap.Length && k <= out.Length
    modifies heap, out, set c | c in chans
    ensures n <= out.Length
    ensures Accepted(chans, k) <==> err == Ok || err == C1Violation
    ensures Accepted(chans, k) && AllHonest(Query(chans, live, nwarp), k) ==>
              err == Ok && TopList(out[..n], Hits(Query(chans, live, nwarp), nwarp), k)
    ensures Accepted(chans, k) && AllSeek(Query(chans, live, nwarp)) && AllScored(chans) ==>
              && ByCeiling(chans, sc)
              && forall h: Warp :: StopsAt(Query(chans, live, nwarp), k, sc, h) ==>
                   err == Ok && TopList(out[..n], Hits(Query(chans, live, nwarp), h), k)
  {
    hide Partitioned, HeapOrdered, TopSet, TopList, Hits, Candidate, AllHonest, AllSeek, AllScored, StopsAt, ByCeiling;
    var st := new FuseState();
    n := 0;
    err := st.Init(chans, heap, k, live, nwarp);
    sc := st.sc;
    if err != Ok { return; }
    if AllScored(chans) { ScoredOnly(st); }
    ghost var top, at;
    err, top, at := st.Run();
    if err != Ok { return; }
    n := st.Drain(out);
    if AllHonest(st.query, k) { ListedTop(st.query, out[..n], top, k, nwarp); }
    forall h: Warp | AllSeek(st.query) && AllScored(chans) && StopsAt(st.query, k, sc, h)
      ensures TopList(out[..n], Hits(st.query, h), k)
    {
      ListedTop(st.query, out[..n], top, k, h);
    }
  }

  lemma ScoredOnly(st: FuseState)
    requires st.ChannelsValid() && AllScored(st.query.chans)
    ensures |st.rq| == 0 && ByCeiling(st.query.chans, st.sc)
  {
    if |st.rq| > 0 { st.Membership(st.rq[0]); }
    assert st.sc + st.rq == st.sc;
    forall i, j | 0 <= i < j < |st.sc|
      ensures st.sc[i].weight * st.sc[i].maxscore >= st.sc[j].weight * st.sc[j].maxscore
    {
      assert AtLeast(st.ceil[i], st.ceil[j]);
    }
  }

  /** The scan returns exactly what the reference returns, entry for entry. */
  method ScanAgrees(chans: seq<Channel>, heap: array<Entry>, k: nat, live: Warp -> bool, nwarp: Warp,
                    fast: array<Entry>, slow: array<Entry>) returns (err: FuseError, n: nat, m: nat)
    requires k <= heap.Length && k <= fast.Length && k <= slow.Length && fast != slow
    requires Accepted(chans, k) && AllHonest(Query(chans, live, nwarp), k)
    modifies heap, fast, slow, set c | c in chans
    ensures n <= fast.Length && m <= slow.Length
    ensures err == Ok && fast[..n] == slow[..m]
  {
    hide TopList, Hits, MonotoneSeek, StopsAt, ByCeiling, AllBounded;
    ghost var sc;
    err, n, sc := TopK(chans, heap, k, live, nwarp, fast);
    ghost var got := fast[..n];
    assert forall c | c in chans :: MonotoneSeek(c) by { SeekersAreMonotone(chans, live, nwarp); }
    m := Reference(chans, live, nwarp, k, slow);
    TopListIsUnique(got, slow[..m], Hits(Query(chans, live, nwarp), nwarp), k);
  }

  lemma SeekersAreMonotone(chans: seq<Channel>, live: Warp -> bool, nwarp: Warp)
    requires AllSeek(Query(chans, live, nwarp))
    ensures forall c | c in chans :: MonotoneSeek(c)
  {
    forall c | c in chans ensures MonotoneSeek(c) { assert c in Query(chans, live, nwarp).chans && Seeks(c); }
  }
}
