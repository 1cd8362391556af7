/** The top-k heap and the two scan arms of bench/code_scan.c: a flat scan that
    scores every lane of every block, and a scan that skips a block whose bound
    cannot beat the running threshold.
  */
module PrunedScan {
  import opened BinaryHeap

  /** One push on a heap of capacity `k`. */
  function Pushed(h: seq<Entry>, k: nat, e: Entry): (r: seq<Entry>)
    requires 0 < k && |h| <= k
    ensures |r| == if |h| < k then |h| + 1 else k
  {
    if |h| < k then Up(ByScore, h + [e], |h|)
    else if e.score <= h[0].score then h
    else Down(ByScore, h[0 := e], 0)
  }

  /** Pushing a sequence of entries, in order. */
  function PushAll(h: seq<Entry>, k: nat, es: seq<Entry>): (r: seq<Entry>)
    requires 0 < k && |h| <= k
    ensures |r| <= k
    decreases |es|
  {
    if es == [] then h else PushAll(Pushed(h, k, es[0]), k, es[1..])
  }

  class TopK {
    const h: array<Entry>
    const k: nat
    var n: nat
    var theta: Theta

    ghost predicate Valid()
      reads this, h
    {
      && 0 < k == h.Length && n <= k && HeapOrdered(ByScore, h[..n])
      && theta == if n == k then Fin(h[0].score) else NegInf
    }

    function View(): seq<Entry>
      requires n <= h.Length
      reads this, h
    {
      h[..n]
    }

    constructor (k: nat)
      requires 0 < k
      ensures Valid() && this.k == k && View() == [] && fresh(h)
    {
      this.k, n, theta := k, 0, NegInf;
      h := new Entry[k](_ => Entry(0.0, 0));
    }

    method Push(s: real, id: nat)
      requires Valid()
      modifies this, h
      ensures Valid() && View() == Pushed(old(View()), k, Entry(s, id))
    {
      hide Up, Down, HeapOrdered, View;
      ghost var before := h[..n];
      assert View() == before by { ViewIs(); }
      if n < k {
        Insert(ByScore, h, n, Entry(s, id));
        n := n + 1;
        if n == k { theta := Fin(h[0].score); }
      } else if !AtMost(s, theta) {
        ReplaceRoot(ByScore, h, n, Entry(s, id));
        theta := Fin(h[0].score);
      }
      assert h[..n] == Pushed(before, k, Entry(s, id));
      ViewIs();
    }

    lemma ViewIs()
      requires n <= h.Length
      ensures View() == h[..n]
    {
    }
  }

  /** The entries of a block's lanes, block after block. */
  type Block = seq<Entry>

  function Lanes(blocks: seq<Block>, n: nat): seq<Entry>
    requires n <= |blocks|
  {
    if n == 0 then [] else Lanes(blocks, n - 1) + blocks[n - 1]
  }

  method PushLanes(t: TopK, block: Block)
    requires t.Valid()
    modifies t, t.h
    ensures t.Valid() && t.View() == PushAll(old(t.View()), t.k, block)
  {
    for s := 0 to |block|
      invariant t.Valid() && t.View() == PushAll(old(t.View()), t.k, block[..s])
    {
      t.Push(block[s].score, block[s].id);
      assert block[..s + 1] == block[..s] + [block[s]];
      PushAllConcat(old(t.View()), t.k, block[..s], [block[s]]);
    }
    assert block[..|block|] == block;
  }

  lemma {:induction false} PushAllConcat(h: seq<Entry>, k: nat, a: seq<Entry>, b: seq<Entry>)
    requires 0 < k && |h| <= k
    ensures PushAll(h, k, a + b) == PushAll(PushAll(h, k, a), k, b)
    decreases |a|
  {
    if a == [] {
      assert a + b == b;
    } else {
      assert (a + b)[1..] == a[1..] + b;
      PushAllConcat(Pushed(h, k, a[0]), k, a[1..], b);
    }
  }

  /** The flat arm: every block, every lane. */
  method FlatScan(blocks: seq<Block>, k: nat) returns (t: TopK)
    requires 0 < k
    ensures fresh(t) && fresh(t.h) && t.Valid() && t.k == k
    ensures t.View() == PushAll([], k, Lanes(blocks, |blocks|))
  {
    t := new TopK(k);
    for b := 0 to |blocks|
      invariant fresh(t) && fresh(t.h) && t.Valid() && t.k == k
      invariant t.View() == PushAll([], k, Lanes(blocks, b))
    {
      PushLanes(t, blocks[b]);
      PushAllConcat([], k, Lanes(blocks, b), blocks[b]);
    }
  }

  /** Each block's bound is at least the score of every lane in it. */
  ghost predicate Dominates(bounds: seq<real>, blocks: seq<Block>) {
    && |bounds| == |blocks|
    && forall b, s :: 0 <= b < |blocks| && 0 <= s < |blocks[b]| ==> blocks[b][s].score <= bounds[b]
  }

  /** Lanes that cannot beat the threshold leave the heap as it is, entry by entry. */
  lemma {:induction false} WeakLanesChangeNothing(h: seq<Entry>, k: nat, lanes: seq<Entry>)
    requires 0 < k == |h|
    requires forall s :: 0 <= s < |lanes| ==> lanes[s].score <= h[0].score
    ensures PushAll(h, k, lanes) == h
    decreases |lanes|
  {
    if lanes != [] { WeakLanesChangeNothing(h, k, lanes[1..]); }
  }

  /** The threshold of a heap of capacity `k`. */
  function ThetaOf(h: seq<Entry>, k: nat): Theta
    requires 0 < k
  {
    if |h| == k then Fin(h[0].score) else NegInf
  }

  /** How many of the first `n` blocks have a bound the threshold of all lanes before
      them already meets. */
  function PrunedCount(blocks: seq<Block>, bounds: seq<real>, k: nat, n: nat): nat
    requires 0 < k && n <= |blocks| == |bounds|
  {
    if n == 0 then 0
    else
      var weak := AtMost(bounds[n - 1], ThetaOf(PushAll([], k, Lanes(blocks, n - 1)), k));
      PrunedCount(blocks, bounds, k, n - 1) + if weak then 1 else 0
  }

  /** The pruned arm, which skips a block whose bound is at most the
      running threshold, leaves at every block exactly the flat arm's heap. */
  method PrunedScanArm(blocks: seq<Block>, bounds: seq<real>, k: nat) returns (t: TopK, pruned: nat)
    requires 0 < k && |bounds| == |blocks|
    ensures fresh(t) && fresh(t.h) && t.Valid() && t.k == k
    ensures Dominates(bounds, blocks) ==> t.View() == PushAll([], k, Lanes(blocks, |blocks|))
    ensures Dominates(bounds, blocks) ==> pruned == PrunedCount(blocks, bounds, k, |blocks|)
    ensures pruned <= |blocks|
  {
    t := new TopK(k);
    pruned := 0;
    for b := 0 to |blocks|
      invariant fresh(t) && fresh(t.h) && t.Valid() && t.k == k && pruned <= b
      invariant Dominates(bounds, blocks) ==> t.View() == PushAll([], k, Lanes(blocks, b))
      invariant Dominates(bounds, blocks) ==> pruned == PrunedCount(blocks, bounds, k, b)
    {
      ghost var flat := PushAll([], k, Lanes(blocks, b));
      PushAllConcat([], k, Lanes(blocks, b), blocks[b]);
      if AtMost(bounds[b], t.theta) {
        if Dominates(bounds, blocks) { WeakLanesChangeNothing(flat, k, blocks[b]); }
        pruned := pruned + 1;
      } else {
        PushLanes(t, blocks[b]);
      }
    }
  }

  // ---------------------------------------------------------------------------
  // What the heap holds
  // ---------------------------------------------------------------------------

  /** `kept` is a choice of the k best-scored of `all`. */
  ghost predicate KeepsBest(kept: multiset<Entry>, all: multiset<Entry>, k: nat) {
    && kept <= all
    && |kept| == (if |all| <= k then |all| else k)
    && forall x, y :: x in kept && y in all - kept ==> y.score <= x.score
  }

  /** A full choice of the best meets one more entry. */
  lemma OneMoreEntry(kept: multiset<Entry>, all: multiset<Entry>, k: nat, w: Entry, e: Entry)
    requires KeepsBest(kept, all, k) && |kept| == k && w in kept
    requires forall x | x in kept :: w.score <= x.score
    ensures e.score <= w.score ==> KeepsBest(kept, all + multiset{e}, k)
    ensures e.score > w.score ==> KeepsBest(kept - multiset{w} + multiset{e}, all + multiset{e}, k)
  {
    var all' := all + multiset{e};
    assert all' - kept == all - kept + multiset{e};
    assert all' - (kept - multiset{w} + multiset{e}) == all - kept + multiset{w};
  }

  /** A choice with room holds everything. */
  lemma RoomForOne(kept: multiset<Entry>, all: multiset<Entry>, k: nat, e: Entry)
    requires KeepsBest(kept, all, k) && |kept| < k
    ensures KeepsBest(kept + multiset{e}, all + multiset{e}, k)
  {
    assert |all - kept| == |all| - |kept|;
    assert all == kept;
  }

  lemma PushKeepsBest(h: seq<Entry>, k: nat, e: Entry, all: multiset<Entry>)
    requires 0 < k && |h| <= k && HeapOrdered(ByScore, h) && KeepsBest(multiset(h), all, k)
    ensures HeapOrdered(ByScore, Pushed(h, k, e))
    ensures KeepsBest(multiset(Pushed(h, k, e)), all + multiset{e}, k)
  {
    hide HeapOrdered, Up, Down;
    if |h| < k {
      hide KeepsBest;
      PushGrows(ByScore, h, e);
      RoomForOne(multiset(h), all, k, e);
    } else {
      hide KeepsBest;
      PushReplaces(ByScore, h, e);
      forall x | x in multiset(h) ensures h[0].score <= x.score {
        var i :| 0 <= i < |h| && h[i] == x;
        RootIsWorst(ByScore, h, i);
      }
      assert h[0] in multiset(h);
      OneMoreEntry(multiset(h), all, k, h[0], e);
    }
  }

  /** The heap is heap-ordered and holds the k best-scored entries pushed. */
  lemma {:induction false} HeapHoldsBest(h: seq<Entry>, k: nat, es: seq<Entry>, all: multiset<Entry>)
    requires 0 < k && |h| <= k && HeapOrdered(ByScore, h) && KeepsBest(multiset(h), all, k)
    ensures HeapOrdered(ByScore, PushAll(h, k, es))
    ensures KeepsBest(multiset(PushAll(h, k, es)), all + multiset(es), k)
    decreases |es|
  {
    hide HeapOrdered, KeepsBest, Pushed;
    if es == [] {
      assert all + multiset(es) == all;
    } else {
      PushKeepsBest(h, k, es[0], all);
      HeapHoldsBest(Pushed(h, k, es[0]), k, es[1..], all + multiset{es[0]});
      EntriesCons(es, all);
    }
  }

  lemma EntriesCons(es: seq<Entry>, all: multiset<Entry>)
    requires es != []
    ensures all + multiset{es[0]} + multiset(es[1..]) == all + multiset(es)
  {
    assert es == [es[0]] + es[1..];
  }

  /** Both arms end with the k best-scored lanes of the whole store. */
  lemma ScanFindsBest(blocks: seq<Block>, k: nat)
    requires 0 < k
    ensures var lanes := Lanes(blocks, |blocks|);
            KeepsBest(multiset(PushAll([], k, lanes)), multiset(lanes), k)
  {
    var lanes := Lanes(blocks, |blocks|);
    HeapHoldsBest([], k, lanes, multiset{});
    assert multiset{} + multiset(lanes) == multiset(lanes);
  }
}
