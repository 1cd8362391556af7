/** The benchmark's reference distance and its page scan with a running
    threshold (bench/edist_bound.c:94-119, 262-346).
  */
module EditScan {
  import opened Basics
  import opened EditDistance
  import opened EdistBound

  /** The two-row dynamic program computes the edit distance. */
  method TwoRows<T(==, !new)>(a: seq<T>, b: seq<T>) returns (d: nat)
    ensures d == Lev(a, b)
  {
    hide Lev;
    var n := |b|;
    var prev, cur := new nat[n + 1], new nat[n + 1];
    for j := 0 to n + 1
      invariant forall x :: 0 <= x < j ==> prev[x] == Lev(a[..0], b[..x])
    {
      FirstRowCell(a, b, j);
      prev[j] := j;
    }
    for i := 1 to |a| + 1
      invariant forall x :: 0 <= x <= n ==> prev[x] == Lev(a[..i - 1], b[..x])
    {
      FirstColumnCell(a, b, i);
      cur[0] := i;
      for j := 1 to n + 1
        invariant forall x :: 0 <= x < j ==> cur[x] == Lev(a[..i], b[..x])
        invariant forall x :: 0 <= x <= n ==> prev[x] == Lev(a[..i - 1], b[..x])
      {
        var s := prev[j - 1] + Cost(a[i - 1], b[j - 1]);
        var del := prev[j] + 1;
        var ins := cur[j - 1] + 1;
        var best := if s < del then s else del;
        cur[j] := if best < ins then best else ins;
        InnerCell(a, b, i, j);
      }
      forall x | 0 <= x <= n { prev[x] := cur[x]; }
    }
    assert a[..|a|] == a && b[..n] == b;
    d := prev[n];
  }

  lemma FirstRowCell<T(!new)>(a: seq<T>, b: seq<T>, j: nat)
    requires j <= |b|
    ensures Lev(a[..0], b[..j]) == j
  {
  }

  lemma FirstColumnCell<T(!new)>(a: seq<T>, b: seq<T>, i: nat)
    requires i <= |a|
    ensures Lev(a[..i], b[..0]) == i
  {
  }

  lemma InnerCell<T(!new)>(a: seq<T>, b: seq<T>, i: nat, j: nat)
    requires 0 < i <= |a| && 0 < j <= |b|
    ensures Lev(a[..i], b[..j]) == Min(Lev(a[..i - 1], b[..j - 1]) + Cost(a[i - 1], b[j - 1]),
                                       Min(Lev(a[..i], b[..j - 1]) + 1, Lev(a[..i - 1], b[..j]) + 1))
  {
    assert a[..i][..i - 1] == a[..i - 1] && b[..j][..j - 1] == b[..j - 1];
  }

  // ---------------------------------------------------------------------------
  // The k smallest distances
  // ---------------------------------------------------------------------------

  /** `kept` is a choice of the k smallest of `all`. */
  ghost predicate Smallest(kept: multiset<nat>, all: multiset<nat>, k: nat) {
    && kept <= all && |kept| == (if |all| <= k then |all| else k)
    && forall x, y :: x in kept && y in all - kept ==> x <= y
  }

  ghost predicate SortedUp(s: seq<nat>) { forall i, j :: 0 <= i < j < |s| ==> s[i] <= s[j] }

  /** The library sort. */
  method Sort(s: seq<nat>) returns (r: seq<nat>)
    ensures SortedUp(r) && multiset(r) == multiset(s) && |r| == |s|
  {
    r := [];
    for i := 0 to |s|
      invariant SortedUp(r) && multiset(r) == multiset(s[..i])
    {
      var at := 0;
      while at < |r| && r[at] <= s[i]
        invariant at <= |r| && forall j :: 0 <= j < at ==> r[j] <= s[i]
      {
        at := at + 1;
      }
      assert s[..i + 1] == s[..i] + [s[i]];
      Inserted(r, at, s[i]);
      r := r[..at] + [s[i]] + r[at..];
    }
    assert s[..|s|] == s;
    assert |multiset(r)| == |r|;
  }

  lemma Inserted(r: seq<nat>, at: nat, x: nat)
    requires SortedUp(r) && at <= |r| && (forall j :: 0 <= j < at ==> r[j] <= x) && (at < |r| ==> r[at] > x)
    ensures SortedUp(r[..at] + [x] + r[at..])
    ensures multiset(r[..at] + [x] + r[at..]) == multiset(r) + multiset{x}
  {
    hide SortedUp;
    assert r == r[..at] + r[at..];
    InsertedInOrder(r, at, x);
  }

  lemma InsertedInOrder(r: seq<nat>, at: nat, x: nat)
    requires SortedUp(r) && at <= |r| && (forall j :: 0 <= j < at ==> r[j] <= x) && (at < |r| ==> r[at] > x)
    ensures SortedUp(r[..at] + [x] + r[at..])
  {
    var n := r[..at] + [x] + r[at..];
    forall j | 0 <= j < |n| ensures n[j] == if j < at then r[j] else if j == at then x else r[j - 1] {}
  }

  /** No threshold yet: larger than any distance of the harness. */
  const NO_THETA: nat := 0x4000_0000

  /** The k best distances so far; the array is sorted once it is full. */
  class Best {
    const k: nat
    var topk: seq<nat>
    var theta: nat

    ghost predicate Valid()
      reads this
    {
      && 0 < k && |topk| <= k
      && (|topk| < k ==> theta == NO_THETA)
      && (|topk| == k ==> SortedUp(topk) && theta == topk[k - 1])
    }

    constructor (k: nat)
      requires 0 < k
      ensures Valid() && this.k == k && topk == []
    {
      this.k, topk, theta := k, [], NO_THETA;
    }

    method Push(d: nat, ghost all: multiset<nat>)
      requires Valid() && Smallest(multiset(topk), all, k)
      modifies this
      ensures Valid() && Smallest(multiset(topk), all + multiset{d}, k)
    {
      hide Smallest;
      if |topk| < k {
        Room(multiset(topk), all, k, d);
        topk := topk + [d];
        if |topk| == k {
          topk := Sort(topk);
          theta := topk[k - 1];
        }
      } else if d < theta {
        var worst := topk[k - 1];
        assert topk == topk[..k - 1] + [worst];
        Replace(topk, all, k, d);
        topk := Sort(topk[..k - 1] + [d]);
        theta := topk[k - 1];
      } else {
        NoBetter(topk, all, k, d);
      }
    }
  }

  lemma Room(kept: multiset<nat>, all: multiset<nat>, k: nat, d: nat)
    requires Smallest(kept, all, k) && |kept| < k
    ensures Smallest(kept + multiset{d}, all + multiset{d}, k)
  {
    assert |all - kept| == |all| - |kept|;
    assert all == kept;
  }

  lemma WorstIsLast(topk: seq<nat>, x: nat)
    requires SortedUp(topk) && x in multiset(topk)
    ensures |topk| > 0 && x <= topk[|topk| - 1]
  {
    var i :| 0 <= i < |topk| && topk[i] == x;
  }

  lemma Replace(topk: seq<nat>, all: multiset<nat>, k: nat, d: nat)
    requires 0 < k == |topk| && SortedUp(topk) && Smallest(multiset(topk), all, k) && d < topk[k - 1]
    ensures Smallest(multiset(topk[..k - 1] + [d]), all + multiset{d}, k)
  {
    hide Smallest, SortedUp;
    var worst, kept := topk[k - 1], multiset(topk);
    assert topk == topk[..k - 1] + [worst];
    assert multiset(topk[..k - 1] + [d]) == kept - multiset{worst} + multiset{d};
    forall x | x in kept ensures x <= worst { WorstIsLast(topk, x); }
    assert worst in kept && |kept| == k;
    ReplaceWorst(kept, all, k, worst, d);
  }

  lemma ReplaceWorst(kept: multiset<nat>, all: multiset<nat>, k: nat, worst: nat, d: nat)
    requires Smallest(kept, all, k) && |kept| == k && worst in kept && d < worst
    requires forall x | x in kept :: x <= worst
    ensures Smallest(kept - multiset{worst} + multiset{d}, all + multiset{d}, k)
  {
    var kept', all' := kept - multiset{worst} + multiset{d}, all + multiset{d};
    assert all' - kept' == all - kept + multiset{worst};
  }

  lemma NoBetter(topk: seq<nat>, all: multiset<nat>, k: nat, d: nat)
    requires 0 < k == |topk| && SortedUp(topk) && Smallest(multiset(topk), all, k) && d >= topk[k - 1]
    ensures Smallest(multiset(topk), all + multiset{d}, k)
  {
    var kept := multiset(topk);
    assert all + multiset{d} - kept == all - kept + multiset{d};
    forall x, y | x in kept && y in all + multiset{d} - kept ensures x <= y { WorstIsLast(topk, x); }
  }

  // ---------------------------------------------------------------------------
  // The page scan
  // ---------------------------------------------------------------------------

  datatype Page = Page(terms: seq<seq<Character>>, st: Stats)

  /** The distances of a page's terms. */
  ghost function Distances(p: seq<Character>, terms: seq<seq<Character>>): multiset<nat> {
    if terms == [] then multiset{}
    else Distances(p, terms[..|terms| - 1]) + multiset{Lev(p, terms[|terms| - 1])}
  }

  ghost function AllDistances(p: seq<Character>, pages: seq<Page>): multiset<nat> {
    if pages == [] then multiset{}
    else AllDistances(p, pages[..|pages| - 1]) + Distances(p, pages[|pages| - 1].terms)
  }

  /** The page's statistics are folded from its own terms. */
  ghost predicate PageOk(page: Page, p: seq<Character>, enc: Encoding) {
    && Summarizes(page.st, Measures(page.terms, enc))
    && forall j :: 0 <= j < |page.terms| ==>
         WellEncoded(page.terms[j], enc.maxcharlen) && |p| + |page.terms[j]| <= NO_THETA
  }

  lemma {:induction false} LevAtMost<T(!new)>(a: seq<T>, b: seq<T>)
    ensures Lev(a, b) <= |a| + |b|
    decreases |a| + |b|
  {
    if a != [] && b != [] { LevAtMost(a[..|a| - 1], b); }
  }

  /** Every distance of a page is at least its bound. */
  lemma {:induction false} NoneBelowBound(p: seq<Character>, terms: seq<seq<Character>>, lower: nat)
    requires forall j :: 0 <= j < |terms| ==> lower <= Lev(p, terms[j])
    ensures forall d :: d in Distances(p, terms) ==> lower <= d
    decreases |terms|
  {
    hide Lev;
    if terms != [] { NoneBelowBound(p, terms[..|terms| - 1], lower); }
  }

  /** A full selection is not changed by distances above its largest. */
  lemma SkipKeeps(kept: multiset<nat>, all: multiset<nat>, more: multiset<nat>, k: nat, theta: nat)
    requires Smallest(kept, all, k) && |kept| == k
    requires (forall x :: x in kept ==> x <= theta) && forall d :: d in more ==> theta <= d
    ensures Smallest(kept, all + more, k)
  {
    assert all + more - kept == all - kept + more;
  }

  method ScorePage(best: Best, p: seq<Character>, terms: seq<seq<Character>>, ghost all: multiset<nat>)
    requires best.Valid() && Smallest(multiset(best.topk), all, best.k)
    modifies best
    ensures best.Valid() && Smallest(multiset(best.topk), all + Distances(p, terms), best.k)
  {
    hide Smallest, Lev;
    assert all + multiset{} == all;
    for q := 0 to |terms|
      invariant best.Valid() && Smallest(multiset(best.topk), all + Distances(p, terms[..q]), best.k)
    {
      assert terms[..q + 1][..q] == terms[..q];
      var d := TwoRows(p, terms[q]);
      assert all + Distances(p, terms[..q]) + multiset{d} == all + Distances(p, terms[..q + 1]);
      best.Push(d, all + Distances(p, terms[..q]));
    }
    assert terms[..|terms|] == terms;
  }

  /** The k-th smallest of the distances so far, or the initial value. */
  ghost predicate IsTheta(t: nat, all: multiset<nat>, k: nat) {
    exists kept: multiset<nat> :: Smallest(kept, all, k) && IsWorst(t, kept, k)
  }

  ghost predicate IsWorst(t: nat, kept: multiset<nat>, k: nat) {
    if |kept| < k then t == NO_THETA else t in kept && forall x :: x in kept ==> x <= t
  }

  /** `thetas` are the thresholds before each of the first `n` pages. */
  ghost predicate Noted(p: seq<Character>, pages: seq<Page>, thetas: seq<nat>, k: nat, n: nat)
    requires n <= |pages|
  {
    |thetas| == n && forall i :: 0 <= i < n ==> IsTheta(thetas[i], AllDistances(p, pages[..i]), k)
  }

  /** There is one such threshold. */
  lemma ThetaIsUnique(t: nat, u: nat, all: multiset<nat>, k: nat)
    requires 0 < k && IsTheta(t, all, k) && IsTheta(u, all, k)
    ensures t == u
  {
    var a :| Smallest(a, all, k) && IsWorst(t, a, k);
    var b :| Smallest(b, all, k) && IsWorst(u, b, k);
    if |a| == k && t != u {
      if t < u { OneWorst(a, b, all, k, t, u); } else { OneWorst(b, a, all, k, u, t); }
    }
  }

  lemma OneWorst(a: multiset<nat>, b: multiset<nat>, all: multiset<nat>, k: nat, t: nat, u: nat)
    requires Smallest(a, all, k) && Smallest(b, all, k) && |a| == |b| == k && IsWorst(t, a, k) && IsWorst(u, b, k)
    requires 0 < k
    ensures t >= u
  {
    if u !in a {
      assert u in b - a;
      assert b == (b * a) + (b - a) && a == (a * b) + (a - b) && a * b == b * a;
      var x :| x in a - b;
      assert x in a && x in all - b && u <= x;
    }
  }

  /** How many of the first `n` pages have a bound above the threshold before them. */
  function CountAbove(pat: Pattern, pages: seq<Page>, thetas: seq<nat>, n: nat): nat
    requires n <= |pages| && n <= |thetas| && pat.trgdiv >= TRGDIV_ASCII
  {
    if n == 0 then 0
    else CountAbove(pat, pages, thetas, n - 1) + if Lower(pat, pages[n - 1].st) > thetas[n - 1] then 1 else 0
  }

  /** Skip a page whose bound is above the running threshold; what is kept is
      still the k smallest distances of the whole vocabulary. */
  method RunQuery(p: seq<Character>, pages: seq<Page>, k: nat, enc: Encoding)
    returns (topk: seq<nat>, pruned: nat, ghost thetas: seq<nat>)
    requires 0 < k && 1 <= enc.maxcharlen < UINT32 - 2 && WellEncoded(p, enc.maxcharlen)
    requires forall i :: 0 <= i < |pages| ==> PageOk(pages[i], p, enc)
    ensures Smallest(multiset(topk), AllDistances(p, pages), k) && (|topk| == k ==> SortedUp(topk))
    ensures Noted(p, pages, thetas, k, |pages|)
    ensures PatternOf(p, enc).trgdiv >= TRGDIV_ASCII
    ensures |thetas| == |pages| && pruned == CountAbove(PatternOf(p, enc), pages, thetas, |pages|)
  {
    hide Smallest, Lev, PageOk, Lower, PatternOf, WellEncoded, IsTheta, Noted, CountAbove;
    PatternDivisor(p, enc);
    var pv := PatternOf(p, enc);
    var best := new Best(k);
    NothingKept(k);
    pruned, thetas := 0, [];
    NothingNoted(p, pv, pages, k);
    for i := 0 to |pages|
      invariant best.Valid() && best.k == k
      invariant Noted(p, pages, thetas, k, i)
      invariant |thetas| == i && pruned == CountAbove(pv, pages, thetas, i)
      invariant Smallest(multiset(best.topk), AllDistances(p, pages[..i]), k)
    {
      assert pages[..i + 1][..i] == pages[..i];
      ghost var all := AllDistances(p, pages[..i]);
      BestTheta(best, all);
      NotedStep(p, pv, pages, thetas, k, i, best.theta);
      thetas := thetas + [best.theta];
      var lower := Lower(pv, pages[i].st);
      if lower > best.theta {
        PageIsAbove(pages[i], p, enc, best, all);
        pruned := pruned + 1;
      } else {
        ScorePage(best, p, pages[i].terms, all);
      }
    }
    assert pages[..|pages|] == pages;
    topk := best.topk;
  }

  lemma NothingNoted(p: seq<Character>, pat: Pattern, pages: seq<Page>, k: nat)
    requires pat.trgdiv >= TRGDIV_ASCII
    ensures Noted(p, pages, [], k, 0) && CountAbove(pat, pages, [], 0) == 0
  {
  }

  lemma NotedStep(p: seq<Character>, pat: Pattern, pages: seq<Page>, thetas: seq<nat>, k: nat, i: nat, theta: nat)
    requires i < |pages| && Noted(p, pages, thetas, k, i) && IsTheta(theta, AllDistances(p, pages[..i]), k)
    requires pat.trgdiv >= TRGDIV_ASCII
    ensures |thetas| == i && Noted(p, pages, thetas + [theta], k, i + 1)
    ensures CountAbove(pat, pages, thetas + [theta], i + 1)
         == CountAbove(pat, pages, thetas, i) + if Lower(pat, pages[i].st) > theta then 1 else 0
  {
    hide IsTheta, AllDistances, Lower;
    SameCount(pat, pages, thetas, thetas + [theta], i);
  }

  lemma BestTheta(best: Best, all: multiset<nat>)
    requires best.Valid() && Smallest(multiset(best.topk), all, best.k)
    ensures IsTheta(best.theta, all, best.k)
  {
    hide Smallest;
    forall x | x in multiset(best.topk) ensures |best.topk| == best.k ==> x <= best.theta {
      if |best.topk| == best.k { WorstIsLast(best.topk, x); }
    }
    assert IsWorst(best.theta, multiset(best.topk), best.k);
  }

  lemma {:induction false} SameCount(pat: Pattern, pages: seq<Page>, a: seq<nat>, b: seq<nat>, n: nat)
    requires n <= |pages| && n <= |a| <= |b| && a <= b && pat.trgdiv >= TRGDIV_ASCII
    ensures CountAbove(pat, pages, a, n) == CountAbove(pat, pages, b, n)
    decreases n
  {
    if n > 0 { SameCount(pat, pages, a, b, n - 1); }
  }

  lemma NothingKept(k: nat)
    ensures Smallest(multiset([]), multiset{}, k)
  {
  }

  lemma PatternDivisor(p: seq<Character>, enc: Encoding)
    ensures PatternOf(p, enc).trgdiv >= TRGDIV_ASCII
  {
  }

  lemma PageIsAbove(page: Page, p: seq<Character>, enc: Encoding, best: Best, all: multiset<nat>)
    requires 1 <= enc.maxcharlen < UINT32 - 2 && WellEncoded(p, enc.maxcharlen) && PageOk(page, p, enc)
    requires best.Valid() && Smallest(multiset(best.topk), all, best.k)
    requires PatternOf(p, enc).trgdiv >= TRGDIV_ASCII && Lower(PatternOf(p, enc), page.st) > best.theta
    ensures Smallest(multiset(best.topk), all + Distances(p, page.terms), best.k)
  {
    hide Smallest, Lev, Lower, PatternOf, WellEncoded, Distances;
    var lower := Lower(PatternOf(p, enc), page.st);
    forall j | 0 <= j < |page.terms| ensures lower <= Lev(p, page.terms[j]) <= NO_THETA {
      BoundIsSound(p, page.terms, page.st, enc, j);
      LevAtMost(p, page.terms[j]);
    }
    NoneBelowBound(p, page.terms, lower);
    SomeTerm(p, page.terms, lower);
    if |best.topk| < best.k {
      NoDistances(p, page.terms);
      assert all + Distances(p, page.terms) == all;
    } else {
      forall x | x in multiset(best.topk) ensures x <= best.theta { WorstIsLast(best.topk, x); }
      SkipKeeps(multiset(best.topk), all, Distances(p, page.terms), best.k, best.theta);
    }
  }

  /** A bound above every possible distance belongs to a page without terms. */
  lemma SomeTerm(p: seq<Character>, terms: seq<seq<Character>>, lower: nat)
    requires forall j :: 0 <= j < |terms| ==> lower <= Lev(p, terms[j]) <= NO_THETA
    ensures |terms| > 0 ==> lower <= NO_THETA
  {
    if |terms| > 0 { assert lower <= Lev(p, terms[0]); }
  }

  lemma NoDistances(p: seq<Character>, terms: seq<seq<Character>>)
    requires |terms| == 0
    ensures Distances(p, terms) == multiset{}
  {
  }
}
