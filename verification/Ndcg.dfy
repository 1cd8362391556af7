/** Graded nDCG at k (bench/ndcg.py): the discounted gain of a ranking over the
    discounted gain of the ideal ranking of the same judgments.
  */
module Ndcg {
  import opened Basics

  type Doc = string

  /** Positive, and never growing with the rank: 1 / log2(i + 2) is one. */
  ghost predicate IsDiscount(w: nat -> real) {
    (forall i: nat :: w(i) > 0.0) && forall i: nat, j: nat :: i <= j ==> w(j) <= w(i)
  }

  /** What a retrieved document adds: its relevance, and nothing if it is not
      positive or was not judged. */
  function Gain(judgments: map<Doc, int>, d: Doc): (g: real)
    ensures g >= 0.0
  {
    if d in judgments && judgments[d] > 0 then judgments[d] as real else 0.0
  }

  function Clip(rel: int): (g: real)
    ensures g >= 0.0
  {
    if rel > 0 then rel as real else 0.0
  }

  // ---------------------------------------------------------------------------
  // Sums
  // ---------------------------------------------------------------------------

  /** The gain at rank `i`, nothing past the end. */
  function GainAt(g: seq<real>, i: nat): real { if i < |g| then g[i] else 0.0 }

  function Total(g: seq<real>, n: nat): real {
    if n == 0 then 0.0 else Total(g, n - 1) + GainAt(g, n - 1)
  }

  function Discounted(g: seq<real>, w: nat -> real, n: nat): real {
    if n == 0 then 0.0 else Discounted(g, w, n - 1) + Times(GainAt(g, n - 1), w(n - 1))
  }

  lemma TimesOrder(x: real, y: real, v: real, w: real)
    requires x <= y && 0.0 < w <= v
    ensures Times(y - x, w) >= 0.0 && Times(y - x, v) >= Times(y - x, w)
  {
    assert (y - x) * (v - w) >= 0.0;
  }

  lemma TimesDistributes(a: real, b: real, c: real, d: real, w: real)
    ensures Times(b - a, w) + (Times(d, w) - Times(c, w)) == Times((b + d) - (a + c), w)
  {
  }

  /** If every prefix of `b` totals at least as much as that of `a`, a decreasing
      discount keeps the order. */
  lemma {:induction false} Rearrangement(a: seq<real>, b: seq<real>, w: nat -> real, n: nat)
    requires IsDiscount(w) && forall j: nat :: j <= n ==> Total(a, j) <= Total(b, j)
    ensures n > 0 ==> Discounted(b, w, n) - Discounted(a, w, n) >= Times(Total(b, n) - Total(a, n), w(n - 1))
    ensures Discounted(a, w, n) <= Discounted(b, w, n)
    decreases n
  {
    hide Times;
    if n > 0 {
      Rearrangement(a, b, w, n - 1);
      var i := n - 1;
      TimesDistributes(Total(a, i), Total(b, i), GainAt(a, i), GainAt(b, i), w(i));
      if n > 1 {
        TimesOrder(Total(a, i), Total(b, i), w(i - 1), w(i));
      } else {
        TimesNothing(w(i));
      }
      TimesOrder(Total(a, n), Total(b, n), w(i), w(i));
    }
  }

  lemma TimesNothing(w: real)
    ensures Times(0.0 - 0.0, w) == 0.0
  {
  }

  lemma {:induction false} DiscountedNonNegative(g: seq<real>, w: nat -> real, n: nat)
    requires IsDiscount(w) && forall i :: 0 <= i < |g| ==> g[i] >= 0.0
    ensures Discounted(g, w, n) >= 0.0
    ensures (exists i :: 0 <= i < n && GainAt(g, i) > 0.0) ==> Discounted(g, w, n) > 0.0
    decreases n
  {
    if n > 0 {
      DiscountedNonNegative(g, w, n - 1);
      assert Times(GainAt(g, n - 1), w(n - 1)) >= 0.0;
    }
  }

  lemma {:induction false} NoGain(g: seq<real>, w: nat -> real, n: nat)
    requires forall i :: 0 <= i < |g| ==> g[i] == 0.0
    ensures Discounted(g, w, n) == 0.0
    decreases n
  {
    if n > 0 { NoGain(g, w, n - 1); }
  }

  // ---------------------------------------------------------------------------
  // The ideal ranking has the largest prefixes
  // ---------------------------------------------------------------------------

  /** The gains of a ranking, rank by rank. */
  function Gains(judgments: map<Doc, int>, docs: seq<Doc>): (g: seq<real>)
    ensures |g| == |docs|
  {
    seq(|docs|, i requires 0 <= i < |docs| => Gain(judgments, docs[i]))
  }

  function Sum(judgments: map<Doc, int>, docs: seq<Doc>): real {
    if docs == [] then 0.0 else Gain(judgments, docs[0]) + Sum(judgments, docs[1..])
  }

  ghost predicate ByGain(judgments: map<Doc, int>, docs: seq<Doc>) {
    forall i, j :: 0 <= i < j < |docs| ==> Gain(judgments, docs[i]) >= Gain(judgments, docs[j])
  }

  lemma {:induction false} SumWithout(judgments: map<Doc, int>, docs: seq<Doc>, i: nat)
    requires i < |docs|
    ensures Sum(judgments, docs) == Gain(judgments, docs[i]) + Sum(judgments, docs[..i] + docs[i + 1..])
    decreases i
  {
    if i == 0 {
      assert docs[..0] + docs[1..] == docs[1..];
    } else {
      SumWithout(judgments, docs[1..], i - 1);
      assert docs[1..][..i - 1] + docs[1..][i..] == (docs[..i] + docs[i + 1..])[1..];
    }
  }

  /** No choice of distinct documents gains more than as many of the best. */
  lemma {:induction false} BestSum(judgments: map<Doc, int>, best: seq<Doc>, docs: seq<Doc>)
    requires ByGain(judgments, best) && Distinct(docs)
    requires forall i :: 0 <= i < |docs| ==> docs[i] in best || Gain(judgments, docs[i]) == 0.0
    ensures Sum(judgments, docs) <= Sum(judgments, best[..if |docs| <= |best| then |docs| else |best|])
    decreases |best|
  {
    if docs == [] {
      assert best[..0] == [];
    } else if best == [] {
      NothingGained(judgments, docs);
    } else {
      hide Gain, Distinct;
      var i := PickOne(judgments, best, docs);
      SumWithout(judgments, docs, i);
      Without(docs, i);
      BestSum(judgments, best[1..], docs[..i] + docs[i + 1..]);
      var n := if |docs| <= |best| then |docs| else |best|;
      assert best[..n][1..] == best[1..][..n - 1];
    }
  }

  /** A document to trade for the best one: the best one itself if it is there. */
  lemma PickOne(judgments: map<Doc, int>, best: seq<Doc>, docs: seq<Doc>) returns (i: nat)
    requires ByGain(judgments, best) && Distinct(docs) && docs != [] && best != []
    requires forall j :: 0 <= j < |docs| ==> docs[j] in best || Gain(judgments, docs[j]) == 0.0
    ensures i < |docs| && Gain(judgments, docs[i]) <= Gain(judgments, best[0])
    ensures ByGain(judgments, best[1..])
    ensures var rest := docs[..i] + docs[i + 1..];
            forall j :: 0 <= j < |rest| ==> rest[j] in best[1..] || Gain(judgments, rest[j]) == 0.0
  {
    hide Gain, Distinct;
    var m := best[0];
    i :| 0 <= i < |docs| && (m in docs ==> docs[i] == m);
    Without(docs, i);
    FirstIsBest(judgments, best, docs[i]);
    var rest := docs[..i] + docs[i + 1..];
    forall j | 0 <= j < |rest| ensures rest[j] in best[1..] || Gain(judgments, rest[j]) == 0.0 {
      assert rest[j] in rest && rest[j] in docs;
      if rest[j] in best { assert best == [m] + best[1..]; }
    }
  }

  lemma FirstIsBest(judgments: map<Doc, int>, best: seq<Doc>, d: Doc)
    requires ByGain(judgments, best) && best != [] && (d in best || Gain(judgments, d) == 0.0)
    ensures Gain(judgments, d) <= Gain(judgments, best[0])
  {
    if d in best {
      var j :| 0 <= j < |best| && best[j] == d;
    }
  }

  lemma Without(docs: seq<Doc>, i: nat)
    requires Distinct(docs) && i < |docs|
    ensures var rest := docs[..i] + docs[i + 1..];
            Distinct(rest) && docs[i] !in rest && forall x | x in rest :: x in docs
  {
    var rest := docs[..i] + docs[i + 1..];
    forall j | 0 <= j < |rest| ensures rest[j] == docs[if j < i then j else j + 1] {}
  }

  lemma {:induction false} NothingGained(judgments: map<Doc, int>, docs: seq<Doc>)
    requires forall i :: 0 <= i < |docs| ==> Gain(judgments, docs[i]) == 0.0
    ensures Sum(judgments, docs) == 0.0
    decreases |docs|
  {
    if docs != [] { NothingGained(judgments, docs[1..]); }
  }

  lemma {:induction false} SumSnoc(judgments: map<Doc, int>, docs: seq<Doc>, d: Doc)
    ensures Sum(judgments, docs + [d]) == Sum(judgments, docs) + Gain(judgments, d)
    decreases |docs|
  {
    if docs == [] {
      assert (docs + [d])[1..] == [];
    } else {
      assert (docs + [d])[1..] == docs[1..] + [d];
      SumSnoc(judgments, docs[1..], d);
    }
  }

  lemma {:induction false} TotalIsSum(judgments: map<Doc, int>, docs: seq<Doc>, n: nat)
    ensures Total(Gains(judgments, docs), n) == Sum(judgments, docs[..if n <= |docs| then n else |docs|])
    decreases n
  {
    if n > 0 {
      TotalIsSum(judgments, docs, n - 1);
      if n <= |docs| {
        assert docs[..n] == docs[..n - 1] + [docs[n - 1]];
        SumSnoc(judgments, docs[..n - 1], docs[n - 1]);
      }
    }
  }

  // ---------------------------------------------------------------------------
  // The run file and the metric
  // ---------------------------------------------------------------------------

  lemma {:induction false} SetSize<T>(s: seq<T>)
    ensures |set x | x in s| <= |s|
    ensures |set x | x in s| == |s| <==> Distinct(s)
    decreases |s|
  {
    if s != [] {
      var t, x := s[..|s| - 1], s[|s| - 1];
      SetSize(t);
      assert s == t + [x];
      assert (set y | y in s) == (set y | y in t) + {x};
    }
  }

  /** Accept one query's ranking only if no rank and no document repeats. */
  method AcceptRun(ranks: seq<int>, docs: seq<Doc>) returns (ok: bool)
    requires |ranks| == |docs|
    ensures ok <==> Distinct(ranks) && Distinct(docs)
  {
    var ranksSeen, docsSeen := set r | r in ranks, set d | d in docs;
    SetSize(ranks);
    SetSize(docs);
    if |ranksSeen| != |ranks| { return false; }
    if |docsSeen| != |docs| { return false; }
    return true;
  }

  /** The judged documents in an order of descending relevance. */
  ghost predicate IdealOrder(judgments: map<Doc, int>, docs: seq<Doc>) {
    && (forall d :: d in docs <==> d in judgments) && Distinct(docs)
    && forall i, j :: 0 <= i < j < |docs| ==> judgments[docs[i]] >= judgments[docs[j]]
  }

  /** The relevances, sorted descending. */
  method SortedRelevances(judgments: map<Doc, int>) returns (rels: seq<int>, ghost docs: seq<Doc>)
    ensures IdealOrder(judgments, docs)
    ensures |rels| == |docs| && forall i :: 0 <= i < |rels| ==> rels[i] == judgments[docs[i]]
  {
    var left := judgments.Keys;
    rels, docs := [], [];
    while left != {}
      invariant left <= judgments.Keys && |rels| == |docs| && Distinct(docs)
      invariant forall d :: d in docs <==> d in judgments && d !in left
      invariant forall i :: 0 <= i < |rels| ==> rels[i] == judgments[docs[i]]
      invariant forall i, j :: 0 <= i < j < |rels| ==> rels[i] >= rels[j]
      decreases |left|
    {
      var d :| d in left;
      var i := Place(rels, judgments[d]);
      InsertedDistinct(docs, i, d);
      rels := rels[..i] + [judgments[d]] + rels[i..];
      docs := docs[..i] + [d] + docs[i..];
      left := left - {d};
    }
  }

  lemma InsertedDistinct(docs: seq<Doc>, i: nat, d: Doc)
    requires Distinct(docs) && d !in docs && i <= |docs|
    ensures var r := docs[..i] + [d] + docs[i..];
            Distinct(r) && forall x :: x in r <==> x in docs || x == d
  {
    var r := docs[..i] + [d] + docs[i..];
    forall j | 0 <= j < |r| ensures r[j] == if j < i then docs[j] else if j == i then d else docs[j - 1] {}
    forall x | x in docs ensures x in r {
      var j :| 0 <= j < |docs| && docs[j] == x;
      assert r[if j < i then j else j + 1] == x;
    }
  }

  method Place(rels: seq<int>, rel: int) returns (i: nat)
    requires forall a, b :: 0 <= a < b < |rels| ==> rels[a] >= rels[b]
    ensures i <= |rels| && (forall j :: 0 <= j < i ==> rels[j] >= rel) && forall j :: i <= j < |rels| ==> rels[j] < rel
  {
    i := 0;
    while i < |rels| && rels[i] >= rel
      invariant i <= |rels| && forall j :: 0 <= j < i ==> rels[j] >= rel
    {
      i := i + 1;
    }
  }

  /** Gains of sorted relevances, clipped at zero. */
  function Clipped(rels: seq<int>): (g: seq<real>)
    ensures |g| == |rels|
  {
    seq(|rels|, i requires 0 <= i < |rels| => Clip(rels[i]))
  }

  datatype Outcome = Died | Value(v: real)

  /** The discounted gain of the first k of a ranking. */
  method Dcg(docs: seq<Doc>, judgments: map<Doc, int>, k: nat, w: nat -> real) returns (dcg: real)
    ensures dcg == Discounted(Gains(judgments, docs), w, Min(k, |docs|))
  {
    hide Times;
    dcg := 0.0;
    for i := 0 to Min(k, |docs|)
      invariant dcg == Discounted(Gains(judgments, docs), w, i)
    {
      var rel := if docs[i] in judgments then judgments[docs[i]] else 0;
      if rel > 0 {
        dcg := dcg + Times(rel as real, w(i));
      } else {
        NoTerm(w(i));
      }
    }
  }

  method Idcg(rels: seq<int>, k: nat, w: nat -> real) returns (idcg: real)
    ensures idcg == Discounted(Clipped(rels), w, Min(k, |rels|))
  {
    hide Times;
    idcg := 0.0;
    for i := 0 to Min(k, |rels|)
      invariant idcg == Discounted(Clipped(rels), w, i)
    {
      if rels[i] > 0 {
        idcg := idcg + Times(rels[i] as real, w(i));
      } else {
        NoTerm(w(i));
      }
    }
  }

  lemma NoTerm(w: real)
    ensures Times(0.0, w) == 0.0
  {
  }

  /** Past the end there is nothing to add. */
  lemma {:induction false} DiscountedPastEnd(g: seq<real>, w: nat -> real, k: nat)
    ensures Discounted(g, w, k) == Discounted(g, w, Min(k, |g|))
    decreases k
  {
    if k > |g| {
      DiscountedPastEnd(g, w, k - 1);
      NoTerm(w(k - 1));
    }
  }

  /** The ideal order gains at least as much as any ranking of distinct documents. */
  lemma IdealIsBest(judgments: map<Doc, int>, ideal: seq<Doc>, docs: seq<Doc>, w: nat -> real, k: nat)
    requires IsDiscount(w) && IdealOrder(judgments, ideal) && Distinct(docs)
    ensures Discounted(Gains(judgments, docs), w, k) <= Discounted(Gains(judgments, ideal), w, k)
  {
    hide Discounted, Total, Sum;
    forall j: nat ensures Total(Gains(judgments, docs), j) <= Total(Gains(judgments, ideal), j) {
      TotalIsSum(judgments, docs, j);
      TotalIsSum(judgments, ideal, j);
      var n, m := Min(j, |docs|), Min(j, |ideal|);
      BestSum(judgments, ideal, docs[..n]);
      MorePlaces(judgments, ideal, Min(n, |ideal|), m);
    }
    Rearrangement(Gains(judgments, docs), Gains(judgments, ideal), w, k);
  }

  lemma {:induction false} MorePlaces(judgments: map<Doc, int>, docs: seq<Doc>, n: nat, m: nat)
    requires n <= m <= |docs|
    ensures Sum(judgments, docs[..n]) <= Sum(judgments, docs[..m])
    decreases m
  {
    if n < m {
      MorePlaces(judgments, docs, n, m - 1);
      assert docs[..m] == docs[..m - 1] + [docs[m - 1]];
      SumSnoc(judgments, docs[..m - 1], docs[m - 1]);
    }
  }

  /** nDCG at k: within [0, 1], 1 for an ideal ranking, refused when there is
      nothing positive to gain. */
  method NdcgAtK(ranked: seq<Doc>, judgments: map<Doc, int>, k: nat, w: nat -> real) returns (r: Outcome)
    requires IsDiscount(w)
    ensures r.Died? <==> k == 0 || forall d | d in judgments :: judgments[d] <= 0
    ensures r.Value? ==> 0.0 <= r.v
    ensures r.Value? && Distinct(ranked) ==> r.v <= 1.0
    ensures r.Value? && IdealOrder(judgments, ranked) ==> r.v == 1.0
    ensures r.Value? ==> forall ideal | IdealOrder(judgments, ideal) ::
              && Discounted(Gains(judgments, ideal), w, k) > 0.0
              && r.v == Discounted(Gains(judgments, ranked), w, k) / Discounted(Gains(judgments, ideal), w, k)
  {
    hide Discounted, IsDiscount;
    var dcg := Dcg(ranked, judgments, k, w);
    var rels, ideal := SortedRelevances(judgments);
    var idcg := Idcg(rels, k, w);
    assert Clipped(rels) == Gains(judgments, ideal);
    DiscountedPastEnd(Gains(judgments, ranked), w, k);
    DiscountedPastEnd(Clipped(rels), w, k);
    SomethingToGain(judgments, rels, ideal, k, w);
    if idcg == 0.0 { return Died; }
    DiscountedNonNegative(Gains(judgments, ranked), w, k);
    DiscountedNonNegative(Clipped(rels), w, k);
    if Distinct(ranked) { IdealIsBest(judgments, ideal, ranked, w, k); }
    if IdealOrder(judgments, ranked) { IdealIsBest(judgments, ranked, ideal, w, k); }
    Ratio(dcg, idcg);
    forall other | IdealOrder(judgments, other) ensures Discounted(Gains(judgments, other), w, k) == idcg {
      IdealIsBest(judgments, other, ideal, w, k);
      IdealIsBest(judgments, ideal, other, w, k);
    }
    r := Value(dcg / idcg);
  }

  lemma SomethingToGain(judgments: map<Doc, int>, rels: seq<int>, docs: seq<Doc>, k: nat, w: nat -> real)
    requires IsDiscount(w) && IdealOrder(judgments, docs) && |rels| == |docs|
    requires forall i :: 0 <= i < |rels| ==> rels[i] == judgments[docs[i]]
    ensures Discounted(Clipped(rels), w, k) == 0.0 <==> k == 0 || forall d | d in judgments :: judgments[d] <= 0
  {
    hide IsDiscount;
    if forall d | d in judgments :: judgments[d] <= 0 {
      forall i | 0 <= i < |rels| ensures Clipped(rels)[i] == 0.0 { assert docs[i] in docs; }
      NoGain(Clipped(rels), w, k);
    } else {
      var d :| d in judgments && judgments[d] > 0;
      assert d in docs;
      var i :| 0 <= i < |docs| && docs[i] == d;
      assert judgments[docs[0]] >= judgments[d] by { if i > 0 { assert judgments[docs[0]] >= judgments[docs[i]]; } }
      DiscountedNonNegative(Clipped(rels), w, k);
      assert GainAt(Clipped(rels), 0) > 0.0;
    }
  }

  lemma Ratio(x: real, y: real)
    requires 0.0 <= x && 0.0 < y
    ensures x / y >= 0.0 && (x <= y ==> x / y <= 1.0) && (x == y ==> x / y == 1.0)
  {
    var q := x / y;
    assert q * y == x;
    if q > 1.0 { assert (q - 1.0) * y > 0.0; }
  }

  // ---------------------------------------------------------------------------
  // Distinctness is needed
  // ---------------------------------------------------------------------------

  /** A ranking's index whose document stands before it too, the first such. */
  lemma {:induction false} FirstRepeat(ranked: seq<Doc>) returns (j: nat)
    requires !Distinct(ranked)
    ensures j < |ranked| && Distinct(ranked[..j]) && ranked[j] in ranked[..j]
    decreases |ranked|
  {
    var front := ranked[..|ranked| - 1];
    if Distinct(front) {
      j := |front|;
      var a, b :| 0 <= a < b < |ranked| && ranked[a] == ranked[b];
      assert front[a] == ranked[a];
    } else {
      j := FirstRepeat(front);
      assert front[..j] == ranked[..j];
    }
  }

  /** One gain at every rank of the list, so `n` ranks are worth `n` discounts. */
  lemma {:induction false} SameGains(a: seq<real>, b: seq<real>, w: nat -> real, n: nat)
    requires forall i: nat :: i < n ==> GainAt(a, i) == GainAt(b, i)
    ensures Discounted(a, w, n) == Discounted(b, w, n)
    decreases n
  {
    if n > 0 { SameGains(a, b, w, n - 1); }
  }

  /** Judge what comes before the first repeat, each document alike: the repeat is
      a gain the ideal order, which has no document left, cannot match. */
  lemma RepeatsExceedIdeal(ranked: seq<Doc>, w: nat -> real)
    returns (judgments: map<Doc, int>, ideal: seq<Doc>, k: nat)
    requires IsDiscount(w) && !Distinct(ranked)
    ensures IdealOrder(judgments, ideal)
    ensures Discounted(Gains(judgments, ranked), w, k) > Discounted(Gains(judgments, ideal), w, k)
  {
    hide Times;
    var j := FirstRepeat(ranked);
    ideal, k := ranked[..j], j + 1;
    judgments := map d | d in ideal :: 1;
    var got, best := Gains(judgments, ranked), Gains(judgments, ideal);
    forall i: nat | i < j ensures GainAt(got, i) == GainAt(best, i) { assert ideal[i] == ranked[i]; }
    SameGains(got, best, w, j);
    assert GainAt(got, j) == 1.0 && GainAt(best, j) == 0.0;
    NoTerm(w(j));
    OneTerm(w(j));
  }

  lemma OneTerm(w: real)
    ensures Times(1.0, w) == w
  {
  }

  /** Under any discount, a ranking stays within the ideal for all judgments and
      every depth iff it names no document twice. */
  lemma WithinIdealIffDistinct(ranked: seq<Doc>, w: nat -> real)
    requires IsDiscount(w)
    ensures Distinct(ranked) <==>
              forall judgments: map<Doc, int>, ideal: seq<Doc>, k: nat :: IdealOrder(judgments, ideal) ==>
                Discounted(Gains(judgments, ranked), w, k) <= Discounted(Gains(judgments, ideal), w, k)
  {
    hide IsDiscount, IdealOrder, Distinct, Discounted, Gains;
    if Distinct(ranked) {
      forall judgments: map<Doc, int>, ideal: seq<Doc>, k: nat | IdealOrder(judgments, ideal)
        ensures Discounted(Gains(judgments, ranked), w, k) <= Discounted(Gains(judgments, ideal), w, k)
      {
        IdealIsBest(judgments, ideal, ranked, w, k);
      }
    } else {
      var judgments, ideal, k := RepeatsExceedIdeal(ranked, w);
    }
  }
}
