/** BM25 contributions and their bounds (include/weave/bm25bound.h:116-235), over
    the reals.
  */
module Bm25Bound {

  datatype Factors = Factors(idf: real, k1: real, b: real, avgdl: real,
                             k1bInvAvgdl: real, k1OneMinusB: real, idfK1p1: real)

  /** weave_bm25_factors_init(): a non-positive average length is taken as 1. */
  function Init(idf: real, k1: real, b: real, avgdl: real): (f: Factors)
    ensures f.avgdl > 0.0
  {
    var len := if avgdl > 0.0 then avgdl else 1.0;
    Factors(idf, k1, b, len, k1 * b / len, k1 * (1.0 - b), idf * (k1 + 1.0))
  }

  /** The parameters BM25 is defined for. */
  predicate Params(idf: real, k1: real, b: real) { idf >= 0.0 && k1 >= 0.0 && 0.0 <= b <= 1.0 }

  /** What the scan's factors satisfy, however they were computed. */
  predicate Usable(f: Factors) { f.idfK1p1 >= 0.0 && f.k1bInvAvgdl >= 0.0 && f.k1OneMinusB >= 0.0 }

  lemma Product(x: real, y: real)
    requires x >= 0.0 && y >= 0.0
    ensures x * y >= 0.0
  {
  }

  lemma Quotient(x: real, y: real)
    requires x >= 0.0 && y > 0.0
    ensures x / y >= 0.0
  {
  }

  lemma InitIsUsable(idf: real, k1: real, b: real, avgdl: real)
    requires Params(idf, k1, b)
    ensures Usable(Init(idf, k1, b, avgdl))
  {
    Product(k1, b);
    Quotient(k1 * b, if avgdl > 0.0 then avgdl else 1.0);
    Product(k1, 1.0 - b);
    Product(idf, k1 + 1.0);
  }

  /** The length's share of the norm. */
  function LengthNorm(f: Factors, doclen: real): real { f.k1bInvAvgdl * doclen }

  /** a * t over the norm t + k + s. */
  function Saturation(a: real, t: real, k: real, s: real): real
    requires t + k + s > 0.0
  {
    a * t / (t + k + s)
  }

  lemma LengthNormOrder(f: Factors, x: real, y: real)
    requires f.k1bInvAvgdl >= 0.0 && 0.0 <= x <= y
    ensures 0.0 <= LengthNorm(f, x) <= LengthNorm(f, y)
  {
    Product(f.k1bInvAvgdl, x);
    Product(f.k1bInvAvgdl, y - x);
    assert f.k1bInvAvgdl * y - f.k1bInvAvgdl * x == f.k1bInvAvgdl * (y - x);
  }

  /** The exact contribution of a posting. */
  function Contrib(f: Factors, tf: real, doclen: real): real
    requires Usable(f) && tf >= 1.0 && doclen >= 0.0
  {
    LengthNormOrder(f, doclen, doclen);
    Saturation(f.idfK1p1, tf, f.k1OneMinusB, LengthNorm(f, doclen))
  }

  /** The bound of a block, from its largest frequency and shortest document. */
  function BlockBound(f: Factors, maxTf: real, minDoclen: real): real
    requires Usable(f) && maxTf >= 1.0 && minDoclen >= 0.0
  {
    Contrib(f, maxTf, minDoclen)
  }

  /** The term-wide ceiling, with the length taken to zero. */
  function TermBound(f: Factors, maxTf: real): real
    requires maxTf >= 1.0 && maxTf + f.k1 * (1.0 - f.b) > 0.0
  {
    f.idf * maxTf * (f.k1 + 1.0) / (maxTf + f.k1 * (1.0 - f.b))
  }

  lemma QuotientOrder(x: real, y: real, m: real, n: real)
    requires m > 0.0 && n > 0.0 && x * n <= y * m
    ensures x / m <= y / n
  {
    var p, q := x / m, y / n;
    assert p * m == x && q * n == y;
    assert p * m * n <= q * n * m;
    var d := p - q;
    assert d * (m * n) <= 0.0;
    if d > 0.0 { Positive(m, n); Positive(d, m * n); }
  }

  lemma Positive(x: real, y: real)
    requires x > 0.0 && y > 0.0
    ensures x * y > 0.0
  {
  }

  lemma CrossOrder(a: real, t: real, t': real, s: real, s': real, k: real)
    requires a >= 0.0 && 0.0 <= t <= t' && 0.0 <= s' <= s && k >= 0.0
    ensures a * t * (t' + k + s') <= a * t' * (t + k + s)
  {
    var c := (t' - t) * k + t' * s - t * s';
    Product(t' - t, k);
    Product(t' - t, s');
    Product(t', s - s');
    assert t' * s - t * s' == t' * (s - s') + (t' - t) * s';
    assert c >= 0.0;
    Product(a, c);
    assert a * t' * (t + k + s) - a * t * (t' + k + s') == a * c;
  }

  lemma SaturationOrder(a: real, t: real, t': real, s: real, s': real, k: real)
    requires a >= 0.0 && 0.0 < t <= t' && 0.0 <= s' <= s && k >= 0.0
    ensures 0.0 <= Saturation(a, t, k, s) <= Saturation(a, t', k, s')
  {
    var x, y, m, n := a * t, a * t', t + k + s, t' + k + s';
    assert x >= 0.0 && x * n <= y * m by {
      CrossOrder(a, t, t', s, s', k);
      Product(a, t);
    }
    assert Saturation(a, t, k, s) == x / m && Saturation(a, t', k, s') == y / n;
    hide Saturation;
    Quotient(x, m);
    QuotientOrder(x, y, m, n);
  }

  /** A contribution grows with the frequency and falls with the length, so a
      block's bound is at least every posting's contribution. */
  lemma BlockBoundDominates(f: Factors, tf: real, doclen: real, maxTf: real, minDoclen: real)
    requires Usable(f) && 1.0 <= tf <= maxTf && 0.0 <= minDoclen <= doclen
    ensures 0.0 <= Contrib(f, tf, doclen) <= BlockBound(f, maxTf, minDoclen)
  {
    hide Saturation, LengthNorm;
    LengthNormOrder(f, minDoclen, doclen);
    SaturationOrder(f.idfK1p1, tf, maxTf, LengthNorm(f, doclen), LengthNorm(f, minDoclen), f.k1OneMinusB);
  }

  /** The term's ceiling is at least every block's bound. */
  lemma TermBoundDominates(idf: real, k1: real, b: real, avgdl: real, blockTf: real, minDoclen: real, maxTf: real)
    requires Params(idf, k1, b) && 1.0 <= blockTf <= maxTf && minDoclen >= 0.0
    ensures var f := Init(idf, k1, b, avgdl);
            && Usable(f) && maxTf + f.k1 * (1.0 - f.b) > 0.0
            && BlockBound(f, blockTf, minDoclen) <= TermBound(f, maxTf)
  {
    hide Contrib;
    var f := Init(idf, k1, b, avgdl);
    InitIsUsable(idf, k1, b, avgdl);
    BlockBoundDominates(f, blockTf, minDoclen, maxTf, 0.0);
    Product(k1, 1.0 - b);
    AtZeroLength(f, maxTf);
  }

  /** At length zero the contribution is the term's ceiling. */
  lemma AtZeroLength(f: Factors, maxTf: real)
    requires Usable(f) && maxTf >= 1.0 && f.k1OneMinusB == f.k1 * (1.0 - f.b) && f.idfK1p1 == f.idf * (f.k1 + 1.0)
    requires maxTf + f.k1 * (1.0 - f.b) > 0.0
    ensures Contrib(f, maxTf, 0.0) == TermBound(f, maxTf)
  {
    assert LengthNorm(f, 0.0) == 0.0;
    assert f.idf * (f.k1 + 1.0) * maxTf == f.idf * maxTf * (f.k1 + 1.0);
  }

  // ---------------------------------------------------------------------------
  // The contribution is BM25's
  // ---------------------------------------------------------------------------

  /** The norm of BM25: a document's frequency against its length in average lengths. */
  function Norm(k1: real, b: real, avgdl: real, tf: real, doclen: real): real
    requires avgdl > 0.0
  {
    tf + k1 * (1.0 - b + b * (doclen / avgdl))
  }

  lemma LengthIsRelative(k1: real, b: real, avgdl: real, tf: real, doclen: real)
    requires avgdl > 0.0
    ensures tf + k1 * (1.0 - b) + k1 * b / avgdl * doclen == Norm(k1, b, avgdl, tf, doclen)
  {
    var r := doclen / avgdl;
    assert r * avgdl == doclen;
    var s := k1 * b / avgdl;
    assert s * avgdl == k1 * b;
    assert s * doclen == s * (r * avgdl) == (s * avgdl) * r == k1 * b * r;
    assert k1 * (1.0 - b + b * r) == k1 * (1.0 - b) + k1 * b * r;
  }

  /** The precomputed factors give the formula of BM25. */
  lemma ContribIsBm25(idf: real, k1: real, b: real, avgdl: real, tf: real, doclen: real)
    requires Params(idf, k1, b) && avgdl > 0.0 && tf >= 1.0 && doclen >= 0.0
    ensures Usable(Init(idf, k1, b, avgdl))
    ensures Contrib(Init(idf, k1, b, avgdl), tf, doclen) * Norm(k1, b, avgdl, tf, doclen) == idf * tf * (k1 + 1.0)
    ensures Norm(k1, b, avgdl, tf, doclen) >= 1.0
  {
    var f := Init(idf, k1, b, avgdl);
    InitIsUsable(idf, k1, b, avgdl);
    LengthIsRelative(k1, b, avgdl, tf, doclen);
    LengthNormOrder(f, doclen, doclen);
    var n := tf + f.k1OneMinusB + LengthNorm(f, doclen);
    assert n == Norm(k1, b, avgdl, tf, doclen);
    assert f.idfK1p1 * tf / n * n == f.idfK1p1 * tf;
    assert idf * (k1 + 1.0) * tf == idf * tf * (k1 + 1.0);
  }

  /** Without an average the length counts in plain units. */
  lemma NoAverage(idf: real, k1: real, b: real, avgdl: real)
    requires avgdl <= 0.0
    ensures Init(idf, k1, b, avgdl) == Init(idf, k1, b, 1.0)
  {
  }

  /** The formula has one solution. */
  lemma SameQuotient(x: real, y: real, n: real)
    requires n >= 1.0 && x * n == y * n
    ensures x == y
  {
    assert (x - y) * n == 0.0;
    if x > y { Positive(x - y, n); } else if x < y { Positive(y - x, n); }
  }

  /** One occurrence in a document of average length is worth exactly the IDF. */
  lemma AverageDocument(idf: real, k1: real, b: real, avgdl: real)
    requires Params(idf, k1, b) && avgdl > 0.0
    ensures Usable(Init(idf, k1, b, avgdl)) && Contrib(Init(idf, k1, b, avgdl), 1.0, avgdl) == idf
  {
    hide Contrib, Usable;
    ContribIsBm25(idf, k1, b, avgdl, 1.0, avgdl);
    assert avgdl / avgdl == 1.0;
    var n := Norm(k1, b, avgdl, 1.0, avgdl);
    assert n == 1.0 + k1;
    SameQuotient(Contrib(Init(idf, k1, b, avgdl), 1.0, avgdl), idf, n);
  }

  /** The unit lengths are measured in does not matter. */
  lemma LengthUnitsCancel(idf: real, k1: real, b: real, avgdl: real, tf: real, doclen: real, u: real)
    requires Params(idf, k1, b) && avgdl > 0.0 && tf >= 1.0 && doclen >= 0.0 && u > 0.0
    ensures u * avgdl > 0.0 && u * doclen >= 0.0
    ensures Usable(Init(idf, k1, b, avgdl)) && Usable(Init(idf, k1, b, u * avgdl))
    ensures Contrib(Init(idf, k1, b, u * avgdl), tf, u * doclen) == Contrib(Init(idf, k1, b, avgdl), tf, doclen)
  {
    hide Contrib, Usable, Init;
    Positive(u, avgdl);
    Product(u, doclen);
    ContribIsBm25(idf, k1, b, avgdl, tf, doclen);
    ContribIsBm25(idf, k1, b, u * avgdl, tf, u * doclen);
    SameRatio(doclen, avgdl, u);
    SameQuotient(Contrib(Init(idf, k1, b, u * avgdl), tf, u * doclen), Contrib(Init(idf, k1, b, avgdl), tf, doclen),
                 Norm(k1, b, avgdl, tf, doclen));
  }

  lemma SameRatio(x: real, y: real, u: real)
    requires y > 0.0 && u > 0.0
    ensures u * y > 0.0 && u * x / (u * y) == x / y
  {
    Positive(u, y);
    var r := x / y;
    assert r * y == x;
    assert u * x == r * (u * y);
  }

  // ---------------------------------------------------------------------------
  // The bounds are no higher than they need be
  // ---------------------------------------------------------------------------

  /** `x` is at least what any posting of a block may contribute. */
  ghost predicate BoundsBlock(f: Factors, maxTf: real, minDoclen: real, x: real)
    requires Usable(f) && minDoclen >= 0.0
  {
    forall tf: real, doclen: real :: 1.0 <= tf <= maxTf && minDoclen <= doclen ==> Contrib(f, tf, doclen) <= x
  }

  /** The block's bound is the least number that bounds such postings. */
  lemma BlockBoundIsLeast(f: Factors, maxTf: real, minDoclen: real, x: real)
    requires Usable(f) && maxTf >= 1.0 && minDoclen >= 0.0
    ensures BoundsBlock(f, maxTf, minDoclen, x) <==> BlockBound(f, maxTf, minDoclen) <= x
  {
    forall tf: real, doclen: real | 1.0 <= tf <= maxTf && minDoclen <= doclen
      ensures Contrib(f, tf, doclen) <= BlockBound(f, maxTf, minDoclen)
    {
      BlockBoundDominates(f, tf, doclen, maxTf, minDoclen);
    }
  }

  /** The term's ceiling is the least number that bounds its postings, whatever the
      length of the shortest document. */
  lemma TermBoundIsLeast(idf: real, k1: real, b: real, avgdl: real, maxTf: real, x: real)
    requires Params(idf, k1, b) && maxTf >= 1.0
    ensures var f := Init(idf, k1, b, avgdl);
            && Usable(f) && maxTf + f.k1 * (1.0 - f.b) > 0.0
            && (BoundsBlock(f, maxTf, 0.0, x) <==> TermBound(f, maxTf) <= x)
  {
    hide Contrib, BoundsBlock;
    var f := Init(idf, k1, b, avgdl);
    InitIsUsable(idf, k1, b, avgdl);
    Product(k1, 1.0 - b);
    AtZeroLength(f, maxTf);
    BlockBoundIsLeast(f, maxTf, 0.0, x);
  }

  /** The index's IDF, with the document frequency clamped to [1, N]. */
  function ClampDf(n: real, df: real): real {
    var d := if df < 1.0 then 1.0 else df;
    if d > n then n else d
  }

  /** The argument of its logarithm. */
  function IdfArgument(n: real, df: real): real
    requires n >= 0.0
  {
    var d := ClampDf(n, df);
    1.0 + (n - d + 0.5) / (d + 0.5)
  }

  /** However many postings a term keeps of deleted documents, the logarithm's
      argument is above one, so the IDF is positive and contributions keep their
      sign. */
  lemma ClampedIdfIsPositive(n: real, df: real)
    requires n >= 0.0
    ensures IdfArgument(n, df) > 1.0
  {
    var d := ClampDf(n, df);
    var x, y := n - d + 0.5, d + 0.5;
    assert x > 0.0 && y > 0.0;
    var q := x / y;
    assert q * y == x;
    PositiveQuotient(x, y);
  }

  /** In range the frequency is taken as it is, so the argument is the textbook one;
      out of range the nearest frequency in range is taken. */
  lemma IdfArgumentIs(n: real, df: real)
    requires n >= 1.0
    ensures 1.0 <= df <= n ==> IdfArgument(n, df) * (df + 0.5) == n + 1.0
    ensures df < 1.0 ==> IdfArgument(n, df) == IdfArgument(n, 1.0)
    ensures df > n ==> IdfArgument(n, df) == IdfArgument(n, n)
  {
    if 1.0 <= df <= n {
      var q := (n - df + 0.5) / (df + 0.5);
      assert q * (df + 0.5) == n - df + 0.5;
    }
  }

  lemma PositiveQuotient(x: real, y: real)
    requires x > 0.0 && y > 0.0
    ensures x / y > 0.0
  {
  }

  /** Unclamped, a term in nearly every document gets a negative IDF once enough
      documents are deleted: the argument is below one exactly when df > N + 0.5. */
  lemma UnclampedIdfGoesNegative(n: real, df: real)
    requires n >= 0.0 && df >= 1.0
    ensures 1.0 + (n - df + 0.5) / (df + 0.5) < 1.0 <==> df > n + 0.5
  {
    var x, y := n - df + 0.5, df + 0.5;
    assert x / y * y == x;
    if df > n + 0.5 {
      PositiveQuotient(-x, y);
      assert -x / y == -(x / y);
    } else {
      Quotient(x, y);
    }
  }
}
