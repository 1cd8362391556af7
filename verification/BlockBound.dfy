/** The vector block bound: the query table and its score, the statistics a
    block stores, and the least of three upper bounds (include/weave/quantize.h,
    src/vector/vecstats.c, src/vector/quantize.c, src/vector/vecscan.c).
    Vectors are in the rotated space; calibration is off, as the writer leaves it.
  */
module BlockBound {
  import opened Basics
  import opened BinaryHeap
  import opened PrunedScan

  type Vec = seq<real>
  type Code = seq<nat>

  // ---------------------------------------------------------------------------
  // Inner products
  // ---------------------------------------------------------------------------

  function Dot(a: Vec, b: Vec): real
    requires |a| == |b|
  {
    if a == [] then 0.0 else Times(a[0], b[0]) + Dot(a[1..], b[1..])
  }

  function Minus(a: Vec, b: Vec): (r: Vec)
    requires |a| == |b|
    ensures |r| == |a|
  {
    seq(|a|, j requires 0 <= j < |a| => a[j] - b[j])
  }

  /** `x` is the Euclidean norm of `v`. */
  ghost predicate IsNorm(x: real, v: Vec) { x >= 0.0 && x * x == Dot(v, v) }

  /** A square root of every non-negative real. */
  ghost predicate IsRoot(root: real -> real) {
    forall x: real :: x >= 0.0 ==> root(x) >= 0.0 && root(x) * root(x) == x
  }

  lemma SquareIsNonNegative(x: real)
    ensures x * x >= 0.0
  {
    if x < 0.0 { assert (-x) * (-x) >= 0.0; }
  }

  lemma {:induction false} DotSelf(v: Vec)
    ensures Dot(v, v) >= 0.0
    decreases |v|
  {
    if v != [] {
      SquareIsNonNegative(v[0]);
      DotSelf(v[1..]);
    }
  }

  lemma ExpandSquare(s: real, t: real, x: real, y: real)
    ensures (s * x - t * y) * (s * x - t * y) == s * s * (x * x) - 2.0 * s * t * (x * y) + t * t * (y * y)
  {
    var a, b := s * x, t * y;
    assert (a - b) * (a - b) == a * a - 2.0 * (a * b) + b * b;
    assert a * a == s * s * (x * x);
    assert b * b == t * t * (y * y);
    assert a * b == s * t * (x * y);
  }

  /** The sum of the squares of s*a[j] - t*b[j], multiplied out. */
  lemma {:induction false} Discriminant(a: Vec, b: Vec, s: real, t: real)
    requires |a| == |b|
    ensures s * s * Dot(a, a) - 2.0 * s * t * Dot(a, b) + t * t * Dot(b, b) >= 0.0
    decreases |a|
  {
    if a != [] {
      var x, y := a[0], b[0];
      Discriminant(a[1..], b[1..], s, t);
      ExpandSquare(s, t, x, y);
      SquareIsNonNegative(s * x - t * y);
      Distribute(s * s, x * x, Dot(a[1..], a[1..]));
      Distribute(2.0 * s * t, x * y, Dot(a[1..], b[1..]));
      Distribute(t * t, y * y, Dot(b[1..], b[1..]));
    }
  }

  lemma Distribute(k: real, x: real, y: real)
    ensures k * (x + y) == k * x + k * y
  {
  }

  lemma SameSignProduct(x: real, y: real)
    requires (x < 0.0 && y < 0.0) || (x > 0.0 && y > 0.0)
    ensures Times(x, y) > 0.0
  {
  }

  lemma SquarePositive(x: real)
    ensures Times(x, x) > 0.0 || x == 0.0
  {
    hide Times;
    if x != 0.0 { SameSignProduct(x, x); }
  }

  lemma SquareZero(x: real)
    requires Times(x, x) <= 0.0
    ensures x == 0.0
  {
    hide Times;
    SquarePositive(x);
  }

  lemma NonNegative(x: real, y: real)
    requires x >= 0.0 && y >= 0.0
    ensures x * y >= 0.0
  {
  }

  lemma {:induction false} ZeroVector(a: Vec, b: Vec)
    requires |a| == |b| && Dot(b, b) == 0.0
    ensures Dot(a, b) == 0.0
    decreases |a|
  {
    if a != [] {
      SquareIsNonNegative(b[0]);
      DotSelf(b[1..]);
      SquareZero(b[0]);
      ZeroVector(a[1..], b[1..]);
    }
  }

  lemma {:induction false} DotSymmetric(a: Vec, b: Vec)
    requires |a| == |b|
    ensures Dot(a, b) == Dot(b, a)
    decreases |a|
  {
    if a != [] { DotSymmetric(a[1..], b[1..]); }
  }

  /** The inner product is at most the product of the norms. */
  lemma CauchySchwarz(a: Vec, b: Vec, na: real, nb: real)
    requires |a| == |b| && IsNorm(na, a) && IsNorm(nb, b)
    ensures Dot(a, b) <= na * nb
  {
    hide Dot;
    if nb == 0.0 {
      ZeroVector(a, b);
    } else if na == 0.0 {
      ZeroVector(b, a);
      DotSymmetric(a, b);
    } else {
      Discriminant(a, b, nb, na);
      CancelProduct(na, nb, Dot(a, b));
    }
  }

  lemma CancelProduct(na: real, nb: real, d: real)
    requires na > 0.0 && nb > 0.0
    requires nb * nb * (na * na) - 2.0 * nb * na * d + na * na * (nb * nb) >= 0.0
    ensures d <= na * nb
  {
    var p := na * nb;
    assert p > 0.0;
    assert nb * nb * (na * na) == p * p && na * na * (nb * nb) == p * p && 2.0 * nb * na * d == 2.0 * (p * d);
    assert p * (p - d) >= 0.0;
    if d > p { assert p * (p - d) < 0.0; }
  }

  lemma {:induction false} DotMinus(q: Vec, a: Vec, b: Vec)
    requires |q| == |a| == |b|
    ensures Dot(q, Minus(a, b)) == Dot(q, a) - Dot(q, b)
    decreases |q|
  {
    if q != [] {
      DotMinus(q[1..], a[1..], b[1..]);
      assert Minus(a, b)[1..] == Minus(a[1..], b[1..]);
      assert q[0] * (a[0] - b[0]) == q[0] * a[0] - q[0] * b[0];
    }
  }

  // ---------------------------------------------------------------------------
  // The codebook and the query table
  // ---------------------------------------------------------------------------

  /** The centroids are symmetric about zero. */
  ghost predicate Symmetric(c: seq<real>) {
    |c| > 0 && forall i :: 0 <= i < |c| ==> c[i] == -c[|c| - 1 - i]
  }

  predicate Encodes(c: seq<real>, code: Code) { forall j :: 0 <= j < |code| ==> code[j] < |c| }

  /** The reconstruction a code and its scale stand for. */
  function Decode(c: seq<real>, code: Code, scale: real): (v: Vec)
    requires Encodes(c, code)
    ensures |v| == |code|
  {
    seq(|code|, j requires 0 <= j < |code| => Times(c[code[j]], scale))
  }

  datatype QueryLut = QueryLut(lut: seq<seq<real>>, lutbound: real, qnorm: real, qnorm2: real)

  /** The largest entry of a row. */
  function RowMax(row: seq<real>): (m: real)
    requires |row| > 0
    ensures m in row && forall i :: 0 <= i < |row| ==> row[i] <= m
  {
    if |row| == 1 then row[0]
    else
      var m := RowMax(row[..|row| - 1]);
      assert row == row[..|row| - 1] + [row[|row| - 1]];
      if row[|row| - 1] > m then row[|row| - 1] else m
  }

  function SumOfMax(lut: seq<seq<real>>): real
    requires forall row | row in lut :: |row| > 0
  {
    if lut == [] then 0.0 else SumOfMax(lut[..|lut| - 1]) + RowMax(lut[|lut| - 1])
  }

  /** The products of one coordinate with every centroid. */
  function Row(x: real, c: seq<real>): (row: seq<real>)
    ensures |row| == |c|
  {
    seq(|c|, i requires 0 <= i < |c| => Times(x, c[i]))
  }

  ghost predicate IsTable(lut: seq<seq<real>>, c: seq<real>, q: Vec) {
    |lut| == |q| && forall j :: 0 <= j < |q| ==> |lut[j]| == |c| && lut[j] == Row(q[j], c)
  }

  ghost predicate IsLut(l: QueryLut, c: seq<real>, q: Vec) {
    && |c| > 0 && IsTable(l.lut, c, q)
    && l.lutbound == SumOfMax(l.lut) && l.qnorm2 == Dot(q, q) && IsNorm(l.qnorm, q)
  }

  lemma {:induction false} DotSnoc(a: Vec, b: Vec, x: real, y: real)
    requires |a| == |b|
    ensures Dot(a + [x], b + [y]) == Dot(a, b) + Times(x, y)
    decreases |a|
  {
    hide Times;
    if a == [] {
      assert (a + [x])[1..] == [] && (b + [y])[1..] == [];
    } else {
      assert (a + [x])[1..] == a[1..] + [x] && (b + [y])[1..] == b[1..] + [y];
      DotSnoc(a[1..], b[1..], x, y);
    }
  }

  /** Build the table, its bound and the query's norm. */
  method BuildLut(c: seq<real>, q: Vec, root: real -> real) returns (l: QueryLut)
    requires |c| > 0 && IsRoot(root)
    ensures IsLut(l, c, q)
  {
    hide Row, RowMax, Dot, IsRoot, Times;
    var lut, bound, qn2 := [], 0.0, 0.0;
    DotEmpty();
    for j := 0 to |q|
      invariant IsTable(lut, c, q[..j]) && bound == SumOfMax(lut) && qn2 == Dot(q[..j], q[..j])
    {
      var row, best := BuildRow(q[j], c);
      SumOfMaxSnoc(lut, row);
      lut := lut + [row];
      bound := bound + best;
      assert q[..j + 1] == q[..j] + [q[j]];
      DotSnoc(q[..j], q[..j], q[j], q[j]);
      qn2 := qn2 + Times(q[j], q[j]);
    }
    assert q[..|q|] == q;
    RootIsNorm(q, root);
    l := QueryLut(lut, bound, root(qn2), qn2);
  }

  lemma DotEmpty()
    ensures Dot([], []) == 0.0
  {
  }

  lemma RootIsNorm(v: Vec, root: real -> real)
    requires IsRoot(root)
    ensures IsNorm(root(Dot(v, v)), v)
  {
    DotSelf(v);
  }

  lemma SumOfMaxSnoc(lut: seq<seq<real>>, row: seq<real>)
    requires |row| > 0 && forall r | r in lut :: |r| > 0
    ensures SumOfMax(lut + [row]) == SumOfMax(lut) + RowMax(row)
  {
    assert (lut + [row])[..|lut|] == lut;
  }

  method BuildRow(x: real, c: seq<real>) returns (row: seq<real>, best: real)
    requires |c| > 0
    ensures row == Row(x, c) && best == RowMax(row)
  {
    hide Times;
    row, best := [Times(x, c[0])], Times(x, c[0]);
    assert Row(x, c)[..1] == row;
    for i := 1 to |c|
      invariant row == Row(x, c)[..i] && best == RowMax(row)
    {
      var p := Times(x, c[i]);
      assert (row + [p])[..i] == row;
      row := row + [p];
      assert Row(x, c)[..i + 1] == row;
      if p > best { best := p; }
    }
  }

  /** Gather and add: the inner product with a code, never decoding it. */
  method ScoreCode(l: QueryLut, code: Code, scale: real, ghost c: seq<real>, ghost q: Vec) returns (s: real)
    requires IsLut(l, c, q) && |code| == |q| && Encodes(c, code)
    ensures s == Dot(q, Decode(c, code, scale))
  {
    hide Times, Row, Dot;
    var acc := 0.0;
    for j := 0 to |code|
      invariant Indexes(l.lut[..j], code[..j]) && acc == Gather(l.lut[..j], code[..j])
    {
      GatherSnoc(l.lut, code, j);
      acc := acc + l.lut[j][code[j]];
    }
    assert l.lut[..|code|] == l.lut && code[..|code|] == code;
    GatherIsDot(l.lut, code, scale, c, q);
    s := Times(acc, scale);
  }

  predicate Indexes(lut: seq<seq<real>>, code: Code) {
    |lut| == |code| && forall j :: 0 <= j < |code| ==> code[j] < |lut[j]|
  }

  lemma GatherSnoc(lut: seq<seq<real>>, code: Code, j: nat)
    requires Indexes(lut, code) && j < |code|
    ensures Indexes(lut[..j], code[..j]) && Indexes(lut[..j + 1], code[..j + 1])
    ensures Gather(lut[..j + 1], code[..j + 1]) == Gather(lut[..j], code[..j]) + lut[j][code[j]]
  {
    assert lut[..j + 1][..j] == lut[..j] && code[..j + 1][..j] == code[..j];
  }

  function Gather(lut: seq<seq<real>>, code: Code): real
    requires Indexes(lut, code)
  {
    if code == [] then 0.0
    else Gather(lut[..|lut| - 1], code[..|code| - 1]) + lut[|lut| - 1][code[|code| - 1]]
  }

  lemma DecodeSnoc(c: seq<real>, code: Code, scale: real)
    requires |code| > 0 && Encodes(c, code)
    ensures var n := |code| - 1;
            Encodes(c, code[..n]) && Decode(c, code, scale) == Decode(c, code[..n], scale) + [Times(c[code[n]], scale)]
  {
    hide Times;
    var n := |code| - 1;
    forall j | 0 <= j < n ensures Decode(c, code, scale)[j] == Decode(c, code[..n], scale)[j] {
      assert code[..n][j] == code[j];
    }
  }

  lemma {:induction false} GatherIsDot(lut: seq<seq<real>>, code: Code, scale: real, c: seq<real>, q: Vec)
    requires IsTable(lut, c, q) && |q| == |code| && Encodes(c, code)
    ensures Times(Gather(lut, code), scale) == Dot(q, Decode(c, code, scale))
    decreases |q|
  {
    hide Times;
    if q == [] {
      TimesZero(scale);
    } else {
      var n := |q| - 1;
      GatherIsDot(lut[..n], code[..n], scale, c, q[..n]);
      assert q == q[..n] + [q[n]];
      DecodeSnoc(c, code, scale);
      DotSnoc(q[..n], Decode(c, code[..n], scale), q[n], Times(c[code[n]], scale));
      assert lut[n][code[n]] == Times(q[n], c[code[n]]);
      TimesTable(Gather(lut[..n], code[..n]), q[n], c[code[n]], scale);
    }
  }

  lemma TimesZero(scale: real)
    ensures Times(0.0, scale) == 0.0
  {
  }

  lemma TimesTable(g: real, x: real, y: real, scale: real)
    ensures Times(g + Times(x, y), scale) == Times(g, scale) + Times(x, Times(y, scale))
  {
    assert (g + x * y) * scale == g * scale + x * y * scale;
    assert x * y * scale == x * (y * scale);
  }

  // ---------------------------------------------------------------------------
  // The first bound: the table's
  // ---------------------------------------------------------------------------

  /** With a symmetric codebook some centroid agrees in sign with the query. */
  lemma RowMaxNonNegative(x: real, c: seq<real>)
    requires Symmetric(c)
    ensures RowMax(Row(x, c)) >= 0.0
  {
    hide RowMax;
    var row, n := Row(x, c), |c|;
    assert c[0] == -c[n - 1];
    OppositeProducts(x, c[n - 1]);
    assert row[0] <= RowMax(row) && row[n - 1] <= RowMax(row);
  }

  lemma OppositeProducts(x: real, y: real)
    ensures Times(x, -y) == -Times(x, y)
  {
  }

  lemma {:induction false} GatherBelowBound(lut: seq<seq<real>>, code: Code, c: seq<real>, q: Vec)
    requires Symmetric(c) && IsTable(lut, c, q) && |q| == |code| && Encodes(c, code)
    ensures Gather(lut, code) <= SumOfMax(lut) && SumOfMax(lut) >= 0.0
    decreases |q|
  {
    hide Times, RowMax;
    if q != [] {
      var n := |q| - 1;
      GatherBelowBound(lut[..n], code[..n], c, q[..n]);
      RowMaxNonNegative(q[n], c);
      assert lut[n][code[n]] <= RowMax(lut[n]);
    }
  }

  lemma ScaleUp(g: real, bound: real, s: real, smax: real)
    requires g <= bound && bound >= 0.0 && 0.0 <= s <= smax
    ensures Times(g, s) <= smax * bound
  {
    NonNegative(bound - g, s);
    NonNegative(bound, smax - s);
  }

  // ---------------------------------------------------------------------------
  // What a block stores
  // ---------------------------------------------------------------------------

  datatype BlockRec = BlockRec(smax: real, maxrecnorm: real, minnorm: real,
                               cencode: Code, censcale: real, cenrad: real)

  /** The record's five fields cover every lane; the radius is measured from the
      decoded centroid code, not from the centroid. */
  ghost predicate Covers(rec: BlockRec, c: seq<real>, recon: seq<Vec>, scale: seq<real>, norm: seq<real>, dim: nat) {
    && |scale| == |recon| == |norm| && |rec.cencode| == dim && Encodes(c, rec.cencode)
    && rec.smax >= 0.0 && rec.minnorm >= 0.0
    && forall i :: 0 <= i < |recon| ==> LaneCovered(rec, c, recon[i], scale[i], norm[i], dim)
  }

  ghost predicate LaneCovered(rec: BlockRec, c: seq<real>, r: Vec, s: real, n: real, dim: nat)
    requires |rec.cencode| == dim && Encodes(c, rec.cencode)
  {
    && |r| == dim && 0.0 <= s <= rec.smax && rec.minnorm <= n
    && NormAtMost(r, rec.maxrecnorm)
    && NormAtMost(Minus(r, Decode(c, rec.cencode, rec.censcale)), rec.cenrad)
  }

  /** Some norm of `v`, hence its only one, is at most `x`. */
  ghost predicate NormAtMost(v: Vec, x: real) { exists n: real :: IsNorm(n, v) && n <= x }

  lemma NormIsNonNegative(n: real, v: Vec)
    requires IsNorm(n, v)
    ensures n >= 0.0
  {
  }

  method Norm(v: Vec, root: real -> real) returns (n: real)
    requires IsRoot(root)
    ensures IsNorm(n, v)
  {
    hide Times;
    var a := 0.0;
    for j := 0 to |v|
      invariant a == Dot(v[..j], v[..j])
    {
      assert v[..j + 1] == v[..j] + [v[j]];
      DotSnoc(v[..j], v[..j], v[j], v[j]);
      a := a + Times(v[j], v[j]);
    }
    assert v[..|v|] == v;
    RootIsNorm(v, root);
    n := root(a);
  }

  datatype Encoding = NotEncodable | Encoded(code: Code, scale: real)

  /** A block holds at most this many lanes. */
  const BLOCK: nat := 32

  /** The mean of the reconstructions. */
  method Centroid(recon: seq<Vec>, dim: nat) returns (cen: Vec)
    requires |recon| > 0 && forall i :: 0 <= i < |recon| ==> |recon[i]| == dim
    ensures |cen| == dim
    ensures forall j :: 0 <= j < dim ==> cen[j] * |recon| as real == ColumnSum(recon, j)
  {
    cen := [];
    for j := 0 to dim
      invariant |cen| == j
      invariant forall i :: 0 <= i < j ==> cen[i] * |recon| as real == ColumnSum(recon, i)
    {
      var a := 0.0;
      for i := 0 to |recon|
        invariant a == ColumnSum(recon[..i], j)
      {
        assert recon[..i + 1][..i] == recon[..i];
        a := a + recon[i][j];
      }
      assert recon[..|recon|] == recon;
      cen := cen + [a / |recon| as real];
    }
  }

  function ColumnSum(recon: seq<Vec>, j: nat): real
    requires forall i :: 0 <= i < |recon| ==> j < |recon[i]|
  {
    if recon == [] then 0.0 else ColumnSum(recon[..|recon| - 1], j) + recon[|recon| - 1][j]
  }

  /** A column's sum is additive, and of one row it is the entry. */
  lemma {:induction false} ColumnSumIs(a: seq<Vec>, b: seq<Vec>, v: Vec, j: nat)
    requires (forall i :: 0 <= i < |a| ==> j < |a[i]|) && (forall i :: 0 <= i < |b| ==> j < |b[i]|) && j < |v|
    ensures ColumnSum([v], j) == v[j]
    ensures ColumnSum(a + b, j) == ColumnSum(a, j) + ColumnSum(b, j)
    decreases |b|
  {
    assert [v][..0] == [] && ColumnSum([], j) == 0.0;
    if b == [] {
      assert a + b == a;
    } else {
      assert (a + b)[..|a + b| - 1] == a + b[..|b| - 1];
      ColumnSumIs(a, b[..|b| - 1], v, j);
    }
  }

  /** A lane's own scale and norm. */
  datatype Lane = Lane(scale: real, norm: real)

  datatype Placement = Misplaced | Placed(lanes: map<int, Lane>)

  /** Every entry has a lane of its own inside the block, and nothing negative. */
  ghost predicate Placeable(scale: seq<real>, norm: seq<real>, slot: seq<int>)
    requires |scale| == |norm| == |slot|
  {
    && Distinct(slot)
    && forall i :: 0 <= i < |slot| ==> 0 <= slot[i] < BLOCK && scale[i] >= 0.0 && norm[i] >= 0.0
  }

  /** The live lanes, which are the keys, and what is stored for each. */
  ghost predicate LanesAre(lanes: map<int, Lane>, scale: seq<real>, norm: seq<real>, slot: seq<int>)
    requires |scale| == |norm| == |slot|
  {
    && (forall i :: 0 <= i < |slot| ==> slot[i] in lanes && lanes[slot[i]] == Lane(scale[i], norm[i]))
    && forall s | s in lanes :: s in slot
  }

  /** File each entry under its lane; a claimed lane may not be claimed again. */
  method PlaceLanes(scale: seq<real>, norm: seq<real>, slot: seq<int>) returns (r: Placement)
    requires |scale| == |norm| == |slot|
    ensures r.Placed? <==> Placeable(scale, norm, slot)
    ensures r.Placed? ==> LanesAre(r.lanes, scale, norm, slot)
  {
    var lanes: map<int, Lane> := map[];
    for i := 0 to |slot|
      invariant Placeable(scale[..i], norm[..i], slot[..i]) && LanesAre(lanes, scale[..i], norm[..i], slot[..i])
    {
      var s := slot[i];
      if s < 0 || s >= BLOCK || scale[i] < 0.0 || norm[i] < 0.0 { return Misplaced; }
      if s in lanes {
        var j :| 0 <= j < i && slot[..i][j] == s;
        assert slot[j] == slot[i];
        return Misplaced;
      }
      assert slot[..i + 1] == slot[..i] + [s];
      lanes := lanes[s := Lane(scale[i], norm[i])];
    }
    assert slot[..|slot|] == slot && scale[..|slot|] == scale && norm[..|slot|] == norm;
    r := Placed(lanes);
  }

  datatype Stats = Refused | Accepted(rec: BlockRec, lanes: map<int, Lane>)

  /** `cen` is the mean of the reconstructions. */
  ghost predicate IsMean(cen: Vec, recon: seq<Vec>, dim: nat)
    requires forall i :: 0 <= i < |recon| ==> |recon[i]| == dim
  {
    |cen| == dim && forall j :: 0 <= j < dim ==> cen[j] * |recon| as real == ColumnSum(recon, j)
  }

  /** The stored code is the mean's, or zero when the mean has none. */
  ghost predicate CodesMean(rec: BlockRec, cen: Vec, encode: Vec -> Encoding) {
    if encode(cen).Encoded? then rec.cencode == encode(cen).code && rec.censcale == encode(cen).scale
    else rec.cencode == ZeroCode(|cen|) && rec.censcale == 0.0
  }

  /** Each field that bounds the lanes is some lane's own value. */
  ghost predicate Attained(rec: BlockRec, c: seq<real>, recon: seq<Vec>, scale: seq<real>, norm: seq<real>, dim: nat)
    requires Covers(rec, c, recon, scale, norm, dim)
  {
    && rec.smax in scale && rec.minnorm in norm
    && (exists i :: 0 <= i < |recon| && IsNorm(rec.maxrecnorm, recon[i]))
    && exists i :: 0 <= i < |recon| && IsNorm(rec.cenrad, Minus(recon[i], Decode(c, rec.cencode, rec.censcale)))
  }

  /** The block statistics: refuse a bad lane count, a lane claimed twice or a
      negative scale or norm; otherwise file the lanes and compute fields that
      cover every one of them. */
  method BlockStats(c: seq<real>, recon: seq<Vec>, scale: seq<real>, norm: seq<real>, slot: seq<int>, dim: nat,
                    encode: Vec -> Encoding, root: real -> real) returns (r: Stats)
    requires |c| > 0 && IsRoot(root) && |scale| == |recon| == |norm| == |slot|
    requires forall i :: 0 <= i < |recon| ==> |recon[i]| == dim
    requires forall v :: encode(v).Encoded? ==> |encode(v).code| == |v| && Encodes(c, encode(v).code)
    ensures r.Refused? <==> |recon| < 1 || |recon| > BLOCK || dim == 0 || !Placeable(scale, norm, slot)
    ensures r.Accepted? ==> LanesAre(r.lanes, scale, norm, slot) && Covers(r.rec, c, recon, scale, norm, dim)
    ensures r.Accepted? ==> Attained(r.rec, c, recon, scale, norm, dim)
    ensures r.Accepted? ==> exists cen :: IsMean(cen, recon, dim) && CodesMean(r.rec, cen, encode)
  {
    if |recon| < 1 || |recon| > BLOCK || dim == 0 { return Refused; }
    var placed := PlaceLanes(scale, norm, slot);
    if placed.Misplaced? { return Refused; }
    hide Distinct, LanesAre;
    var smax, maxrecnorm, minnorm := Extremes(recon, scale, norm, root);
    var cen := Centroid(recon, dim);
    var e := encode(cen);
    var code, censcale := ZeroCode(dim), 0.0;
    if e.Encoded? { code, censcale := e.code, e.scale; }
    var chat := Decode(c, code, censcale);
    var cenrad := Radius(recon, chat, root);
    r := Accepted(BlockRec(smax, maxrecnorm, minnorm, code, censcale, cenrad), placed.lanes);
    assert IsMean(cen, recon, dim) && CodesMean(r.rec, cen, encode);
  }

  function ZeroCode(dim: nat): (code: Code)
    ensures |code| == dim && forall j :: 0 <= j < dim ==> code[j] == 0
  {
    seq(dim, _ => 0)
  }

  method Extremes(recon: seq<Vec>, scale: seq<real>, norm: seq<real>, root: real -> real)
    returns (smax: real, maxrecnorm: real, minnorm: real)
    requires |recon| > 0 && |scale| == |recon| == |norm| && IsRoot(root)
    requires forall i :: 0 <= i < |recon| ==> scale[i] >= 0.0 && norm[i] >= 0.0
    ensures smax >= 0.0 && minnorm >= 0.0
    ensures forall i :: 0 <= i < |recon| ==> scale[i] <= smax && minnorm <= norm[i] && NormAtMost(recon[i], maxrecnorm)
    ensures smax in scale && minnorm in norm && exists i :: 0 <= i < |recon| && IsNorm(maxrecnorm, recon[i])
  {
    hide IsNorm, IsRoot;
    smax, maxrecnorm, minnorm := 0.0, 0.0, norm[0];
    for i := 0 to |recon|
      invariant smax >= 0.0 && minnorm >= 0.0 && minnorm <= norm[0] && minnorm in norm && maxrecnorm >= 0.0
      invariant if i == 0 then smax == 0.0 && maxrecnorm == 0.0
                else smax in scale && exists j :: 0 <= j < i && IsNorm(maxrecnorm, recon[j])
      invariant forall j :: 0 <= j < i ==> scale[j] <= smax && minnorm <= norm[j] && NormAtMost(recon[j], maxrecnorm)
    {
      if scale[i] > smax { smax := scale[i]; }
      if norm[i] < minnorm { minnorm := norm[i]; }
      var rn := Norm(recon[i], root);
      NormIsNonNegative(rn, recon[i]);
      if rn > maxrecnorm { maxrecnorm := rn; }
    }
  }

  method Radius(recon: seq<Vec>, chat: Vec, root: real -> real) returns (rad: real)
    requires IsRoot(root) && forall i :: 0 <= i < |recon| ==> |recon[i]| == |chat|
    ensures forall i :: 0 <= i < |recon| ==> NormAtMost(Minus(recon[i], chat), rad)
    ensures |recon| > 0 ==> exists i :: 0 <= i < |recon| && IsNorm(rad, Minus(recon[i], chat))
  {
    hide IsNorm, IsRoot;
    rad := 0.0;
    for i := 0 to |recon|
      invariant forall j :: 0 <= j < i ==> NormAtMost(Minus(recon[j], chat), rad)
      invariant rad >= 0.0
      invariant if i == 0 then rad == 0.0 else exists j :: 0 <= j < i && IsNorm(rad, Minus(recon[j], chat))
    {
      var d := Norm(Minus(recon[i], chat), root);
      NormIsNonNegative(d, Minus(recon[i], chat));
      if d > rad { rad := d; }
    }
  }

  // ---------------------------------------------------------------------------
  // The bounds
  // ---------------------------------------------------------------------------

  /** The least of the three inner-product bounds. */
  function BoundIp(l: QueryLut, rec: BlockRec, censcore: real): real {
    var b3 := censcore + l.qnorm * rec.cenrad;
    var b2 := rec.maxrecnorm * l.qnorm;
    var b1 := rec.smax * l.lutbound;
    var b := if b2 < b3 then b2 else b3;
    if b1 < b then b1 else b
  }

  function BoundL2(l: QueryLut, rec: BlockRec, censcore: real): real {
    -l.qnorm2 + 2.0 * BoundIp(l, rec, censcore) - rec.minnorm * rec.minnorm
  }

  datatype Metric = IP | L2

  /** A kernel's inner product in the metric's domain. */
  function LaneScore(m: Metric, l: QueryLut, ip: real, norm: real): real {
    match m
    case IP => ip
    case L2 => -l.qnorm2 + 2.0 * ip - norm * norm
  }

  function Bound(m: Metric, l: QueryLut, rec: BlockRec, censcore: real): real {
    match m
    case IP => BoundIp(l, rec, censcore)
    case L2 => BoundL2(l, rec, censcore)
  }

  /** The scan's ceiling from the largest reconstruction norm of all blocks. */
  function MaxScore(m: Metric, l: QueryLut, acc: real): real {
    match m
    case IP => acc * l.qnorm
    case L2 => -l.qnorm2 + 2.0 * (acc * l.qnorm)
  }

  lemma NormBound(q: Vec, v: Vec, qnorm: real, x: real)
    requires |q| == |v| && IsNorm(qnorm, q) && NormAtMost(v, x)
    ensures Dot(q, v) <= x * qnorm
  {
    var n: real :| IsNorm(n, v) && n <= x;
    CauchySchwarz(q, v, qnorm, n);
    NonNegative(x - n, qnorm);
  }

  /** All three bounds hold of every lane, so their least does. */
  lemma IpBoundIsSound(l: QueryLut, c: seq<real>, q: Vec, rec: BlockRec, code: Code, s: real, n: real)
    requires Symmetric(c) && IsLut(l, c, q) && |code| == |q| == |rec.cencode|
    requires Encodes(c, code) && Encodes(c, rec.cencode)
    requires LaneCovered(rec, c, Decode(c, code, s), s, n, |q|)
    ensures Dot(q, Decode(c, code, s)) <= BoundIp(l, rec, Dot(q, Decode(c, rec.cencode, rec.censcale)))
  {
    hide IsNorm, NormAtMost, Symmetric, Dot, Decode, Times, Gather;
    var r, chat := Decode(c, code, s), Decode(c, rec.cencode, rec.censcale);
    NormBound(q, r, l.qnorm, rec.maxrecnorm);
    NormBound(q, Minus(r, chat), l.qnorm, rec.cenrad);
    DotMinus(q, r, chat);
    GatherIsDot(l.lut, code, s, c, q);
    GatherBelowBound(l.lut, code, c, q);
    ScaleUp(Gather(l.lut, code), l.lutbound, s, rec.smax);
  }

  lemma SquareMonotone(a: real, b: real)
    requires 0.0 <= a <= b
    ensures a * a <= b * b
  {
    assert b * b - a * a == (b - a) * (b + a);
  }

  /** The bound is at least every lane's score, in either metric's domain. */
  lemma BoundIsSound(m: Metric, l: QueryLut, c: seq<real>, q: Vec, rec: BlockRec, code: Code, s: real, n: real)
    requires Symmetric(c) && IsLut(l, c, q) && |code| == |q| == |rec.cencode|
    requires Encodes(c, code) && Encodes(c, rec.cencode) && rec.minnorm >= 0.0
    requires LaneCovered(rec, c, Decode(c, code, s), s, n, |q|)
    ensures LaneScore(m, l, Dot(q, Decode(c, code, s)), n)
         <= Bound(m, l, rec, Dot(q, Decode(c, rec.cencode, rec.censcale)))
  {
    hide IsLut, Symmetric, BoundIp;
    IpBoundIsSound(l, c, q, rec, code, s, n);
    SquareMonotone(rec.minnorm, n);
  }

  /** The bound is what a lane of the least norm would score with the least of the
      three inner-product bounds. */
  lemma BoundIsLeast(m: Metric, l: QueryLut, rec: BlockRec, censcore: real, x: real)
    ensures Bound(m, l, rec, censcore) == LaneScore(m, l, BoundIp(l, rec, censcore), rec.minnorm)
    ensures x <= BoundIp(l, rec, censcore) <==>
              x <= rec.smax * l.lutbound && x <= rec.maxrecnorm * l.qnorm && x <= censcore + l.qnorm * rec.cenrad
  {
  }

  /** On a lane that is its block's decoded centroid, with the least norm, the
      bound is the score. */
  lemma BoundIsAttained(m: Metric, l: QueryLut, c: seq<real>, q: Vec, rec: BlockRec, code: Code, s: real, n: real)
    requires Symmetric(c) && IsLut(l, c, q) && |code| == |q| == |rec.cencode|
    requires Encodes(c, code) && Encodes(c, rec.cencode)
    requires LaneCovered(rec, c, Decode(c, code, s), s, n, |q|)
    requires Decode(c, code, s) == Decode(c, rec.cencode, rec.censcale) && rec.cenrad == 0.0 && rec.minnorm == n
    ensures LaneScore(m, l, Dot(q, Decode(c, code, s)), n)
         == Bound(m, l, rec, Dot(q, Decode(c, rec.cencode, rec.censcale)))
  {
    hide IsLut, Symmetric, BoundIp;
    IpBoundIsSound(l, c, q, rec, code, s, n);
    var ip := Dot(q, Decode(c, rec.cencode, rec.censcale));
    BoundIsLeast(m, l, rec, ip, BoundIp(l, rec, ip));
    assert l.qnorm * rec.cenrad == 0.0;
  }

  /** The squared distance, multiplied out. */
  lemma {:induction false} SquaredDistance(a: Vec, b: Vec)
    requires |a| == |b|
    ensures Dot(Minus(a, b), Minus(a, b)) == Dot(a, a) - 2.0 * Dot(a, b) + Dot(b, b)
    decreases |a|
  {
    if a != [] {
      assert Minus(a, b)[1..] == Minus(a[1..], b[1..]);
      SquaredDistance(a[1..], b[1..]);
      ExpandSquare(1.0, 1.0, a[0], b[0]);
    }
  }

  /** In the L2 domain a lane scores minus the squared distance of the query to its
      reconstruction, corrected for what reconstruction did to the norm. */
  lemma ScoreIsDistance(l: QueryLut, c: seq<real>, q: Vec, r: Vec, n: real)
    requires IsLut(l, c, q) && |r| == |q|
    ensures LaneScore(L2, l, Dot(q, r), n) == -Dot(Minus(q, r), Minus(q, r)) + Dot(r, r) - n * n
  {
    SquaredDistance(q, r);
  }

  /** So of two lanes with true norms the nearer scores higher. */
  lemma NearerScoresHigher(l: QueryLut, c: seq<real>, q: Vec, r: Vec, n: real, r': Vec, n': real)
    requires IsLut(l, c, q) && |r| == |q| == |r'| && IsNorm(n, r) && IsNorm(n', r')
    ensures LaneScore(L2, l, Dot(q, r), n) > LaneScore(L2, l, Dot(q, r'), n')
       <==> Dot(Minus(q, r), Minus(q, r)) < Dot(Minus(q, r'), Minus(q, r'))
  {
    hide Dot, Minus, LaneScore, IsLut;
    ScoreIsDistance(l, c, q, r, n);
    ScoreIsDistance(l, c, q, r', n');
  }

  /** The query stretched. */
  function Scaled(k: real, v: Vec): (r: Vec)
    ensures |r| == |v|
  {
    seq(|v|, j requires 0 <= j < |v| => Times(k, v[j]))
  }

  lemma {:induction false} DotScaled(k: real, v: Vec)
    ensures Dot(v, Scaled(k, v)) == k * Dot(v, v) && Dot(Scaled(k, v), Scaled(k, v)) == k * k * Dot(v, v)
    decreases |v|
  {
    if v != [] {
      assert Scaled(k, v)[1..] == Scaled(k, v[1..]);
      DotScaled(k, v[1..]);
      var x := v[0];
      assert x * (k * x) == k * (x * x) && (k * x) * (k * x) == k * k * (x * x);
      Distribute(k, x * x, Dot(v[1..], v[1..]));
      Distribute(k * k, x * x, Dot(v[1..], v[1..]));
    }
  }

  /** The ceiling is no higher than it need be: a vector along the query, as long as
      the longest record, reaches it. */
  lemma CeilingIsAttained(m: Metric, l: QueryLut, c: seq<real>, q: Vec, k: real)
    requires IsLut(l, c, q) && k >= 0.0
    ensures IsNorm(k * l.qnorm, Scaled(k, q))
    ensures LaneScore(m, l, Dot(q, Scaled(k, q)), 0.0) == MaxScore(m, l, k * l.qnorm)
  {
    hide Dot;
    DotScaled(k, q);
    var x := l.qnorm;
    NonNegative(k, x);
    assert (k * x) * (k * x) == k * k * (x * x);
    assert k * x * x == k * (x * x);
  }

  /** The ceiling is at least every block's bound. */
  lemma CeilingCoversBlocks(m: Metric, l: QueryLut, rec: BlockRec, censcore: real, acc: real)
    requires rec.maxrecnorm <= acc && l.qnorm >= 0.0
    ensures Bound(m, l, rec, censcore) <= MaxScore(m, l, acc)
  {
    NonNegative(acc - rec.maxrecnorm, l.qnorm);
    SquareIsNonNegative(rec.minnorm);
  }

  // ---------------------------------------------------------------------------
  // The pruned scan over coded blocks
  // ---------------------------------------------------------------------------

  datatype CodedBlock = CodedBlock(codes: seq<Code>, scales: seq<real>, norms: seq<real>, ids: seq<nat>, rec: BlockRec)

  /** The block's codes are over the codebook and its record covers its lanes. */
  ghost predicate WellStored(b: CodedBlock, c: seq<real>, dim: nat) {
    && |b.codes| == |b.ids| == |b.scales| == |b.norms|
    && (forall s :: 0 <= s < |b.codes| ==> |b.codes[s]| == dim && Encodes(c, b.codes[s]))
    && Covers(b.rec, c, seq(|b.codes|, s requires 0 <= s < |b.codes| && s < |b.scales| && Encodes(c, b.codes[s])
                                         => Decode(c, b.codes[s], b.scales[s])), b.scales, b.norms, dim)
  }

  /** The lanes the flat arm scores. */
  function Scored(m: Metric, l: QueryLut, c: seq<real>, q: Vec, b: CodedBlock): (r: Block)
    requires |b.codes| == |b.ids| == |b.scales| == |b.norms|
    requires forall s :: 0 <= s < |b.codes| ==> |b.codes[s]| == |q| && Encodes(c, b.codes[s])
    ensures |r| == |b.codes|
  {
    seq(|b.codes|, s requires 0 <= s < |b.codes| =>
      Entry(LaneScore(m, l, Dot(q, Decode(c, b.codes[s], b.scales[s])), b.norms[s]), b.ids[s]))
  }

  /** A stored block's lanes as scored, and the bound its record gives. */
  ghost predicate ScoredAndBounded(m: Metric, l: QueryLut, c: seq<real>, q: Vec, st: CodedBlock, block: Block,
                                   bound: real) {
    && WellStored(st, c, |q|) && block == Scored(m, l, c, q, st)
    && bound == Bound(m, l, st.rec, Dot(q, Decode(c, st.rec.cencode, st.rec.censcale)))
  }

  lemma LaneWithinBound(m: Metric, l: QueryLut, c: seq<real>, q: Vec, st: CodedBlock, block: Block, bound: real, s: nat)
    requires Symmetric(c) && IsLut(l, c, q) && ScoredAndBounded(m, l, c, q, st, block, bound) && s < |block|
    ensures block[s].score <= bound
  {
    hide IsLut, Symmetric, Bound, LaneScore, LaneCovered, Dot, Decode;
    BoundIsSound(m, l, c, q, st.rec, st.codes[s], st.scales[s], st.norms[s]);
  }

  /** Bounds computed from stored records dominate, so the pruned arm's heap is
      the flat arm's at every block. */
  lemma StoredBoundsDominate(m: Metric, l: QueryLut, c: seq<real>, q: Vec, store: seq<CodedBlock>,
                             blocks: seq<Block>, bounds: seq<real>)
    requires Symmetric(c) && IsLut(l, c, q) && |blocks| == |bounds| == |store|
    requires forall b :: 0 <= b < |store| ==> ScoredAndBounded(m, l, c, q, store[b], blocks[b], bounds[b])
    ensures Dominates(bounds, blocks)
  {
    hide IsLut, Symmetric, ScoredAndBounded;
    forall b, s | 0 <= b < |blocks| && 0 <= s < |blocks[b]| ensures blocks[b][s].score <= bounds[b] {
      LaneWithinBound(m, l, c, q, store[b], blocks[b], bounds[b], s);
    }
  }
}
