/** Comparison predicates over a docvalues store: the signed evaluator, the two
    boundary searches of a text dictionary, and the ordinal evaluator, which must
    answer as a comparison of the strings would (include/weave/docvals.h:542-799).
  */
module DocvalText {
  import opened Basics
  import opened Bits
  import opened DocvalStore

  datatype Strategy = LT | LE | EQ | GE | GT

  /** How a comparison result answers an operator. */
  predicate Holds(op: Strategy, c: int) {
    match op
    case LT => c < 0
    case LE => c <= 0
    case EQ => c == 0
    case GE => c >= 0
    case GT => c > 0
  }

  // ---------------------------------------------------------------------------
  // Selecting documents
  // ---------------------------------------------------------------------------

  /** The documents below `n` that are not NULL and whose value `pick` accepts. */
  function Selected(img: Image, pick: int -> bool, n: nat): (r: seq<uint64>)
    requires FixedPart(img) && n <= HeaderOf(img).ndocs
  {
    if n == 0 then []
    else if Chosen(img, pick, n - 1) then Selected(img, pick, n - 1) + [Docid(img, n - 1)]
    else Selected(img, pick, n - 1)
  }

  predicate Chosen(img: Image, pick: int -> bool, i: nat)
    requires FixedPart(img) && i < HeaderOf(img).ndocs
  {
    !IsNull(img, i) && pick(Value(img, i))
  }

  ghost predicate ChosenDoc(img: Image, pick: int -> bool, i: nat, d: uint64)
    requires FixedPart(img) && i < HeaderOf(img).ndocs
  {
    Docid(img, i) == d && !IsNull(img, i) && pick(Value(img, i))
  }

  lemma AscendsSnoc(r: seq<uint64>, last: uint64)
    requires Ascends(r) && forall a :: 0 <= a < |r| ==> r[a] < last
    ensures Ascends(r + [last])
  {
    var s := r + [last];
    forall a, b | 0 <= a < b < |s| ensures s[a] < s[b] {
      assert s[a] == r[a];
      if b < |r| { assert s[b] == r[b] && r[a] < r[b]; }
    }
  }

  /** The selection ascends and holds exactly the accepted documents. */
  lemma {:induction false} SelectedIsExact(img: Image, pick: int -> bool, n: nat)
    requires FixedPart(img) && DocidsAscend(img) && n <= HeaderOf(img).ndocs
    ensures var r := Selected(img, pick, n);
            && Ascends(r)
            && (forall d: uint64 :: d in r <==> HasDoc(img, pick, n, d))
    decreases n
  {
    hide FixedPart, Docid, Chosen, HasDoc;
    if n == 0 {
      forall d: uint64 ensures !HasDoc(img, pick, 0, d) { HasNone(img, pick, d); }
    } else {
      SelectedIsExact(img, pick, n - 1);
      var r, last := Selected(img, pick, n - 1), Docid(img, n - 1);
      forall a | 0 <= a < |r| ensures r[a] < last {
        assert r[a] in r;
        SelectedBefore(img, pick, n - 1, r[a]);
      }
      AscendsSnoc(r, last);
      forall d: uint64 ensures HasDoc(img, pick, n, d) <==> d in r || (d == last && Chosen(img, pick, n - 1)) {
        HasDocStep(img, pick, n, d);
        ChosenIs(img, pick, n - 1, d);
      }
    }
  }

  lemma ChosenIs(img: Image, pick: int -> bool, i: nat, d: uint64)
    requires FixedPart(img) && i < HeaderOf(img).ndocs
    ensures ChosenDoc(img, pick, i, d) <==> Docid(img, i) == d && Chosen(img, pick, i)
  {
    hide FixedPart, Docid, IsNull, Value;
  }

  ghost predicate HasDoc(img: Image, pick: int -> bool, n: nat, d: uint64)
    requires FixedPart(img) && n <= HeaderOf(img).ndocs
  {
    exists i :: 0 <= i < n && ChosenDoc(img, pick, i, d)
  }

  lemma HasNone(img: Image, pick: int -> bool, d: uint64)
    requires FixedPart(img)
    ensures !HasDoc(img, pick, 0, d)
  {
  }

  lemma HasDocStep(img: Image, pick: int -> bool, n: nat, d: uint64)
    requires FixedPart(img) && 0 < n <= HeaderOf(img).ndocs
    ensures HasDoc(img, pick, n, d) <==> HasDoc(img, pick, n - 1, d) || ChosenDoc(img, pick, n - 1, d)
  {
    hide FixedPart, ChosenDoc;
    if HasDoc(img, pick, n, d) {
      var i :| 0 <= i < n && ChosenDoc(img, pick, i, d);
    }
  }

  lemma SelectedBefore(img: Image, pick: int -> bool, n: nat, d: uint64)
    requires FixedPart(img) && DocidsAscend(img) && n < HeaderOf(img).ndocs && HasDoc(img, pick, n, d)
    ensures d < Docid(img, n)
  {
    hide FixedPart, Docid;
    var i :| 0 <= i < n && ChosenDoc(img, pick, i, d);
  }

  /** Write the selection, at most `outcap` of it; the true count is returned. */
  ghost predicate Written(out: array<uint64>, outcap: nat, r: seq<uint64>, count: nat)
    reads out
  {
    count == |r| && forall k :: 0 <= k < count && k < outcap && k < out.Length ==> out[k] == r[k]
  }

  predicate CompareInt(op: Strategy, v: int, c: int) {
    match op
    case LT => v < c
    case LE => v <= c
    case EQ => v == c
    case GE => v >= c
    case GT => v > c
  }

  lemma CompareIsHolds(op: Strategy, v: int, c: int)
    ensures CompareInt(op, v, c) <==> Holds(op, v - c)
  {
  }

  /** What each operator selects among signed values, in order. */
  ghost predicate SelectsInt(img: Image, op: Strategy, c: int, out: array<uint64>, outcap: nat, count: nat)
    requires FixedPart(img)
    reads out
  {
    var n := HeaderOf(img).ndocs;
    match op
    case LT => Written(out, outcap, Selected(img, v => v < c, n), count)
    case LE => Written(out, outcap, Selected(img, v => v <= c, n), count)
    case EQ => Written(out, outcap, Selected(img, v => v == c, n), count)
    case GE => Written(out, outcap, Selected(img, v => v >= c, n), count)
    case GT => Written(out, outcap, Selected(img, v => v > c, n), count)
  }

  lemma {:induction false} SameSelection(img: Image, pick: int -> bool, pick': int -> bool, n: nat)
    requires FixedPart(img) && n <= HeaderOf(img).ndocs && forall v :: pick(v) == pick'(v)
    ensures Selected(img, pick, n) == Selected(img, pick', n)
    decreases n
  {
    hide FixedPart, IsNull, Value, Docid;
    if n > 0 { SameSelection(img, pick, pick', n - 1); }
  }

  lemma SelectionByOperator(img: Image, op: Strategy, c: int, out: array<uint64>, outcap: nat, count: nat)
    requires FixedPart(img)
    requires Written(out, outcap, Selected(img, v => Holds(op, v - c), HeaderOf(img).ndocs), count)
    ensures SelectsInt(img, op, c, out, outcap, count)
  {
    hide Selected, Written;
    var n, pick := HeaderOf(img).ndocs, (v: int) => Holds(op, v - c);
    forall v: int ensures pick(v) == Holds(op, v - c) {}
    match op
    case LT =>
      var want := (v: int) => v < c;
      forall v: int ensures want(v) == (v < c) {}
      SameSelection(img, pick, want, n);
    case LE =>
      var want := (v: int) => v <= c;
      forall v: int ensures want(v) == (v <= c) {}
      SameSelection(img, pick, want, n);
    case EQ =>
      var want := (v: int) => v == c;
      forall v: int ensures want(v) == (v == c) {}
      SameSelection(img, pick, want, n);
    case GE =>
      var want := (v: int) => v >= c;
      forall v: int ensures want(v) == (v >= c) {}
      SameSelection(img, pick, want, n);
    case GT =>
      var want := (v: int) => v > c;
      forall v: int ensures want(v) == (v > c) {}
      SameSelection(img, pick, want, n);
  }

  /** weave_dv_eval_int8(). */
  method EvalInt8(img: Image, op: Strategy, c: int, out: array<uint64>, outcap: nat) returns (count: nat)
    requires WellFormed(img) && HeaderOf(img).version != 3 && outcap <= out.Length
    modifies out
    ensures FixedPart(img) && SelectsInt(img, op, c, out, outcap, count)
    ensures out[outcap..] == old(out[outcap..])
  {
    hide FixedPart, IsNull, Value, Docid, WellFormed, Holds, SelectsInt;
    FixedOf(img);
    ghost var pick := v => Holds(op, v - c);
    count := 0;
    for i := 0 to HeaderOf(img).ndocs
      invariant Written(out, outcap, Selected(img, pick, i), count)
      invariant out[outcap..] == old(out[outcap..])
    {
      if !IsNull(img, i) {
        var v := Value(img, i);
        CompareIsHolds(op, v, c);
        if CompareInt(op, v, c) {
          if count < outcap { out[count] := Docid(img, i); }
          count := count + 1;
        }
      }
    }
    SelectionByOperator(img, op, c, out, outcap, count);
  }

  lemma FixedOf(img: Image)
    requires WellFormed(img)
    ensures FixedPart(img) && |img| >= HEADER && DocidsAscend(img)
    ensures HeaderOf(img).version == 3 ==> DictOk(img) && DictFits(img) && OrdinalsName(img)
  {
  }

  /** An ordinal against the constant's boundaries. */
  predicate CompareOrd(op: Strategy, o: int, lo: nat, hi: nat) {
    match op
    case LT => o < lo
    case LE => o < hi
    case EQ => o >= lo && o < hi
    case GE => o >= lo
    case GT => o >= hi
  }

  /** weave_dv_eval_ord(). */
  method EvalOrd(img: Image, op: Strategy, lo: nat, hi: nat, out: array<uint64>, outcap: nat) returns (count: nat)
    requires WellFormed(img) && HeaderOf(img).version == 3 && outcap <= out.Length
    modifies out
    ensures Written(out, outcap, Selected(img, o => CompareOrd(op, o, lo, hi), HeaderOf(img).ndocs), count)
    ensures out[outcap..] == old(out[outcap..])
  {
    hide FixedPart, IsNull, Value, Docid, WellFormed, Holds;
    FixedOf(img);
    ghost var pick := o => CompareOrd(op, o, lo, hi);
    count := 0;
    for i := 0 to HeaderOf(img).ndocs
      invariant Written(out, outcap, Selected(img, pick, i), count)
      invariant out[outcap..] == old(out[outcap..])
    {
      if !IsNull(img, i) {
        var o := Value(img, i);
        if CompareOrd(op, o, lo, hi) {
          if count < outcap { out[count] := Docid(img, i); }
          count := count + 1;
        }
      }
    }
  }

  // ---------------------------------------------------------------------------
  // The dictionary's order
  // ---------------------------------------------------------------------------

  type Text = seq<byte>

  /** A comparator: the sign of its answer is a total order on strings. */
  ghost predicate TotalOrder(cmp: (Text, Text) -> int) {
    && (forall a: Text, b: Text :: (cmp(a, b) < 0 <==> cmp(b, a) > 0) && (cmp(a, b) == 0 <==> cmp(b, a) == 0))
    && (forall a: Text, b: Text, c: Text :: cmp(a, b) <= 0 && cmp(b, c) <= 0 ==> cmp(a, c) <= 0)
    && (forall a: Text, b: Text, c: Text :: cmp(a, b) < 0 && cmp(b, c) <= 0 ==> cmp(a, c) < 0)
  }

  ghost predicate DictAscends(img: Image, cmp: (Text, Text) -> int)
    requires DictOk(img)
  {
    forall i, j :: 0 <= i < j < Ndict(img) ==> cmp(Entry(img, i), Entry(img, j)) < 0
  }

  /** The first `b` entries compare below `key`, or not above it if `inclusive`,
      and no later entry does. */
  ghost predicate Boundary(img: Image, cmp: (Text, Text) -> int, key: Text, inclusive: bool, b: nat)
    requires DictOk(img)
  {
    && b <= Ndict(img)
    && (forall i :: 0 <= i < b ==> Before(cmp(Entry(img, i), key), inclusive))
    && (forall i :: b <= i < Ndict(img) ==> !Before(cmp(Entry(img, i), key), inclusive))
  }

  predicate Before(c: int, inclusive: bool) { if inclusive then c <= 0 else c < 0 }

  lemma EntriesBefore(img: Image, cmp: (Text, Text) -> int, key: Text, inclusive: bool, i: nat, j: nat)
    requires DictOk(img) && TotalOrder(cmp) && DictAscends(img, cmp) && i <= j < Ndict(img)
    ensures Before(cmp(Entry(img, j), key), inclusive) ==> Before(cmp(Entry(img, i), key), inclusive)
  {
    hide Entry, DictOk;
    if i < j { assert cmp(Entry(img, i), Entry(img, j)) < 0; }
  }

  /** weave_dv_dict_lower_bound(): how many entries compare below `key`. */
  method LowerBound(img: Image, key: Text, cmp: (Text, Text) -> int) returns (lo: nat)
    requires DictOk(img) && TotalOrder(cmp) && DictAscends(img, cmp)
    ensures Boundary(img, cmp, key, false, lo)
  {
    hide Entry, DictFits, TotalOrder, DictAscends;
    lo := 0;
    var hi := Ndict(img);
    while lo < hi
      invariant lo <= hi <= Ndict(img)
      invariant forall i :: 0 <= i < lo ==> Before(cmp(Entry(img, i), key), false)
      invariant forall i :: hi <= i < Ndict(img) ==> !Before(cmp(Entry(img, i), key), false)
    {
      var mid := lo + (hi - lo) / 2;
      forall i, j | 0 <= i <= j < Ndict(img)
        ensures Before(cmp(Entry(img, j), key), false) ==> Before(cmp(Entry(img, i), key), false)
      {
        EntriesBefore(img, cmp, key, false, i, j);
      }
      if cmp(Entry(img, mid), key) < 0 { lo := mid + 1; } else { hi := mid; }
    }
  }

  /** weave_dv_dict_upper_bound(): how many entries compare at or below `key`. */
  method UpperBound(img: Image, key: Text, cmp: (Text, Text) -> int) returns (lo: nat)
    requires DictOk(img) && TotalOrder(cmp) && DictAscends(img, cmp)
    ensures Boundary(img, cmp, key, true, lo)
  {
    hide Entry, DictFits, TotalOrder, DictAscends;
    lo := 0;
    var hi := Ndict(img);
    while lo < hi
      invariant lo <= hi <= Ndict(img)
      invariant forall i :: 0 <= i < lo ==> Before(cmp(Entry(img, i), key), true)
      invariant forall i :: hi <= i < Ndict(img) ==> !Before(cmp(Entry(img, i), key), true)
    {
      var mid := lo + (hi - lo) / 2;
      forall i, j | 0 <= i <= j < Ndict(img)
        ensures Before(cmp(Entry(img, j), key), true) ==> Before(cmp(Entry(img, i), key), true)
      {
        EntriesBefore(img, cmp, key, true, i, j);
      }
      if cmp(Entry(img, mid), key) <= 0 { lo := mid + 1; } else { hi := mid; }
    }
  }

  /** The ordinal's place between the boundaries is the string's place beside the
      constant, whether or not the constant is in the dictionary. */
  lemma OrdinalIsString(img: Image, cmp: (Text, Text) -> int, key: Text, op: Strategy, lo: nat, hi: nat, o: nat)
    requires DictOk(img) && o < Ndict(img)
    requires Boundary(img, cmp, key, false, lo) && Boundary(img, cmp, key, true, hi)
    ensures CompareOrd(op, o, lo, hi) <==> Holds(op, cmp(Entry(img, o), key))
  {
    hide Entry, DictOk;
    assert Before(cmp(Entry(img, o), key), false) <==> o < lo;
    assert Before(cmp(Entry(img, o), key), true) <==> o < hi;
  }

  /** At most one entry equals the constant. */
  lemma BoundariesMeet(img: Image, cmp: (Text, Text) -> int, key: Text, lo: nat, hi: nat)
    requires DictOk(img) && TotalOrder(cmp) && DictAscends(img, cmp)
    requires Boundary(img, cmp, key, false, lo) && Boundary(img, cmp, key, true, hi)
    ensures lo <= hi <= lo + 1
    ensures hi == lo + 1 <==> exists i :: 0 <= i < Ndict(img) && cmp(Entry(img, i), key) == 0
  {
    hide Entry, DictFits;
    if hi < lo { Side(img, cmp, key, lo, hi, hi); }
    if lo + 1 < hi {
      NotBothEqual(img, cmp, key, lo, lo + 1);
      Side(img, cmp, key, lo, hi, lo);
      Side(img, cmp, key, lo, hi, lo + 1);
    }
    if lo < hi { Side(img, cmp, key, lo, hi, lo); }
    forall i | 0 <= i < Ndict(img) ensures cmp(Entry(img, i), key) == 0 <==> lo <= i < hi {
      Side(img, cmp, key, lo, hi, i);
    }
  }

  lemma Side(img: Image, cmp: (Text, Text) -> int, key: Text, lo: nat, hi: nat, i: nat)
    requires DictOk(img) && Boundary(img, cmp, key, false, lo) && Boundary(img, cmp, key, true, hi) && i < Ndict(img)
    ensures (cmp(Entry(img, i), key) < 0 <==> i < lo) && (cmp(Entry(img, i), key) <= 0 <==> i < hi)
  {
    hide Entry, DictFits;
    assert Before(cmp(Entry(img, i), key), false) <==> i < lo;
    assert Before(cmp(Entry(img, i), key), true) <==> i < hi;
  }

  lemma NotBothEqual(img: Image, cmp: (Text, Text) -> int, key: Text, i: nat, j: nat)
    requires DictOk(img) && TotalOrder(cmp) && DictAscends(img, cmp) && i < j < Ndict(img)
    ensures cmp(Entry(img, i), key) != 0 || cmp(Entry(img, j), key) != 0
  {
    hide Entry, DictFits;
    assert cmp(Entry(img, i), Entry(img, j)) < 0;
  }

  /** Whether the document's string answers the operator; NULL answers none. */
  ghost predicate TextMatches(img: Image, cmp: (Text, Text) -> int, key: Text, op: Strategy, i: nat)
    requires WellFormed(img) && HeaderOf(img).version == 3 && i < HeaderOf(img).ndocs
  {
    && !IsNull(img, i)
    && var c := cmp(Entry(img, Value(img, i)), key);
       match op
       case LT => c < 0
       case LE => c <= 0
       case EQ => c == 0
       case GE => c >= 0
       case GT => c > 0
  }

  lemma TextHolds(img: Image, cmp: (Text, Text) -> int, key: Text, op: Strategy, i: nat)
    requires WellFormed(img) && HeaderOf(img).version == 3 && i < HeaderOf(img).ndocs
    ensures TextMatches(img, cmp, key, op, i) <==> !IsNull(img, i) && Holds(op, cmp(Entry(img, Value(img, i)), key))
  {
    hide WellFormed, IsNull, Entry, Value;
  }

  ghost predicate MatchingDoc(img: Image, cmp: (Text, Text) -> int, key: Text, op: Strategy, i: nat, d: uint64)
    requires WellFormed(img) && HeaderOf(img).version == 3 && i < HeaderOf(img).ndocs
  {
    Docid(img, i) == d && TextMatches(img, cmp, key, op, i)
  }

  /** Resolve the constant to its boundaries, then evaluate: the documents written
      are, ascending, exactly those whose string answers the operator. */
  method EvalText(img: Image, op: Strategy, key: Text, cmp: (Text, Text) -> int, out: array<uint64>)
    returns (count: nat)
    requires WellFormed(img) && HeaderOf(img).version == 3 && HeaderOf(img).ndocs <= out.Length
    requires TotalOrder(cmp) && DictAscends(img, cmp)
    modifies out
    ensures count <= out.Length
    ensures Ascends(out[..count])
    ensures forall d :: d in out[..count] <==>
              exists i :: 0 <= i < HeaderOf(img).ndocs && MatchingDoc(img, cmp, key, op, i, d)
  {
    hide FixedPart, DictOk, DictFits, IsNull, Value, Docid, WellFormed, Entry, TotalOrder, DictAscends, DocidsAscend;
    hide TextMatches, Holds;
    FixedOf(img);
    var lo := LowerBound(img, key, cmp);
    var hi := UpperBound(img, key, cmp);
    ghost var n, pick := HeaderOf(img).ndocs, o => CompareOrd(op, o, lo, hi);
    ghost var r := Selected(img, pick, n);
    count := EvalOrd(img, op, lo, hi, out, HeaderOf(img).ndocs);
    SelectedIsExact(img, pick, n);
    SelectedShort(img, pick, n);
    assert out[..count] == r;
    forall i, d | 0 <= i < n ensures MatchingDoc(img, cmp, key, op, i, d) <==> ChosenDoc(img, pick, i, d) {
      TextHolds(img, cmp, key, op, i);
      if !IsNull(img, i) { OrdinalIsString(img, cmp, key, op, lo, hi, Value(img, i)); }
    }
  }

  lemma {:induction false} SelectedShort(img: Image, pick: int -> bool, n: nat)
    requires FixedPart(img) && n <= HeaderOf(img).ndocs
    ensures |Selected(img, pick, n)| <= n
    decreases n
  {
    if n > 0 { SelectedShort(img, pick, n - 1); }
  }
}
