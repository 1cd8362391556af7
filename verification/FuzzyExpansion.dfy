/** Expansion of a fuzzy query over a sorted vocabulary: include/weave/uleven.h's
    weave_uleven_expand_vocab(), its iterator contract, and the sorted-array
    iterator of test/hegel/test_uleven.c.
  */
module FuzzyExpansion {
  import opened Basics
  import opened EditDistance
  import opened EditUnits
  import opened FuzzyMatch
  import opened DeadPrefix

  type Term = seq<byte>

  /** Ascending unsigned-byte order; a string sorts before its extensions. */
  predicate LexLeq(a: Term, b: Term) {
    a == [] || (b != [] && (a[0] < b[0] || (a[0] == b[0] && LexLeq(a[1..], b[1..]))))
  }

  ghost predicate Sorted(v: seq<Term>) {
    forall i, j :: 0 <= i <= j < |v| ==> LexLeq(v[i], v[j])
  }

  /** Strings sharing a prefix are contiguous in sorted order. */
  lemma {:induction false} PrefixRangeIsContiguous(p: Term, a: Term, b: Term, c: Term)
    requires LexLeq(a, b) && LexLeq(b, c) && p <= a && p <= c
    ensures p <= b
    decreases |p|
  {
    if p != [] {
      assert a[0] == p[0] == c[0];
      assert p[1..] <= a[1..] && p[1..] <= c[1..];
      PrefixRangeIsContiguous(p[1..], a[1..], b[1..], c[1..]);
      assert p == [p[0]] + p[1..] && b == [b[0]] + b[1..];
    }
  }

  /** A vocabulary cursor.  `Skip` is optional, and a sorted array bisects. */
  class Vocabulary {
    const terms: seq<Term>
    const ords: seq<nat>
    const canSkip: bool
    var at: nat

    constructor (terms: seq<Term>, ords: seq<nat>, canSkip: bool)
      requires |ords| == |terms|
      ensures this.terms == terms && this.ords == ords && this.canSkip == canSkip && at == 0
    {
      this.terms, this.ords, this.canSkip, at := terms, ords, canSkip, 0;
    }

    ghost predicate Valid()
      reads this
    {
      at <= |terms| == |ords|
    }

    method Next() returns (ok: bool, term: Term, ord: nat)
      requires Valid()
      modifies this`at
      ensures Valid() && ok == (old(at) < |terms|)
      ensures ok ==> term == terms[old(at)] && ord == ords[old(at)] && at == old(at) + 1
      ensures !ok ==> at == old(at)
    {
      if at == |terms| { return false, [], 0; }
      ok, term, ord := true, terms[at], ords[at];
      at := at + 1;
    }

    /** Advance past every remaining term that begins with `prefix`, and nothing else. */
    method Skip(prefix: Term)
      requires Valid() && Sorted(terms) && at > 0 && prefix <= terms[at - 1]
      modifies this`at
      ensures Valid() && at == SkipTo(terms, old(at), prefix)
      ensures forall i :: old(at) <= i < |terms| ==> (i < at <==> prefix <= terms[i])
    {
      var lo, hi := at, |terms|;
      while lo < hi
        invariant at <= lo <= hi <= |terms|
        invariant forall i :: at <= i < lo ==> prefix <= terms[i]
        invariant forall i :: hi <= i < |terms| ==> !(prefix <= terms[i])
      {
        var mid := lo + (hi - lo) / 2;
        if prefix <= terms[mid] {
          forall i | at <= i < mid ensures prefix <= terms[i] {
            PrefixRangeIsContiguous(prefix, terms[at - 1], terms[i], terms[mid]);
          }
          lo := mid + 1;
        } else {
          forall i | mid <= i < |terms| ensures !(prefix <= terms[i]) {
            if prefix <= terms[i] {
              PrefixRangeIsContiguous(prefix, terms[at - 1], terms[mid], terms[i]);
            }
          }
          hi := mid;
        }
      }
      SkipToUnique(terms, at, prefix, lo);
      at := lo;
    }
  }

  // ---------------------------------------------------------------------------
  // What the walk emits
  // ---------------------------------------------------------------------------

  datatype Hit = Hit(term: Term, ord: nat, dist: nat)

  /** The first index from `i` on whose term does not begin with `prefix`. */
  ghost function SkipTo(v: seq<Term>, i: nat, prefix: Term): (j: nat)
    requires i <= |v|
    ensures i <= j <= |v|
    ensures forall n :: i <= n < j ==> prefix <= v[n]
    ensures j < |v| ==> !(prefix <= v[j])
    decreases |v| - i
  {
    if i == |v| || !(prefix <= v[i]) then i else SkipTo(v, i + 1, prefix)
  }

  lemma SkipToUnique(v: seq<Term>, i: nat, prefix: Term, j: nat)
    requires i <= j <= |v|
    requires forall n :: i <= n < j ==> prefix <= v[n]
    requires j < |v| ==> !(prefix <= v[j])
    ensures SkipTo(v, i, prefix) == j
  {
  }

  /** Where the cursor stands after the term at `i` has been judged. */
  ghost function After(aut: Automaton, v: seq<Term>, skip: bool, i: nat): (j: nat)
    requires i < |v|
    ensures i < j <= |v|
  {
    var verdict := Judge(aut, v[i]);
    if skip && verdict.Dead? && verdict.bytes <= |v[i]| then SkipTo(v, i + 1, v[i][..verdict.bytes]) else i + 1
  }

  ghost function HitAt(aut: Automaton, v: seq<Term>, ords: seq<nat>, i: nat): Option<Hit>
    requires i < |v| == |ords|
  {
    var verdict := Judge(aut, v[i]);
    if verdict.Match? then Some(Hit(v[i], ords[i], verdict.dist)) else None
  }

  function Emit(hit: Option<Hit>): seq<Hit> { if hit.Some? then [hit.value] else [] }

  /** The hits from index `i` on. */
  ghost function Walk(aut: Automaton, v: seq<Term>, ords: seq<nat>, skip: bool, i: nat): seq<Hit>
    requires i <= |v| == |ords|
    decreases |v| - i
  {
    if i == |v| then [] else Emit(HitAt(aut, v, ords, i)) + Walk(aut, v, ords, skip, After(aut, v, skip, i))
  }

  /** The number of terms pulled from index `i` on. */
  ghost function Pulled(aut: Automaton, v: seq<Term>, skip: bool, i: nat): nat
    requires i <= |v|
    decreases |v| - i
  {
    if i == |v| then 0 else 1 + Pulled(aut, v, skip, After(aut, v, skip, i))
  }

  /** The number of terms pulled from index `i` on for the first `n` hits. */
  ghost function PulledFor(aut: Automaton, v: seq<Term>, ords: seq<nat>, skip: bool, i: nat, n: nat): nat
    requires i <= |v| == |ords|
    decreases |v| - i
  {
    if i == |v| || n == 0 then 0
    else 1 + PulledFor(aut, v, ords, skip, After(aut, v, skip, i), n - |Emit(HitAt(aut, v, ords, i))|)
  }

  /** Exactly the terms within the budget, in order, with their exact distance. */
  ghost function WithinBudget(aut: Automaton, v: seq<Term>, ords: seq<nat>, i: nat): seq<Hit>
    requires i <= |v| == |ords|
    decreases |v| - i
  {
    if i == |v| then []
    else
      var d := Lev(aut.q, Units(v[i], aut.mode));
      (if d <= aut.k then [Hit(v[i], ords[i], d)] else []) + WithinBudget(aut, v, ords, i + 1)
  }

  datatype ExpandStatus = Ok | NoIter | Stopped

  /** A 32-bit counter at `n`. */
  function Wrap32(n: nat): nat { n % 0x1_0000_0000 }

  lemma CountOneMore(n: nat)
    ensures Wrap32(Wrap32(n) + 1) == Wrap32(n + 1)
  {
  }

  /** The callback, if there is one, was content with every prefix so far. */
  ghost predicate Content(stop: Option<seq<Hit> -> bool>, emitted: seq<Hit>) {
    stop.Some? ==> forall n :: 0 < n <= |emitted| ==> !stop.value(emitted[..n])
  }

  lemma NothingEmitted(stop: Option<seq<Hit> -> bool>)
    ensures Content(stop, [])
  {
  }

  lemma ContentSnoc(stop: Option<seq<Hit> -> bool>, emitted: seq<Hit>, longer: seq<Hit>)
    requires Content(stop, emitted) && emitted <= longer && |longer| == |emitted| + 1
    ensures stop.None? || !stop.value(longer) ==> Content(stop, longer)
    ensures longer[..|longer| - 1] == emitted
  {
    assert longer[..|longer|] == longer;
    assert forall n :: 0 < n < |longer| ==> longer[..n] == emitted[..n];
  }

  /** What is left to do agrees with what the whole walk emits. */
  ghost predicate Agrees(aut: Automaton, v: seq<Term>, ords: seq<nat>, skip: bool, i: nat,
                         emitted: seq<Hit>, visited: nat)
    requires i <= |v| == |ords|
  {
    && emitted + Walk(aut, v, ords, skip, i) == Walk(aut, v, ords, skip, 0)
    && visited + Pulled(aut, v, skip, i) == Pulled(aut, v, skip, 0)
  }

  /** The `n` hits after the first `found` cost what is left to pull from `i`. */
  ghost predicate NextHits(aut: Automaton, v: seq<Term>, ords: seq<nat>, skip: bool, i: nat,
                           found: nat, visited: nat, n: nat)
    requires i <= |v| == |ords|
  {
    visited + PulledFor(aut, v, ords, skip, i, n) == PulledFor(aut, v, ords, skip, 0, found + n)
  }

  /** `visited` pulls have found `found` hits. */
  ghost predicate Paced(aut: Automaton, v: seq<Term>, ords: seq<nat>, skip: bool, i: nat, found: nat, visited: nat)
    requires i <= |v| == |ords|
  {
    forall n: nat :: n > 0 ==> NextHits(aut, v, ords, skip, i, found, visited, n)
  }

  lemma PacedStep(aut: Automaton, v: seq<Term>, ords: seq<nat>, skip: bool, i: nat, found: nat, visited: nat)
    requires i < |v| == |ords| && Paced(aut, v, ords, skip, i, found, visited)
    ensures var hit := HitAt(aut, v, ords, i);
            && Paced(aut, v, ords, skip, After(aut, v, skip, i), found + |Emit(hit)|, visited + 1)
            && (hit.Some? ==> visited + 1 == PulledFor(aut, v, ords, skip, 0, found + 1))
  {
    hide After, HitAt, NextHits, PulledFor;
    var j, m := After(aut, v, skip, i), |Emit(HitAt(aut, v, ords, i))|;
    var found', visited' := found + m, visited + 1;
    forall n: nat | n > 0 ensures NextHits(aut, v, ords, skip, j, found', visited', n) {
      assert NextHits(aut, v, ords, skip, i, found, visited, n + m);
      NextHitsStep(aut, v, ords, skip, i, found, visited, n);
    }
    assert Paced(aut, v, ords, skip, j, found', visited');
    if m == 1 {
      assert NextHits(aut, v, ords, skip, i, found, visited, 1);
      NextHitsStep(aut, v, ords, skip, i, found, visited, 0);
    }
  }

  lemma AgreesAtStart(aut: Automaton, v: seq<Term>, ords: seq<nat>, skip: bool)
    requires |v| == |ords|
    ensures Agrees(aut, v, ords, skip, 0, [], 0) && Paced(aut, v, ords, skip, 0, 0, 0)
  {
  }

  lemma AgreesStep(aut: Automaton, v: seq<Term>, ords: seq<nat>, skip: bool, i: nat,
                   emitted: seq<Hit>, visited: nat)
    requires i < |v| == |ords| && Agrees(aut, v, ords, skip, i, emitted, visited)
    ensures Agrees(aut, v, ords, skip, After(aut, v, skip, i),
                   emitted + Emit(HitAt(aut, v, ords, i)), visited + 1)
  {
    var hit, rest := Emit(HitAt(aut, v, ords, i)), Walk(aut, v, ords, skip, After(aut, v, skip, i));
    assert emitted + (hit + rest) == emitted + hit + rest;
  }

  lemma NextHitsStep(aut: Automaton, v: seq<Term>, ords: seq<nat>, skip: bool, i: nat, found: nat, visited: nat, n: nat)
    requires i < |v| == |ords|
    requires var m := |Emit(HitAt(aut, v, ords, i))|;
             n + m > 0 && NextHits(aut, v, ords, skip, i, found, visited, n + m)
    ensures var m := |Emit(HitAt(aut, v, ords, i))|;
            && NextHits(aut, v, ords, skip, After(aut, v, skip, i), found + m, visited + 1, n)
            && (m == 1 && n == 0 ==> visited + 1 == PulledFor(aut, v, ords, skip, 0, found + 1))
  {
    hide After, HitAt;
    PulledForStep(aut, v, ords, skip, i, n + |Emit(HitAt(aut, v, ords, i))|);
  }

  lemma PulledForStep(aut: Automaton, v: seq<Term>, ords: seq<nat>, skip: bool, i: nat, n: nat)
    requires i < |v| == |ords| && n > 0
    ensures PulledFor(aut, v, ords, skip, i, n)
         == 1 + PulledFor(aut, v, ords, skip, After(aut, v, skip, i), n - |Emit(HitAt(aut, v, ords, i))|)
  {
    hide After, HitAt;
  }

  lemma AgreesAtEnd(aut: Automaton, v: seq<Term>, ords: seq<nat>, skip: bool, i: nat,
                    emitted: seq<Hit>, visited: nat)
    requires i <= |v| == |ords| && Agrees(aut, v, ords, skip, i, emitted, visited)
    ensures emitted <= Walk(aut, v, ords, skip, 0)
    ensures i == |v| ==> emitted == Walk(aut, v, ords, skip, 0) && visited == Pulled(aut, v, skip, 0)
  {
    if i == |v| { assert emitted + [] == emitted; }
  }

  /** Pull one term, judge it, and use a dead prefix to skip. */
  method Pull(aut: Automaton, voc: Vocabulary) returns (ok: bool, hit: Option<Hit>)
    requires |aut.q| <= MAX_UNITS && voc.Valid() && (voc.canSkip ==> Sorted(voc.terms))
    modifies voc
    ensures voc.Valid() && ok == (old(voc.at) < |voc.terms|)
    ensures !ok ==> voc.at == old(voc.at)
    ensures ok ==> && voc.at == After(aut, voc.terms, voc.canSkip, old(voc.at))
                   && hit == HitAt(aut, voc.terms, voc.ords, old(voc.at))
  {
    hide Lev, Units, Judge, LexLeq, Sorted, SkipTo;
    var term, ord;
    ok, term, ord := voc.Next();
    hit := None;
    if ok {
      var r := Matches(aut, term);
      if r.Match? {
        hit := Some(Hit(term, ord, r.dist));
      } else if r.Dead? && voc.canSkip {
        ghost var t := DeathPoint(aut, term);
        voc.Skip(term[..r.bytes]);
      }
    }
  }

  /** The walk has come to `i`, having emitted and pulled as it should. */
  ghost predicate Going(aut: Automaton, v: seq<Term>, ords: seq<nat>, skip: bool, i: nat,
                        emitted: seq<Hit>, visited: nat)
    requires i <= |v| == |ords|
  {
    Agrees(aut, v, ords, skip, i, emitted, visited) && Paced(aut, v, ords, skip, i, |emitted|, visited)
  }

  lemma GoingStarts(aut: Automaton, v: seq<Term>, ords: seq<nat>, skip: bool)
    requires |v| == |ords|
    ensures Going(aut, v, ords, skip, 0, [], 0)
  {
    AgreesAtStart(aut, v, ords, skip);
  }

  /** Pull one term and add its hit, if it is one, to what has been emitted. */
  method PullOn(aut: Automaton, voc: Vocabulary, emitted: seq<Hit>, ghost visited: nat)
    returns (ok: bool, isHit: bool, emitted': seq<Hit>)
    requires |aut.q| <= MAX_UNITS && voc.Valid() && (voc.canSkip ==> Sorted(voc.terms))
    requires Going(aut, voc.terms, voc.ords, voc.canSkip, voc.at, emitted, visited)
    modifies voc
    ensures voc.Valid() && emitted' <= Walk(aut, voc.terms, voc.ords, voc.canSkip, 0)
    ensures !ok ==> && emitted' == emitted == Walk(aut, voc.terms, voc.ords, voc.canSkip, 0)
                    && visited == Pulled(aut, voc.terms, voc.canSkip, 0)
    ensures ok ==> old(voc.at) < voc.at && Going(aut, voc.terms, voc.ords, voc.canSkip, voc.at, emitted', visited + 1)
    ensures ok && !isHit ==> emitted' == emitted
    ensures ok && isHit ==> && |emitted'| == |emitted| + 1 && emitted <= emitted'
                            && visited + 1 == PulledFor(aut, voc.terms, voc.ords, voc.canSkip, 0, |emitted'|)
  {
    hide Walk, Pulled, PulledFor, After, HitAt, Agrees, Paced, Sorted;
    AgreesAtEnd(aut, voc.terms, voc.ords, voc.canSkip, voc.at, emitted, visited);
    ghost var i := voc.at;
    var hit;
    ok, hit := Pull(aut, voc);
    if !ok { return false, false, emitted; }
    AgreesStep(aut, voc.terms, voc.ords, voc.canSkip, i, emitted, visited);
    PacedStep(aut, voc.terms, voc.ords, voc.canSkip, i, |emitted|, visited);
    isHit, emitted' := hit.Some?, emitted + Emit(hit);
    AgreesAtEnd(aut, voc.terms, voc.ords, voc.canSkip, voc.at, emitted', visited + 1);
  }

  /** Stream every hit, in the iterator's order, to an optional callback that may
      ask to stop; `stop` is its answer as a function of what it has been given. */
  method Expand(aut: Automaton, voc: Vocabulary?, stop: Option<seq<Hit> -> bool>)
    returns (rc: ExpandStatus, emitted: seq<Hit>, nhits: nat, nvisited: nat)
    requires |aut.q| <= MAX_UNITS
    requires voc != null ==> voc.Valid() && voc.at == 0 && (voc.canSkip ==> Sorted(voc.terms))
    modifies voc
    ensures rc == NoIter <==> voc == null
    ensures voc != null ==> emitted <= Walk(aut, voc.terms, voc.ords, voc.canSkip, 0)
    ensures rc == Ok ==> emitted == Walk(aut, voc.terms, voc.ords, voc.canSkip, 0) && Content(stop, emitted)
    ensures rc == Ok ==> nvisited == Wrap32(Pulled(aut, voc.terms, voc.canSkip, 0))
    ensures rc == Stopped ==> nvisited == Wrap32(PulledFor(aut, voc.terms, voc.ords, voc.canSkip, 0, |emitted|))
    ensures rc == Stopped ==> && stop.Some? && |emitted| > 0 && stop.value(emitted)
                              && Content(stop, emitted[..|emitted| - 1])
    ensures nhits == Wrap32(|emitted|)
  {
    assert Wrap32(0) == 0;
    hide Walk, Pulled, PulledFor, Going, Content, Sorted, Wrap32;
    NothingEmitted(stop);
    emitted, nhits, nvisited := [], 0, 0;
    if voc == null { return NoIter, [], 0, 0; }
    ghost var visited: nat := 0;
    GoingStarts(aut, voc.terms, voc.ords, voc.canSkip);
    while true
      invariant voc.Valid()
      invariant Going(aut, voc.terms, voc.ords, voc.canSkip, voc.at, emitted, visited)
      invariant nvisited == Wrap32(visited) && nhits == Wrap32(|emitted|)
      invariant Content(stop, emitted)
      decreases |voc.terms| - voc.at
    {
      ghost var before := emitted;
      var ok, isHit;
      ok, isHit, emitted := PullOn(aut, voc, emitted, visited);
      if !ok { return Ok, emitted, nhits, nvisited; }
      CountOneMore(visited);
      visited, nvisited := visited + 1, Wrap32(nvisited + 1);
      if isHit {
        CountOneMore(|before|);
        nhits := Wrap32(nhits + 1);
        ContentSnoc(stop, before, emitted);
        if stop.Some? && stop.value(emitted) { return Stopped, emitted, nhits, nvisited; }
      }
    }
  }

  // ---------------------------------------------------------------------------
  // The walk is exact
  // ---------------------------------------------------------------------------

  /** Without a skip hook the walk pulls every term and emits exactly the terms
      within the budget. */
  lemma {:induction false} WalkWithoutSkipIsExact(aut: Automaton, v: seq<Term>, ords: seq<nat>, skip: bool, i: nat)
    requires i <= |v| == |ords| && !skip
    ensures Walk(aut, v, ords, skip, i) == WithinBudget(aut, v, ords, i)
    ensures Pulled(aut, v, skip, i) == |v| - i
    decreases |v| - i
  {
    if i < |v| { WalkWithoutSkipIsExact(aut, v, ords, skip, i + 1); }
  }

  /** No term from `cand` on that begins with its dead prefix is within the budget. */
  ghost predicate HidesNothing(aut: Automaton, cand: Term) {
    Judge(aut, cand).Dead? ==> forall s: Term :: Hidden(aut, cand, s) ==> Lev(aut.q, Units(s, aut.mode)) > aut.k
  }

  /** A skip over the dead prefix of `cand` may pass `s`. */
  ghost predicate Hidden(aut: Automaton, cand: Term, s: Term) {
    Judge(aut, cand).Dead? && Judge(aut, cand).bytes <= |cand| && cand[..Judge(aut, cand).bytes] <= s && LexLeq(cand, s)
  }

  /** Skipping over terms none of which is within the budget changes nothing. */
  lemma {:induction false} SkippedRunIsEmpty(aut: Automaton, v: seq<Term>, ords: seq<nat>, i: nat, j: nat)
    requires i <= j <= |v| == |ords|
    requires forall n :: i <= n < j ==> Lev(aut.q, Units(v[n], aut.mode)) > aut.k
    ensures WithinBudget(aut, v, ords, i) == WithinBudget(aut, v, ords, j)
    decreases j - i
  {
    hide Lev, Units;
    if i < j { SkippedRunIsEmpty(aut, v, ords, i + 1, j); }
  }

  /** With the skip hook the walk emits exactly the terms within the budget, in
      order and once per term, if no dead prefix of the vocabulary hides a later
      term of it that is within the budget. */
  lemma {:induction false} WalkIsExact(aut: Automaton, v: seq<Term>, ords: seq<nat>, skip: bool, i: nat)
    requires i <= |v| == |ords| && Sorted(v)
    requires skip ==> forall n, m :: 0 <= n < m < |v| && Hidden(aut, v[n], v[m]) ==>
                        Lev(aut.q, Units(v[m], aut.mode)) > aut.k
    ensures Walk(aut, v, ords, skip, i) == WithinBudget(aut, v, ords, i)
    decreases |v| - i
  {
    hide Judge, Units, Lev;
    if i < |v| {
      var j := After(aut, v, skip, i);
      JudgedMatch(aut, v[i]);
      forall n | i + 1 <= n < j ensures Lev(aut.q, Units(v[n], aut.mode)) > aut.k {
        assert Hidden(aut, v[i], v[n]);
      }
      SkippedRunIsEmpty(aut, v, ords, i + 1, j);
      WalkIsExact(aut, v, ords, skip, j);
    }
  }

  /** A dead prefix that hides a later term within the budget loses it: those two
      terms are a vocabulary. */
  lemma HiddenIsLost(aut: Automaton, cand: Term, s: Term, ords: seq<nat>)
    requires Hidden(aut, cand, s) && Lev(aut.q, Units(s, aut.mode)) <= aut.k && |ords| == 2
    ensures Sorted([cand, s]) && Walk(aut, [cand, s], ords, true, 0) != WithinBudget(aut, [cand, s], ords, 0)
  {
    hide Judge, Units, Lev;
    var v := [cand, s];
    LexReflexive(cand);
    LexReflexive(s);
    JudgedMatch(aut, cand);
    assert SkipTo(v, 1, cand[..Judge(aut, cand).bytes]) == 2;
    assert Walk(aut, v, ords, true, 0) == [];
    assert |WithinBudget(aut, v, ords, 1)| == 1;
  }

  lemma LexReflexive(a: Term)
    ensures LexLeq(a, a)
  {
    LexExtends(a, []);
    assert a + [] == a;
  }

  /** A string sorts before its extensions. */
  lemma {:induction false} LexExtends(a: Term, b: Term)
    ensures LexLeq(a, a + b)
    decreases |a|
  {
    if a != [] {
      assert (a + b)[1..] == a[1..] + b;
      LexExtends(a[1..], b);
    }
  }

  /** A dead prefix that cuts no live character hides nothing. */
  lemma UncutHidesNothing(aut: Automaton, cand: Term)
    requires aut.Valid() && Judge(aut, cand).Dead?
    requires !exists n: nat, cp: nat :: CutsLiveCharacter(aut, cand, Judge(aut, cand).bytes, n, cp)
    ensures HidesNothing(aut, cand)
  {
    hide Judge, Units, Lev, CutsLiveCharacter;
    DeadPrefixExact(aut, cand);
  }

  /** On a single-byte encoding, and on vocabularies of clean terms (all valid
      UTF-8 is), the skip hook never changes what is emitted. */
  lemma SkipChangesNothing(aut: Automaton, v: seq<Term>, ords: seq<nat>)
    requires |v| == |ords| && Sorted(v)
    requires aut.mode == ByteMode || forall i :: 0 <= i < |v| ==> AllClean(v[i], aut.mode)
    ensures Walk(aut, v, ords, true, 0) == Walk(aut, v, ords, false, 0) == WithinBudget(aut, v, ords, 0)
  {
    hide Judge, Units, Lev;
    forall i | 0 <= i < |v| ensures HidesNothing(aut, v[i]) {
      if Judge(aut, v[i]).Dead? { CleanCandidateDeadIsDead(aut, v[i]); }
    }
    assert forall n, m :: 0 <= n < m < |v| && Hidden(aut, v[n], v[m]) ==> HidesNothing(aut, v[n]);
    WalkIsExact(aut, v, ords, true, 0);
    WalkIsExact(aut, v, ords, false, 0);
  }

  /** The hypothesis is needed: over this sorted two-term vocabulary the skip
      hook loses the term equal to the query. */
  lemma SkipLosesAnExactMatch(aut: Automaton, rook: Term, broken: Term, ords: seq<nat>)
    requires IsRook(rook) && IsBrokenRook(broken) && aut == Automaton([0x10000], 1, Utf8Mode) && |ords| == 2
    ensures Sorted([broken, rook])
    ensures Walk(aut, [broken, rook], ords, false, 0) == [Hit(rook, ords[1], 0)]
    ensures Walk(aut, [broken, rook], ords, true, 0) == []
  {
    hide Judge, Units, Lev;
    var v := [broken, rook];
    DirtyUnitMakesDeadWrong(aut, rook, broken);
    assert LexLeq(broken, rook) && LexLeq(rook, rook) && LexLeq(broken, broken) by {
      assert LexLeq(broken[3..], rook[3..]) && LexLeq(broken[3..], broken[3..]) && LexLeq(rook[3..], rook[3..]);
      LexStep(broken, rook, 2); LexStep(broken, rook, 1); LexStep(broken, rook, 0);
      LexStep(broken, broken, 2); LexStep(broken, broken, 1); LexStep(broken, broken, 0);
      LexStep(rook, rook, 2); LexStep(rook, rook, 1); LexStep(rook, rook, 0);
      assert broken[0..] == broken && rook[0..] == rook;
    }
    assert Walk(aut, v, ords, false, 1) == [Hit(rook, ords[1], 0)];
    assert SkipTo(v, 1, broken[..2]) == 2;
  }

  lemma LexStep(a: Term, b: Term, n: nat)
    requires n < |a| && n < |b| && a[n] == b[n] && LexLeq(a[n + 1..], b[n + 1..])
    ensures LexLeq(a[n..], b[n..])
  {
    assert a[n..][1..] == a[n + 1..] && b[n..][1..] == b[n + 1..];
  }
}
