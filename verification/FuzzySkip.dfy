/** When the skip hook of include/weave/uleven.h's weave_uleven_expand_vocab()
    may be used: in byte mode, and for an edit budget of 0. In UTF-8 mode every
    query with a budget of at least 1 loses a hit on some sorted vocabulary.
  */
module FuzzySkip {
  import opened EditDistance
  import opened EditUnits
  import opened FuzzyMatch
  import opened DeadPrefix
  import opened FuzzyExpansion

  // ---------------------------------------------------------------------------
  // No budget
  // ---------------------------------------------------------------------------

  lemma DirtyUnitIsEscape(cand: seq<byte>, n: nat)
    requires n < |Units(cand, Utf8Mode)| && !CleanAt(cand, Utf8Mode, n)
    ensures !IsScalar(Units(cand, Utf8Mode)[n])
  {
    OffsetStep(cand, Utf8Mode, n);
  }

  /** A row without an edit to spend is alive only along the query. */
  lemma AliveAlongQuery(q: seq<nat>, u: seq<nat>)
    requires RowAlive(q, u, 0)
    ensures u <= q
  {
    var j: nat :| j <= |q| && Lev(q[..j], u) <= 0;
    LevZero(q[..j], u);
  }

  /** With a budget of 0 the query itself says how a dirty unit is completed, so
      no character is cut where the row is still alive. */
  lemma ZeroBudgetHidesNothing(aut: Automaton, cand: Term)
    requires aut.k == 0
    ensures HidesNothing(aut, cand)
  {
    hide Lev, Units, Offset, RowAlive, CleanAt, Encode, LexLeq;
    if Judge(aut, cand).Dead? {
      var t := DeathPoint(aut, cand);
      var u := Units(cand, aut.mode);
      forall s: Term | Hidden(aut, cand, s) ensures Lev(aut.q, Units(s, aut.mode)) > aut.k {
        if Lev(aut.q, Units(s, aut.mode)) <= aut.k {
          var n, cp := UncutPrefixIsDead(aut, cand, t, s);
          assert n != t - 1;
          assert RowAlive(aut.q, u[..n + 1], 0);
          AliveAlongQuery(aut.q, u[..n + 1]);
          AliveAlongQuery(aut.q, u[..n] + [cp]);
          assert aut.q[n] == u[..n + 1][n] == u[n] && aut.q[n] == (u[..n] + [cp])[n] == cp;
          DirtyUnitIsEscape(cand, n);
          assert false;
        }
      }
    }
  }

  // ---------------------------------------------------------------------------
  // A term that loses its extension
  // ---------------------------------------------------------------------------

  /** A unit is decoded alike when a byte that continues nothing follows. */
  lemma UnitBeforeLead(p: seq<byte>, t: seq<byte>)
    requires p != [] && t != [] && !IsContinuation(t[0])
    ensures DecodeUnit(p + t, Utf8Mode) == DecodeUnit(p, Utf8Mode)
  {
    var s, need := p + t, Need(p[0]);
    if 0 < need < |p| {
      assert s[1..need + 1] == p[1..need + 1];
    } else if |p| <= need < |s| {
      assert s[1..need + 1][|p| - 1] == t[0];
    }
  }

  /** So strings joined there have the units of both. */
  lemma {:induction false} UnitsJoin(p: seq<byte>, t: seq<byte>)
    requires t != [] && !IsContinuation(t[0])
    ensures Units(p + t, Utf8Mode) == Units(p, Utf8Mode) + Units(t, Utf8Mode)
    ensures Offset(p + t, Utf8Mode, |Units(p, Utf8Mode)|) == |p|
    decreases |p|
  {
    hide DecodeUnit;
    if p == [] {
      assert p + t == t;
    } else {
      UnitBeforeLead(p, t);
      var n := DecodeUnit(p, Utf8Mode).size;
      assert (p + t)[n..] == p[n..] + t;
      UnitsJoin(p[n..], t);
    }
  }

  /** `n` letters A. */
  function Letters(n: nat): (s: seq<byte>)
    ensures |s| == n && forall i :: 0 <= i < n ==> s[i] == 0x41
  {
    if n == 0 then [] else [0x41] + Letters(n - 1)
  }

  lemma {:induction false} LetterUnits(n: nat)
    ensures |Units(Letters(n), Utf8Mode)| == n
    decreases n
  {
    if n > 0 {
      UnitsCons(Letters(n), Decoded(0x41, 1, true));
      LetterUnits(n - 1);
    }
  }

  /** The first two bytes of the encoding of U+10000. */
  function Head(): seq<byte> { [0xF0, 0x90] }

  function Rook(): seq<byte> { [0xF0, 0x90, 0x80, 0x80] }

  lemma HeadUnits()
    ensures |Head()| == 2 && Head()[0] == 0xF0
    ensures Units(Head(), Utf8Mode) == [ESCAPE + 0xF0, ESCAPE + 0x90]
    ensures DecodeUnit(Head(), Utf8Mode).size == 1 && DecodeUnit(Head()[1..], Utf8Mode).clean
  {
    UnitsCons(Head(), Decoded(ESCAPE + 0xF0, 1, false));
    UnitsCons(Head()[1..], Decoded(ESCAPE + 0x90, 1, true));
  }

  /** The query, `k - 1` letters, and a head or a whole character. */
  function Long(query: seq<byte>, k: nat, tail: seq<byte>): seq<byte>
    requires k > 0
  {
    query + (Letters(k - 1) + tail)
  }

  lemma LongUnits(query: seq<byte>, k: nat, tail: seq<byte>)
    requires k > 0 && tail != [] && tail[0] == 0xF0
    ensures Units(Long(query, k, tail), Utf8Mode)
         == Units(query, Utf8Mode) + (Units(Letters(k - 1), Utf8Mode) + Units(tail, Utf8Mode))
    ensures |Units(Letters(k - 1), Utf8Mode)| == k - 1
    ensures Offset(Long(query, k, tail), Utf8Mode, |Units(query, Utf8Mode)| + (k - 1)) == |query| + (k - 1)
  {
    hide Units, Offset, DecodeUnit;
    LetterUnits(k - 1);
    UnitsJoin(Letters(k - 1), tail);
    UnitsJoin(query, Letters(k - 1) + tail);
    var front := query + Letters(k - 1);
    assert front + tail == Long(query, k, tail);
    UnitsJoin(front, tail);
    if k > 1 {
      UnitsJoin(query, Letters(k - 1));
    } else {
      assert front == query;
    }
  }

  /** Past the query, the row dies with the unit that overspends the budget. */
  lemma OverspentDies(aut: Automaton, w: seq<nat>)
    requires |w| == aut.k + 1
    ensures DiesAt(aut, aut.q + w, |aut.q| + |w|)
  {
    hide Lev;
    var u := aut.q + w;
    assert u[..|u|] == u;
    forall j: nat | j <= |aut.q| ensures Lev(aut.q[..j], u) > aut.k { LevLengthDeficit(aut.q[..j], u); }
    forall n: nat | n < |u| ensures RowAlive(aut.q, u[..n], aut.k) {
      if n <= |aut.q| {
        assert u[..n] == aut.q[..n];
        LevSelf(aut.q[..n]);
      } else {
        assert u[..n] == aut.q + w[..n - |aut.q|] && aut.q[..|aut.q|] == aut.q;
        LevAppended(aut.q, w[..n - |aut.q|]);
      }
    }
  }

  /** The head after the query and `k - 1` letters is dead at its last byte, a
      clean one, and all of it is the dead prefix. */
  lemma LongHeadDies(aut: Automaton, query: seq<byte>)
    requires aut.mode == Utf8Mode && aut.k > 0 && aut.q == Units(query, Utf8Mode)
    ensures Judge(aut, Long(query, aut.k, Head())) == Dead(|Long(query, aut.k, Head())|)
  {
    hide Judge, Units, Offset, DecodeUnit, RowAlive, Lev, Long, Head, DiesAt;
    var cand, k := Long(query, aut.k, Head()), aut.k;
    var w := Units(Letters(k - 1), Utf8Mode) + Units(Head(), Utf8Mode);
    LetterUnits(k - 1);
    HeadUnits();
    LongUnits(query, k, Head());
    OverspentDies(aut, w);
    LongHeadEnds(query, k);
    assert DiesCleanlyAt(aut, cand, |aut.q| + |w|);
    DeathIsUnique(aut, cand, |aut.q| + |w|);
  }

  lemma LongHeadEnds(query: seq<byte>, k: nat)
    requires k > 0
    ensures var s, n := Long(query, k, Head()), |Units(query, Utf8Mode)| + k + 1;
            |Units(s, Utf8Mode)| == n && CleanAt(s, Utf8Mode, n - 1) && Offset(s, Utf8Mode, n) == |s|
  {
    hide Units, Offset, DecodeUnit;
    var s, n := Long(query, k, Head()), |Units(query, Utf8Mode)| + k + 1;
    LetterUnits(k - 1);
    HeadUnits();
    LongUnits(query, k, Head());
    var o := |query| + (k - 1);
    assert s[o..] == Head() && s[o + 1..] == Head()[1..];
    UnitAt(s, Utf8Mode, n - 2);
    UnitAt(s, Utf8Mode, n - 1);
    UnitAt(s, Utf8Mode, n);
  }

  /** The same with the character completed is within the budget. */
  lemma LongRookMatches(aut: Automaton, query: seq<byte>)
    requires aut.mode == Utf8Mode && aut.k > 0 && aut.q == Units(query, Utf8Mode)
    ensures Lev(aut.q, Units(Long(query, aut.k, Rook()), Utf8Mode)) <= aut.k
  {
    hide Units, Lev;
    var k := aut.k;
    LetterUnits(k - 1);
    RookUnits(Rook());
    LongUnits(query, k, Rook());
    LevAppended(aut.q, Units(Letters(k - 1), Utf8Mode) + Units(Rook(), Utf8Mode));
  }

  /** Every UTF-8 query with an edit to spend loses a term within the budget. */
  lemma BudgetLoses(aut: Automaton, query: seq<byte>) returns (cand: Term, s: Term)
    requires aut.mode == Utf8Mode && aut.k > 0 && aut.q == Units(query, Utf8Mode)
    ensures Hidden(aut, cand, s) && Lev(aut.q, Units(s, Utf8Mode)) <= aut.k
  {
    hide Judge, Units, Lev, LexLeq;
    cand, s := Long(query, aut.k, Head()), Long(query, aut.k, Rook());
    LongHeadDies(aut, query);
    LongRookMatches(aut, query);
    assert s == cand + [0x80, 0x80];
    LexExtends(cand, [0x80, 0x80]);
    assert cand[..|cand|] == cand;
  }

  // ---------------------------------------------------------------------------
  // When the hook may be used
  // ---------------------------------------------------------------------------

  ghost predicate ExactOn(aut: Automaton, v: seq<Term>, ords: seq<nat>)
    requires |v| == |ords|
  {
    Walk(aut, v, ords, true, 0) == WithinBudget(aut, v, ords, 0)
  }

  /** The skipping walk is exact on every sorted vocabulary iff the automaton
      compares bytes or has no edit to spend. */
  lemma WalkIsExactIff(aut: Automaton)
    requires aut.Valid()
    ensures (forall v: seq<Term>, ords: seq<nat> :: |v| == |ords| && Sorted(v) ==> ExactOn(aut, v, ords))
       <==> aut.mode == ByteMode || aut.k == 0
  {
    hide Judge, Units, Lev, Walk, WithinBudget, Sorted, Hidden;
    if aut.mode == ByteMode || aut.k == 0 {
      forall v: seq<Term>, ords: seq<nat> | |v| == |ords| && Sorted(v) ensures ExactOn(aut, v, ords) {
        forall n, m | 0 <= n < m < |v| && Hidden(aut, v[n], v[m]) ensures Lev(aut.q, Units(v[m], aut.mode)) > aut.k {
          NothingHidden(aut, v[n], v[m]);
        }
        WalkIsExact(aut, v, ords, true, 0);
      }
    } else {
      var query: seq<byte> :| aut.q == Units(query, aut.mode);
      var cand, s := BudgetLoses(aut, query);
      HiddenIsLost(aut, cand, s, [0, 0]);
      assert !ExactOn(aut, [cand, s], [0, 0]);
    }
  }

  lemma NothingHidden(aut: Automaton, cand: Term, s: Term)
    requires (aut.mode == ByteMode || aut.k == 0) && Hidden(aut, cand, s)
    ensures Lev(aut.q, Units(s, aut.mode)) > aut.k
  {
    hide Judge, Units, Lev, LexLeq;
    if aut.k == 0 {
      ZeroBudgetHidesNothing(aut, cand);
    } else {
      CleanCandidateDeadIsDead(aut, cand);
    }
  }
}
