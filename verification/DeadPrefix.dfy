/** What a DEAD verdict is worth.

    The automaton dies on a prefix of edit units and reports a prefix of bytes.
    A caller that skips by byte prefix needs the stronger claim that no byte
    string beginning with those bytes is within budget.  `DeadPrefixExact` says
    exactly when that claim holds.
  */
module DeadPrefix {
  import opened EditDistance
  import opened EditUnits
  import opened FuzzyMatch

  /** No byte string that begins with `prefix` is within the budget. */
  ghost predicate DeadClaim(aut: Automaton, prefix: seq<byte>) {
    forall s: seq<byte> :: prefix <= s ==> Lev(aut.q, Units(s, aut.mode)) > aut.k
  }

  /** The reported prefix cuts a character in two: from the boundary after `n`
      units on, its bytes begin the encoding of `cp`, and reading `cp` there
      instead of an escape leaves the row alive. */
  ghost predicate CutsLiveCharacter(aut: Automaton, cand: seq<byte>, d: nat, n: nat, cp: nat) {
    && aut.mode == Utf8Mode && IsScalar(cp)
    && n <= |Units(cand, aut.mode)| && Offset(cand, aut.mode, n) < d <= |cand|
    && PendingFor(cand[Offset(cand, aut.mode, n)..d], cp)
    && RowAlive(aut.q, Units(cand, aut.mode)[..n] + [cp], aut.k)
  }

  /** `s` follows `c` for `n` units and then completes a character that the
      first `d` bytes of `c` leave incomplete. */
  ghost predicate Diverges(c: seq<byte>, s: seq<byte>, mode: UnitMode, n: nat, d: nat) {
    && mode == Utf8Mode && n < |Units(c, mode)| && n < |Units(s, mode)|
    && Offset(c, mode, n) < d <= |c| && !CleanAt(c, mode, n) && d <= |s|
    && IsScalar(Units(s, mode)[n])
    && Encode(Units(s, mode)[n]) <= s[Offset(c, mode, n)..]
    && PendingFor(c[Offset(c, mode, n)..d], Units(s, mode)[n])
  }

  ghost predicate Follows(c: seq<byte>, s: seq<byte>, mode: UnitMode, n: nat) {
    && n <= |Units(c, mode)| && n <= |Units(s, mode)|
    && Units(s, mode)[..n] == Units(c, mode)[..n]
    && Offset(s, mode, n) == Offset(c, mode, n)
  }

  /** One more shared unit, or the strings diverge here. */
  lemma FollowOrDiverge(c: seq<byte>, s: seq<byte>, mode: UnitMode, n: nat, d: nat)
    requires Follows(c, s, mode, n) && n < |Units(c, mode)|
    requires d <= |c| && c[..d] <= s && Offset(c, mode, n + 1) <= d
    ensures Follows(c, s, mode, n + 1) || Diverges(c, s, mode, n, d)
  {
    hide DecodeUnit, Encode, Units, Offset;
    var o := Offset(c, mode, n);
    UnitAt(c, mode, n);
    UnitAt(s, mode, n);
    var c', s' := c[o..], s[o..];
    assert c'[..d - o] == c[..d][o..] == s[..d][o..] == s'[..d - o];
    assert c[o..d] == c'[..d - o];
    SameUnitUnlessPending(c', s', d - o, mode);
    if && DecodeUnit(c', mode).unit == DecodeUnit(s', mode).unit
       && DecodeUnit(c', mode).size == DecodeUnit(s', mode).size {
      assert Units(s, mode)[..n + 1] == Units(s, mode)[..n] + [Units(s, mode)[n]];
      assert Units(c, mode)[..n + 1] == Units(c, mode)[..n] + [Units(c, mode)[n]];
    }
  }

  /** A string sharing the bytes of the first `t` units shares the units, up to
      the first that those bytes leave incomplete. */
  lemma SharedUnits(c: seq<byte>, s: seq<byte>, mode: UnitMode, t: nat) returns (n: nat)
    requires t <= |Units(c, mode)| && c[..Offset(c, mode, t)] <= s
    ensures n <= t && Follows(c, s, mode, n)
    ensures n < t ==> Diverges(c, s, mode, n, Offset(c, mode, t))
  {
    hide DecodeUnit, Encode, Units;
    n := 0;
    while n < t
      invariant n <= t && Follows(c, s, mode, n)
    {
      OffsetMonotone(c, mode, n + 1, t);
      FollowOrDiverge(c, s, mode, n, Offset(c, mode, t));
      if Diverges(c, s, mode, n, Offset(c, mode, t)) { return; }
      n := n + 1;
    }
  }

  /** Bytes after the first of an encoding are continuation bytes; the first is not. */
  lemma EncodingBytes(cp: nat)
    requires IsScalar(cp)
    ensures !IsContinuation(Encode(cp)[0])
    ensures forall i :: 0 < i < |Encode(cp)| ==> IsContinuation(Encode(cp)[i])
  {
    if cp >= 0x80 {
      EncodedShape(cp);
      forall i | 0 < i < |Encode(cp)| ensures IsContinuation(Encode(cp)[i]) {
        assert Encode(cp)[i] == Encode(cp)[1..][i - 1];
      }
    }
  }

  /** One encoding cannot begin inside another. */
  lemma NoNestedCharacters(s: seq<byte>, o: nat, p: nat, x: nat, cp: nat)
    requires IsScalar(x) && IsScalar(cp) && o < p < |s|
    requires Encode(x) <= s[o..] && Encode(cp) <= s[p..]
    ensures |Encode(x)| <= p - o
  {
    EncodingBytes(x);
    EncodingBytes(cp);
    assert s[p] == s[p..][0] == Encode(cp)[0];
    assert forall i :: 0 <= i < |Encode(x)| ==> s[o + i] == s[o..][i] == Encode(x)[i];
  }

  /** A string that shares the candidate's first `n` units' bytes, with a
      character right after them, shares the units. */
  lemma CharacterKeepsPrefix(cand: seq<byte>, s: seq<byte>, n: nat, cp: nat)
    requires n <= |Units(cand, Utf8Mode)| && Offset(cand, Utf8Mode, n) < |s| && IsScalar(cp)
    requires cand[..Offset(cand, Utf8Mode, n)] <= s && Encode(cp) <= s[Offset(cand, Utf8Mode, n)..]
    ensures Follows(cand, s, Utf8Mode, n)
  {
    var n' := SharedUnits(cand, s, Utf8Mode, n);
    if n' < n {
      var o, p := Offset(cand, Utf8Mode, n'), Offset(cand, Utf8Mode, n);
      NoNestedCharacters(s, o, p, Units(s, Utf8Mode)[n'], cp);
    }
  }

  /** The candidate's first `n` units, the completed character, then `rest`. */
  lemma CompletedUnits(cand: seq<byte>, n: nat, cp: nat, rest: seq<byte>)
    requires n <= |Units(cand, Utf8Mode)| && IsScalar(cp)
    ensures Units(cand[..Offset(cand, Utf8Mode, n)] + (Encode(cp) + rest), Utf8Mode)
         == Units(cand, Utf8Mode)[..n] + ([cp] + Units(rest, Utf8Mode))
  {
    var p := Offset(cand, Utf8Mode, n);
    var tail := Encode(cp) + rest;
    var s := cand[..p] + tail;
    assert s[p..] == tail;
    CharacterKeepsPrefix(cand, s, n, cp);
    UnitsAfter(s, Utf8Mode, n);
    UnitsOfCharacter(cp, rest);
    assert Units(s, Utf8Mode) == Units(s, Utf8Mode)[..n] + Units(s, Utf8Mode)[n..];
  }

  lemma UnitsOfCharacter(cp: nat, rest: seq<byte>)
    requires IsScalar(cp)
    ensures Units(Encode(cp) + rest, Utf8Mode) == [cp] + Units(rest, Utf8Mode)
  {
    DecodeEncoded(cp, rest);
    assert (Encode(cp) + rest)[|Encode(cp)|..] == rest;
  }

  /** Completing the cut character and then spelling out the rest of the query
      gives a string within budget. */
  lemma CompletedCharacterMatches(aut: Automaton, query: seq<byte>, cand: seq<byte>, d: nat, n: nat, cp: nat)
    requires aut.q == Units(query, aut.mode)
    requires CutsLiveCharacter(aut, cand, d, n, cp)
    ensures !DeadClaim(aut, cand[..d])
  {
    var head := Units(cand, Utf8Mode)[..n] + [cp];
    var j: nat :| j <= |aut.q| && Lev(aut.q[..j], head) <= aut.k;
    var s := CompletedString(query, j, cand, d, n, cp);
    SpellOutQuery(aut.q, head, j, aut.k);
  }

  lemma CompletedString(query: seq<byte>, j: nat, cand: seq<byte>, d: nat, n: nat, cp: nat) returns (s: seq<byte>)
    requires j <= |Units(query, Utf8Mode)| && n <= |Units(cand, Utf8Mode)| && IsScalar(cp)
    requires Offset(cand, Utf8Mode, n) < d <= |cand|
    requires PendingFor(cand[Offset(cand, Utf8Mode, n)..d], cp)
    ensures cand[..d] <= s
    ensures Units(s, Utf8Mode) == Units(cand, Utf8Mode)[..n] + [cp] + Units(query, Utf8Mode)[j..]
  {
    var rest := query[Offset(query, Utf8Mode, j)..];
    UnitsAfter(query, Utf8Mode, j);
    CompletedUnits(cand, n, cp, rest);
    ExtendsCut(cand, Offset(cand, Utf8Mode, n), d, cp, rest);
    s := cand[..Offset(cand, Utf8Mode, n)] + (Encode(cp) + rest);
  }

  lemma ExtendsCut(cand: seq<byte>, p: nat, d: nat, cp: nat, rest: seq<byte>)
    requires p < d <= |cand| && IsScalar(cp) && PendingFor(cand[p..d], cp)
    ensures cand[..d] <= cand[..p] + (Encode(cp) + rest)
  {
    assert cand[..d] == cand[..p] + cand[p..d];
  }

  lemma SpellOutQuery(q: seq<nat>, head: seq<nat>, j: nat, k: nat)
    requires j <= |q| && Lev(q[..j], head) <= k
    ensures Lev(q, head + q[j..]) <= k
  {
    LevCommonTail(q[..j], head, q[j..]);
    assert q == q[..j] + q[j..];
  }

  /** A string that begins with a dead prefix and is within budget completes a
      character the prefix cuts. */
  lemma UncutPrefixIsDead(aut: Automaton, cand: seq<byte>, t: nat, s: seq<byte>) returns (n: nat, cp: nat)
    requires t <= |Units(cand, aut.mode)| && !RowAlive(aut.q, Units(cand, aut.mode)[..t], aut.k)
    requires cand[..Offset(cand, aut.mode, t)] <= s && Lev(aut.q, Units(s, aut.mode)) <= aut.k
    ensures n < t && CutsLiveCharacter(aut, cand, Offset(cand, aut.mode, t), n, cp)
    ensures !CleanAt(cand, aut.mode, n)
  {
    hide Lev, Units, Offset, RowAlive, PendingFor, CleanAt, Encode;
    var u, us := Units(cand, aut.mode), Units(s, aut.mode);
    n := SharedUnits(cand, s, aut.mode, t);
    if n == t {
      assert us == u[..t] + us[t..];
      RowAliveIffExtensible(aut.q, u[..t], aut.k);
      assert false;
    }
    cp := us[n];
    assert us == (u[..n] + [cp]) + us[n + 1..];
    RowAliveIffExtensible(aut.q, u[..n] + [cp], aut.k);
  }

  /** A reported dead prefix is dead for every extension in bytes
      exactly when it does not cut a live character. */
  lemma DeadPrefixExact(aut: Automaton, cand: seq<byte>)
    requires aut.Valid() && Judge(aut, cand).Dead?
    ensures var d := Judge(aut, cand).bytes;
            && 0 < d <= |cand|
            && (DeadClaim(aut, cand[..d]) <==>
                !exists n: nat, cp: nat :: CutsLiveCharacter(aut, cand, d, n, cp))
  {
    var t := DeathPoint(aut, cand);
    var d := Offset(cand, aut.mode, t);
    if s: seq<byte> :| cand[..d] <= s && Lev(aut.q, Units(s, aut.mode)) <= aut.k {
      var n, cp := UncutPrefixIsDead(aut, cand, t, s);
    }
    var query :| aut.q == Units(query, aut.mode);
    if n: nat, cp: nat :| CutsLiveCharacter(aut, cand, d, n, cp) {
      CompletedCharacterMatches(aut, query, cand, d, n, cp);
    }
  }

  lemma DeathPoint(aut: Automaton, cand: seq<byte>) returns (t: nat)
    requires Judge(aut, cand).Dead?
    ensures DiesCleanlyAt(aut, cand, t) && Judge(aut, cand).bytes == Offset(cand, aut.mode, t)
    ensures 0 < Offset(cand, aut.mode, t) <= |cand|
  {
    t :| DiesCleanlyAt(aut, cand, t);
    DeathIsUnique(aut, cand, t);
    OffsetMonotone(cand, aut.mode, 0, t);
  }

  /** Every boundary of the candidate is self-delimiting. */
  ghost predicate AllClean(cand: seq<byte>, mode: UnitMode) {
    forall n: nat :: n < |Units(cand, mode)| ==> CleanAt(cand, mode, n)
  }

  /** In byte mode, and for candidates whose units are all clean, every DEAD
      verdict may be skipped on. */
  lemma CleanCandidateDeadIsDead(aut: Automaton, cand: seq<byte>)
    requires Judge(aut, cand).Dead?
    requires aut.mode == ByteMode || AllClean(cand, aut.mode)
    ensures DeadClaim(aut, cand[..Judge(aut, cand).bytes])
  {
    var t := DeathPoint(aut, cand);
    if s: seq<byte> :| cand[..Offset(cand, aut.mode, t)] <= s && Lev(aut.q, Units(s, aut.mode)) <= aut.k {
      var n, cp := UncutPrefixIsDead(aut, cand, t, s);
      assert false;
    }
  }

  /** A candidate that is a sequence of encoded characters has only clean units. */
  lemma {:induction false} ValidUtf8IsClean(cand: seq<byte>)
    requires forall n :: 0 <= n < |Units(cand, Utf8Mode)| ==> IsScalar(Units(cand, Utf8Mode)[n])
    ensures AllClean(cand, Utf8Mode)
  {
    forall n: nat | n < |Units(cand, Utf8Mode)| ensures CleanAt(cand, Utf8Mode, n) {
      OffsetStep(cand, Utf8Mode, n);
      var s := cand[Offset(cand, Utf8Mode, n)..];
      if s[0] < 0x80 || DecodeUnit(s, Utf8Mode).size > 1 { DecodedIsEncoding(s); }
    }
  }

  // ---------------------------------------------------------------------------
  // The hypothesis is needed
  // ---------------------------------------------------------------------------

  /** The encoding of U+10000. */
  ghost predicate IsRook(s: seq<byte>) {
    |s| == 4 && s[0] == 0xF0 && s[1] == 0x90 && s[2] == 0x80 && s[3] == 0x80
  }

  /** The same with its last byte replaced by an ASCII 'A'. */
  ghost predicate IsBrokenRook(s: seq<byte>) {
    |s| == 4 && s[0] == 0xF0 && s[1] == 0x90 && s[2] == 0x80 && s[3] == 0x41
  }

  lemma UnitsCons(s: seq<byte>, d: Decoded)
    requires |s| > 0 && DecodeUnit(s, Utf8Mode) == d
    ensures Units(s, Utf8Mode) == [d.unit] + Units(s[d.size..], Utf8Mode)
  {
  }

  lemma RookUnits(s: seq<byte>)
    requires IsRook(s)
    ensures Units(s, Utf8Mode) == [0x10000]
  {
    assert Encode(0x10000) == s;
    UnitsOfCharacter(0x10000, []);
    assert s + [] == s;
  }

  lemma BrokenUnits(s: seq<byte>)
    requires IsBrokenRook(s)
    ensures Units(s, Utf8Mode) == [ESCAPE + 0xF0, ESCAPE + 0x90, ESCAPE + 0x80, 0x41]
  {
    assert DecodeUnit(s, Utf8Mode) == Decoded(ESCAPE + 0xF0, 1, false) by {
      assert !IsContinuation(s[1..4][2]);
    }
    UnitsCons(s, Decoded(ESCAPE + 0xF0, 1, false));
    UnitsCons(s[1..], Decoded(ESCAPE + 0x90, 1, true));
    assert s[1..][1..] == s[2..];
    UnitsCons(s[2..], Decoded(ESCAPE + 0x80, 1, true));
    assert s[2..][1..] == s[3..];
    UnitsCons(s[3..], Decoded(0x41, 1, true));
    assert s[3..][1..] == [];
  }

  lemma BrokenBoundary(s: seq<byte>)
    requires IsBrokenRook(s)
    ensures |Units(s, Utf8Mode)| == 4 && Offset(s, Utf8Mode, 2) == 2 && CleanAt(s, Utf8Mode, 1)
  {
    BrokenUnits(s);
    UnitAt(s, Utf8Mode, 0);
    assert s[0..] == s;
    assert !IsContinuation(s[1..4][2]);
    UnitAt(s, Utf8Mode, 1);
  }

  lemma BrokenDies(aut: Automaton, u: seq<nat>)
    requires aut == Automaton([0x10000], 1, Utf8Mode)
    requires u == [ESCAPE + 0xF0, ESCAPE + 0x90, ESCAPE + 0x80, 0x41]
    ensures DiesAt(aut, u, 2)
  {
    var q := aut.q;
    var u1, u2 := u[..1], u[..2];
    assert q[..0] == [] && q[..1] == q && u2[..1] == u1 && u1[..0] == [] && u[..0] == [];
    assert Lev(q[..0], u[..0]) == 0 && Lev(q[..0], u1) == 1 && Lev(q[..0], u2) == 2;
    assert Lev(q, u1) == 1;
    assert Lev(q, u2) == 2;
    forall n: nat | n < 2 ensures RowAlive(q, u[..n], aut.k) {
      assert Lev(q[..0], u[..n]) <= aut.k;
    }
    forall j: nat | j <= |q| ensures Lev(q[..j], u2) > aut.k {
      assert j == 0 || j == 1;
    }
    assert !RowAlive(q, u[..2], aut.k);
  }

  /** The code consults only the killing unit's flag.  With query U+10000 and
      k = 1, the candidate F0 90 80 41 is reported dead after two bytes, and a
      term beginning with those two bytes is the query itself. */
  lemma DirtyUnitMakesDeadWrong(aut: Automaton, rook: seq<byte>, broken: seq<byte>)
    requires IsRook(rook) && IsBrokenRook(broken) && aut == Automaton([0x10000], 1, Utf8Mode)
    ensures aut.Valid() && Judge(aut, broken) == Dead(2)
    ensures broken[..2] <= rook && Judge(aut, rook) == Match(0)
    ensures !DeadClaim(aut, broken[..2])
  {
    RookUnits(rook);
    assert aut.q == Units(rook, aut.mode);
    LevSelf(aut.q);
    BrokenUnits(broken);
    BrokenBoundary(broken);
    BrokenDies(aut, Units(broken, Utf8Mode));
    assert DiesCleanlyAt(aut, broken, 2);
    DeathIsUnique(aut, broken, 2);
  }
}
