/** The bounded Levenshtein automaton of include/weave/uleven.h: building it,
    matching one candidate, and what its DEAD verdict is worth.
  */
module FuzzyMatch {
  import opened Basics
  import opened EditDistance
  import opened EditUnits

  const MAX_UNITS: nat := 255
  const MAX_K: nat := 255

  /** A query in edit units, the edit budget and the unit mode. */
  datatype Automaton = Automaton(q: seq<nat>, k: nat, mode: UnitMode) {
    ghost predicate Valid() {
      |q| <= MAX_UNITS && k <= MAX_K && exists query :: q == Units(query, mode)
    }
  }

  datatype InitResult = Built(aut: Automaton) | UnitModeError | KRange | QueryTooLong

  function ModeOf(unit: int): UnitMode { if unit == 0 then ByteMode else Utf8Mode }

  /** Build the automaton; an over-long query is refused, never truncated. */
  method Init(query: seq<byte>, k: int, unit: int) returns (r: InitResult)
    ensures r == UnitModeError <==> unit != 0 && unit != 1
    ensures r == KRange <==> (unit == 0 || unit == 1) && !(0 <= k <= MAX_K)
    ensures r == QueryTooLong <==> (unit == 0 || unit == 1) && 0 <= k <= MAX_K
                                   && |Units(query, ModeOf(unit))| > MAX_UNITS
    ensures r.Built? ==> r.aut == Automaton(Units(query, ModeOf(unit)), k, ModeOf(unit)) && r.aut.Valid()
    ensures r.Built? && unit == 0 ==> r.aut.mode == ByteMode
    ensures r.Built? && unit == 1 ==> r.aut.mode == Utf8Mode
  {
    if unit != 0 && unit != 1 { return UnitModeError; }
    if k < 0 || k > MAX_K { return KRange; }
    var mode := ModeOf(unit);
    var pos, q: seq<nat> := 0, [];
    while pos < |query|
      invariant pos <= |query| && |q| <= MAX_UNITS
      invariant q + Units(query[pos..], mode) == Units(query, mode)
    {
      assert |Units(query[pos..], mode)| > 0;
      if |q| >= MAX_UNITS { return QueryTooLong; }
      q, pos := PushUnit(query, mode, pos, q);
    }
    assert q == Units(query, mode);
    r := Built(Automaton(q, k, mode));
  }

  /** One step of the decoding loop. */
  method PushUnit(query: seq<byte>, mode: UnitMode, pos: nat, q: seq<nat>) returns (q': seq<nat>, next: nat)
    requires pos < |query|
    ensures pos < next <= |query| && |q'| == |q| + 1
    ensures q' + Units(query[next..], mode) == q + Units(query[pos..], mode)
  {
    var u, clean;
    u, next, clean := UnitEx(query, pos, mode);
    assert query[next..] == query[pos..][next - pos..];
    q' := q + [u];
  }

  // ---------------------------------------------------------------------------
  // The verdict, stated without the row
  // ---------------------------------------------------------------------------

  datatype Verdict = Match(dist: nat) | Alive | Dead(bytes: nat)

  /** After `t` units, and no sooner, nothing that goes on can be within k. */
  ghost predicate DiesAt(aut: Automaton, u: seq<nat>, t: nat) {
    && t <= |u| && !RowAlive(aut.q, u[..t], aut.k)
    && forall n: nat :: n < t ==> RowAlive(aut.q, u[..n], aut.k)
  }

  ghost predicate DiesCleanlyAt(aut: Automaton, cand: seq<byte>, t: nat) {
    && 0 < t <= |Units(cand, aut.mode)|
    && DiesAt(aut, Units(cand, aut.mode), t)
    && CleanAt(cand, aut.mode, t - 1)
  }

  /** What matching must answer: the exact distance when it is within budget;
      else the shortest dead prefix, in bytes, if it ends at a clean boundary. */
  ghost function Judge(aut: Automaton, cand: seq<byte>): Verdict {
    var u := Units(cand, aut.mode);
    if Lev(aut.q, u) <= aut.k then Match(Lev(aut.q, u))
    else if exists t: nat :: DiesCleanlyAt(aut, cand, t) then
      var t: nat :| DiesCleanlyAt(aut, cand, t);
      Dead(Offset(cand, aut.mode, t))
    else Alive
  }

  lemma JudgedMatch(aut: Automaton, cand: seq<byte>)
    ensures Judge(aut, cand).Match? <==> Lev(aut.q, Units(cand, aut.mode)) <= aut.k
    ensures Judge(aut, cand).Match? ==> Judge(aut, cand).dist == Lev(aut.q, Units(cand, aut.mode))
  {
  }

  /** One cell of the clamped row for the consumed units `u`. */
  ghost function Cell(q: seq<nat>, u: seq<nat>, j: nat, inf: nat): nat
    requires j <= |q|
  {
    Min(Lev(q[..j], u), inf)
  }

  lemma CellStep(q: seq<nat>, u: seq<nat>, c: nat, j: nat, inf: nat)
    requires 0 < j <= |q|
    ensures Cell(q, u + [c], j, inf)
         == Min(Min(Cell(q, u, j - 1, inf) + Cost(q[j - 1], c),
                    Min(Cell(q, u, j, inf) + 1, Cell(q, u + [c], j - 1, inf) + 1)), inf)
  {
    assert (u + [c])[..|u|] == u;
    assert q[..j][..j - 1] == q[..j - 1];
  }

  lemma FirstCell(q: seq<nat>, u: seq<nat>, c: nat, inf: nat)
    ensures Cell(q, u + [c], 0, inf) == Min(Cell(q, u, 0, inf) + 1, inf)
  {
  }

  lemma DeadIffAllCellsOver(q: seq<nat>, u: seq<nat>, k: nat, row: seq<nat>)
    requires |row| >= |q| + 1
    requires forall j :: 0 <= j <= |q| ==> row[j] == Cell(q, u, j, k + 1)
    ensures RowAlive(q, u, k) <==> exists j :: 0 <= j <= |q| && row[j] <= k
  {
    if RowAlive(q, u, k) {
      var j: nat :| j <= |q| && Lev(q[..j], u) <= k;
      assert row[j] <= k;
    }
    if j :| 0 <= j <= |q| && row[j] <= k {
      assert Lev(q[..j], u) <= k;
    }
  }

  lemma DeathIsUnique(aut: Automaton, cand: seq<byte>, t: nat)
    requires DiesCleanlyAt(aut, cand, t)
    ensures Judge(aut, cand) == Dead(Offset(cand, aut.mode, t))
  {
    var u := Units(cand, aut.mode);
    DeadStaysDead(aut, u, t);
    forall s: nat | DiesCleanlyAt(aut, cand, s) ensures s == t {
      DiesOnce(aut, u, s, t);
    }
  }

  lemma DiesOnce(aut: Automaton, u: seq<nat>, s: nat, t: nat)
    requires DiesAt(aut, u, s) && DiesAt(aut, u, t)
    ensures s == t
  {
  }

  lemma DeadStaysDead(aut: Automaton, u: seq<nat>, t: nat)
    requires t <= |u| && !RowAlive(aut.q, u[..t], aut.k)
    ensures Lev(aut.q, u) > aut.k
  {
    RowAliveIffExtensible(aut.q, u[..t], aut.k);
    assert u == u[..t] + u[t..];
  }

  /** Consume the unit `c`: fill `nxt` from `cur` and report its minimum. */
  method NextRow(aut: Automaton, c: nat, cur: array<nat>, nxt: array<nat>, ghost u: seq<nat>) returns (rowmin: nat)
    requires cur != nxt && cur.Length > |aut.q| && nxt.Length > |aut.q|
    requires forall j :: 0 <= j <= |aut.q| ==> cur[j] == Cell(aut.q, u, j, aut.k + 1)
    modifies nxt
    ensures forall j :: 0 <= j <= |aut.q| ==> nxt[j] == Cell(aut.q, u + [c], j, aut.k + 1)
    ensures rowmin > aut.k <==> !RowAlive(aut.q, u + [c], aut.k)
  {
    hide Lev, RowAlive;
    var m, inf := |aut.q|, aut.k + 1;
    FirstCell(aut.q, u, c, inf);
    nxt[0] := if cur[0] < inf then cur[0] + 1 else inf;
    rowmin := nxt[0];
    for j := 1 to m + 1
      invariant forall i :: 0 <= i < j ==> nxt[i] == Cell(aut.q, u + [c], i, inf)
      invariant forall i :: 0 <= i < j ==> rowmin <= nxt[i]
      invariant exists i :: 0 <= i < j && rowmin == nxt[i]
    {
      CellStep(aut.q, u, c, j, inf);
      var v := cur[j - 1] + (if aut.q[j - 1] == c then 0 else 1);
      if nxt[j - 1] + 1 < v { v := nxt[j - 1] + 1; }
      if cur[j] + 1 < v { v := cur[j] + 1; }
      if v > inf { v := inf; }
      nxt[j] := v;
      if v < rowmin { rowmin := v; }
    }
    DeadIffAllCellsOver(aut.q, u + [c], aut.k, nxt[..]);
  }

  ghost predicate AliveThrough(aut: Automaton, u: seq<nat>, t: nat)
    requires t <= |u|
  {
    forall n: nat :: n <= t ==> RowAlive(aut.q, u[..n], aut.k)
  }

  ghost predicate RowIs(aut: Automaton, u: seq<nat>, row: seq<nat>) {
    && |row| > |aut.q|
    && forall j :: 0 <= j <= |aut.q| ==> row[j] == Cell(aut.q, u, j, aut.k + 1)
  }

  /** The row for no units at all. */
  method FirstRow(aut: Automaton, row: array<nat>)
    requires row.Length > |aut.q|
    modifies row
    ensures RowIs(aut, [], row[..])
  {
    var m, inf := |aut.q|, aut.k + 1;
    for j := 0 to m + 1
      invariant forall i :: 0 <= i < j ==> row[i] == Cell(aut.q, [], i, inf)
    {
      row[j] := if j < inf then j else inf;
    }
  }

  /** Match one candidate with two clamped rows that swap roles: MATCH is answered
      exactly within the budget, with the exact distance. */
  method Matches(aut: Automaton, cand: seq<byte>) returns (v: Verdict)
    requires |aut.q| <= MAX_UNITS
    ensures v == Judge(aut, cand)
    ensures v.Match? <==> Lev(aut.q, Units(cand, aut.mode)) <= aut.k
    ensures v.Match? ==> v.dist == Lev(aut.q, Units(cand, aut.mode))
  {
    hide Judge, Units, Offset, DecodeUnit, Lev, RowAlive;
    JudgedMatch(aut, cand);
    UnitsAtEnds(cand, aut.mode);
    var cur, nxt := new nat[MAX_UNITS + 1], new nat[MAX_UNITS + 1];
    FirstRow(aut, cur);
    var pos := 0;
    ghost var u := Units(cand, aut.mode);
    ghost var t: nat := 0;
    StartsAlive(aut, u);
    while pos < |cand|
      invariant t <= |u| && pos == Offset(cand, aut.mode, t)
      invariant u[t..] == Units(cand[pos..], aut.mode)
      invariant cur != nxt && cur.Length == nxt.Length == MAX_UNITS + 1
      invariant fresh(cur) && fresh(nxt)
      invariant RowIs(aut, u[..t], cur[..])
      invariant AliveThrough(aut, u, t)
    {
      var c, next, clean := UnitEx(cand, pos, aut.mode);
      ConsumeUnit(cand, aut.mode, t);
      assert forall j :: 0 <= j <= |aut.q| ==> cur[j] == cur[..][j];
      var rowmin := NextRow(aut, c, cur, nxt, u[..t]);
      cur, nxt := nxt, cur;
      pos, t := next, t + 1;
      if rowmin > aut.k {
        DeadVerdict(aut, cand, t);
        if !clean { return Alive; }
        return Dead(pos);
      }
    }
    assert cand[pos..] == [] && u[..t] == u;
    LiveVerdict(aut, cand, cur[..]);
    if cur[|aut.q|] <= aut.k { return Match(cur[|aut.q|]); }
    return Alive;
  }

  lemma StartsAlive(aut: Automaton, u: seq<nat>)
    ensures AliveThrough(aut, u, 0)
  {
    assert Lev(aut.q[..0], u[..0]) == 0;
  }

  lemma ConsumeUnit(cand: seq<byte>, mode: UnitMode, t: nat)
    requires t <= |Units(cand, mode)| && Offset(cand, mode, t) < |cand|
    requires Units(cand, mode)[t..] == Units(cand[Offset(cand, mode, t)..], mode)
    ensures var u, o := Units(cand, mode), Offset(cand, mode, t);
            var d := DecodeUnit(cand[o..], mode);
            && t < |u| && u[..t + 1] == u[..t] + [d.unit]
            && Offset(cand, mode, t + 1) == o + d.size
            && u[t + 1..] == Units(cand[o + d.size..], mode)
            && CleanAt(cand, mode, t) == d.clean
  {
    hide DecodeUnit;
    assert |Units(cand[Offset(cand, mode, t)..], mode)| > 0;
    OffsetStep(cand, mode, t);
    UnitsAfter(cand, mode, t + 1);
  }

  lemma DeadVerdict(aut: Automaton, cand: seq<byte>, t: nat)
    requires 0 < t <= |Units(cand, aut.mode)|
    requires AliveThrough(aut, Units(cand, aut.mode), t - 1)
    requires !RowAlive(aut.q, Units(cand, aut.mode)[..t], aut.k)
    ensures Judge(aut, cand) == if CleanAt(cand, aut.mode, t - 1) then Dead(Offset(cand, aut.mode, t)) else Alive
  {
    var u := Units(cand, aut.mode);
    DeadStaysDead(aut, u, t);
    assert DiesAt(aut, u, t);
    if CleanAt(cand, aut.mode, t - 1) {
      assert DiesCleanlyAt(aut, cand, t);
      DeathIsUnique(aut, cand, t);
    } else {
      forall s: nat ensures !DiesCleanlyAt(aut, cand, s) {
        if DiesCleanlyAt(aut, cand, s) { DiesOnce(aut, u, s, t); }
      }
    }
  }

  lemma UnitsAtEnds(cand: seq<byte>, mode: UnitMode)
    ensures Offset(cand, mode, 0) == 0 && Units([], mode) == []
    ensures Units(cand, mode)[0..] == Units(cand[0..], mode)
  {
    assert cand[0..] == cand;
  }

  /** A candidate that never dies is judged by the last cell of its last row. */
  lemma LiveVerdict(aut: Automaton, cand: seq<byte>, row: seq<nat>)
    requires RowIs(aut, Units(cand, aut.mode), row)
    requires AliveThrough(aut, Units(cand, aut.mode), |Units(cand, aut.mode)|)
    ensures Judge(aut, cand) == if row[|aut.q|] <= aut.k then Match(row[|aut.q|]) else Alive
  {
    forall s: nat ensures !DiesCleanlyAt(aut, cand, s) { }
    assert aut.q[..|aut.q|] == aut.q;
  }
}
