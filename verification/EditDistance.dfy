/** Levenshtein distance over an arbitrary edit unit.

    `Lev` is the textbook recurrence that both the bounded automaton
    (include/weave/uleven.h) and the reference dynamic program
    (bench/edist_bound.c) evaluate row by row.  The recurrence is not taken on
    trust: `LevIsShortestScript` shows that it is the length of the shortest
    chain of single insertions, deletions and substitutions.
  */
module EditDistance {
  import opened Basics

  function Cost<T(==)>(x: T, y: T): nat { if x == y then 0 else 1 }

  /** The distance between two unit sequences, peeling the last unit of each. */
  function Lev<T(==)>(a: seq<T>, b: seq<T>): nat
    decreases |a| + |b|
  {
    if |a| == 0 then |b|
    else if |b| == 0 then |a|
    else
      var a', b' := a[..|a| - 1], b[..|b| - 1];
      Min(Lev(a', b') + Cost(a[|a| - 1], b[|b| - 1]),
          Min(Lev(a, b') + 1, Lev(a', b) + 1))
  }

  // ---------------------------------------------------------------------------
  // The independent definition: chains of single edits
  // ---------------------------------------------------------------------------

  /** One edit at index `i`: delete x[i], insert y[i], or substitute it. */
  ghost predicate EditAt<T(!new)>(x: seq<T>, y: seq<T>, i: nat) {
    || (i < |x| && y == x[..i] + x[i + 1..])
    || (i < |y| && x == y[..i] + y[i + 1..])
    || (i < |x| && |x| == |y| && x[..i] == y[..i] && x[i + 1..] == y[i + 1..])
  }

  ghost predicate OneEdit<T(!new)>(x: seq<T>, y: seq<T>) {
    exists i: nat :: EditAt(x, y, i)
  }

  /** A chain of single edits leading from the first string to the last. */
  ghost predicate Script<T(!new)>(path: seq<seq<T>>, a: seq<T>, b: seq<T>) {
    && |path| > 0 && path[0] == a && path[|path| - 1] == b
    && forall i :: 0 <= i < |path| - 1 ==> OneEdit(path[i], path[i + 1])
  }

  /** Every unit of `s` occurs in `a` or in `b`. */
  ghost predicate Within<T(!new)>(s: seq<T>, a: seq<T>, b: seq<T>) {
    forall x | x in s :: x in a || x in b
  }

  ghost predicate PathWithin<T(!new)>(path: seq<seq<T>>, a: seq<T>, b: seq<T>) {
    forall i :: 0 <= i < |path| ==> Within(path[i], a, b)
  }

  // ---------------------------------------------------------------------------
  // Lev is attained by a script
  // ---------------------------------------------------------------------------

  function AppendAll<T>(path: seq<seq<T>>, c: T): seq<seq<T>> {
    seq(|path|, i requires 0 <= i < |path| => path[i] + [c])
  }

  lemma EditAtAppend<T(!new)>(x: seq<T>, y: seq<T>, i: nat, c: T)
    requires EditAt(x, y, i)
    ensures EditAt(x + [c], y + [c], i)
  {
    if i < |x| && y == x[..i] + x[i + 1..] {
      assert y + [c] == (x + [c])[..i] + (x + [c])[i + 1..];
    } else if i < |y| && x == y[..i] + y[i + 1..] {
      assert x + [c] == (y + [c])[..i] + (y + [c])[i + 1..];
    } else {
      assert (x + [c])[..i] == x[..i] == y[..i] == (y + [c])[..i];
      assert (x + [c])[i + 1..] == x[i + 1..] + [c] == (y + [c])[i + 1..];
    }
  }

  lemma ScriptAppend<T(!new)>(path: seq<seq<T>>, a: seq<T>, b: seq<T>, c: T)
    requires Script(path, a, b)
    ensures Script(AppendAll(path, c), a + [c], b + [c])
  {
    var p := AppendAll(path, c);
    forall i | 0 <= i < |p| - 1
      ensures OneEdit(p[i], p[i + 1])
    {
      var k: nat :| EditAt(path[i], path[i + 1], k);
      EditAtAppend(path[i], path[i + 1], k, c);
    }
  }

  /** Extend a script by one more edit. */
  lemma ScriptSnoc<T(!new)>(path: seq<seq<T>>, a: seq<T>, b: seq<T>, c: seq<T>, i: nat)
    requires Script(path, a, b) && EditAt(b, c, i)
    ensures Script(path + [c], a, c)
  {
    var p := path + [c];
    forall j | 0 <= j < |p| - 1
      ensures OneEdit(p[j], p[j + 1])
    {
      if j < |path| - 1 {
        assert p[j] == path[j] && p[j + 1] == path[j + 1];
      }
    }
  }

  lemma DropLastEdit<T(!new)>(a: seq<T>)
    requires |a| > 0
    ensures EditAt(a, a[..|a| - 1], |a| - 1)
    ensures EditAt(a[..|a| - 1], a, |a| - 1)
  {
    assert a[..|a| - 1] == a[..|a| - 1] + a[|a|..];
  }

  /** A script of length Lev(a, b) that only ever uses units of `a` and `b`:
      an optimal script deletes units of one string and inserts units of the
      other. */
  lemma {:induction false} OptimalScript<T(!new)>(a: seq<T>, b: seq<T>) returns (path: seq<seq<T>>)
    ensures Script(path, a, b)
    ensures |path| == Lev(a, b) + 1
    ensures PathWithin(path, a, b)
    decreases |a| + |b|
  {
    if |a| == 0 && |b| == 0 {
      path := [a];
    } else if |a| == 0 {
      var b' := b[..|b| - 1];
      path := OptimalScript(a, b');
      DropLastEdit(b);
      ScriptSnoc(path, a, b', b, |b| - 1);
      path := path + [b];
    } else if |b| == 0 {
      var a' := a[..|a| - 1];
      var tail := OptimalScript(a', b);
      DropLastEdit(a);
      path := [a] + tail;
    } else {
      var a', b' := a[..|a| - 1], b[..|b| - 1];
      var x, y := a[|a| - 1], b[|b| - 1];
      assert a == a' + [x] && b == b' + [y];
      if Lev(a, b) == Lev(a', b') + Cost(x, y) {
        var inner := OptimalScript(a', b');
        path := KeepOrSubstitute(inner, a', b', x, y);
      } else if Lev(a, b) == Lev(a, b') + 1 {
        path := OptimalScript(a, b');
        DropLastEdit(b);
        ScriptSnoc(path, a, b', b, |b| - 1);
        path := path + [b];
      } else {
        var tail := OptimalScript(a', b);
        DropLastEdit(a);
        path := [a] + tail;
      }
    }
  }

  /** Carry a last unit along a script, and substitute it at the end if needed. */
  lemma KeepOrSubstitute<T(!new)>(inner: seq<seq<T>>, a: seq<T>, b: seq<T>, x: T, y: T) returns (path: seq<seq<T>>)
    requires Script(inner, a, b) && PathWithin(inner, a, b)
    ensures Script(path, a + [x], b + [y]) && PathWithin(path, a + [x], b + [y])
    ensures |path| == |inner| + Cost(x, y)
  {
    ScriptAppend(inner, a, b, x);
    path := AppendAll(inner, x);
    assert PathWithin(path, a + [x], b + [y]);
    if x != y {
      assert EditAt(b + [x], b + [y], |b|) by {
        assert (b + [x])[|b| + 1..] == [] == (b + [y])[|b| + 1..];
        assert (b + [x])[..|b|] == b == (b + [y])[..|b|];
      }
      ScriptSnoc(path, a + [x], b + [x], b + [y], |b|);
      path := path + [b + [y]];
    }
  }

  // ---------------------------------------------------------------------------
  // No script is shorter
  // ---------------------------------------------------------------------------

  lemma {:induction false} LevSelf<T(!new)>(a: seq<T>)
    ensures Lev(a, a) == 0
  {
    if |a| > 0 { LevSelf(a[..|a| - 1]); }
  }

  /** Dropping or adding the last unit changes the distance by at most one. */
  lemma {:induction false} LevLastUnit<T(!new)>(a: seq<T>, b: seq<T>, x: T)
    ensures Lev(a, b) <= Lev(a, b + [x]) + 1
    ensures Lev(a, b + [x]) <= Lev(a, b) + 1
    decreases |a|
  {
    assert (b + [x])[..|b|] == b;
    if |a| > 0 {
      LevLastUnit(a[..|a| - 1], b, x);
      LevShorterQuery(a, b);
    }
  }

  lemma LevShorterQuery<T(!new)>(a: seq<T>, b: seq<T>)
    requires |a| > 0
    ensures Lev(a, b) <= Lev(a[..|a| - 1], b) + 1
  {
  }

  lemma {:induction false} LevSubstLast<T(!new)>(a: seq<T>, b: seq<T>, x: T, y: T)
    ensures Lev(a, b + [y]) <= Lev(a, b + [x]) + 1
    decreases |a|
  {
    assert (b + [x])[..|b|] == b && (b + [y])[..|b|] == b;
    if |a| > 0 {
      LevSubstLast(a[..|a| - 1], b, x, y);
    }
  }

  /** One edit to the target moves the distance by at most one. */
  lemma {:induction false} LevEditStep<T(!new)>(a: seq<T>, b: seq<T>, c: seq<T>, i: nat)
    requires EditAt(b, c, i)
    ensures Lev(a, c) <= Lev(a, b) + 1
    decreases |a| + |b| + |c|
  {
    if i < |b| && c == b[..i] + b[i + 1..] {
      if i == |b| - 1 {
        assert b == c + [b[i]];
        LevLastUnit(a, c, b[i]);
      } else {
        assert c[..|c| - 1] == b[..|b| - 1][..i] + b[..|b| - 1][i + 1..];
        LevEditBefore(a, b, c, i);
      }
    } else if i < |c| && b == c[..i] + c[i + 1..] {
      if i == |c| - 1 {
        assert c == b + [c[i]];
        LevLastUnit(a, b, c[i]);
      } else {
        assert b[..|b| - 1] == c[..|c| - 1][..i] + c[..|c| - 1][i + 1..];
        LevEditBefore(a, b, c, i);
      }
    } else {
      if i == |b| - 1 {
        assert b == b[..i] + [b[i]] && c == b[..i] + [c[i]];
        LevSubstLast(a, b[..i], b[i], c[i]);
      } else {
        assert b[|b| - 1] == b[i + 1..][|b| - i - 2] == c[i + 1..][|b| - i - 2];
        assert b[..|b| - 1][i + 1..] == b[i + 1..][..|b| - i - 2] == c[..|c| - 1][i + 1..];
        assert b[..|b| - 1][..i] == b[..i] == c[..i] == c[..|c| - 1][..i];
        LevEditBefore(a, b, c, i);
      }
    }
  }

  /** The edit lies strictly before a common last unit. */
  lemma {:induction false} LevEditBefore<T(!new)>(a: seq<T>, b: seq<T>, c: seq<T>, i: nat)
    requires |b| > 0 && |c| > 0 && b[|b| - 1] == c[|c| - 1]
    requires EditAt(b[..|b| - 1], c[..|c| - 1], i) && EditAt(b, c, i)
    ensures Lev(a, c) <= Lev(a, b) + 1
    decreases |a| + |b| + |c|, 0
  {
    hide EditAt;
    LevEditStep(a, b[..|b| - 1], c[..|c| - 1], i);
    if |a| > 0 {
      LevEditStep(a[..|a| - 1], b[..|b| - 1], c[..|c| - 1], i);
      LevEditStep(a[..|a| - 1], b, c, i);
    }
  }

  lemma {:induction false} ScriptBound<T(!new)>(path: seq<seq<T>>, a: seq<T>, b: seq<T>)
    requires Script(path, a, b)
    ensures Lev(a, b) <= |path| - 1
  {
    if |path| == 1 {
      LevSelf(a);
    } else {
      var p := path[..|path| - 1];
      ScriptBound(p, a, p[|p| - 1]);
      assert OneEdit(path[|p| - 1], path[|p|]);
      var i: nat :| EditAt(path[|p| - 1], path[|p|], i);
      LevEditStep(a, p[|p| - 1], b, i);
    }
  }

  /** The recurrence is the edit distance: some chain of `d` single edits leads
      from `a` to `b`, and none is shorter, exactly when `d == Lev(a, b)`. */
  lemma LevIsShortestScript<T(!new)>(a: seq<T>, b: seq<T>, d: nat)
    ensures d == Lev(a, b) <==>
            && (exists path :: Script(path, a, b) && |path| == d + 1)
            && (forall path :: Script(path, a, b) ==> |path| >= d + 1)
  {
    var best := OptimalScript(a, b);
    forall path | Script(path, a, b)
      ensures |path| >= Lev(a, b) + 1
    {
      ScriptBound(path, a, b);
    }
  }

  // ---------------------------------------------------------------------------
  // Metric facts
  // ---------------------------------------------------------------------------

  lemma {:induction false} LevZero<T(!new)>(a: seq<T>, b: seq<T>)
    ensures Lev(a, b) == 0 <==> a == b
    decreases |a| + |b|
  {
    if a == b { LevSelf(a); }
    if |a| > 0 && |b| > 0 {
      LevZero(a[..|a| - 1], b[..|b| - 1]);
      assert a == a[..|a| - 1] + [a[|a| - 1]];
      assert b == b[..|b| - 1] + [b[|b| - 1]];
    }
  }

  lemma {:induction false} LevSymmetric<T(!new)>(a: seq<T>, b: seq<T>)
    ensures Lev(a, b) == Lev(b, a)
    decreases |a| + |b|
  {
    if |a| > 0 && |b| > 0 {
      var a', b' := a[..|a| - 1], b[..|b| - 1];
      LevSymmetric(a', b');
      LevSymmetric(a, b');
      LevSymmetric(a', b);
    }
  }

  /** A distance is never below the difference in length, either way round. */
  lemma {:induction false} LevLengthDeficit<T(!new)>(a: seq<T>, b: seq<T>)
    ensures Lev(a, b) >= |a| - |b|
    ensures Lev(a, b) >= |b| - |a|
    decreases |a| + |b|
  {
    if |a| > 0 && |b| > 0 {
      LevLengthDeficit(a[..|a| - 1], b[..|b| - 1]);
      LevLengthDeficit(a, b[..|b| - 1]);
      LevLengthDeficit(a[..|a| - 1], b);
    }
  }

  /** What is appended costs at most its length. */
  lemma {:induction false} LevAppended<T(!new)>(p: seq<T>, w: seq<T>)
    ensures Lev(p, p + w) <= |w|
    decreases |w|
  {
    if w == [] {
      assert p + w == p;
      LevSelf(p);
    } else {
      LevAppended(p, w[..|w| - 1]);
      assert p + w == p + w[..|w| - 1] + [w[|w| - 1]];
      LevLastUnit(p, p + w[..|w| - 1], w[|w| - 1]);
    }
  }

  // ---------------------------------------------------------------------------
  // What a dead row means
  // ---------------------------------------------------------------------------

  /** Some cell of the row for `u` is at most the distance to any extension of
      `u`: the row minimum never decreases as units are consumed. */
  lemma {:induction false} RowMinimumBelowExtension<T(!new)>(q: seq<T>, u: seq<T>, w: seq<T>) returns (j: nat)
    ensures j <= |q| && Lev(q[..j], u) <= Lev(q, u + w)
    decreases |q| + |w|
  {
    if w == [] {
      assert u + w == u && q[..|q|] == q;
      j := |q|;
    } else if q == [] {
      j := 0;
    } else {
      var q', w' := q[..|q| - 1], w[..|w| - 1];
      assert (u + w)[..|u + w| - 1] == u + w';
      var j1 := RowMinimumBelowExtension(q', u, w');
      var j2 := RowMinimumBelowExtension(q, u, w');
      var j3 := RowMinimumBelowExtension(q', u, w);
      assert q'[..j1] == q[..j1] && q'[..j3] == q[..j3];
      if Lev(q, u + w) == Lev(q, u + w') + 1 {
        j := j2;
      } else if Lev(q, u + w) == Lev(q', u + w) + 1 {
        j := j3;
      } else {
        j := j1;
      }
    }
  }

  /** The row for `u` has a cell within `k`. */
  ghost predicate RowAlive<T(!new)>(q: seq<T>, u: seq<T>, k: nat) {
    exists j: nat :: j <= |q| && Lev(q[..j], u) <= k
  }

  /** A row dies exactly when no continuation of `u` can be within `k`. */
  lemma RowAliveIffExtensible<T(!new)>(q: seq<T>, u: seq<T>, k: nat)
    ensures RowAlive(q, u, k) <==> exists w: seq<T> :: Lev(q, u + w) <= k
  {
    hide Lev;
    if w: seq<T> :| Lev(q, u + w) <= k {
      var j := RowMinimumBelowExtension(q, u, w);
    }
    if RowAlive(q, u, k) {
      var j: nat :| j <= |q| && Lev(q[..j], u) <= k;
      LevCommonTail(q[..j], u, q[j..]);
      assert q[..j] + q[j..] == q;
      assert Lev(q, u + q[j..]) <= k;
    }
  }

  /** A common tail never increases the distance. */
  lemma {:induction false} LevCommonTail<T(!new)>(a: seq<T>, b: seq<T>, w: seq<T>)
    ensures Lev(a + w, b + w) <= Lev(a, b)
    decreases |w|
  {
    if w == [] {
      assert a + w == a && b + w == b;
    } else {
      var w' := w[..|w| - 1];
      LevCommonTail(a, b, w');
      assert (a + w)[..|a + w| - 1] == a + w' && (b + w)[..|b + w| - 1] == b + w';
    }
  }
}
