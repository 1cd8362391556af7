/** The bounded min-heap of scored entries that both scorers sift in place:
    src/am/fuse.c (worst entry at the root, ties to the higher position) and
    bench/code_scan.c (lowest score at the root).
  */
module BinaryHeap {

  datatype Entry = Entry(score: real, id: nat)

  /** Which of two entries is worse. */
  datatype Order = ByScore | ByScoreThenId

  predicate Worse(o: Order, a: Entry, b: Entry) {
    a.score < b.score || (o.ByScoreThenId? && a.score == b.score && a.id > b.id)
  }

  /** The threshold: the worst score once the heap is full, minus infinity before. */
  datatype Theta = NegInf | Fin(v: real)

  predicate AtMost(x: real, theta: Theta) { theta.Fin? && x <= theta.v }

  function Parent(i: nat): nat
    requires i > 0
  {
    (i - 1) / 2
  }

  /** No entry is worse than its parent. */
  ghost predicate HeapOrdered(o: Order, h: seq<Entry>) {
    forall i :: 0 < i < |h| ==> !Worse(o, h[i], h[Parent(i)])
  }

  function Swap(h: seq<Entry>, i: nat, j: nat): (r: seq<Entry>)
    requires i < |h| && j < |h|
    ensures |r| == |h|
  {
    h[i := h[j]][j := h[i]]
  }

  lemma SwapKeepsEntries(h: seq<Entry>, i: nat, j: nat)
    requires i < |h| && j < |h|
    ensures multiset(Swap(h, i, j)) == multiset(h)
  {
  }

  /** Sift the entry at `i` toward the root. */
  function Up(o: Order, h: seq<Entry>, i: nat): (r: seq<Entry>)
    requires i < |h|
    ensures |r| == |h|
    decreases i
  {
    if i == 0 || !Worse(o, h[i], h[Parent(i)]) then h else Up(o, Swap(h, i, Parent(i)), Parent(i))
  }

  /** The worst of `i` and its children, the left one first on a tie. */
  function WorstChild(o: Order, h: seq<Entry>, i: nat): (w: nat)
    requires i < |h|
    ensures w < |h| && (w == i || w == 2 * i + 1 || w == 2 * i + 2)
  {
    var l, r := 2 * i + 1, 2 * i + 2;
    var w := if l < |h| && Worse(o, h[l], h[i]) then l else i;
    if r < |h| && Worse(o, h[r], h[w]) then r else w
  }

  /** Sift the entry at `i` toward the leaves. */
  function Down(o: Order, h: seq<Entry>, i: nat): (r: seq<Entry>)
    requires i < |h|
    ensures |r| == |h|
    decreases |h| - i
  {
    var w := WorstChild(o, h, i);
    if w == i then h else Down(o, Swap(h, i, w), w)
  }

  method SiftUp(o: Order, a: array<Entry>, n: nat, i0: nat)
    requires i0 < n <= a.Length
    modifies a
    ensures a[..n] == Up(o, old(a[..n]), i0)
    ensures a[n..] == old(a[n..])
  {
    var i := i0;
    while i > 0
      invariant 0 <= i < n
      invariant Up(o, a[..n], i) == Up(o, old(a[..n]), i0)
      invariant a[n..] == old(a[n..])
    {
      var parent := (i - 1) / 2;
      if !Worse(o, a[i], a[parent]) { break; }
      assert Swap(a[..n], i, parent) == a[..n][i := a[parent]][parent := a[i]];
      a[i], a[parent] := a[parent], a[i];
      i := parent;
    }
  }

  method SiftDown(o: Order, a: array<Entry>, n: nat, i0: nat)
    requires i0 < n <= a.Length
    modifies a
    ensures a[..n] == Down(o, old(a[..n]), i0)
    ensures a[n..] == old(a[n..])
  {
    var i := i0;
    while true
      invariant i < n
      invariant Down(o, a[..n], i) == Down(o, old(a[..n]), i0)
      invariant a[n..] == old(a[n..])
      decreases n - i
    {
      var l := 2 * i + 1;
      var r := l + 1;
      var w := i;
      if l < n && Worse(o, a[l], a[w]) { w := l; }
      if r < n && Worse(o, a[r], a[w]) { w := r; }
      assert w == WorstChild(o, a[..n], i);
      if w == i { break; }
      assert Swap(a[..n], i, w) == a[..n][i := a[w]][w := a[i]];
      a[i], a[w] := a[w], a[i];
      i := w;
    }
  }

  // ---------------------------------------------------------------------------
  // Sifting restores the heap
  // ---------------------------------------------------------------------------

  /** Heap-ordered except that the entry at `i` may be worse than its parent. */
  ghost predicate OrderedButUp(o: Order, h: seq<Entry>, i: nat) {
    && (forall j :: 0 < j < |h| && j != i ==> !Worse(o, h[j], h[Parent(j)]))
    && (forall j :: 0 < j < |h| && i > 0 && Parent(j) == i && i < |h| ==> !Worse(o, h[j], h[Parent(i)]))
  }

  /** Heap-ordered except that children of `i` may be worse than it. */
  ghost predicate OrderedButDown(o: Order, h: seq<Entry>, i: nat) {
    && (forall j :: 0 < j < |h| && Parent(j) != i ==> !Worse(o, h[j], h[Parent(j)]))
    && (forall j :: 0 < j < |h| && i > 0 && Parent(j) == i && i < |h| ==> !Worse(o, h[j], h[Parent(i)]))
  }

  lemma {:induction false} UpRestores(o: Order, h: seq<Entry>, i: nat)
    requires i < |h| && OrderedButUp(o, h, i)
    ensures HeapOrdered(o, Up(o, h, i))
    ensures multiset(Up(o, h, i)) == multiset(h)
    decreases i
  {
    if i > 0 && Worse(o, h[i], h[Parent(i)]) {
      var p := Parent(i);
      var g := Swap(h, i, p);
      SwapKeepsEntries(h, i, p);
      UpRestores(o, g, p);
    }
  }

  lemma {:induction false} DownRestores(o: Order, h: seq<Entry>, i: nat)
    requires i < |h| && OrderedButDown(o, h, i)
    ensures HeapOrdered(o, Down(o, h, i))
    ensures multiset(Down(o, h, i)) == multiset(h)
    decreases |h| - i
  {
    var w := WorstChild(o, h, i);
    if w != i {
      SwapKeepsEntries(h, i, w);
      SwapDown(o, h, i, w);
      DownRestores(o, Swap(h, i, w), w);
    }
  }

  /** After swapping `i` with its worst child, only that child's place is open. */
  lemma SwapDown(o: Order, h: seq<Entry>, i: nat, w: nat)
    requires i < |h| && OrderedButDown(o, h, i) && w == WorstChild(o, h, i) && w != i
    ensures OrderedButDown(o, Swap(h, i, w), w)
  {
    var g := Swap(h, i, w);
    assert Parent(w) == i;
    forall j | 0 < j < |g| && Parent(j) != w ensures !Worse(o, g[j], g[Parent(j)]) {
      if Parent(j) == i {
        assert j == 2 * i + 1 || j == 2 * i + 2;
      } else if j == i {
        assert !Worse(o, h[w], h[Parent(i)]);
      }
    }
    forall j | 0 < j < |g| && Parent(j) == w ensures !Worse(o, g[j], g[Parent(w)]) {
      assert !Worse(o, h[j], h[Parent(j)]);
    }
  }

  /** The root is the worst entry. */
  lemma {:induction false} RootIsWorst(o: Order, h: seq<Entry>, i: nat)
    requires HeapOrdered(o, h) && i < |h|
    ensures !Worse(o, h[i], h[0])
    decreases i
  {
    if i > 0 { RootIsWorst(o, h, Parent(i)); }
  }

  /** Pushing onto a heap with room. */
  lemma PushGrows(o: Order, h: seq<Entry>, e: Entry)
    requires HeapOrdered(o, h)
    ensures var r := Up(o, h + [e], |h|);
            HeapOrdered(o, r) && multiset(r) == multiset(h) + multiset{e}
  {
    UpRestores(o, h + [e], |h|);
  }

  /** Replacing the root of a full heap. */
  lemma PushReplaces(o: Order, h: seq<Entry>, e: Entry)
    requires HeapOrdered(o, h) && |h| > 0
    ensures var r := Down(o, h[0 := e], 0);
            HeapOrdered(o, r) && multiset(r) == multiset(h) - multiset{h[0]} + multiset{e}
  {
    DownRestores(o, h[0 := e], 0);
    assert multiset(h[0 := e]) == multiset(h) - multiset{h[0]} + multiset{e};
  }

  /** Append an entry to a heap of `n` and sift it up. */
  method Insert(o: Order, a: array<Entry>, n: nat, e: Entry)
    requires n < a.Length && HeapOrdered(o, a[..n])
    modifies a
    ensures a[..n + 1] == Up(o, old(a[..n]) + [e], n) && HeapOrdered(o, a[..n + 1])
    ensures multiset(a[..n + 1]) == multiset(old(a[..n])) + multiset{e}
  {
    hide Up, HeapOrdered;
    PushGrows(o, a[..n], e);
    a[n] := e;
    assert a[..n + 1] == old(a[..n]) + [e];
    SiftUp(o, a, n + 1, n);
  }

  /** Overwrite the root of a heap of `n` and sift it down. */
  method ReplaceRoot(o: Order, a: array<Entry>, n: nat, e: Entry)
    requires 0 < n <= a.Length && HeapOrdered(o, a[..n])
    modifies a
    ensures a[..n] == Down(o, old(a[..n])[0 := e], 0) && HeapOrdered(o, a[..n])
    ensures multiset(a[..n]) == multiset(old(a[..n])) - multiset{old(a[0])} + multiset{e}
  {
    hide Down, HeapOrdered;
    PushReplaces(o, a[..n], e);
    a[0] := e;
    assert a[..n] == old(a[..n])[0 := e];
    SiftDown(o, a, n, 0);
  }

  // ---------------------------------------------------------------------------
  // Heapsort
  // ---------------------------------------------------------------------------

  /** Everything from `i` on is in its final place: no earlier entry is worse. */
  ghost predicate Placed(o: Order, s: seq<Entry>, i: nat) {
    forall b, c :: 0 <= b < c < |s| && i <= c ==> !Worse(o, s[b], s[c])
  }

  lemma PlacedStep(o: Order, s: seq<Entry>, t: seq<Entry>, i: nat)
    requires i < |s| == |t| && HeapOrdered(o, s[..i + 1]) && Placed(o, s, i + 1)
    requires t[i] == s[0] && t[i + 1..] == s[i + 1..] && multiset(t[..i + 1]) == multiset(s[..i + 1])
    ensures Placed(o, t, i)
  {
    forall b, c | 0 <= b < c < |t| && i <= c ensures !Worse(o, t[b], t[c]) {
      assert c > i ==> t[c] == t[i + 1..][c - i - 1] == s[c];
      if b > i {
        assert t[b] == t[i + 1..][b - i - 1] == s[b];
      } else {
        assert t[..i + 1][b] in multiset(t[..i + 1]);
        var m :| 0 <= m < i + 1 && s[..i + 1][m] == t[b];
        RootIsWorst(o, s[..i + 1], m);
        assert c > i ==> !Worse(o, s[m], s[c]);
      }
    }
  }

  lemma RootSwapped(o: Order, h: seq<Entry>)
    requires |h| > 1 && HeapOrdered(o, h)
    ensures OrderedButDown(o, h[0 := h[|h| - 1]][..|h| - 1], 0)
    ensures multiset(h) == multiset(h[0 := h[|h| - 1]][..|h| - 1]) + multiset{h[0]}
  {
    var n := |h| - 1;
    var g := h[0 := h[n]];
    assert g == g[..n] + [h[n]];
    assert multiset(g) == multiset(h) - multiset{h[0]} + multiset{h[n]};
  }

  /** Move the worst entry of a heap of `n + 1` to place `n`. */
  method ExtractWorst(o: Order, a: array<Entry>, n: nat)
    requires 0 < n < a.Length && HeapOrdered(o, a[..n + 1])
    modifies a
    ensures a[n] == old(a[0]) && a[n + 1..] == old(a[n + 1..])
    ensures HeapOrdered(o, a[..n]) && multiset(a[..n + 1]) == multiset(old(a[..n + 1]))
  {
    hide Down, HeapOrdered, OrderedButDown, Worse;
    ghost var h, rest, root := a[..n + 1], a[n + 1..], a[0];
    ghost var down := h[0 := h[n]][..n];
    RootSwapped(o, h);
    DownRestores(o, down, 0);
    a[0], a[n] := a[n], a[0];
    assert a[..n] == down;
    assert a[n..] == [root] + rest;
    SiftDown(o, a, n, 0);
    Extracted(a[..n], root, rest, a[..]);
  }

  lemma Extracted<T>(front: seq<T>, x: T, rest: seq<T>, s: seq<T>)
    requires |front| < |s| && front == s[..|front|] && s[|front|..] == [x] + rest
    ensures s[|front|] == x && s[|front| + 1..] == rest && s[..|front| + 1] == front + [x]
  {
    assert s[|front|] == s[|front|..][0];
    assert s[|front| + 1..] == s[|front|..][1..];
  }

  lemma SortStep(o: Order, s: seq<Entry>, t: seq<Entry>, n: nat, i: nat)
    requires i < n <= |s| == |t| && HeapOrdered(o, s[..i + 1]) && Placed(o, s[..n], i + 1)
    requires t[i] == s[0] && t[i + 1..] == s[i + 1..] && multiset(t[..i + 1]) == multiset(s[..i + 1])
    ensures Placed(o, t[..n], i) && multiset(t[..n]) == multiset(s[..n])
  {
    hide HeapOrdered, Placed;
    assert s[..n][..i + 1] == s[..i + 1] && t[..n][..i + 1] == t[..i + 1];
    assert s[..n][i + 1..] == s[i + 1..][..n - i - 1] && t[..n][i + 1..] == t[i + 1..][..n - i - 1];
    assert s[..n] == s[..i + 1] + s[..n][i + 1..] && t[..n] == t[..i + 1] + t[..n][i + 1..];
    PlacedStep(o, s[..n], t[..n], i);
  }

  /** Heapsort in place; the root being the worst entry, the result is best first. */
  method HeapSort(o: Order, a: array<Entry>, n: nat)
    requires n <= a.Length && HeapOrdered(o, a[..n])
    modifies a
    ensures Placed(o, a[..n], 0) && multiset(a[..n]) == multiset(old(a[..n]))
  {
    hide HeapOrdered, Placed, Worse;
    NothingPlaced(o, a[..n]);
    if n == 0 { return; }
    for i := n downto 1
      invariant HeapOrdered(o, a[..i]) && Placed(o, a[..n], i)
      invariant multiset(a[..n]) == multiset(old(a[..n]))
    {
      ghost var s := a[..];
      assert s[..i + 1] == a[..i + 1] && s[i + 1..] == a[i + 1..] && s[..n] == a[..n];
      ExtractWorst(o, a, i);
      ghost var t := a[..];
      assert t[..i + 1] == a[..i + 1] && t[i + 1..] == a[i + 1..] && t[..n] == a[..n];
      SortStep(o, s, t, n, i);
    }
    FirstPlaced(o, a[..n]);
  }

  lemma NothingPlaced(o: Order, s: seq<Entry>)
    ensures Placed(o, s, |s|)
  {
  }

  lemma FirstPlaced(o: Order, s: seq<Entry>)
    requires Placed(o, s, 1)
    ensures Placed(o, s, 0)
  {
  }
}
