/** Hinted lookup in a block of document lengths (include/weave/for.h:294-459):
    a short walk from the hint when the target may be near, a bisect otherwise,
    over the packed column or over the unpacked array.
  */
module DoclenWalk {
  import opened Basics
  import opened Bits
  import opened ForCodec

  const WINDOW: nat := 8

  /** Linear search: the first index holding `d`, or the length. */
  function Find(keys: seq<nat>, d: nat): (i: nat)
    ensures i <= |keys| && (i < |keys| ==> keys[i] == d)
    ensures forall j :: 0 <= j < i ==> keys[j] != d
  {
    if keys == [] || keys[0] == d then 0 else 1 + Find(keys[1..], d)
  }

  /** What a lookup answers and leaves in the hint: the byte beside the key and
      one past it, or -1 and the hint as it was. */
  ghost predicate Answers(keys: seq<nat>, bytes: seq<byte>, d: nat, hint: int, r: int, hint': int)
    requires |keys| <= |bytes|
  {
    var i := Find(keys, d);
    if i < |keys| then r == bytes[i] && hint' == i + 1 else r == -1 && hint' == hint
  }

  /** Where the lookup looks first: the hint, if it is an index, or the front. */
  function Resume(hint: int, n: nat): (i: nat)
    ensures n > 0 ==> i < n
  {
    if hint < 0 || hint >= n then 0 else hint
  }

  /** The target is so close past the key looked at first that a walk must reach it. */
  predicate Near(keys: seq<nat>, d: nat, hint: int) {
    keys != [] && keys[Resume(hint, |keys|)] <= d && d - keys[Resume(hint, |keys|)] < WINDOW
  }

  /** What the lookup costs, in keys probed. A near key is walked to and nothing else
      is read; a target that is not near costs one read and a bisect; only a near
      target that is absent pays for both. */
  ghost predicate Costs(keys: seq<nat>, d: nat, hint: int, probes: nat) {
    var i, f := Resume(hint, |keys|), Find(keys, d);
    && (Near(keys, d, hint) && f < |keys| ==> i <= f && probes == f - i + 1 <= WINDOW)
    && (Near(keys, d, hint) && f == |keys| ==> probes <= WINDOW + Width(|keys|))
    && (!Near(keys, d, hint) ==> probes <= (if keys == [] then 0 else 1) + Width(|keys|))
  }

  /** The walk reached the key. */
  lemma WalkedTo(keys: seq<nat>, d: nat, hint: int, probes: nat)
    requires Ascends(keys) && Near(keys, d, hint) && Find(keys, d) < |keys|
    requires probes == Find(keys, d) - Resume(hint, |keys|) + 1
    ensures Costs(keys, d, hint, probes)
  {
    hide Find, Width;
    NearIsClose(keys, d, hint);
  }

  /** The bisect settled it, after a walk that had to be in vain. */
  lemma Bisected(keys: seq<nat>, d: nat, hint: int, walked: nat, probes: nat)
    requires if Near(keys, d, hint) then Find(keys, d) == |keys| && walked <= WINDOW
             else walked <= if keys == [] then 0 else 1
    requires probes <= walked + Width(|keys|)
    ensures Costs(keys, d, hint, probes)
  {
    hide Find, Width;
  }

  /** A near key is inside the window. */
  lemma NearIsClose(keys: seq<nat>, d: nat, hint: int)
    requires Ascends(keys) && Near(keys, d, hint)
    ensures var i, f := Resume(hint, |keys|), Find(keys, d);
            f < |keys| ==> i <= f < i + WINDOW
  {
    var i, f := Resume(hint, |keys|), Find(keys, d);
    if f < |keys| {
      Ordered(keys, f, i);
      Spread(keys, i, f);
    }
  }

  lemma {:induction false} Spread(keys: seq<nat>, i: nat, j: nat)
    requires Ascends(keys) && i <= j < |keys|
    ensures keys[i] + (j - i) <= keys[j]
    decreases j
  {
    if i < j {
      Spread(keys, i, j - 1);
      Ordered(keys, j - 1, j);
    }
  }

  /** A probe halves what is left. */
  lemma Halved(size: nat, left: nat)
    requires size > 0 && left <= size / 2
    ensures Width(left) + 1 <= Width(size)
  {
    WidthMonotone(left, size / 2);
  }

  lemma Ordered(keys: seq<nat>, i: nat, j: nat)
    requires Ascends(keys) && i < |keys| && j < |keys|
    ensures (i < j <==> keys[i] < keys[j]) && (i == j <==> keys[i] == keys[j])
  {
  }

  lemma FoundKey(keys: seq<nat>, d: nat)
    ensures Find(keys, d) < |keys| ==> keys[Find(keys, d)] == d
  {
  }

  lemma Missing(keys: seq<nat>, bytes: seq<byte>, d: nat, hint: int)
    requires |keys| <= |bytes| && Find(keys, d) == |keys|
    ensures Answers(keys, bytes, d, hint, -1, hint)
  {
  }

  lemma Absent(keys: seq<nat>, d: nat, lo: int)
    requires Ascends(keys) && 0 <= lo <= |keys|
    requires (lo > 0 ==> keys[lo - 1] < d) && (lo < |keys| ==> keys[lo] > d)
    ensures Find(keys, d) == |keys|
  {
    var f := Find(keys, d);
    if f < |keys| {
      if lo > 0 { Ordered(keys, f, lo - 1); }
      if lo < |keys| { Ordered(keys, f, lo); }
    }
  }

  lemma Hit(keys: seq<nat>, bytes: seq<byte>, d: nat, hint: int, i: nat)
    requires Ascends(keys) && i < |keys| <= |bytes| && keys[i] == d
    ensures Answers(keys, bytes, d, hint, bytes[i], i + 1)
  {
    var f := Find(keys, d);
    if f < |keys| { Ordered(keys, f, i); }
  }

  lemma FoundIs(keys: seq<nat>, d: nat, i: nat)
    requires Ascends(keys) && i < |keys| && keys[i] == d
    ensures Find(keys, d) == i
  {
    var f := Find(keys, d);
    if f < |keys| { Ordered(keys, f, i); }
  }

  /** A key that is not the target, and not past it, has the target after it; past
      the target there is none. */
  lemma FindIsPast(keys: seq<nat>, d: nat, i: nat)
    requires Ascends(keys) && i < |keys| && keys[i] != d
    ensures Find(keys, d) < |keys| ==> (keys[i] < d <==> i < Find(keys, d))
  {
    var f := Find(keys, d);
    if f < |keys| { Ordered(keys, f, i); }
  }

  lemma Miss(keys: seq<nat>, bytes: seq<byte>, d: nat, hint: int, lo: int)
    requires Ascends(keys) && 0 <= lo <= |keys| <= |bytes|
    requires (lo > 0 ==> keys[lo - 1] < d) && (lo < |keys| ==> keys[lo] > d)
    ensures Find(keys, d) == |keys| && Answers(keys, bytes, d, hint, -1, hint)
  {
    Absent(keys, d, lo);
  }

  /** The walk over the unpacked array to a near target, from index `i0`. */
  method WalkNearArr(keys: seq<uint64>, docid: uint64, i0: nat)
    returns (found: bool, i: nat, ghost probes: nat)
    requires Ascends(keys) && i0 < |keys| && keys[i0] <= docid
    requires Find(keys, docid) < |keys| ==> i0 <= Find(keys, docid) < i0 + WINDOW
    ensures found ==> i < |keys| && Find(keys, docid) == i && probes == i - i0 + 1
    ensures !found ==> Find(keys, docid) == |keys|
    ensures 1 <= probes <= WINDOW
  {
    hide Ascends, Find;
    var n := |keys|;
    i := i0;
    var lim := i + WINDOW;
    if lim > n { lim := n; }
    probes := 1;
    while true
      invariant i0 <= i < lim <= n
      invariant probes == i - i0 + 1 <= WINDOW
      invariant Find(keys, docid) < n ==> i <= Find(keys, docid)
      decreases lim - i
    {
      var v := keys[i];
      if v == docid {
        FoundIs(keys, docid, i);
        return true, i, probes;
      }
      FindIsPast(keys, docid, i);
      if v > docid { return false, i, probes; }
      i := i + 1;
      if i >= lim { return false, i, probes; }
      probes := probes + 1;
    }
  }

  /** The bisect over the unpacked array. */
  method BisectArr(keys: seq<uint64>, docid: uint64) returns (found: bool, at: nat, ghost probes: nat)
    requires Ascends(keys)
    ensures found <==> Find(keys, docid) < |keys|
    ensures found ==> at < |keys| && keys[at] == docid
    ensures probes <= Width(|keys|)
  {
    hide Ascends, Width, Find;
    var n := |keys|;
    var lo, hi := 0, n - 1;
    probes := 0;
    while lo <= hi
      invariant 0 <= lo <= hi + 1 <= n
      invariant (lo > 0 ==> keys[lo - 1] < docid) && (hi + 1 < n ==> keys[hi + 1] > docid)
      invariant probes + Width(hi + 1 - lo) <= Width(n)
    {
      var mid := (lo + hi) / 2;
      Halved(hi + 1 - lo, mid - lo);
      Halved(hi + 1 - lo, hi - mid);
      probes := probes + 1;
      if keys[mid] < docid {
        lo := mid + 1;
      } else if keys[mid] > docid {
        hi := mid - 1;
      } else {
        FoundIs(keys, docid, mid);
        return true, mid, probes;
      }
    }
    Absent(keys, docid, lo);
    return false, 0, probes;
  }

  /** The unpacked array: weave_doclen_walk_arr(). */
  method WalkArr(keys: seq<uint64>, bytes: seq<byte>, docid: uint64, hint: int)
    returns (r: int, hint': int, ghost probes: nat)
    requires Ascends(keys) && |keys| <= |bytes|
    ensures Answers(keys, bytes, docid, hint, r, hint') && Costs(keys, docid, hint, probes)
  {
    hide Answers, Ascends, Width, Find, Costs;
    var n := |keys|;
    ghost var walked := 0;
    var i := hint;
    if i < 0 || i >= n { i := 0; }
    if Near(keys, docid, hint) { NearIsClose(keys, docid, hint); }
    if n > 0 {
      var v := keys[i];
      walked := 1;
      if v <= docid && docid - v < WINDOW {
        var found;
        found, i, walked := WalkNearArr(keys, docid, i);
        if found {
          WalkedTo(keys, docid, hint, walked);
          FoundKey(keys, docid);
          Hit(keys, bytes, docid, hint, i);
          return bytes[i], i + 1, walked;
        }
      }
    }
    var found, at;
    found, at, probes := BisectArr(keys, docid);
    probes := walked + probes;
    Bisected(keys, docid, hint, walked, probes);
    if found {
      Hit(keys, bytes, docid, hint, at);
      return bytes[at], at + 1, probes;
    }
    Missing(keys, bytes, docid, hint);
    return -1, hint, probes;
  }

  /** The docids of a packed column of offsets from `start`. */
  function Docids(raw: seq<byte>, start: nat, n: nat): (keys: seq<nat>)
    requires |raw| > 0
    ensures |keys| == n
  {
    seq(n, i requires 0 <= i < n => start + Value(raw, i))
  }

  lemma Readable(raw: seq<byte>, i: nat, n: nat)
    requires |raw| > 0 && i < n && ByteLen(raw, n) <= |raw|
    ensures ByteLen(raw, i + 1) <= |raw|
  {
    MulMonotone(i + 1, n, raw[0]);
  }

  /** The walk over the packed column to a near target, from index `i0`, whose value
      has been read. */
  method WalkNear(raw: seq<byte>, start: uint64, n: nat, want: nat, i0: nat, v0: uint64)
    returns (found: bool, i: nat, ghost probes: nat)
    requires |raw| > 0 && ByteLen(raw, n) <= |raw| && Ascends(Docids(raw, start, n)) && i0 < n
    requires v0 == Value(raw, i0) <= want
    requires var f := Find(Docids(raw, start, n), start + want);
             f < n ==> i0 <= f < i0 + WINDOW
    ensures found ==> i < n && Find(Docids(raw, start, n), start + want) == i && probes == i - i0 + 1
    ensures !found ==> Find(Docids(raw, start, n), start + want) == n
    ensures 1 <= probes <= WINDOW
  {
    hide Ascends, Value, ByteLen, Find, Docids;
    ghost var keys, d := Docids(raw, start, n), start + want;
    i := i0;
    var lim := i + WINDOW;
    if lim > n { lim := n; }
    KeyIs(raw, start, n, i);
    var v := v0;
    probes := 1;
    while true
      invariant i0 <= i < lim <= n && v == Value(raw, i) && keys[i] == start + v
      invariant probes == i - i0 + 1 <= WINDOW
      invariant Find(keys, d) < n ==> i <= Find(keys, d)
      decreases lim - i
    {
      if v == want {
        FoundIs(keys, d, i);
        return true, i, probes;
      }
      FindIsPast(keys, d, i);
      if v > want { return false, i, probes; }
      i := i + 1;
      if i >= lim { return false, i, probes; }
      KeyIs(raw, start, n, i);
      Readable(raw, i, n);
      v := Get(raw, i);
      probes := probes + 1;
    }
  }

  lemma KeyIs(raw: seq<byte>, start: nat, n: nat, i: nat)
    requires |raw| > 0 && i < n
    ensures Docids(raw, start, n)[i] == start + Value(raw, i)
  {
  }

  /** The bisect over the packed column. */
  method BisectAbs(raw: seq<byte>, start: uint64, n: nat, want: nat) returns (found: bool, at: nat, ghost probes: nat)
    requires |raw| > 0 && ByteLen(raw, n) <= |raw| && Ascends(Docids(raw, start, n))
    ensures found <==> Find(Docids(raw, start, n), start + want) < n
    ensures found ==> at < n && Docids(raw, start, n)[at] == start + want
    ensures probes <= Width(n)
  {
    hide Ascends, Value, ByteLen, Width, Find, Docids;
    ghost var keys, d := Docids(raw, start, n), start + want;
    var lo, hi := 0, n - 1;
    probes := 0;
    while lo <= hi
      invariant 0 <= lo <= hi + 1 <= n
      invariant (lo > 0 ==> keys[lo - 1] < d) && (hi + 1 < n ==> keys[hi + 1] > d)
      invariant probes + Width(hi + 1 - lo) <= Width(n)
    {
      var mid := (lo + hi) / 2;
      Halved(hi + 1 - lo, mid - lo);
      Halved(hi + 1 - lo, hi - mid);
      KeyIs(raw, start, n, mid);
      Readable(raw, mid, n);
      var v := Get(raw, mid);
      probes := probes + 1;
      if v < want {
        lo := mid + 1;
      } else if v > want {
        hi := mid - 1;
      } else {
        FoundIs(keys, d, mid);
        return true, mid, probes;
      }
    }
    Absent(keys, d, lo);
    return false, 0, probes;
  }

  /** The packed column, read in place: weave_doclen_walk_abs(). */
  method WalkAbs(raw: seq<byte>, bytes: seq<byte>, start: uint64, n: nat, docid: uint64, hint: int)
    returns (r: int, hint': int, ghost probes: nat)
    requires |raw| > 0 && ByteLen(raw, n) <= |raw| && n <= |bytes| && Ascends(Docids(raw, start, n))
    ensures Answers(Docids(raw, start, n), bytes, docid, hint, r, hint')
    ensures if docid < start then probes == 0 else Costs(Docids(raw, start, n), docid, hint, probes)
  {
    hide Answers, Ascends, Value, ByteLen, Width, Find, Docids, Costs;
    ghost var keys := Docids(raw, start, n);
    ghost var walked := 0;
    if docid < start {
      Below(raw, start, n, bytes, docid, hint);
      return -1, hint, 0;
    }
    var want := docid - start;
    var i := hint;
    if i < 0 || i >= n { i := 0; }
    if Near(keys, docid, hint) { NearIsClose(keys, docid, hint); }
    if n > 0 {
      KeyIs(raw, start, n, i);
      Readable(raw, i, n);
      var v := Get(raw, i);
      walked := 1;
      if v <= want && want - v < WINDOW {
        var found;
        found, i, walked := WalkNear(raw, start, n, want, i, v);
        if found {
          WalkedTo(keys, docid, hint, walked);
          FoundKey(keys, docid);
          Hit(keys, bytes, docid, hint, i);
          return bytes[i], i + 1, walked;
        }
      }
    }
    var found, at;
    found, at, probes := BisectAbs(raw, start, n, want);
    probes := walked + probes;
    Bisected(keys, docid, hint, walked, probes);
    if found {
      Hit(keys, bytes, docid, hint, at);
      return bytes[at], at + 1, probes;
    }
    Missing(keys, bytes, docid, hint);
    return -1, hint, probes;
  }

  lemma Below(raw: seq<byte>, start: nat, n: nat, bytes: seq<byte>, d: nat, hint: int)
    requires |raw| > 0 && Ascends(Docids(raw, start, n)) && d < start && n <= |bytes|
    ensures Answers(Docids(raw, start, n), bytes, d, hint, -1, hint)
  {
    Miss(Docids(raw, start, n), bytes, d, hint, 0);
  }

  /** A packed column of offsets and the unpacked array hold the same docids, so
      both walks and a linear search answer alike, whatever the hint. */
  lemma SameDocids(raw: seq<byte>, offsets: seq<uint64>, start: uint64, keys: seq<nat>)
    requires IsColumn(raw, offsets) && |keys| == |offsets|
    requires forall i :: 0 <= i < |keys| ==> keys[i] == start + offsets[i]
    ensures ByteLen(raw, |keys|) <= |raw| && Docids(raw, start, |keys|) == keys
  {
    hide IsColumn;
    RoundTrip(raw, offsets);
  }
}
