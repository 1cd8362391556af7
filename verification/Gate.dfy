/** The gate cursor (include/weave/gate.h): a checked key array, a galloping
    forward search, and the channel it makes, which never scores and only vetoes.
  */
module Gate {
  import opened Basics
  import Bits
  import opened FusedSpec

  const WIDTH: nat := 0x1_0000_0000

  datatype GateError = GateOk | Unsorted | Duplicate | TooWide | BackwardTarget

  /** Strictly ascending, every key below the sentinel. */
  ghost predicate KeysOk(keys: seq<nat>) {
    (forall i :: 0 <= i < |keys| ==> keys[i] < END) && Ascends(keys)
  }

  /** weave_gate_check_keys(): accept exactly such arrays, and name the first
      index that breaks the order. */
  method CheckKeys(keys: seq<nat>) returns (err: GateError, bad: nat)
    requires |keys| < WIDTH
    ensures err == GateOk <==> KeysOk(keys)
    ensures err != GateOk ==> bad < |keys| && KeysOk(keys[..bad])
    ensures err == TooWide ==> keys[bad] >= END
    ensures err == Duplicate ==> bad > 0 && keys[bad] == keys[bad - 1]
    ensures err == Unsorted ==> bad > 0 && keys[bad] < keys[bad - 1]
    ensures err != BackwardTarget
  {
    for i := 0 to |keys|
      invariant KeysOk(keys[..i])
    {
      if keys[i] >= END { return TooWide, i; }
      if i > 0 && keys[i] <= keys[i - 1] {
        return if keys[i] == keys[i - 1] then Duplicate else Unsorted, i;
      }
      KeysSnoc(keys, i);
    }
    assert keys[..|keys|] == keys;
    return GateOk, 0;
  }

  lemma KeysSnoc(keys: seq<nat>, i: nat)
    requires i < |keys| && KeysOk(keys[..i]) && keys[i] < END && (i > 0 ==> keys[i] > keys[i - 1])
    ensures KeysOk(keys[..i + 1])
  {
    var s, t := keys[..i], keys[..i + 1];
    forall a, b | 0 <= a < b < |t| ensures t[a] < t[b] {
      if b < i { assert s[a] < s[b]; } else if a < i - 1 { assert s[a] < s[i - 1]; }
    }
  }

  /** How many keys lie below `t`. */
  function Below(keys: seq<nat>, t: nat): (n: nat)
    ensures n <= |keys|
  {
    if keys == [] || keys[0] >= t then 0 else 1 + Below(keys[1..], t)
  }

  lemma {:induction false} BelowIsSplit(keys: seq<nat>, t: nat, n: nat)
    requires KeysOk(keys) && n <= |keys|
    requires forall i :: 0 <= i < n ==> keys[i] < t
    requires n < |keys| ==> keys[n] >= t
    ensures Below(keys, t) == n
    decreases n
  {
    if n > 0 {
      KeysTail(keys);
      BelowIsSplit(keys[1..], t, n - 1);
    }
  }

  /** (C1): the smallest key at or past `t`, or the sentinel. */
  function Smallest(keys: seq<nat>, t: nat): (p: Warp) {
    var n := Below(keys, t);
    if n < |keys| && keys[n] < END then keys[n] else END
  }

  lemma SmallestAt(keys: seq<nat>, t: nat, n: nat)
    requires KeysOk(keys) && n <= |keys| && Below(keys, t) == n
    ensures Smallest(keys, t) == if n < |keys| then keys[n] else END
  {
  }

  /** Up to the first key at or past `t` there is no other. */
  lemma FirstAtOrPast(keys: seq<nat>, t: nat, n: nat)
    requires KeysOk(keys) && n <= |keys| && (forall i :: 0 <= i < n ==> keys[i] < t)
    ensures forall p: nat :: t <= p && (if n < |keys| then p <= keys[n] else p <= END) ==>
              (p in keys <==> n < |keys| && p == keys[n])
  {
  }

  class Cursor {
    const keys: seq<nat>
    var pos: nat
    var last: Warp
    var seeked: bool

    /** After a seek, `last` is the position it returned. */
    ghost predicate Valid()
      reads this
    {
      && KeysOk(keys) && |keys| < WIDTH && pos <= |keys|
      && (!seeked ==> pos == 0)
      && (seeked ==> last == if pos < |keys| then keys[pos] else END)
    }

    constructor (keys: seq<nat>)
      requires KeysOk(keys) && |keys| < WIDTH
      ensures Valid() && this.keys == keys && !seeked
    {
      this.keys := keys;
      pos, last, seeked := 0, 0, false;
    }

    predicate OnKey()
      reads this
    {
      pos < |keys|
    }

    predicate Matches(p: Warp)
      reads this
    {
      OnKey() && keys[pos] == p
    }

    /** weave_gate_seek(): refuse a target behind the last answer and change
        nothing, otherwise answer with the smallest key at or past the target. */
    method Seek(target: Warp) returns (err: GateError, out: Warp)
      requires Valid()
      modifies this
      ensures Valid()
      ensures err == BackwardTarget <==> old(seeked) && target < old(last)
      ensures err == BackwardTarget ==> pos == old(pos) && last == old(last) && seeked
      ensures err == GateOk || err == BackwardTarget
      ensures err == GateOk ==> && out == Smallest(keys, target) && last == out && seeked && old(pos) <= pos
                                && (OnKey() <==> out < END)
      ensures err == GateOk ==> forall p: Warp :: target <= p <= out ==> (Matches(p) <==> p in keys)
    {
      hide Smallest, Below;
      if seeked && target < last { return BackwardTarget, 0; }
      seeked := true;
      var lo, hi;
      ghost var probes;
      lo, hi, probes := Gallop(target);
      while lo < hi
        invariant pos <= lo <= hi <= |keys|
        invariant forall i :: 0 <= i < lo ==> keys[i] < target
        invariant hi < |keys| ==> keys[hi] >= target
      {
        var mid := lo + (hi - lo) / 2;
        if keys[mid] < target { lo := mid + 1; } else { hi := mid; }
      }
      pos := lo;
      BelowIsSplit(keys, target, lo);
      SmallestAt(keys, target, lo);
      FirstAtOrPast(keys, target, lo);
      if lo >= |keys| {
        last := END;
        return GateOk, END;
      }
      last := keys[lo];
      return GateOk, last;
    }

    /** Double the stride, in 32 bits, until a probe is at or past the target: a
        distance takes no more probes than its binary digits. */
    method Gallop(target: Warp) returns (lo: nat, hi: nat, ghost probes: nat)
      requires KeysOk(keys) && |keys| < WIDTH && pos <= |keys|
      requires forall i :: 0 <= i < pos ==> keys[i] < target
      ensures pos <= lo <= hi <= |keys|
      ensures forall i :: 0 <= i < lo ==> keys[i] < target
      ensures hi < |keys| ==> keys[hi] >= target
      ensures hi < |keys| ==> hi - pos + 1 == Bits.Pow2(probes)
      ensures probes > 0 ==> Bits.Pow2(probes - 1) <= |keys| - pos
    {
      lo, hi, probes := pos, pos, 0;
      var step := 1;
      while hi < |keys| && keys[hi] < target
        invariant pos <= lo <= hi <= |keys|
        invariant forall i :: 0 <= i < lo ==> keys[i] < target
        invariant hi < |keys| ==> step == hi - pos + 1 == Bits.Pow2(probes)
        invariant probes > 0 ==> Bits.Pow2(probes - 1) <= |keys| - pos
        decreases |keys| - hi
      {
        lo := hi + 1;
        KeysBefore(hi, target);
        if step > |keys| - hi { hi := |keys|; } else { hi := hi + step; }
        step := step * 2 % WIDTH;
        probes := probes + 1;
      }
    }

    lemma KeysBefore(h: nat, target: nat)
      requires KeysOk(keys) && h < |keys| && keys[h] < target
      ensures forall i :: 0 <= i <= h ==> keys[i] < target
    {
    }
  }

  // ---------------------------------------------------------------------------
  // The channel a gate makes
  // ---------------------------------------------------------------------------

  /** A required channel over a key array: 0 on a key, a veto elsewhere. */
  ghost predicate IsGate(c: Channel, keys: seq<nat>) {
    && c.required && KeysOk(keys)
    && (forall t: Warp :: c.seekTo(t) == Smallest(keys, t))
    && (forall p: Warp :: c.scoreAt(p) == if p in keys then Val(0.0) else Veto)
  }

  lemma {:induction false} SmallestIs(keys: seq<nat>, t: Warp)
    requires KeysOk(keys)
    ensures t <= Smallest(keys, t)
    ensures Smallest(keys, t) < END ==> Smallest(keys, t) in keys
    ensures forall k | k in keys && t <= k :: Smallest(keys, t) <= k
    decreases |keys|
  {
    if keys != [] {
      hide KeysOk;
      KeysTail(keys);
      assert keys == [keys[0]] + keys[1..];
      if keys[0] < t { SmallestIs(keys[1..], t); }
    }
  }

  lemma KeysTail(keys: seq<nat>)
    requires KeysOk(keys) && keys != []
    ensures keys[0] < END && KeysOk(keys[1..]) && forall k | k in keys[1..] :: keys[0] < k
  {
    var rest := keys[1..];
    forall i, j | 0 <= i < j < |rest| ensures rest[i] < rest[j] { assert keys[i + 1] < keys[j + 1]; }
    forall i | 0 <= i < |rest| ensures keys[0] < rest[i] { assert keys[0] < keys[i + 1]; }
  }

  /** A gate meets (C1) and (C5), so the fused scan may rely on it; it reaches
      exactly its keys. */
  lemma GateIsHonest(c: Channel, keys: seq<nat>)
    requires IsGate(c, keys)
    ensures Seeks(c) && forall p: Warp :: Reach(c, p) <==> p in keys
  {
    forall p: Warp ensures Reach(c, p) <==> p in keys {
      SmallestIs(keys, p);
    }
    forall t: Warp
      ensures t <= c.seekTo(t) && (c.seekTo(t) < END ==> Reach(c, c.seekTo(t))) && NoReach(c, t, c.seekTo(t))
    {
      SmallestIs(keys, t);
    }
  }
}
