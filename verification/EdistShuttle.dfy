/** The edit-distance channel as a monotone cursor over dictionary ordinals: the
    block cursor of include/weave/edist.h and the page driver of src/query/edist.c.
    `Shuttle.Seek` states the channel contract (C1) and (C2) for it.
  */
module EdistShuttle {
  import opened EditDistance
  import opened EdistBound

  const END: nat := 0xFFFF_FFFF

  datatype Status = Ok | Backward | NeedBlock | BadBlock

  class Cursor {
    const pat: Pattern
    var st: Stats
    var first: nat
    var last: nat
    var pos: nat
    var ret: nat
    var haveblk: bool
    var done: bool
    var seeked: bool

    constructor (pat: Pattern)
      ensures this.pat == pat && !haveblk && !done && !seeked && ret == 0 && pos == 0
    {
      this.pat := pat;
      st := Stats(0, 0, 0, 0, 0, 0, 0, true);
      first, last, pos, ret := 0, 0, 0, 0;
      haveblk, done, seeked := false, false, false;
    }

    /** Install the block of ordinals first .. last, or refuse it unchanged. */
    method EnterBlock(first': nat, last': nat, st': Stats) returns (rc: Status)
      modifies this
      ensures rc == Ok || rc == BadBlock
      ensures rc == BadBlock <==> old(done) || last' < first' || st'.nterms == 0 || last' - first' + 1 != st'.nterms
                                  || last' >= END || (old(haveblk) && first' <= old(last))
                                  || (old(seeked) && first' < old(ret))
      ensures rc == Ok ==> (first, last, st, haveblk) == (first', last', st', true)
      ensures rc == BadBlock ==> (first, last, st, haveblk) == old((first, last, st, haveblk))
      ensures (pos, ret, done, seeked) == old((pos, ret, done, seeked))
    {
      if done || last' < first' || st'.nterms == 0 || last' - first' + 1 != st'.nterms || last' >= END {
        return BadBlock;
      }
      if haveblk && first' <= last { return BadBlock; }
      if seeked && first' < ret { return BadBlock; }
      first, last, st, haveblk := first', last', st', true;
      return Ok;
    }

    method Finish()
      modifies this
      ensures done && !haveblk && (pos, ret, seeked) == old((pos, ret, seeked))
      ensures st == Stats(0, 0, 0, 0, 0, 0, 0, true) && (first, last) == old((first, last))
    {
      done, haveblk := true, false;
      st := Stats(0, 0, 0, 0, 0, 0, 0, true);
    }

    /** The smallest position at or past `target`; a target below the position
        last returned is refused, and one past the block asks for another. */
    method Seek(target: nat) returns (rc: Status, out: nat)
      modifies this
      ensures rc == Backward <==> old(seeked) && target < old(ret)
      ensures rc == NeedBlock <==> !(old(seeked) && target < old(ret)) && !old(done)
                                   && (!old(haveblk) || target > old(last))
      ensures rc != BadBlock
      ensures rc == Ok ==> seeked && pos == ret == out
                           && out == if done then END else if target < first then first else target
      ensures rc == Ok ==> BlkEnd() == if done then END else last
      ensures rc == Ok && pat.trgdiv >= TRGDIV_ASCII ==> BlockLower() == if done then 0 else Lower(pat, st)
      ensures rc != Ok ==> (pos, ret, seeked) == old((pos, ret, seeked))
      ensures (first, last, st, haveblk, done) == old((first, last, st, haveblk, done))
    {
      out := END;
      if seeked && target < ret { return Backward, out; }
      if done {
        seeked, pos, ret := true, END, END;
        return Ok, END;
      }
      if !haveblk || target > last { return NeedBlock, out; }
      seeked := true;
      pos := if target < first then first else target;
      ret := pos;
      return Ok, pos;
    }

    /** The last position the bound speaks for. */
    function BlkEnd(): nat
      reads this
    {
      if done || !haveblk then pos else last
    }

    function BlockLower(): nat
      requires pat.trgdiv >= TRGDIV_ASCII
      reads this
    {
      if done || !haveblk then 0 else Lower(pat, st)
    }
  }

  type Term = seq<Character>

  /** The terms of the first `n` pages, in dictionary order. */
  function Terms(pages: seq<seq<Term>>, n: nat): seq<Term>
    requires n <= |pages|
  {
    if n == 0 then [] else Terms(pages, n - 1) + pages[n - 1]
  }

  lemma {:induction false} TermsPrefix(pages: seq<seq<Term>>, m: nat, n: nat)
    requires m <= n <= |pages|
    ensures Terms(pages, m) <= Terms(pages, n)
    decreases n
  {
    if m < n { TermsPrefix(pages, m, n - 1); }
  }

  class Shuttle {
    const pages: seq<seq<Term>>
    const pattern: Term
    const enc: Encoding
    const cur: Cursor
    var blk: nat        // pages consumed
    var nyielded: nat   // terms on them

    ghost function Vocabulary(): seq<Term> { Terms(pages, |pages|) }

    ghost predicate Encoded() {
      && 1 <= enc.maxcharlen < UINT32 - 2 && WellEncoded(pattern, enc.maxcharlen)
      && |Vocabulary()| < END
      && forall i :: 0 <= i < |Vocabulary()| ==> WellEncoded(Vocabulary()[i], enc.maxcharlen)
    }

    /** The installed block is the last page opened, exactly summarised. */
    ghost predicate Inv()
      reads this, cur
    {
      && Encoded() && cur.pat == PatternOf(pattern, enc)
      && blk <= |pages| && nyielded == |Terms(pages, blk)|
      && (cur.done ==> blk == |pages| && !cur.haveblk)
      && (cur.haveblk ==>
            && cur.first <= cur.last == nyielded - 1 < |Vocabulary()|
            && Summarizes(cur.st, Measures(Vocabulary()[cur.first..nyielded], enc))
            && (cur.seeked ==> cur.ret <= cur.last))
      && (!cur.haveblk && !cur.done ==> nyielded == 0 && !cur.seeked)
    }

    /** Between seeks the cursor stands inside the installed block. */
    ghost predicate Valid()
      reads this, cur
    {
      && Inv()
      && (cur.haveblk ==> cur.seeked && cur.first <= cur.ret)
      && (cur.seeked ==> cur.pos == cur.ret)
      && (cur.done ==> cur.seeked && cur.ret == END)
    }

    constructor (pages: seq<seq<Term>>, pattern: Term, enc: Encoding)
      requires 1 <= enc.maxcharlen < UINT32 - 2 && WellEncoded(pattern, enc.maxcharlen)
      requires |Terms(pages, |pages|)| < END
      requires forall i :: 0 <= i < |Terms(pages, |pages|)| ==> WellEncoded(Terms(pages, |pages|)[i], enc.maxcharlen)
      ensures Valid() && fresh(cur) && this.pages == pages && this.pattern == pattern && this.enc == enc
      ensures !cur.seeked
    {
      this.pages, this.pattern, this.enc := pages, pattern, enc;
      blk, nyielded := 0, 0;
      cur := new Cursor(PatternOf(pattern, enc));
    }

    /** Open the next page that carries a term and install it, or report the end. */
    method OpenNextPage() returns (ok: bool)
      requires Inv() && !cur.done
      modifies this, cur
      ensures Inv() && !cur.done
      ensures (cur.pos, cur.ret, cur.seeked) == old((cur.pos, cur.ret, cur.seeked))
      ensures ok ==> cur.haveblk && cur.first == old(nyielded) && blk > old(blk)
      ensures !ok ==> blk == |pages| && nyielded == old(nyielded) == |Vocabulary()|
    {
      hide WellEncoded, Summarizes, Lower;
      while blk < |pages|
        invariant Inv() && !cur.done && blk >= old(blk) && nyielded == old(nyielded)
        invariant (cur.pos, cur.ret, cur.seeked) == old((cur.pos, cur.ret, cur.seeked))
        decreases |pages| - blk
      {
        var page := pages[blk];
        TermsPrefix(pages, blk + 1, |pages|);
        assert Vocabulary()[nyielded..nyielded + |page|] == page;
        var st := Summary(page);
        blk := blk + 1;
        if |page| > 0 {
          var pagefirst := nyielded;
          nyielded := nyielded + |page|;
          assert Vocabulary()[pagefirst..nyielded] == page;
          var rc := cur.EnterBlock(pagefirst, nyielded - 1, st);
          return true;
        }
      }
      return false;
    }

    /** Measure every term of a page and fold the measures. */
    method Summary(page: seq<Term>) returns (st: Stats)
      requires |page| < END
      ensures Summarizes(st, Measures(page, enc)) && st.nterms == |page|
    {
      hide Bytes, Ntrg, Summarizes;
      var b := new BlockStats();
      for i := 0 to |page|
        invariant b.Valid() && fresh(b) && b.folded == Measures(page[..i], enc)
        invariant b.nterms == i
      {
        var bytes := Bytes(page[i]);
        var trigrams := ExtractTrigrams(bytes, enc);
        b.Add(|bytes|, |page[i]|, |trigrams|, enc.maxcharlen <= 1 || AllAscii(bytes));
        assert Measures(page[..i + 1], enc) == Measures(page[..i], enc) + [MeasureOf(page[i], enc)];
      }
      assert page[..|page|] == page;
      st := b.View();
    }

    /** (C1) the smallest position at or past `target`, refusing to go back, and
        (C2) a bound no distance in cur .. blkend falls below. */
    method Seek(target: nat) returns (ok: bool, out: nat, blkend: nat)
      requires Valid()
      modifies this, cur
      ensures Valid()
      ensures ok <==> !(old(cur.seeked) && target < old(cur.ret))
      ensures ok ==> cur.seeked && cur.ret == out
                     && out == if target < |Vocabulary()| then target else END
      ensures ok && out != END ==> out <= blkend < |Vocabulary()|
      ensures ok && out == END ==> blkend == END && cur.BlockLower() == 0
      ensures ok && out != END ==>
                && cur.first <= out && Summarizes(cur.st, Measures(Vocabulary()[cur.first..blkend + 1], enc))
                && cur.BlockLower() == Lower(PatternOf(pattern, enc), cur.st)
      ensures ok && out != END ==>
                forall q :: out <= q <= blkend ==> cur.BlockLower() <= Lev(pattern, Vocabulary()[q])
    {
      hide WellEncoded, Summarizes, Lower;
      out, blkend := END, END;
      if cur.seeked && target < cur.ret {
        var rc, p := cur.Seek(target);
        return false, out, blkend;
      }
      while true
        invariant Inv() && target >= (if cur.seeked then cur.ret else 0)
        invariant (cur.pos, cur.ret, cur.seeked) == old((cur.pos, cur.ret, cur.seeked))
        invariant cur.haveblk ==> cur.first <= target
        invariant cur.done ==> target >= |Vocabulary()|
        decreases |pages| - blk, !cur.done
      {
        var rc, p := cur.Seek(target);
        if rc == Ok {
          out := p;
          blkend := cur.BlkEnd();
          if cur.haveblk { BoundHolds(); }
          return true, out, blkend;
        }
        var more := OpenNextPage();
        if !more { cur.Finish(); }
      }
    }

    /** The installed bound is sound for every term of the installed block. */
    lemma BoundHolds()
      requires Inv() && cur.haveblk
      ensures forall q :: cur.first <= q <= cur.last ==> cur.BlockLower() <= Lev(pattern, Vocabulary()[q])
    {
      hide Summarizes, Lower, Lev;
      var block := Vocabulary()[cur.first..nyielded];
      forall q | cur.first <= q <= cur.last
        ensures cur.BlockLower() <= Lev(pattern, Vocabulary()[q])
      {
        BoundIsSound(pattern, block, cur.st, enc, q - cur.first);
      }
    }
  }
}
