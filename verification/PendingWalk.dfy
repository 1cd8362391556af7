/** Optimistic reads of the pending list while a flush cuts, frees and lets
    others recycle its pages (include/weave/am.h, src/am/ambuild.c,
    src/am/amscan.c). Each step is what one lock holds together.
  */
module PendingWalk {
  import opened Basics

  type Block = nat
  type Item = nat

  datatype Link = End | To(b: Block)

  datatype Page = Pending(items: seq<Item>, next: Link) | Freed | Other

  datatype Meta = Meta(head: Link, tail: Link, generation: nat, segs: set<Item>)

  /** The flush: walk the list, cut the folded prefix off it, free its pages. */
  datatype Flusher =
    | Resting
    | Folding(start: Block, at: Block, folded: seq<Item>)
    | Cutting(start: Block, cut: Block, lower: nat, folded: seq<Item>)
    | Freeing(at: Block, cut: Block, kept: bool)

  /** The scan: snapshot the metapage, walk the list, re-check the generation.
      `known` is what was indexed at the snapshot. */
  datatype Reader =
    | Away
    | Walking(gen0: nat, segs0: set<Item>, at: Link, got: seq<Item>, known: set<Item>)
    | Answered(segs0: set<Item>, got: seq<Item>, known: set<Item>, indexed: set<Item>)

  datatype State = State(pages: map<Block, Page>, meta: Meta, flusher: Flusher, reader: Reader, inserted: set<Item>)

  // ---------------------------------------------------------------------------
  // The steps
  // ---------------------------------------------------------------------------

  datatype Step =
    | Append(x: Item)              // an insert with room on the tail page
    | LinkPage(x: Item, b: Block)  // an insert on a new page
    | AddSegment(x: Item)          // an oversized document, as its own segment
    | Merge                        // segments rewritten, contents kept
    | Recycle(b: Block)            // a free block becomes a page of another kind
    | Release(b: Block)            // a page of another kind is freed
    | FlushStart | FlushRead | FlushCut | FlushFree
    | ScanStart | ScanRead | ScanCheck

  /** A block the allocator may hand out. */
  predicate Free(s: State, b: Block) { b !in s.pages || s.pages[b].Freed? }

  /** A walk may follow a page only while it is a live pending page. */
  predicate LivePending(s: State, b: Block) { b in s.pages && s.pages[b].Pending? }

  predicate Enabled(s: State, step: Step) {
    match step
    case Append(x) => x !in s.inserted && s.meta.tail.To? && LivePending(s, s.meta.tail.b)
    case LinkPage(x, b) =>
      x !in s.inserted && Free(s, b) && (s.meta.tail.To? ==> LivePending(s, s.meta.tail.b))
    case AddSegment(x) => x !in s.inserted
    case Merge => true
    case Recycle(b) => Free(s, b)
    case Release(b) => b in s.pages && s.pages[b].Other?
    case FlushStart => s.flusher.Resting? && s.meta.head.To?
    case FlushRead => s.flusher.Folding? && LivePending(s, s.flusher.at)
    case FlushCut => s.flusher.Cutting? && LivePending(s, s.flusher.cut)
    case FlushFree => s.flusher.Freeing? && LivePending(s, s.flusher.at)
    case ScanStart => !s.reader.Walking?
    case ScanRead => s.reader.Walking? && s.reader.at.To?
    case ScanCheck => s.reader.Walking? && s.reader.at.End?
  }

  function Next(s: State, step: Step): State
    requires Enabled(s, step)
  {
    match step
    case Append(x) =>
      var t := s.meta.tail.b;
      var p := s.pages[t];
      s.(pages := s.pages[t := p.(items := p.items + [x])], inserted := s.inserted + {x})
    case LinkPage(x, b) =>
      var linked := if s.meta.tail.End? then s.pages
                    else s.pages[s.meta.tail.b := s.pages[s.meta.tail.b].(next := To(b))];
      s.(pages := linked[b := Pending([x], End)],
         meta := s.meta.(head := if s.meta.tail.End? then To(b) else s.meta.head, tail := To(b)),
         inserted := s.inserted + {x})
    case AddSegment(x) =>
      s.(meta := s.meta.(segs := s.meta.segs + {x}, generation := s.meta.generation + 1), inserted := s.inserted + {x})
    case Merge => s.(meta := s.meta.(generation := s.meta.generation + 1))
    case Recycle(b) => s.(pages := s.pages[b := Other])
    case Release(b) => s.(pages := s.pages[b := Freed])
    case FlushStart => s.(flusher := Folding(s.meta.head.b, s.meta.head.b, []))
    case FlushRead =>
      var f := s.flusher;
      var p := s.pages[f.at];
      s.(flusher := if p.next.End? then Cutting(f.start, f.at, |p.items|, f.folded + p.items)
                    else Folding(f.start, p.next.b, f.folded + p.items))
    case FlushCut => Cut(s, true)
    case FlushFree =>
      var f := s.flusher;
      if f.kept && f.at == f.cut then s.(flusher := Resting)
      else
        var after := s.pages[f.at].next;
        s.(pages := s.pages[f.at := Freed],
           flusher := if f.at == f.cut || after.End? then Resting else f.(at := after.b))
    case ScanStart => s.(reader := Walking(s.meta.generation, s.meta.segs, s.meta.head, [], s.inserted))
    case ScanRead =>
      var r := s.reader;
      s.(reader := if LivePending(s, r.at.b)
                   then r.(got := r.got + s.pages[r.at.b].items, at := s.pages[r.at.b].next)
                   else r.(at := End))
    case ScanCheck =>
      var r := s.reader;
      s.(reader := if s.meta.generation == r.gen0 then Answered(r.segs0, r.got, r.known, s.inserted) else Away)
  }

  /** One record: add the segment, drop exactly the folded prefix from the list,
      and bump the generation. Items appended to the cut page stay on it. */
  function Cut(s: State, bump: bool): State
    requires s.flusher.Cutting? && LivePending(s, s.flusher.cut)
  {
    var f := s.flusher;
    var p := s.pages[f.cut];
    var kept := |p.items| > f.lower;
    var head := if kept then To(f.cut) else p.next;
    s.(pages := if kept then s.pages[f.cut := p.(items := p.items[f.lower..])] else s.pages,
       meta := Meta(head, if head.End? then End else s.meta.tail,
                    s.meta.generation + if bump then 1 else 0, s.meta.segs + (set x | x in f.folded)),
       flusher := Freeing(f.start, f.cut, kept))
  }

  // ---------------------------------------------------------------------------
  // The invariant
  // ---------------------------------------------------------------------------

  /** The blocks are live pending pages, each linked to the next. */
  ghost predicate Linked(pages: map<Block, Page>, chain: seq<Block>, last: Link) {
    forall i :: 0 <= i < |chain| ==> IsLink(pages, chain, i, last)
  }

  ghost predicate IsLink(pages: map<Block, Page>, chain: seq<Block>, i: nat, last: Link)
    requires i < |chain|
  {
    && chain[i] in pages && pages[chain[i]].Pending?
    && pages[chain[i]].next == if i + 1 < |chain| then To(chain[i + 1]) else last
  }

  function ItemsOn(pages: map<Block, Page>, b: Block): seq<Item> {
    if b in pages && pages[b].Pending? then pages[b].items else []
  }

  /** The items on a chain of pages, in order. */
  function Items(pages: map<Block, Page>, chain: seq<Block>): seq<Item> {
    if chain == [] then [] else Items(pages, chain[..|chain| - 1]) + ItemsOn(pages, chain[|chain| - 1])
  }

  function First(chain: seq<Block>): Link { if chain == [] then End else To(chain[0]) }

  function Last(chain: seq<Block>): Link { if chain == [] then End else To(chain[|chain| - 1]) }

  /** The pending list is `chain`; every inserted document is in a segment or on
      the list, in one place only. */
  ghost predicate ListInv(s: State, chain: seq<Block>) {
    && Distinct(chain) && Linked(s.pages, chain, End)
    && s.meta.head == First(chain) && s.meta.tail == Last(chain)
    && Conserved(s.inserted, s.meta.segs, Items(s.pages, chain))
  }

  ghost predicate Conserved(inserted: set<Item>, segs: set<Item>, items: seq<Item>) {
    Distinct(items) && (forall x :: x in inserted <==> x in segs || x in items) && forall x | x in items :: x !in segs
  }

  /** `got` is everything before page `at` of the chain. */
  ghost predicate ReadUpTo(pages: map<Block, Page>, chain: seq<Block>, at: Block, got: seq<Item>) {
    exists k :: 0 <= k < |chain| && At(pages, chain, k, at, got)
  }

  ghost predicate At(pages: map<Block, Page>, chain: seq<Block>, k: nat, at: Block, got: seq<Item>)
    requires k < |chain|
  {
    chain[k] == at && got == Items(pages, chain[..k])
  }

  /** What the flush has folded is a prefix of the list; what it is freeing is off
      the list, still linked up to the cut page. */
  ghost predicate FlushInv(s: State, chain: seq<Block>, dead: seq<Block>) {
    match s.flusher
    case Resting => true
    case Folding(start, at, folded) =>
      s.meta.head == To(start) && ReadUpTo(s.pages, chain, at, folded)
    case Cutting(start, cut, lower, folded) =>
      && s.meta.head == To(start)
      && lower <= |ItemsOn(s.pages, cut)| && lower <= |folded|
      && folded[|folded| - lower..] == ItemsOn(s.pages, cut)[..lower]
      && ReadUpTo(s.pages, chain, cut, folded[..|folded| - lower])
    case Freeing(at, cut, kept) => DeadInv(s.pages, chain, dead, at, cut, kept)
  }

  ghost predicate DeadInv(pages: map<Block, Page>, chain: seq<Block>, dead: seq<Block>, at: Block, cut: Block,
                          kept: bool) {
    && Distinct(dead) && (forall b | b in dead :: b !in chain)
    && cut in pages && pages[cut].Pending? && Linked(pages, dead, if kept then To(cut) else pages[cut].next)
    && if kept then cut !in dead && at == (if dead == [] then cut else dead[0])
       else dead != [] && at == dead[0] && cut == dead[|dead| - 1]
  }

  /** While the generation stands, the walk is on the list and has read a prefix
      of it that covers everything indexed at the snapshot once it ends. */
  ghost predicate ScanInv(s: State, chain: seq<Block>) {
    match s.reader
    case Away => true
    case Walking(gen0, segs0, at, got, known) =>
      && gen0 <= s.meta.generation
      && (gen0 == s.meta.generation ==>
            && segs0 == s.meta.segs && known <= s.inserted
            && (at.To? ==> ReadUpTo(s.pages, chain, at.b, got))
            && (at.End? ==> got <= Items(s.pages, chain) && forall x | x in known :: x in segs0 || x in got))
    case Answered(segs0, got, known, indexed) => Exact(segs0, got, known, indexed)
  }

  /** An answer misses nothing that was indexed at its snapshot, invents nothing,
      and holds no document twice. */
  ghost predicate Exact(segs0: set<Item>, got: seq<Item>, known: set<Item>, indexed: set<Item>) {
    && (forall x | x in known :: x in segs0 || x in got)
    && (forall x | x in segs0 :: x in indexed) && (forall x | x in got :: x in indexed)
    && Distinct(got) && (forall x | x in got :: x !in segs0)
  }

  ghost predicate Inv(s: State, chain: seq<Block>, dead: seq<Block>) {
    ListInv(s, chain) && FlushInv(s, chain, dead) && ScanInv(s, chain)
  }

  // ---------------------------------------------------------------------------
  // Chains of pages
  // ---------------------------------------------------------------------------

  lemma ItemsSnoc(pages: map<Block, Page>, chain: seq<Block>, b: Block)
    ensures Items(pages, chain + [b]) == Items(pages, chain) + ItemsOn(pages, b)
  {
    assert (chain + [b])[..|chain|] == chain;
  }

  lemma ItemsStep(pages: map<Block, Page>, chain: seq<Block>, k: nat)
    requires k < |chain|
    ensures Items(pages, chain[..k + 1]) == Items(pages, chain[..k]) + ItemsOn(pages, chain[k])
  {
    assert chain[..k + 1] == chain[..k] + [chain[k]];
    ItemsSnoc(pages, chain[..k], chain[k]);
  }

  lemma {:induction false} ItemsConcat(pages: map<Block, Page>, a: seq<Block>, b: seq<Block>)
    ensures Items(pages, a + b) == Items(pages, a) + Items(pages, b)
    decreases |b|
  {
    if b == [] {
      assert a + b == a;
    } else {
      var c := b[..|b| - 1];
      assert a + b == (a + c) + [b[|b| - 1]] && b == c + [b[|b| - 1]];
      ItemsConcat(pages, a, c);
      ItemsSnoc(pages, a + c, b[|b| - 1]);
      ItemsSnoc(pages, c, b[|b| - 1]);
    }
  }

  /** Pages that hold the same items hold the same list. */
  lemma {:induction false} ItemsFrame(p: map<Block, Page>, p': map<Block, Page>, chain: seq<Block>)
    requires forall i :: 0 <= i < |chain| ==> ItemsOn(p', chain[i]) == ItemsOn(p, chain[i])
    ensures Items(p', chain) == Items(p, chain)
    decreases |chain|
  {
    if chain != [] { ItemsFrame(p, p', chain[..|chain| - 1]); }
  }

  /** Only the tail page grows, and pages are only linked after it, so what has
      been read stays a prefix and the page to read next stays on the list. */
  lemma ReadUpToKept(p: map<Block, Page>, p': map<Block, Page>, chain: seq<Block>, chain': seq<Block>,
                     at: Block, got: seq<Item>)
    requires chain <= chain' && ReadUpTo(p, chain, at, got)
    requires forall i :: 0 <= i < |chain| - 1 ==> ItemsOn(p', chain[i]) == ItemsOn(p, chain[i])
    ensures ReadUpTo(p', chain', at, got)
  {
    var k :| 0 <= k < |chain| && At(p, chain, k, at, got);
    ItemsFrame(p, p', chain[..k]);
    assert chain'[..k] == chain[..k];
    assert At(p', chain', k, at, got);
  }

  /** The two ways an insert grows the list leave all but the last page alone. */
  ghost predicate Grows(p: map<Block, Page>, p': map<Block, Page>, chain: seq<Block>, chain': seq<Block>, x: Item) {
    && chain <= chain' && Items(p', chain') == Items(p, chain) + [x]
    && (forall i :: 0 <= i < |chain| - 1 ==> ItemsOn(p', chain[i]) == ItemsOn(p, chain[i]))
    && (forall b | b in chain :: ItemsOn(p, b) <= ItemsOn(p', b))
  }

  lemma AppendGrows(s: State, chain: seq<Block>, x: Item)
    requires Enabled(s, Append(x)) && ListInv(s, chain)
    ensures Grows(s.pages, Next(s, Append(x)).pages, chain, chain, x)
  {
    var p, p', n := s.pages, Next(s, Append(x)).pages, |chain| - 1;
    assert chain == chain[..n] + [chain[n]];
    ItemsSnoc(p, chain[..n], chain[n]);
    ItemsSnoc(p', chain[..n], chain[n]);
    ItemsFrame(p, p', chain[..n]);
  }

  lemma LinkGrows(s: State, chain: seq<Block>, x: Item, b: Block)
    requires Enabled(s, LinkPage(x, b)) && ListInv(s, chain)
    ensures b !in chain && Grows(s.pages, Next(s, LinkPage(x, b)).pages, chain, chain + [b], x)
    ensures Linked(Next(s, LinkPage(x, b)).pages, chain + [b], End)
  {
    hide Items;
    var p, p', chain' := s.pages, Next(s, LinkPage(x, b)).pages, chain + [b];
    forall i | 0 <= i < |chain| ensures chain[i] != b && ItemsOn(p', chain[i]) == ItemsOn(p, chain[i]) {
      assert IsLink(p, chain, i, End);
    }
    forall i | 0 <= i < |chain'| ensures IsLink(p', chain', i, End) {
      if i < |chain| { assert IsLink(p, chain, i, End); }
      if i < |chain| - 1 { assert chain[i] != chain[|chain| - 1]; }
    }
    ItemsSnoc(p', chain, b);
    ItemsFrame(p, p', chain);
  }

  /** Live pending pages keep their kind and their link. */
  ghost predicate SameLinks(p: map<Block, Page>, p': map<Block, Page>) {
    forall b | b in p :: p[b].Pending? ==> b in p' && p'[b].Pending? && p'[b].next == p[b].next
  }

  lemma LinkedFrame(p: map<Block, Page>, p': map<Block, Page>, chain: seq<Block>, last: Link)
    requires Linked(p, chain, last) && SameLinks(p, p')
    ensures Linked(p', chain, last)
  {
    forall i | 0 <= i < |chain| ensures IsLink(p', chain, i, last) { assert IsLink(p, chain, i, last); }
  }

  lemma DeadFrame(p: map<Block, Page>, p': map<Block, Page>, chain: seq<Block>, dead: seq<Block>,
                  at: Block, cut: Block, kept: bool)
    requires DeadInv(p, chain, dead, at, cut, kept) && SameLinks(p, p')
    ensures DeadInv(p', chain, dead, at, cut, kept)
  {
    hide Linked, Distinct;
    LinkedFrame(p, p', dead, if kept then To(cut) else p[cut].next);
  }

  lemma ConservedAdd(inserted: set<Item>, segs: set<Item>, items: seq<Item>, x: Item)
    requires Conserved(inserted, segs, items) && x !in inserted
    ensures Conserved(inserted + {x}, segs, items + [x]) && Conserved(inserted + {x}, segs + {x}, items)
  {
  }

  // ---------------------------------------------------------------------------
  // Inserts
  // ---------------------------------------------------------------------------

  lemma InsertKeepsFlush(s: State, s': State, chain: seq<Block>, chain': seq<Block>, dead: seq<Block>, x: Item)
    requires FlushInv(s, chain, dead) && Grows(s.pages, s'.pages, chain, chain', x)
    requires s'.flusher == s.flusher && (s.meta.head.To? ==> s'.meta.head == s.meta.head)
    requires s.flusher.Freeing? ==> DeadInv(s'.pages, chain', dead, s.flusher.at, s.flusher.cut, s.flusher.kept)
    ensures FlushInv(s', chain', dead)
  {
    match s.flusher
    case Resting =>
    case Folding(start, at, folded) =>
      ReadUpToKept(s.pages, s'.pages, chain, chain', at, folded);
    case Cutting(start, cut, lower, folded) =>
      ReadUpToKept(s.pages, s'.pages, chain, chain', cut, folded[..|folded| - lower]);
      assert cut in chain;
    case Freeing(at, cut, kept) =>
  }

  lemma InsertKeepsScan(s: State, s': State, chain: seq<Block>, chain': seq<Block>, x: Item)
    requires ScanInv(s, chain) && Grows(s.pages, s'.pages, chain, chain', x)
    requires s'.reader == s.reader && s'.meta.segs == s.meta.segs && s'.meta.generation == s.meta.generation
    requires s.inserted <= s'.inserted
    ensures ScanInv(s', chain')
  {
    if s.reader.Walking? && s.reader.gen0 == s.meta.generation && s.reader.at.To? {
      ReadUpToKept(s.pages, s'.pages, chain, chain', s.reader.at.b, s.reader.got);
    }
  }

  lemma AppendKeeps(s: State, chain: seq<Block>, dead: seq<Block>, x: Item)
    requires Enabled(s, Append(x)) && Inv(s, chain, dead)
    ensures Inv(Next(s, Append(x)), chain, dead)
  {
    hide Linked, DeadInv, Grows, Items, Conserved, Distinct;
    var s' := Next(s, Append(x));
    AppendGrows(s, chain, x);
    GrownItems(s.pages, s'.pages, chain, chain, x);
    LinkedFrame(s.pages, s'.pages, chain, End);
    if s.flusher.Freeing? {
      DeadFrame(s.pages, s'.pages, chain, dead, s.flusher.at, s.flusher.cut, s.flusher.kept);
    }
    ConservedAdd(s.inserted, s.meta.segs, Items(s.pages, chain), x);
    InsertKeepsFlush(s, s', chain, chain, dead, x);
    InsertKeepsScan(s, s', chain, chain, x);
  }

  /** A new page is off the list being freed, and linking it touches only the tail. */
  lemma LinkKeepsDead(s: State, chain: seq<Block>, dead: seq<Block>, x: Item, b: Block)
    requires Enabled(s, LinkPage(x, b)) && ListInv(s, chain) && s.flusher.Freeing?
    requires DeadInv(s.pages, chain, dead, s.flusher.at, s.flusher.cut, s.flusher.kept)
    ensures DeadInv(Next(s, LinkPage(x, b)).pages, chain + [b], dead, s.flusher.at, s.flusher.cut, s.flusher.kept)
  {
    hide Items;
    var f, p, p' := s.flusher, s.pages, Next(s, LinkPage(x, b)).pages;
    forall i | 0 <= i < |dead|
      ensures dead[i] != b && IsLink(p', dead, i, if f.kept then To(f.cut) else p'[f.cut].next)
    {
      assert IsLink(p, dead, i, if f.kept then To(f.cut) else p[f.cut].next);
      assert dead[i] in dead;
      if chain != [] { assert chain[|chain| - 1] in chain; }
    }
    if !f.kept { assert f.cut in dead; }
  }

  lemma LinkKeeps(s: State, chain: seq<Block>, dead: seq<Block>, x: Item, b: Block)
    requires Enabled(s, LinkPage(x, b)) && Inv(s, chain, dead)
    ensures Inv(Next(s, LinkPage(x, b)), chain + [b], dead)
  {
    hide Items, Conserved, Linked, Grows, DeadInv, ReadUpTo;
    var s' := Next(s, LinkPage(x, b));
    LinkGrows(s, chain, x, b);
    GrownItems(s.pages, s'.pages, chain, chain + [b], x);
    ConservedAdd(s.inserted, s.meta.segs, Items(s.pages, chain), x);
    if s.flusher.Freeing? { LinkKeepsDead(s, chain, dead, x, b); }
    InsertKeepsFlush(s, s', chain, chain + [b], dead, x);
    InsertKeepsScan(s, s', chain, chain + [b], x);
  }

  lemma GrownItems(p: map<Block, Page>, p': map<Block, Page>, chain: seq<Block>, chain': seq<Block>, x: Item)
    requires Grows(p, p', chain, chain', x)
    ensures Items(p', chain') == Items(p, chain) + [x]
  {
  }

  // ---------------------------------------------------------------------------
  // Pages off the list
  // ---------------------------------------------------------------------------

  /** Writing a page that is not live pending disturbs nothing. */
  lemma ElsewhereKeeps(s: State, chain: seq<Block>, dead: seq<Block>, b: Block, page: Page)
    requires Inv(s, chain, dead) && !LivePending(s, b) && !page.Pending?
    ensures Inv(s.(pages := s.pages[b := page]), chain, dead)
  {
    var s' := s.(pages := s.pages[b := page]);
    forall c ensures ItemsOn(s'.pages, c) == ItemsOn(s.pages, c) {}
    hide Linked, DeadInv, Items, Conserved, Distinct, ItemsOn;
    ItemsFrame(s.pages, s'.pages, chain);
    LinkedFrame(s.pages, s'.pages, chain, End);
    if s.flusher.Freeing? {
      DeadFrame(s.pages, s'.pages, chain, dead, s.flusher.at, s.flusher.cut, s.flusher.kept);
    }
    FlushFrame(s, s', chain, dead);
    ScanFrame(s, s', chain);
  }

  lemma FlushFrame(s: State, s': State, chain: seq<Block>, dead: seq<Block>)
    requires FlushInv(s, chain, dead) && s'.flusher == s.flusher && s'.meta.head == s.meta.head
    requires forall c :: ItemsOn(s'.pages, c) == ItemsOn(s.pages, c)
    requires s.flusher.Freeing? ==> DeadInv(s'.pages, chain, dead, s.flusher.at, s.flusher.cut, s.flusher.kept)
    ensures FlushInv(s', chain, dead)
  {
    match s.flusher
    case Resting =>
    case Folding(start, at, folded) =>
      ReadUpToKept(s.pages, s'.pages, chain, chain, at, folded);
    case Cutting(start, cut, lower, folded) =>
      ReadUpToKept(s.pages, s'.pages, chain, chain, cut, folded[..|folded| - lower]);
    case Freeing(at, cut, kept) =>
  }

  lemma ScanFrame(s: State, s': State, chain: seq<Block>)
    requires ScanInv(s, chain) && s'.reader == s.reader && s'.inserted == s.inserted
    requires s'.meta.generation == s.meta.generation && s'.meta.segs == s.meta.segs
    requires forall i :: 0 <= i < |chain| ==> ItemsOn(s'.pages, chain[i]) == ItemsOn(s.pages, chain[i])
    ensures ScanInv(s', chain)
  {
    ItemsFrame(s.pages, s'.pages, chain);
    if s.reader.Walking? && s.reader.gen0 == s.meta.generation && s.reader.at.To? {
      ReadUpToKept(s.pages, s'.pages, chain, chain, s.reader.at.b, s.reader.got);
    }
  }

  // ---------------------------------------------------------------------------
  // The flush
  // ---------------------------------------------------------------------------

  lemma FlushReadKeeps(s: State, chain: seq<Block>, dead: seq<Block>)
    requires Enabled(s, FlushRead) && Inv(s, chain, dead)
    ensures Inv(Next(s, FlushRead), chain, dead)
  {
    var f := s.flusher;
    var k :| 0 <= k < |chain| && At(s.pages, chain, k, f.at, f.folded);
    var items := s.pages[f.at].items;
    assert IsLink(s.pages, chain, k, End);
    ItemsStep(s.pages, chain, k);
    if s.pages[f.at].next.End? {
      var folded := f.folded + items;
      assert folded[..|folded| - |items|] == f.folded;
      assert folded[|folded| - |items|..] == items == items[..|items|];
    } else {
      assert At(s.pages, chain, k + 1, chain[k + 1], f.folded + items);
    }
  }

  lemma SplitAt(p: map<Block, Page>, chain: seq<Block>, k: nat)
    requires k < |chain|
    ensures Items(p, chain[k..]) == ItemsOn(p, chain[k]) + Items(p, chain[k + 1..])
    ensures Items(p, chain) == Items(p, chain[..k]) + (ItemsOn(p, chain[k]) + Items(p, chain[k + 1..]))
  {
    hide Items, ItemsOn;
    var one, tail := [chain[k]], chain[k + 1..];
    ItemsOne(p, chain[k]);
    assert chain[k..] == one + tail;
    ItemsConcat(p, one, tail);
    assert chain == chain[..k] + chain[k..];
    ItemsConcat(p, chain[..k], chain[k..]);
  }

  lemma ItemsOne(p: map<Block, Page>, b: Block)
    ensures Items(p, [b]) == ItemsOn(p, b)
  {
    assert [b] == [] + [b];
    ItemsSnoc(p, [], b);
  }

  /** What the cut leaves: the folded items and the new list make up the old list. */
  lemma CutSplits(p: map<Block, Page>, p': map<Block, Page>, chain: seq<Block>, k: nat, folded: seq<Item>, lower: nat)
    requires k < |chain| && Distinct(chain) && lower <= |folded| && lower <= |ItemsOn(p, chain[k])|
    requires folded[..|folded| - lower] == Items(p, chain[..k])
    requires folded[|folded| - lower..] == ItemsOn(p, chain[k])[..lower]
    requires forall i :: k < i < |chain| ==> ItemsOn(p', chain[i]) == ItemsOn(p, chain[i])
    ensures lower == |ItemsOn(p, chain[k])| ==> folded + Items(p', chain[k + 1..]) == Items(p, chain)
    ensures ItemsOn(p', chain[k]) == ItemsOn(p, chain[k])[lower..] ==> folded + Items(p', chain[k..]) == Items(p, chain)
  {
    hide Items, ItemsOn, Distinct;
    var before, on, rest := Items(p, chain[..k]), ItemsOn(p, chain[k]), Items(p, chain[k + 1..]);
    SplitAt(p, chain, k);
    SplitAt(p', chain, k);
    var tail := chain[k + 1..];
    assert forall i :: 0 <= i < |tail| ==> tail[i] == chain[k + 1 + i];
    ItemsFrame(p, p', tail);
    assert folded == before + on[..lower];
    if lower == |on| { assert on[..lower] == on; }
    if ItemsOn(p', chain[k]) == on[lower..] {
      assert on == on[..lower] + on[lower..];
      assert before + on[..lower] + (on[lower..] + rest) == before + ((on[..lower] + on[lower..]) + rest);
    }
  }

  lemma ConservedCut(inserted: set<Item>, segs: set<Item>, folded: seq<Item>, rest: seq<Item>)
    requires Conserved(inserted, segs, folded + rest)
    ensures Conserved(inserted, segs + (set x | x in folded), rest)
  {
    var all := folded + rest;
    forall i, j | 0 <= i < j < |rest| ensures rest[i] != rest[j] {
      assert all[|folded| + i] != all[|folded| + j];
    }
    forall x | x in rest ensures x !in folded {
      var j :| 0 <= j < |rest| && rest[j] == x;
      forall i | 0 <= i < |folded| ensures folded[i] != x { assert all[i] != all[|folded| + j]; }
    }
    assert forall x :: x in all <==> x in folded || x in rest;
  }

  /** Both parts of a cut chain stay linked. */
  lemma CutLinks(p: map<Block, Page>, a: seq<Block>, b: seq<Block>)
    requires Linked(p, a + b, End)
    ensures Linked(p, a, First(b)) && Linked(p, b, End)
  {
    forall i | 0 <= i < |a| ensures IsLink(p, a, i, First(b)) { assert IsLink(p, a + b, i, End); }
    forall i | 0 <= i < |b| ensures IsLink(p, b, i, End) { assert IsLink(p, a + b, |a| + i, End); }
  }

  lemma CutDistinct(a: seq<Block>, b: seq<Block>)
    requires Distinct(a + b)
    ensures Distinct(a) && Distinct(b) && forall x | x in a :: x !in b
  {
    var c := a + b;
    forall i, j | 0 <= i < j < |a| ensures a[i] != a[j] { assert c[i] != c[j]; }
    forall i, j | 0 <= i < j < |b| ensures b[i] != b[j] { assert c[|a| + i] != c[|a| + j]; }
    forall x | x in a ensures x !in b {
      var i :| 0 <= i < |a| && a[i] == x;
      forall j | 0 <= j < |b| ensures b[j] != x { assert c[i] != c[|a| + j]; }
    }
  }

  /** The prefix the cut drops is what the flush then frees. */
  lemma CutIsDead(p: map<Block, Page>, a: seq<Block>, cut: Block, b: seq<Block>, kept: bool)
    requires Distinct(a + [cut] + b) && Linked(p, a + [cut] + b, End)
    ensures var chain := if kept then [cut] + b else b;
            && Distinct(chain) && Linked(p, chain, End) && cut in p && p[cut].Pending? && p[cut].next == First(b)
            && DeadInv(p, chain, if kept then a else a + [cut], (a + [cut])[0], cut, kept)
  {
    var one := [cut];
    assert IsLink(p, a + one + b, |a|, End);
    hide Linked, Distinct, IsLink;
    assert a + one + b == a + (one + b);
    if kept {
      CutLinks(p, a, one + b);
      CutDistinct(a, one + b);
      assert cut in one + b;
    } else {
      CutLinks(p, a + one, b);
      CutDistinct(a + one, b);
    }
  }

  lemma FlushCutKeeps(s: State, chain: seq<Block>, dead: seq<Block>) returns (chain': seq<Block>, dead': seq<Block>)
    requires Enabled(s, FlushCut) && Inv(s, chain, dead)
    ensures Inv(Next(s, FlushCut), chain', dead')
  {
    hide Items, Conserved, Linked, Distinct, DeadInv, ReadUpTo, IsLink;
    var f, s' := s.flusher, Next(s, FlushCut);
    var k := ReadAt(s.pages, chain, f.cut, f.folded[..|f.folded| - f.lower]);
    var kept := s'.flusher.kept;
    var a, b := chain[..k], chain[k + 1..];
    chain' := if kept then [f.cut] + b else b;
    dead' := if kept then a else a + [f.cut];
    assert chain[k..] == [f.cut] + b && chain == a + [f.cut] + b;
    forall i | k < i < |chain| ensures ItemsOn(s'.pages, chain[i]) == ItemsOn(s.pages, chain[i]) {
      DistinctAt(chain, k, i);
    }
    CutSplits(s.pages, s'.pages, chain, k, f.folded, f.lower);
    ConservedCut(s.inserted, s.meta.segs, f.folded, Items(s'.pages, chain'));
    LinkedFrame(s.pages, s'.pages, chain, End);
    CutIsDead(s'.pages, a, f.cut, b, kept);
  }

  lemma ReadAt(pages: map<Block, Page>, chain: seq<Block>, at: Block, got: seq<Item>) returns (k: nat)
    requires ReadUpTo(pages, chain, at, got)
    ensures k < |chain| && chain[k] == at && got == Items(pages, chain[..k])
  {
    k :| 0 <= k < |chain| && At(pages, chain, k, at, got);
  }

  lemma DistinctAt(chain: seq<Block>, i: nat, j: nat)
    requires Distinct(chain) && i < j < |chain|
    ensures chain[i] != chain[j]
  {
  }

  /** Freeing one page leaves the rest linked up to the cut page. */
  lemma DeadStep(pages: map<Block, Page>, chain: seq<Block>, dead: seq<Block>, at: Block, cut: Block, kept: bool)
    requires DeadInv(pages, chain, dead, at, cut, kept) && !(kept && at == cut)
    ensures dead != [] && dead[0] == at && at !in chain && at in pages && pages[at].Pending?
    ensures at != cut ==> && pages[at].next.To?
                          && DeadInv(pages[at := Freed], chain, dead[1..], pages[at].next.b, cut, kept)
  {
    var last := if kept then To(cut) else pages[cut].next;
    assert dead != [] && IsLink(pages, dead, 0, last);
    var rest, pages' := dead[1..], pages[at := Freed];
    forall i | 0 <= i < |rest| ensures IsLink(pages', rest, i, last) {
      assert IsLink(pages, dead, i + 1, last);
      assert dead[0] != dead[i + 1];
    }
  }

  lemma FlushFreeKeeps(s: State, chain: seq<Block>, dead: seq<Block>) returns (dead': seq<Block>)
    requires Enabled(s, FlushFree) && Inv(s, chain, dead)
    ensures Inv(Next(s, FlushFree), chain, dead')
  {
    hide Items, Conserved, DeadInv, ReadUpTo;
    var f, s' := s.flusher, Next(s, FlushFree);
    if f.kept && f.at == f.cut { return dead; }
    DeadStep(s.pages, chain, dead, f.at, f.cut, f.kept);
    dead' := dead[1..];
    forall i | 0 <= i < |chain| ensures ItemsOn(s'.pages, chain[i]) == ItemsOn(s.pages, chain[i]) {
      assert chain[i] in chain;
    }
    ItemsFrame(s.pages, s'.pages, chain);
    forall i | 0 <= i < |chain| ensures IsLink(s'.pages, chain, i, End) {
      assert IsLink(s.pages, chain, i, End) && chain[i] in chain;
    }
    ScanFrame(s, s', chain);
  }

  // ---------------------------------------------------------------------------
  // The scan
  // ---------------------------------------------------------------------------

  lemma ScanStartKeeps(s: State, chain: seq<Block>, dead: seq<Block>)
    requires Enabled(s, ScanStart) && Inv(s, chain, dead)
    ensures Inv(Next(s, ScanStart), chain, dead)
  {
    if chain != [] { assert At(s.pages, chain, 0, chain[0], []); }
  }

  lemma ScanReadKeeps(s: State, chain: seq<Block>, dead: seq<Block>)
    requires Enabled(s, ScanRead) && Inv(s, chain, dead)
    ensures Inv(Next(s, ScanRead), chain, dead)
  {
    var r := s.reader;
    if r.gen0 == s.meta.generation {
      var k :| 0 <= k < |chain| && At(s.pages, chain, k, r.at.b, r.got);
      assert IsLink(s.pages, chain, k, End);
      ItemsStep(s.pages, chain, k);
      if k + 1 < |chain| {
        assert At(s.pages, chain, k + 1, chain[k + 1], r.got + s.pages[r.at.b].items);
      } else {
        assert chain[..k + 1] == chain;
      }
    }
  }

  lemma ScanCheckKeeps(s: State, chain: seq<Block>, dead: seq<Block>)
    requires Enabled(s, ScanCheck) && Inv(s, chain, dead)
    ensures Inv(Next(s, ScanCheck), chain, dead)
  {
    var r := s.reader;
    if r.gen0 == s.meta.generation {
      var items := Items(s.pages, chain);
      forall x | x in r.got ensures x in items {}
    }
  }

  // ---------------------------------------------------------------------------
  // Every run
  // ---------------------------------------------------------------------------

  lemma StepKeeps(s: State, step: Step, chain: seq<Block>, dead: seq<Block>)
    returns (chain': seq<Block>, dead': seq<Block>)
    requires Enabled(s, step) && Inv(s, chain, dead)
    ensures Inv(Next(s, step), chain', dead')
  {
    chain', dead' := chain, dead;
    match step
    case Append(x) => AppendKeeps(s, chain, dead, x);
    case LinkPage(x, b) =>
      LinkKeeps(s, chain, dead, x, b);
      chain' := chain + [b];
    case AddSegment(x) =>
      ConservedAdd(s.inserted, s.meta.segs, Items(s.pages, chain), x);
    case Merge =>
    case Recycle(b) => ElsewhereKeeps(s, chain, dead, b, Other);
    case Release(b) => ElsewhereKeeps(s, chain, dead, b, Freed);
    case FlushStart => assert At(s.pages, chain, 0, chain[0], []);
    case FlushRead => FlushReadKeeps(s, chain, dead);
    case FlushCut => chain', dead' := FlushCutKeeps(s, chain, dead);
    case FlushFree => dead' := FlushFreeKeeps(s, chain, dead);
    case ScanStart => ScanStartKeeps(s, chain, dead);
    case ScanRead => ScanReadKeeps(s, chain, dead);
    case ScanCheck => ScanCheckKeeps(s, chain, dead);
  }

  /** An empty index. */
  predicate Initial(s: State) {
    && s.pages == map[] && s.meta.head == End && s.meta.tail == End && s.meta.segs == {}
    && s.flusher.Resting? && s.reader.Away? && s.inserted == {}
  }

  /** Steps taken one after the other from `states[0]`. */
  ghost predicate Path(states: seq<State>, steps: seq<Step>) {
    && |states| == |steps| + 1
    && forall i :: 0 <= i < |steps| ==> Enabled(states[i], steps[i]) && states[i + 1] == Next(states[i], steps[i])
  }

  /** A run: a path from the empty index. */
  ghost predicate Run(states: seq<State>, steps: seq<Step>) { Path(states, steps) && Initial(states[0]) }

  lemma {:induction false} RunKeeps(states: seq<State>, steps: seq<Step>, n: nat)
    returns (chain: seq<Block>, dead: seq<Block>)
    requires Run(states, steps) && n < |states|
    ensures Inv(states[n], chain, dead)
    decreases n
  {
    if n == 0 { return [], []; }
    chain, dead := RunKeeps(states, steps, n - 1);
    chain, dead := StepKeeps(states[n - 1], steps[n - 1], chain, dead);
  }

  /** An answer whose generation re-check succeeded is exact, in every run. */
  lemma AnswersAreExact(states: seq<State>, steps: seq<Step>, n: nat)
    requires Run(states, steps) && n < |states| && states[n].reader.Answered?
    ensures var r := states[n].reader; Exact(r.segs0, r.got, r.known, r.indexed)
  {
    hide Run, ListInv, FlushInv;
    var chain, dead := RunKeeps(states, steps, n);
  }

  /** While its generation stands, a scan is about to read a live pending page that
      is on the list; the flush reads only pages of the list, and the page it is
      about to free is live and off the list. */
  lemma ReadsOnlyLivePages(states: seq<State>, steps: seq<Step>, n: nat) returns (chain: seq<Block>)
    requires Run(states, steps) && n < |states|
    ensures var s := states[n];
            && Linked(s.pages, chain, End) && s.meta.head == First(chain)
            && (s.reader.Walking? && s.reader.gen0 == s.meta.generation && s.reader.at.To? ==> s.reader.at.b in chain)
            && (s.flusher.Folding? ==> s.flusher.at in chain)
            && (s.flusher.Cutting? ==> s.flusher.cut in chain)
            && (s.flusher.Freeing? && !(s.flusher.kept && s.flusher.at == s.flusher.cut) ==> s.flusher.at !in chain)
    ensures var s := states[n];
            && (s.reader.Walking? && s.reader.gen0 == s.meta.generation && s.reader.at.To? ==>
                  LivePending(s, s.reader.at.b))
            && (s.flusher.Folding? ==> LivePending(s, s.flusher.at))
            && (s.flusher.Cutting? ==> LivePending(s, s.flusher.cut))
            && (s.flusher.Freeing? ==> LivePending(s, s.flusher.at))
  {
    hide Run, Items, Conserved, Distinct;
    var s := states[n];
    var dead;
    chain, dead := RunKeeps(states, steps, n);
    if s.reader.Walking? && s.reader.gen0 == s.meta.generation && s.reader.at.To? {
      var k := ReadAt(s.pages, chain, s.reader.at.b, s.reader.got);
      assert IsLink(s.pages, chain, k, End);
    }
    match s.flusher
    case Resting =>
    case Folding(start, at, folded) =>
      var k := ReadAt(s.pages, chain, at, folded);
      assert IsLink(s.pages, chain, k, End);
    case Cutting(start, cut, lower, folded) =>
      var k := ReadAt(s.pages, chain, cut, folded[..|folded| - lower]);
      assert IsLink(s.pages, chain, k, End);
    case Freeing(at, cut, kept) =>
      if dead != [] { assert IsLink(s.pages, dead, 0, if kept then To(cut) else s.pages[cut].next); }
  }

  /** No insert is lost or doubled by a flush running beside it: every inserted
      document is in the segments or on the list, in one place. */
  lemma NothingIsLost(states: seq<State>, steps: seq<Step>, n: nat) returns (chain: seq<Block>)
    requires Run(states, steps) && n < |states|
    ensures var s := states[n];
            && Linked(s.pages, chain, End) && s.meta.head == First(chain)
            && Conserved(s.inserted, s.meta.segs, Items(s.pages, chain))
  {
    hide Run, FlushInv, ScanInv;
    var dead;
    chain, dead := RunKeeps(states, steps, n);
  }

  // ---------------------------------------------------------------------------
  // The bump is needed
  // ---------------------------------------------------------------------------

  /** `x` folded from page `b`, then `y` appended to it, then a scan's snapshot. */
  function BeforeCut(x: Item, y: Item, b: Block): State {
    State(map[b := Pending([x, y], End)], Meta(To(b), To(b), 0, {}), Cutting(b, b, 1, [x]),
          Walking(0, {}, To(b), [], {x, y}), {x, y})
  }

  /** A run that ends there: `x` is inserted, a flush folds it, `y` is appended,
      and a scan takes its snapshot. */
  lemma BeforeCutIsReached(s: State, x: Item, y: Item, b: Block) returns (states: seq<State>, steps: seq<Step>)
    requires Initial(s) && s.meta.generation == 0 && x != y
    ensures Run(states, steps) && states[|steps|] == BeforeCut(x, y, b)
  {
    steps := [LinkPage(x, b), FlushStart, FlushRead, Append(y), ScanStart];
    var s1 := Next(s, LinkPage(x, b));
    var s2 := Next(s1, FlushStart);
    var s3 := Next(s2, FlushRead);
    assert s3.flusher == Cutting(b, b, 1, [x]) && s3.pages == map[b := Pending([x], End)];
    var s4 := Next(s3, Append(y));
    assert [x] + [y] == [x, y];
    assert s3.pages[b] == Pending([x], End) && s4.pages[b] == Pending([x, y], End);
    assert s4.pages == map[b := Pending([x, y], End)] && s4.inserted == {x, y};
    var s5 := Next(s4, ScanStart);
    states := [s, s1, s2, s3, s4, s5];
    assert s5 == BeforeCut(x, y, b);
    hide Next, Enabled;
    assert forall i :: 0 <= i < |steps| ==> Enabled(states[i], steps[i]) && states[i + 1] == Next(states[i], steps[i]);
  }

  /** From a state some run reaches, a cut that leaves the generation alone lets
      the scan read the compacted cut page, pass its re-check and miss `x`; the
      real cut makes it start over. */
  lemma UnbumpedCutLosesRows(s: State, x: Item, y: Item, b: Block) returns (states: seq<State>, steps: seq<Step>)
    requires Initial(s) && s.meta.generation == 0 && x != y
    ensures Run(states, steps) && states[|steps|] == BeforeCut(x, y, b)
    ensures var cut := Cut(BeforeCut(x, y, b), false);
            var r := Next(Next(cut, ScanRead), ScanCheck).reader;
            r.Answered? && x in r.known && !Exact(r.segs0, r.got, r.known, r.indexed)
    ensures var cut := Next(BeforeCut(x, y, b), FlushCut);
            Next(Next(cut, ScanRead), ScanCheck).reader.Away?
  {
    states, steps := BeforeCutIsReached(s, x, y, b);
    hide Run;
    CutState(x, y, b, false);
    CutState(x, y, b, true);
    hide Cut;
    assert Next(BeforeCut(x, y, b), FlushCut) == Cut(BeforeCut(x, y, b), true) by { CutIsNext(BeforeCut(x, y, b)); }
    assert y != x && x !in [y] && x in {x, y};
  }

  /** The state after the cut: `y` alone on the page, the scan where it was. */
  function AfterCut(x: Item, y: Item, b: Block, generation: nat): State {
    State(map[b := Pending([y], End)], Meta(To(b), To(b), generation, {x}), Freeing(b, b, true),
          Walking(0, {}, To(b), [], {x, y}), {x, y})
  }

  lemma CutState(x: Item, y: Item, b: Block, bump: bool)
    requires x != y
    ensures Cut(BeforeCut(x, y, b), bump) == AfterCut(x, y, b, if bump then 1 else 0)
  {
    var s := BeforeCut(x, y, b);
    assert [x, y][1..] == [y];
    assert s.pages[b := Pending([y], End)] == map[b := Pending([y], End)];
    assert {} + (set z | z in [x]) == {x};
  }

  lemma CutIsNext(s: State)
    requires Enabled(s, FlushCut)
    ensures Next(s, FlushCut) == Cut(s, true)
  {
  }

  // ---------------------------------------------------------------------------
  // Scans answer
  // ---------------------------------------------------------------------------

  /** Between a scan's snapshot and its check: the scan takes no new snapshot. */
  ghost predicate OneScan(steps: seq<Step>, i: nat, j: nat)
    requires i < j < |steps|
  {
    && steps[i] == ScanStart && steps[j] == ScanCheck
    && forall n :: i < n < j ==> steps[n] != ScanStart && steps[n] != ScanCheck
  }

  lemma StepKeepsSnapshot(s: State, step: Step)
    requires Enabled(s, step) && step != ScanStart && step != ScanCheck && s.reader.Walking?
    ensures Next(s, step).reader.Walking? && Next(s, step).reader.gen0 == s.reader.gen0
  {
  }

  lemma {:induction false} SnapshotStands(states: seq<State>, steps: seq<Step>, i: nat, n: nat)
    requires Path(states, steps) && i < n <= |steps| && steps[i] == ScanStart
    requires forall m :: i < m < n ==> steps[m] != ScanStart && steps[m] != ScanCheck
    ensures states[n].reader.Walking? && states[n].reader.gen0 == states[i].meta.generation
    decreases n
  {
    if n > i + 1 {
      SnapshotStands(states, steps, i, n - 1);
      StepKeepsSnapshot(states[n - 1], steps[n - 1]);
    }
  }

  /** In every run a scan answers iff no generation bump fell between its snapshot
      and its check, and else it starts over. */
  lemma AnswersIffUnmoved(states: seq<State>, steps: seq<Step>, i: nat, j: nat)
    requires Path(states, steps) && i < j < |steps| && OneScan(steps, i, j)
    ensures states[j + 1].reader.Answered? <==> states[i].meta.generation == states[j].meta.generation
    ensures !states[j + 1].reader.Answered? ==> states[j + 1].reader.Away?
  {
    SnapshotStands(states, steps, i, j);
  }

  /** A scan at page `k` of the list, with everything before it read. */
  ghost predicate ReadingAt(s: State, chain: seq<Block>, k: nat) {
    && s.reader.Walking? && s.reader.gen0 == s.meta.generation && s.reader.segs0 == s.meta.segs
    && k <= |chain| && s.reader.got == Items(s.pages, chain[..k])
    && s.reader.at == if k < |chain| then To(chain[k]) else End
  }

  lemma ReadOne(s: State, chain: seq<Block>, k: nat)
    requires ListInv(s, chain) && k < |chain| && ReadingAt(s, chain, k)
    ensures Enabled(s, ScanRead)
    ensures ListInv(Next(s, ScanRead), chain) && ReadingAt(Next(s, ScanRead), chain, k + 1)
    ensures Next(s, ScanRead) == s.(reader := Next(s, ScanRead).reader)
  {
    hide Conserved, Distinct, Items;
    assert IsLink(s.pages, chain, k, End);
    ItemsStep(s.pages, chain, k);
  }

  /** The rest of the walk: read to the end, check, and answer. */
  lemma {:induction false} ReadOn(s: State, chain: seq<Block>, k: nat) returns (states: seq<State>, steps: seq<Step>)
    requires ListInv(s, chain) && ReadingAt(s, chain, k)
    ensures Path(states, steps) && states[0] == s && |steps| == |chain| - k + 1
    ensures forall i :: 0 <= i < |steps| ==> steps[i] == if i < |steps| - 1 then ScanRead else ScanCheck
    ensures var e := states[|steps|];
            && e == s.(reader := Answered(s.meta.segs, Items(s.pages, chain), s.reader.known, s.inserted))
    decreases |chain| - k
  {
    hide ListInv, Items;
    if k < |chain| {
      ReadOne(s, chain, k);
      var next := Next(s, ScanRead);
      var later, acts := ReadOn(next, chain, k + 1);
      states, steps := [s] + later, [ScanRead] + acts;
      assert forall i :: 0 <= i < |acts| ==> Enabled(later[i], acts[i]) && later[i + 1] == Next(later[i], acts[i]);
    } else {
      assert chain[..k] == chain;
      states, steps := [s, Next(s, ScanCheck)], [ScanCheck];
    }
  }

  /** From every reachable state a scan that nothing interrupts answers, after one
      snapshot, one read for each page of the list and one check, with exactly the
      inserted documents. */
  lemma UndisturbedScanAnswers(states: seq<State>, steps: seq<Step>, n: nat)
    returns (chain: seq<Block>, more: seq<State>, acts: seq<Step>)
    requires Run(states, steps) && n < |states| && !states[n].reader.Walking?
    ensures Linked(states[n].pages, chain, End) && states[n].meta.head == First(chain)
    ensures Path(more, acts) && more[0] == states[n] && |acts| == |chain| + 2
    ensures forall i :: 0 <= i < |acts| ==>
              acts[i] == if i == 0 then ScanStart else if i < |acts| - 1 then ScanRead else ScanCheck
    ensures var e := more[|acts|];
            && e == states[n].(reader := e.reader) && e.reader.Answered?
            && forall x :: x in e.reader.segs0 || x in e.reader.got <==> x in states[n].inserted
  {
    hide Run, FlushInv, ScanInv, Items, Distinct, Linked;
    var dead;
    chain, dead := RunKeeps(states, steps, n);
    var s := states[n];
    var start := Next(s, ScanStart);
    assert Items(s.pages, chain[..0]) == [] by { assert chain[..0] == []; NoItems(s.pages); }
    assert ListInv(start, chain) && ReadingAt(start, chain, 0);
    var later, rest := ReadOn(start, chain, 0);
    more, acts := [s] + later, [ScanStart] + rest;
    assert forall i :: 0 <= i < |rest| ==> Enabled(later[i], rest[i]) && later[i + 1] == Next(later[i], rest[i]);
  }

  lemma NoItems(pages: map<Block, Page>)
    ensures Items(pages, []) == []
  {
  }

  // ---------------------------------------------------------------------------
  // Flushes finish
  // ---------------------------------------------------------------------------

  lemma PathCons(s: State, step: Step, states: seq<State>, steps: seq<Step>)
    requires Enabled(s, step) && Path(states, steps) && states[0] == Next(s, step)
    ensures Path([s] + states, [step] + steps)
  {
    var all, acts := [s] + states, [step] + steps;
    forall i | 0 <= i < |acts| ensures Enabled(all[i], acts[i]) && all[i + 1] == Next(all[i], acts[i]) {
      if i > 0 { assert acts[i] == steps[i - 1] && all[i] == states[i - 1] && all[i + 1] == states[i]; }
    }
  }

  lemma PathJoin(a: seq<State>, x: seq<Step>, b: seq<State>, y: seq<Step>)
    requires Path(a, x) && Path(b, y) && a[|x|] == b[0]
    ensures Path(a + b[1..], x + y)
  {
    var all, acts := a + b[1..], x + y;
    forall i | 0 <= i < |acts| ensures Enabled(all[i], acts[i]) && all[i + 1] == Next(all[i], acts[i]) {
      if i >= |x| { assert all[i] == b[i - |x|] && all[i + 1] == b[i - |x| + 1] && acts[i] == y[i - |x|]; }
    }
  }

  /** The flush has folded the pages before the `k`th. */
  ghost predicate FoldingAt(s: State, chain: seq<Block>, k: nat) {
    k < |chain| && s.flusher == Folding(chain[0], chain[k], Items(s.pages, chain[..k]))
  }

  /** Fold the rest of the list. */
  lemma {:induction false} FoldOn(s: State, chain: seq<Block>, k: nat) returns (states: seq<State>, steps: seq<Step>)
    requires Linked(s.pages, chain, End) && FoldingAt(s, chain, k)
    ensures Path(states, steps) && states[0] == s && |steps| == |chain| - k
    ensures forall i :: 0 <= i < |steps| ==> steps[i] == FlushRead
    ensures var cut := chain[|chain| - 1];
            states[|steps|] == s.(flusher := Cutting(chain[0], cut, |ItemsOn(s.pages, cut)|, Items(s.pages, chain)))
    decreases |chain| - k
  {
    hide Items, Path;
    assert IsLink(s.pages, chain, k, End);
    ItemsStep(s.pages, chain, k);
    var next := Next(s, FlushRead);
    if k + 1 < |chain| {
      var later, acts := FoldOn(next, chain, k + 1);
      PathCons(s, FlushRead, later, acts);
      states, steps := [s] + later, [FlushRead] + acts;
    } else {
      assert chain[..k + 1] == chain;
      states, steps := [s, next], [FlushRead];
      OneStep(s, FlushRead);
    }
  }

  lemma OneStep(s: State, step: Step)
    requires Enabled(s, step)
    ensures Path([s, Next(s, step)], [step])
  {
  }

  /** The pages of the cut-off list before the `k`th are free, the rest as they were. */
  ghost predicate FreeingAt(before: State, s: State, chain: seq<Block>, k: nat) {
    && k < |chain| && s.flusher == Freeing(chain[k], chain[|chain| - 1], false)
    && s == before.(pages := s.pages, flusher := s.flusher) && FreedFirst(before.pages, s.pages, chain, k)
  }

  ghost predicate FreedFirst(before: map<Block, Page>, pages: map<Block, Page>, chain: seq<Block>, k: nat)
    requires k <= |chain|
  {
    pages.Keys == before.Keys && forall b | b in pages :: pages[b] == if b in chain[..k] then Freed else before[b]
  }

  lemma FreeOne(before: State, s: State, chain: seq<Block>, k: nat)
    requires Distinct(chain) && Linked(before.pages, chain, End) && FreeingAt(before, s, chain, k)
    ensures Enabled(s, FlushFree)
    ensures var next := Next(s, FlushFree);
            && next == before.(pages := next.pages, flusher := next.flusher)
            && FreedFirst(before.pages, next.pages, chain, k + 1)
            && next.flusher == if k + 1 < |chain| then Freeing(chain[k + 1], chain[|chain| - 1], false) else Resting
  {
    assert IsLink(before.pages, chain, k, End);
    assert chain[k] !in chain[..k];
    assert chain[..k + 1] == chain[..k] + [chain[k]];
  }

  /** Free the rest of the cut-off list. */
  lemma {:induction false} FreeOn(before: State, s: State, chain: seq<Block>, k: nat)
    returns (states: seq<State>, steps: seq<Step>)
    requires Distinct(chain) && Linked(before.pages, chain, End) && FreeingAt(before, s, chain, k)
    ensures Path(states, steps) && states[0] == s && |steps| == |chain| - k
    ensures forall i :: 0 <= i < |steps| ==> steps[i] == FlushFree
    ensures var e := states[|steps|];
            && e == before.(pages := e.pages, flusher := Resting)
            && FreedFirst(before.pages, e.pages, chain, |chain|)
    decreases |chain| - k
  {
    hide Path, FreedFirst, Distinct, Linked;
    FreeOne(before, s, chain, k);
    var next := Next(s, FlushFree);
    OneStep(s, FlushFree);
    if k + 1 < |chain| {
      var later, acts := FreeOn(before, next, chain, k + 1);
      PathCons(s, FlushFree, later, acts);
      states, steps := [s] + later, [FlushFree] + acts;
    } else {
      states, steps := [s, next], [FlushFree];
    }
  }

  /** From every reachable state a flush that nothing interrupts finishes: it reads
      each page of the list, cuts the list off, frees each page, and leaves every
      inserted document in the segments and nothing on the list. */
  lemma UndisturbedFlushFinishes(states: seq<State>, steps: seq<Step>, n: nat)
    returns (chain: seq<Block>, more: seq<State>, acts: seq<Step>)
    requires Run(states, steps) && n < |states| && states[n].flusher.Resting? && states[n].meta.head.To?
    ensures Linked(states[n].pages, chain, End) && states[n].meta.head == First(chain)
    ensures Path(more, acts) && more[0] == states[n] && |acts| == 2 * |chain| + 2
    ensures forall i :: 0 <= i < |acts| ==>
              acts[i] == if i == 0 then FlushStart else if i <= |chain| then FlushRead
                         else if i == |chain| + 1 then FlushCut else FlushFree
    ensures var s, e := states[n], more[|acts|];
            && e == s.(pages := e.pages, meta := Meta(End, End, s.meta.generation + 1, s.inserted))
            && FreedFirst(s.pages, e.pages, chain, |chain|)
  {
    hide Run, Path, ScanInv, Items, Distinct, Linked;
    var dead;
    chain, dead := RunKeeps(states, steps, n);
    var s := states[n];
    var start := Next(s, FlushStart);
    OneStep(s, FlushStart);
    assert Items(s.pages, chain[..0]) == [] by { assert chain[..0] == []; NoItems(s.pages); }
    var folding, folds := FoldOn(start, chain, 0);
    PathCons(s, FlushStart, folding, folds);
    var cutting := folding[|folds|];
    CutAll(s, cutting, chain);
    var after := Next(cutting, FlushCut);
    var freeing, frees := FreeOn(after, after, chain, 0);
    PathCons(cutting, FlushCut, freeing, frees);
    PathJoin([s] + folding, [FlushStart] + folds, [cutting] + freeing, [FlushCut] + frees);
    more := [s] + folding + ([cutting] + freeing)[1..];
    acts := [FlushStart] + folds + ([FlushCut] + frees);
    assert ([cutting] + freeing)[1..] == freeing;
  }

  /** Cutting a list that has been folded to its end empties it. */
  lemma CutAll(s: State, cutting: State, chain: seq<Block>)
    requires ListInv(s, chain) && chain != []
    requires var cut := chain[|chain| - 1];
             cutting == s.(flusher := Cutting(chain[0], cut, |ItemsOn(s.pages, cut)|, Items(s.pages, chain)))
    ensures Enabled(cutting, FlushCut)
    ensures var after := Next(cutting, FlushCut);
            && after == s.(meta := Meta(End, End, s.meta.generation + 1, s.inserted), flusher := after.flusher)
            && FreeingAt(after, after, chain, 0)
  {
    hide Items, Distinct;
    assert IsLink(s.pages, chain, |chain| - 1, End);
    var items := Items(s.pages, chain);
    assert s.meta.segs + (set x | x in items) == s.inserted;
  }

  // ---------------------------------------------------------------------------
  // The generation and the writers
  // ---------------------------------------------------------------------------

  /** The steps that change what the segments hold or where. */
  predicate Bumps(step: Step) { step.AddSegment? || step.Merge? || step.FlushCut? }

  function BumpsIn(steps: seq<Step>): nat {
    if steps == [] then 0 else BumpsIn(steps[..|steps| - 1]) + if Bumps(steps[|steps| - 1]) then 1 else 0
  }

  /** The generation counts exactly those steps, so a scan's re-check passes iff
      none of them came between. */
  lemma {:induction false} GenerationCounts(states: seq<State>, steps: seq<Step>, n: nat)
    requires Path(states, steps) && n <= |steps|
    ensures states[n].meta.generation == states[0].meta.generation + BumpsIn(steps[..n])
    decreases n
  {
    if n > 0 {
      GenerationCounts(states, steps, n - 1);
      assert steps[..n][..n - 1] == steps[..n - 1];
      assert states[n] == Next(states[n - 1], steps[n - 1]);
    }
  }

  /** In every reachable state a new document can be inserted, on the tail page, on
      any free block or as a segment of its own; segments can be merged and free
      blocks recycled. */
  lemma WritersMayStep(states: seq<State>, steps: seq<Step>, n: nat, x: Item, b: Block)
    requires Run(states, steps) && n < |states| && x !in states[n].inserted && Free(states[n], b)
    ensures var s := states[n];
            && (s.meta.head.To? ==> Enabled(s, Append(x))) && Enabled(s, LinkPage(x, b)) && Enabled(s, AddSegment(x))
            && Enabled(s, Merge) && Enabled(s, Recycle(b)) && Enabled(Next(s, Recycle(b)), Release(b))
            && Free(Next(Next(s, Recycle(b)), Release(b)), b)
    ensures var s := states[n];
            && (s.meta.head.To? ==> Next(s, Append(x)).inserted == s.inserted + {x})
            && Next(s, LinkPage(x, b)).inserted == s.inserted + {x}
            && Next(s, AddSegment(x)).inserted == s.inserted + {x}
            && Next(s, AddSegment(x)).meta.segs == s.meta.segs + {x}
  {
    hide Run, FlushInv, ScanInv, Conserved, Distinct;
    var chain, dead := RunKeeps(states, steps, n);
    if chain != [] { assert IsLink(states[n].pages, chain, |chain| - 1, End); }
  }
}
