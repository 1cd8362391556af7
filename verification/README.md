# pg_weave: a verified model of its search core

pg_weave is a PostgreSQL index access method. Its risky logic is backend-free:
a fuzzy automaton over a sorted vocabulary, an edit-distance block bound, a
threshold-pruned fused top-k scan over channels that promise bounds, the vector
block bound, bit-packed columns, docvalues and document-list images read from
disk, and an optimistic read of a pending list that a flush cuts and frees. The
Dafny files here model that logic and prove that it keeps its promises.

Run `dafny verify dfyconfig.toml`.

| file | part of the system |
|---|---|
| EditDistance, EditUnits, FuzzyMatch, DeadPrefix, FuzzyExpansion, FuzzySkip | the fuzzy automaton and its walk over a vocabulary |
| EdistBound, EdistShuttle, EditScan | the edit-distance block bound, its shuttle, the pruned page scan |
| Basics, BinaryHeap, PrunedScan, BlockBound | shared notions, the score heap, the pruned code scan, the vector bounds |
| FusedSpec, FusedSteps, FusedTrace, FusedScan, FusedReference | the fused-threshold scan and its brute-force reference |
| FusedSafety, FusedMisled | which channels the fused scan is exact with, and what goes wrong with the others |
| Gate, VecDocMap, Bm25Bound | the channels: predicate gates, the lane relabelling, BM25 bounds |
| Bits, ForCodec, DoclenByte, DoclenWalk | bit packing, quantized lengths, hinted lookup |
| DocvalStore, DocvalText, DocvalBuild, DocvalFloat, Doclist, DoclistBuild | on-disk images: validators, readers, evaluators, builders |
| PendingWalk | the pending list, the flush and the generation re-check |
| Ndcg | the retrieval metric |

Scores, bounds and distances that the C code keeps in float or double are real
numbers here. Integers are unbounded except where the code's width matters, and
then the wrap is written out.

## What the proofs found

- The automaton reports a dead byte prefix after looking only at the last unit's
  boundary flag. With query F0 90 80 80 and k = 1 the candidate F0 90 80 41 is
  reported dead after two bytes although the query itself begins with them.
  `DeadPrefixExact` says exactly which reports are sound: those that do not cut
  a live character. Byte mode and valid UTF-8 candidates always qualify. For the
  walk over a vocabulary this means (`WalkIsExactIff`): the skip hook is exact on
  every sorted vocabulary iff the query compares bytes or has an edit budget of 0.
  Every query in UTF-8 mode with a budget of at least 1, whatever its text, loses a
  hit on some sorted vocabulary; one with a term that is not valid UTF-8, as
  `SkipChangesNothing` covers the others.
- The contract in include/weave/channel.h speaks of the positions a channel can
  contribute at, and the fused scan also weighs bounds against documents a
  channel misses, where it contributes 0. Bounds may be negative (an L2 ceiling
  is, for a query farther from the origin than twice its longest record), and
  `weave_fuse_init` accepts them.
  - With channels that keep that contract a query is answered exactly if, past its
    first k candidates, no channel with a negative ceiling misses a candidate and
    no negative block bound spans one its channel misses (`ScanAgrees`, with
    `CeilingHoldsIff` and `BoundHoldsIff`). A lone scored channel always qualifies
    (`LoneScoredIsHonest`).
  - A scored channel is right in every company, for every k, tombstone set and
    warp length, iff its ceiling is at least 0 or it reaches every position after
    the first it does not veto, and likewise for each block bound. `SafeIsHonest`
    is one direction. `UnsafeMisleads` is the other: for every channel that fails
    the condition it builds a company of channels that meet it, runs the scan,
    and proves the returned list wrong.
  - The lane relabelling of include/weave/vecdocmap.h keeps (C2) as the header
    argues (`RelabelBound`), and makes gaps: the scan may rely on the result iff no
    negative block bound spans a foreign candidate (`RelabelServesIff`).
- The comment on `weave_page_is_live_pending` speaks of a segment add and a
  separate clear, each bumping the generation. The code writes both in one
  record with one bump (src/am/ambuild.c:6755-6826), and the model follows it.
- Decoding a document-length byte is total. It ascends on the bytes the encoder
  writes, 0 to 239, and each of the other sixteen decodes below byte 239
  (`AscendsIffWritten`).

## Model

| member | source | states |
|---|---|---|
| EditDistance.LevIsShortestScript | bench/edist_bound.c:94-119 | the recurrence is the length of the shortest chain of single insertions, deletions and substitutions |
| EditDistance.LevSymmetric | include/weave/edist.h:109-136 | the distance is symmetric, so the deficits may be taken either way |
| EditDistance.LevLengthDeficit | include/weave/edist.h:109-136 | the distance is at least the difference of the lengths |
| EditDistance.RowAliveIffExtensible | include/weave/uleven.h:464-482 | a row holds a cell within k iff the consumed units can still be extended to within k |
| EditUnits.UnitEx | include/weave/uleven.h:309-402 | decodes one unit, its size and its boundary flag, for every byte string and offset |
| EditUnits.CountUnits | include/weave/uleven.h:410-423 | counts the units of the decoding |
| EditUnits.DecodesIffEncoded | include/weave/uleven.h:320-402 | a multi-byte unit is decoded iff the bytes begin with the section 3 encoding of RFC 3629 of a scalar value |
| EditUnits.ReencodeUnits | include/weave/uleven.h:103-112 | re-encoding the units of any byte string, escapes back to their byte, gives the string back |
| EditUnits.UnitsInjective | include/weave/uleven.h:103-112 | two byte strings with the same units are equal |
| EditUnits.SameUnitUnlessPending | include/weave/uleven.h:289-308 | a unit is decoded alike in two strings that share its bytes, unless a character was cut there |
| EditUnits.CleanIsStable | include/weave/uleven.h:289-308 | a clean boundary decodes the same in every extension |
| EditUnits.CleanIffStable | include/weave/uleven.h:289-326 | the flag is set iff no continuation can change the unit: everywhere in byte mode, and in UTF-8 mode everywhere but after an escaped lead byte |
| FuzzyMatch.Init | include/weave/uleven.h:434-463 | which queries are accepted, and the automaton built for them |
| FuzzyMatch.NextRow | include/weave/uleven.h:526-545 | one clamped row from the last, each cell min(distance, k+1), and its minimum |
| FuzzyMatch.Matches | include/weave/uleven.h:501-563 | for every candidate: MATCH iff the distance over decoded units is at most k, with that distance; else the shortest dead prefix if it ends cleanly, else alive |
| DeadPrefix.DeadPrefixExact | include/weave/uleven.h:483-553 | a DEAD prefix is dead for every byte extension iff it does not cut a character whose completion keeps the row alive |
| DeadPrefix.CompletedCharacterMatches | include/weave/uleven.h:546-553 | when it does cut one, some extension is within k |
| DeadPrefix.CleanCandidateDeadIsDead | include/weave/uleven.h:289-308 | byte mode and all-clean candidates: no byte string extending a DEAD prefix is within k |
| DeadPrefix.ValidUtf8IsClean | include/weave/uleven.h:289-308 | valid UTF-8 has only clean units |
| DeadPrefix.DirtyUnitMakesDeadWrong | include/weave/uleven.h:546-553 | the input on which a DEAD prefix is extended by the query itself |
| FuzzyExpansion.PrefixRangeIsContiguous | include/weave/uleven.h:240-270 | in a sorted vocabulary the terms sharing a prefix stand together |
| FuzzyExpansion.Vocabulary.Next | test/hegel/test_uleven.c:561-573 | yields the terms in order, once each |
| FuzzyExpansion.Vocabulary.Skip | test/hegel/test_uleven.c:575-600 | the bisect moves to the first later term without the prefix |
| FuzzyExpansion.Expand | include/weave/uleven.h:575-628 | streams the specified walk, in order, stops when asked, counts hits and pulled terms modulo 2^32 either way, terminates |
| FuzzyExpansion.WalkIsExact | include/weave/uleven.h:575-628 | with the skip hook the walk emits exactly the terms within k, in order, once per term, if no dead prefix of a term of the sorted vocabulary begins a later term of it within k |
| FuzzyExpansion.UncutHidesNothing | include/weave/uleven.h:483-553 | a dead prefix that cuts no live character hides nothing |
| FuzzyExpansion.SkipChangesNothing | include/weave/uleven.h:575-628 | byte mode and clean vocabularies: the emitted sequence is the same with and without the hook |
| FuzzyExpansion.SkipLosesAnExactMatch | include/weave/uleven.h:607-622 | the two-term vocabulary on which the hook loses the exact match |
| FuzzySkip.WalkIsExactIff | include/weave/uleven.h:607-622 | for every query: the skipping walk is exact on all sorted vocabularies iff the mode is bytes or k is 0 |
| FuzzySkip.BudgetLoses | include/weave/uleven.h:546-553 | for every UTF-8 query with k at least 1, a candidate whose dead prefix hides a later term within k |
| FuzzySkip.ZeroBudgetHidesNothing | include/weave/uleven.h:546-553 | with k = 0 no dead prefix hides a term within budget, in either mode and for any bytes |
| EdistBound.ExtractTrigrams | src/query/trgm.c:57-94 | collects the distinct trigram hashes, padded below three bytes, up to the cap |
| EdistBound.HashesAre | src/query/trgm.c:57-94 | which bytes are hashed: every three in a row, or one or two with spaces after them |
| EdistBound.SpliceLosesFew | include/weave/edist.h:109-136 | replacing a bytes by others destroys at most a+2 distinct byte trigrams |
| EdistBound.TrigramDeficit | include/weave/edist.h:109-136 | d character edits change the trigram count by at most d times the longest character plus two, for any hash and cap |
| EdistBound.BlockStats.Add | include/weave/edist.h:238-270 | the folded statistics are the exact extremes of everything added |
| EdistBound.BoundIsSound | include/weave/edist.h:305-328 | the block's lower bound is at most the character edit distance to every term in it |
| EdistBound.BoundIsAttained | include/weave/edist.h:305-328 | on one-term blocks that extend the pattern the bound is the exact distance |
| EdistBound.LowerIsLeast | include/weave/edist.h:305-328 | against a nonempty block the bound is the least number of edits that reconciles both the length range and the trigram range |
| EdistBound.TrigramsDecide | include/weave/edist.h:320-328 | against a run of one letter as long as the pattern the bound is a third of the missing trigrams, rounded up |
| EdistShuttle.Cursor.EnterBlock | include/weave/edist.h:379-397 | which blocks are refused, and the installed state |
| EdistShuttle.Cursor.Seek | include/weave/edist.h:416-438 | refuses to go back, asks for a block, or answers |
| EdistShuttle.Shuttle.OpenNextPage | src/query/edist.c:137-210 | installs the next page that has a term, exactly summarised |
| EdistShuttle.Shuttle.Seek | src/query/edist.c:230-275 | smallest position and, to the block end, the bound of exactly that block's statistics |
| EditScan.TwoRows | bench/edist_bound.c:94-119 | the two-row dynamic program returns the edit distance |
| EditScan.Best.Push | bench/edist_bound.c:321-344 | the sorted array keeps the k smallest distances pushed, and theta is its largest |
| EditScan.RunQuery | bench/edist_bound.c:261-352 | skipping exactly the pages whose bound is above the k-th smallest distance before them leaves the k smallest distances of the whole vocabulary |
| BinaryHeap.SiftUp | src/am/fuse.c:137-147 | sifting in place is the recursive sift |
| BinaryHeap.SiftDown | src/am/fuse.c:109-127 | sifting in place is the recursive sift |
| BinaryHeap.UpRestores | src/am/fuse.c:129-157 | sifting up restores heap order and keeps the entries |
| BinaryHeap.DownRestores | src/am/fuse.c:109-127 | sifting down restores heap order and keeps the entries |
| BinaryHeap.HeapSort | src/am/fuse.c:743-782 | extraction in place leaves the same entries best first |
| PrunedScan.TopK.Push | bench/code_scan.c:279-331 | one push on the min-heap, below, at and above capacity |
| PrunedScan.HeapHoldsBest | bench/code_scan.c:262-331 | the heap stays ordered and holds the k best scores pushed |
| PrunedScan.FlatScan | bench/code_scan.c:1713-1737 | the flat arm pushes every lane |
| PrunedScan.PrunedScanArm | bench/code_scan.c:1744-1778 | with dominating bounds the pruned arm's heap equals the flat arm's, entry by entry, at every block, and exactly the blocks whose bound that heap's threshold meets are skipped |
| PrunedScan.ScanFindsBest | bench/code_scan.c:1713-1792 | both arms end with the k best lanes of the store |
| BlockBound.BuildLut | src/vector/quantize.c:1128-1229 | the table of products, the sum of row maxima and the query's norm |
| BlockBound.ScoreCode | src/vector/quantize.c:1235-1248 | gather-and-add is the inner product with the decoded code |
| BlockBound.BlockStats | src/vector/vecstats.c:40-166 | refuses bad input and lanes claimed twice, else files the live lanes and stores fields that cover every lane, each attained by one, the code of the mean, and the radius from the decoded centroid |
| BlockBound.CauchySchwarz | include/weave/quantize.h:422-426 | an inner product is at most the product of the norms, in any dimension |
| BlockBound.IpBoundIsSound | include/weave/quantize.h:534-548 | the least of the three bounds is at least the inner product with every reconstruction of the block |
| BlockBound.BoundIsSound | include/weave/quantize.h:534-557 | the same in the L2 domain, against each lane's own norm |
| BlockBound.BoundIsLeast | include/weave/quantize.h:534-557 | the bound is the least of the three, put into the metric with the least norm |
| BlockBound.BoundIsAttained | include/weave/quantize.h:534-557 | on a lane that is its decoded centroid the bound is the score |
| BlockBound.ScoreIsDistance | src/vector/vecscan.c:349-364 | an L2 score is minus the squared distance to the reconstruction, corrected by what reconstruction did to the norm |
| BlockBound.NearerScoresHigher | src/vector/vecscan.c:349-364 | with true norms a lane scores higher iff it is nearer |
| BlockBound.CeilingCoversBlocks | src/vector/vecscan.c:377-434 | the scan's ceiling is at least every block's bound |
| BlockBound.CeilingIsAttained | src/vector/vecscan.c:377-434 | a vector along the query, as long as the longest record, scores the ceiling |
| BlockBound.StoredBoundsDominate | bench/code_scan.c:1744-1792 | bounds computed from stored records dominate the scored lanes, so the pruned arm is exact |
| FusedSpec.TopListIsUnique | include/weave/fuse.h:143-154 | only one list is the top k under (score descending, position ascending) |
| FusedSpec.PassOver | include/weave/fuse.h:143-154 | positions without a candidate, or whose candidate ties or loses against a full heap, leave the top set |
| FusedSpec.AdmitByReplacing | src/am/fuse.c:129-157 | a strictly better candidate replaces the worst entry of a full heap |
| FusedSpec.SumPermutation | src/am/fuse.c:824-850 | the fused score does not depend on the order of summation, over the reals |
| FusedSteps.Advance | src/am/fuse.c:314-333 | a channel is moved to the target or past it, asked only when behind, refused when it answers short |
| FusedSteps.Intersect | src/am/fuse.c:342-375 | the smallest common position at or past the start; no earlier position is common |
| FusedSteps.Pivot | src/am/fuse.c:383-403 | the smallest position an essential channel reaches |
| FusedSteps.BoundRange | src/am/fuse.c:583-616 | the bound sum at the pivot and the longest range those bounds speak for |
| FusedSteps.BoundsCoverRange | src/am/fuse.c:618-649 | at a position of that range every bound covers, the bound sum is at least the scored sum |
| FusedSteps.CeilingsCover | src/am/fuse.c:281-296 | at a position every ceiling covers, the scored sum is at most the ceilings of the channels that may still reach it |
| FusedSteps.ScoreDocument | src/am/fuse.c:651-728 | the exact fused score, a veto, or an abandonment that cannot have beaten the threshold |
| FusedSteps.SplitChannels | src/am/fuse.c:237-277 | channels split by kind, weights checked, positions reset |
| FusedSteps.InsertDown | src/am/fuse.c:171-191 | one step of the insertion sort keeps the channels and extends the descending prefix |
| FusedScan.FuseState.Init | src/am/fuse.c:193-288 | each refusal, and otherwise a valid state with every scored channel essential |
| FusedScan.FuseState.Repartition | src/am/fuse.c:291-296 | the split moves left only, to where the suffix sum first exceeds theta |
| FusedScan.FuseState.NonEssentialIsHopeless | src/am/fuse.c:516-535 | a position no essential channel reaches holds no candidate that beats theta |
| FusedScan.FuseState.CeilingIsHopeless | src/am/fuse.c:493-502 | once the ceilings cannot beat theta no later candidate can |
| FusedScan.FuseState.BlockIsHopeless | src/am/fuse.c:618-649 | a skipped range holds no candidate that beats theta |
| FusedScan.FuseState.Visit | src/am/fuse.c:544-740 | one visit: dead, skipped, or scored, keeping the heap equal to the best candidates so far |
| FusedScan.FuseState.Iterate | src/am/fuse.c:504-741 | one turn keeps the heap equal to the best candidates passed, while the heap is not full whatever the bounds, and a turn of an idle scan changes nothing |
| FusedScan.FuseState.Run | src/am/fuse.c:473-741 | if the bounds hold for the candidates past the first k, the heap ends with exactly the k best; whatever the bounds, it ends with the first k if the scan is idle from where the heap fills; it always terminates, and the recorded reason is the true one |
| FusedScan.FuseState.Drain | src/am/fuse.c:743-782 | the heap is emptied into the output, best first |
| FusedReference.ScoreAll | src/am/fuse.c:824-882 | probing every channel decides the veto, whether a scored channel reaches, and the sum |
| FusedReference.Reference | src/am/fuse.c:794-914 | the brute force returns the top list; only (C1) is needed of the channels |
| FusedReference.TopK | src/am/fuse.c:473-782 | init, run and drain return the top list when the bounds hold for the candidates; without required channels and whatever the bounds, the first k candidates when the scan is idle after them |
| FusedReference.ScanAgrees | include/weave/fuse.h:459-476 | with bounds that hold for the query's candidates the fused scan returns the reference's rows, entry for entry |
| FusedSafety.CeilingHoldsIff | src/am/fuse.c:493-535 | a ceiling that holds where its channel is present serves a query iff it is at least 0 or no candidate past the first k is missed |
| FusedSafety.BoundHoldsIff | src/am/fuse.c:583-649 | a bound that holds where its channel is present serves a query iff no block with a negative bound spans a missed candidate |
| FusedSafety.LoneScoredIsHonest | include/weave/channel.h:18-67 | a lone scored channel needs no more than its contract where it is present |
| FusedSafety.SafeIsHonest | include/weave/channel.h:18-67 | channels that keep the contract where present and are safe serve every query |
| FusedMisled.CeilingMisleads | src/am/fuse.c:493-535 | for every scored channel with a negative ceiling that misses a position after one it lets through, the scan returns a wrong list next to channels whose bounds are true |
| FusedMisled.BoundMisleads | src/am/fuse.c:583-649 | the same for every block with a negative bound that spans a missed position |
| FusedMisled.UnsafeMisleads | src/am/fuse.c:473-741 | every scored channel that is not safe makes the scan return a wrong list in safe company, so safety is necessary as well as sufficient |
| Gate.CheckKeys | include/weave/gate.h:137-160 | accepts exactly the strictly ascending arrays below the sentinel, else names the first bad index |
| Gate.Cursor.Seek | include/weave/gate.h:162-267 | the smallest key at or past the target, never backwards, unchanged on refusal; up to it the cursor matches exactly the keys |
| Gate.Cursor.Gallop | include/weave/gate.h:231-243 | the stride doubles, in 32 bits, so a distance takes as many probes as it has binary digits |
| Gate.GateIsHonest | include/weave/channel.h:41-47 | a gate keeps (C1) and (C5), and reaches exactly its keys |
| VecDocMap.LowerBound | include/weave/vecdocmap.h:127-151 | how many lanes lie before the target |
| VecDocMap.Accepts | src/am/vecdocmap.c:120-168 | no lane, a non-ascending pair and an oversized docid are refused, nothing else |
| VecDocMap.RelabelMonotone | include/weave/vecdocmap.h:27-30 | (C1) survives the relabelling |
| VecDocMap.RelabelCeiling | src/am/vecdocmap.c:170-190 | the copied ceiling still holds where the channel is present |
| VecDocMap.RelabelBlock | src/am/vecdocmap.c:76-92 | the renamed block holds exactly the docids of the existing lanes the inner block speaks for |
| VecDocMap.RelabelBound | include/weave/vecdocmap.h:32-39 | (C2) survives at every docid the channel can contribute at |
| VecDocMap.RelabelServesIff | include/weave/vecdocmap.h:32-39 | a scan may rely on the relabelled bound iff no block with a negative bound spans a candidate the channel does not carry |
| VecDocMap.Adapter.Seek | src/am/vecdocmap.c:31-94 | the composed answer, the block end clamped and renamed, the end latched once the inner channel runs out and only then |
| Bm25Bound.ContribIsBm25 | include/weave/bm25bound.h:130-182 | a contribution times the norm of BM25, with the length in average lengths, is idf * tf * (k1 + 1) |
| Bm25Bound.AverageDocument | include/weave/bm25bound.h:130-182 | one occurrence in a document of average length contributes exactly the IDF |
| Bm25Bound.LengthUnitsCancel | include/weave/bm25bound.h:130-182 | scaling all lengths changes no contribution |
| Bm25Bound.BlockBoundDominates | include/weave/bm25bound.h:176-203 | no posting of a block contributes more than the bound from its largest tf and shortest length |
| Bm25Bound.BlockBoundIsLeast | include/weave/bm25bound.h:176-203 | the block bound is the least number that bounds postings of such frequencies and lengths |
| Bm25Bound.TermBoundDominates | include/weave/bm25bound.h:205-235 | the term's ceiling is at least every block's bound |
| Bm25Bound.TermBoundIsLeast | include/weave/bm25bound.h:205-235 | the ceiling is the least number that bounds postings of any length |
| Bm25Bound.IdfArgumentIs | include/weave/bm25bound.h:98-124 | in range the argument is (N + 1) / (df + 0.5); out of range df is moved to the nearer end |
| Bm25Bound.ClampedIdfIsPositive | include/weave/bm25bound.h:98-124 | with df clamped the logarithm's argument exceeds one |
| Bm25Bound.UnclampedIdfGoesNegative | include/weave/bm25bound.h:104-114 | without the clamp it falls below one iff df > N + 0.5 |
| ForCodec.BitWidth | include/weave/for.h:49-60 | the least width that holds the value, at most 64 |
| ForCodec.Pack | include/weave/for.h:62-100 | the column of the values at the width of the largest, and nothing past it changed |
| ForCodec.Extract | include/weave/for.h:124-168 | the word load and the nine-byte window read the field at any bit position, also for a corrupt width, inside the bytes |
| ForCodec.Get | include/weave/for.h:183-241 | random access reads element i |
| ForCodec.Unpack | include/weave/for.h:102-171 | bulk unpacking reads every element and consumes the declared length |
| ForCodec.RoundTrip | include/weave/for.h:64-241 | every element of a packed column reads back, and the column is as long as its width byte says |
| ForCodec.SizeIsLeast | include/weave/for.h:173-182 | the declared bytes hold every bit, and one fewer would not |
| ForCodec.ColumnIsCanonical | include/weave/for.h:62-100 | a sequence of values has one packed form |
| DoclenByte.FloorInverse | include/weave/for.h:257-292 | a length encodes to the largest byte that decodes to no more than it |
| DoclenByte.Quantization | include/weave/for.h:243-292 | monotone, stable under re-encoding, never rounding up, exact below 16 |
| DoclenByte.AscendsIffWritten | include/weave/for.h:243-292 | a byte decodes to more than every smaller byte iff some length encodes to it, which is iff it is at most 239 |
| DoclenWalk.WalkArr | include/weave/for.h:407-459 | the answer of a linear search for every docid and every hint, the hint left behind, and the cost: a present key within the window is walked to and nothing else read, a far target costs one read and a bisect |
| DoclenWalk.WalkAbs | include/weave/for.h:294-405 | the same answer, hint and cost on the packed column, read in place |
| DoclenWalk.SameDocids | include/weave/for.h:294-345 | a packed column and the unpacked array hold the same docids, so both walks agree |
| DocvalStore.Validate | include/weave/docvals.h:273-465 | accepts exactly the images whose regions, order, offsets and ordinals every reader relies on |
| DocvalText.SelectedIsExact | include/weave/docvals.h:525-538 | the selection ascends and holds exactly the non-NULL documents whose value is accepted |
| DocvalText.EvalInt8 | include/weave/docvals.h:539-594 | writes the documents whose value is <, <=, =, >= or > the constant, as the operator says, and the true count |
| DocvalText.LowerBound | include/weave/docvals.h:675-694 | the entries below the constant are exactly the first lo |
| DocvalText.UpperBound | include/weave/docvals.h:696-715 | the entries not above the constant are exactly the first hi |
| DocvalText.BoundariesMeet | include/weave/docvals.h:661-674 | hi is lo or lo + 1, the latter iff the constant is present |
| DocvalText.OrdinalIsString | include/weave/docvals.h:717-741 | an ordinal against lo and hi answers as its string against the constant |
| DocvalText.EvalOrd | include/weave/docvals.h:743-799 | writes the selection for an ordinal range, and the true count |
| DocvalText.EvalText | include/weave/docvals.h:675-799 | the documents written are, ascending, exactly those whose string answers the operator |
| DocvalBuild.BuildInt8 | include/weave/docvals.h:809-910 | a built store of signed values, with or without NULLs, validates and reads back document by document |
| DocvalBuild.BuildText | include/weave/docvals.h:912-987 | a built store validates and reads back, document by document and entry by entry, and every padding byte and bit is zero |
| DocvalFloat.EncodePreservesOrder | include/weave/docvals.h:233-271 | keys compare exactly as PostgreSQL compares the doubles, NaN and signed zero included |
| DocvalFloat.ClassByFields | include/weave/docvals.h:233-271 | NaN, infinity, zero and the sign, by exponent and fraction |
| Doclist.Walk.Next | include/weave/doclist.h:128-147 | yields members while they ascend and reports the first that does not |
| Doclist.Check | include/weave/doclist.h:156-254 | accepts exactly the images whose sets ascend, have the declared sizes, and NULL within ALL |
| Doclist.Decode | include/weave/doclist.h:256-310 | decodes exactly the images of consistent length, order and sizes, validated or not, into those arrays, writing nothing past the declared sizes; every accepted image is one |
| DoclistBuild.Encode | include/weave/doclist.h:335-395 | refuses no documents and sets too long for the header, else writes header, ALL and NULL so that each reads back |
| DoclistBuild.WrittenIsSound | include/weave/doclist.h:335-395 | a written image is accepted iff both sets ascend, NULL lies within ALL and the flags are known |
| Doclist.Uniq | include/weave/doclist.h:396-423 | the dedupe loop leaves the same members, strictly ascending |
| Doclist.OneAscendingList | include/weave/doclist.h:396-423 | what sorting and deduping leave is determined by the members alone |
| PendingWalk.StepKeeps | src/am/ambuild.c:6755-6826 | every step of inserters, flush, merges, allocator and scan keeps the invariant |
| PendingWalk.AnswersAreExact | src/am/amscan.c:5680-5795 | in every run an answer whose re-check passed misses nothing indexed at its snapshot, invents nothing, repeats nothing |
| PendingWalk.ReadsOnlyLivePages | include/weave/am.h:209-241 | while its generation stands a scan reads a live page of the list; the flush reads only pages of the list, and the page it is about to free is live and off it |
| PendingWalk.AnswersIffUnmoved | src/am/amscan.c:5778-5798 | in every run a scan answers iff the generation is the one at its snapshot, and else starts over |
| PendingWalk.GenerationCounts | src/am/ambuild.c:6755-6826 | the generation counts exactly the segment adds, merges and cuts |
| PendingWalk.UndisturbedScanAnswers | src/am/amscan.c:5680-5798 | from every reachable state a scan nothing interrupts reads each page of the list once and answers with exactly the inserted documents |
| PendingWalk.UndisturbedFlushFinishes | src/am/ambuild.c:6755-6936 | from every reachable state a flush nothing interrupts folds, cuts and frees the whole list, leaving every document in the segments |
| PendingWalk.WritersMayStep | include/weave/am.h:209-241 | in every reachable state a new document can be inserted on the tail page, on a free block or as a segment, and segments merged and blocks recycled |
| PendingWalk.NothingIsLost | src/am/ambuild.c:6922-6936 | in every run each inserted document is in the segments or on the list, in one place |
| PendingWalk.UnbumpedCutLosesRows | include/weave/am.h:220-229 | a run of the system reaches a state from which, without the bump, a scan passes its re-check and misses a row, and with it starts over |
| Ndcg.AcceptRun | bench/ndcg.py:93-104 | a run is accepted iff neither a rank nor a document repeats |
| Ndcg.Rearrangement | bench/ndcg.py:107-132 | larger prefix sums stay larger under a decreasing discount |
| Ndcg.IdealIsBest | bench/ndcg.py:107-132 | no ranking of distinct documents gains more than the ideal order |
| Ndcg.NdcgAtK | bench/ndcg.py:107-132 | the discounted gain over that of any ideal order; at least 0, at most 1 for distinct documents, 1 for an ideal ranking, refused iff nothing positive can be gained |
| Ndcg.WithinIdealIffDistinct | bench/ndcg.py:95-103 | under any discount a ranking stays within the ideal for all judgments and depths iff it repeats no document |
| Ndcg.RepeatsExceedIdeal | bench/ndcg.py:95-103 | for every ranking that repeats a document, judgments and a depth at which it gains more than the ideal |

## Left out

- Floating-point rounding, NaN and infinities: scores and bounds are reals, so the exact last-bit orders, the `BAD_MAXSCORE` and NaN refusals and the tolerance of the bound audit are not modelled.
- The fused scan's counters, `badchan`, and the `check_bounds` audit mode: they report work and do not change the answer.
- Channel operations are fixed functions of the position; buffers, memory contexts and error reports behind them are not modelled. `weave_shuttle_score_block` and the wrappers in channel.h are left out: they rescale by the weight that `Contribution` already applies.
- The expansion callback is a function of the hits so far; allocation failures are left out.
- FusedScan.FuseState.Init: takes weights that are reals, so finiteness is not checked.
- FusedSteps.SplitChannels: takes weights and ceilings that are reals, so the refusals of values that are not finite are not modelled.
- BlockBound.BlockStats: does not model the final test that the stored floats are finite, as over the reals they are.
- BlockBound.BuildLut: does not model the byte table of the approximate kernels, the rotation or calibration; the writer leaves calibration off and the reader refuses it (src/vector/vecshuttle.c:896-912).
- ForCodec.Pack: does not model overflow of the C `int` product of count and width, which the callers' block size keeps far away.
- DocvalText.EvalText: takes the dictionary's collation order as a premise, as the validator cannot check it.
- Doclist.Check: models a set as the answers of its member iterator; sparsemap internals and encoding are not part of this model.
- Doclist.Uniq: starts after the library sort.
- The limit on how often a raced scan starts over before it reports an error is not modelled; each attempt is.
- PendingWalk.AnswersAreExact: generations are unbounded, so a wrap of the 32-bit counter within one scan is not modelled; segment contents are sets of documents, and crash recovery is left out.
- Ndcg.NdcgAtK: takes the discount as any positive non-increasing function; file parsing, recall and averaging are left out.
- EdistShuttle.Shuttle.Seek: dictionary pages are sequences of terms; buffers and the per-shuttle counters are left out.
- The page-kind encoding, tid and docid arithmetic, channel descriptors and page bounds would only add finite or one-line members.
- The LOUDS trie, regex expansion, k-means, SIMD kernels, the withdrawn graph and all PostgreSQL plumbing.
