/**
  How the invariant survives the writes to boundary tags: marking a block
  allocated (place) or free (mm_free), cutting a block in two
  (handle_split_block), merging a run of free blocks (coalesce) and growing
  the heap by one block (extend_heap).
 */
module Steps {
  import opened Layout
  import opened Heap
  import opened FreeList
  import opened Invariant

  /** A block keeps its shape when its header and footer are rewritten with its own size. */
  lemma RetagTagged(h: seq<nat>, bp: nat, alloc: nat)
    requires Tagged(h, bp) && alloc < 2
    ensures SizeAt(h, bp) % DSIZE == 0 && bp + SizeAt(h, bp) / WSIZE - 2 < |h|
    ensures var h2 := SetTags(h, bp, SizeAt(h, bp), alloc);
      Tagged(h2, bp) && SizeAt(h2, bp) == SizeAt(h, bp) && NextBlkp(h2, bp) == NextBlkp(h, bp) &&
      IsFree(h2, bp) == (alloc == 0)
  {
    var size := SizeAt(h, bp);
    SizeAligned(h, bp);
    PackRoundTrip(size, alloc);
    var h2 := SetTags(h, bp, size, alloc);
    assert h2[bp - 1] == Pack(size, alloc);
  }

  /** Rewriting one block's header and footer with its own size keeps the tiling and every other block's tags. */
  lemma RetagTiling(h: seq<nat>, blocks: seq<nat>, i: nat, alloc: nat)
    requires Tiling(h, blocks) && i < |blocks| && alloc < 2
    ensures SizeAt(h, blocks[i]) % DSIZE == 0 && SizeAt(h, blocks[i]) >= DSIZE
    ensures blocks[i] + SizeAt(h, blocks[i]) / WSIZE - 2 < |h|
    ensures var h2 := SetTags(h, blocks[i], SizeAt(h, blocks[i]), alloc);
      Tiling(h2, blocks) && SizeAt(h2, blocks[i]) == SizeAt(h, blocks[i]) && IsFree(h2, blocks[i]) == (alloc == 0) &&
      forall t :: 0 <= t < |blocks| && t != i ==>
        SizeAt(h2, blocks[t]) == SizeAt(h, blocks[t]) && IsFree(h2, blocks[t]) == IsFree(h, blocks[t])
  {
    var b := blocks[i];
    BlockBounds(h, blocks, i);
    RetagTagged(h, b, alloc);
    var h2 := SetTags(h, b, SizeAt(h, b), alloc);
    RunSingle(h2, b);
    TilingReplace(h, h2, blocks, i, 1, [b]);
    SpliceSame(blocks, i);
    forall t | 0 <= t < |blocks| && t != i
      ensures SizeAt(h2, blocks[t]) == SizeAt(h, blocks[t]) && IsFree(h2, blocks[t]) == IsFree(h, blocks[t])
    {
      OutsideKept(h, h2, blocks, i, 1, t);
    }
  }

  /** Two words that are no link words of any listed block may both be written. */
  lemma LinkedWrite2(h: seq<nat>, heads: seq<nat>, lists: seq<seq<nat>>, p: nat, q: nat, v: nat, h2: seq<nat>)
    requires Linked(h, heads, lists) && p < |h| && q < |h| && AllClear(lists, p) && AllClear(lists, q)
    requires h2 == h[p := v][q := v]
    ensures Linked(h2, heads, lists)
  {
    LinkedWrite(h, heads, lists, p, v);
    LinkedWrite(h[p := v], heads, lists, q, v);
  }

  /** Four words that are no link words of any listed block may be written, the first two with `v`, the last two with `w`. */
  lemma LinkedWrite4(h: seq<nat>, heads: seq<nat>, lists: seq<seq<nat>>, p1: nat, p2: nat, p3: nat, p4: nat, v: nat, w: nat, h2: seq<nat>)
    requires Linked(h, heads, lists) && p1 < |h| && p2 < |h| && p3 < |h| && p4 < |h|
    requires AllClear(lists, p1) && AllClear(lists, p2) && AllClear(lists, p3) && AllClear(lists, p4)
    requires h2 == h[p1 := v][p2 := v][p3 := w][p4 := w]
    ensures Linked(h2, heads, lists)
  {
    LinkedWrite2(h, heads, lists, p1, p2, v, h[p1 := v][p2 := v]);
    LinkedWrite2(h[p1 := v][p2 := v], heads, lists, p3, p4, w, h2);
  }

  /** Three words that are no link words of any listed block may be written, the first two with `v`, the last with `w`. */
  lemma LinkedWrite3(h: seq<nat>, heads: seq<nat>, lists: seq<seq<nat>>, p1: nat, p2: nat, p3: nat, v: nat, w: nat, h2: seq<nat>)
    requires Linked(h, heads, lists) && p1 < |h| && p2 < |h| && p3 < |h|
    requires AllClear(lists, p1) && AllClear(lists, p2) && AllClear(lists, p3)
    requires h2 == h[p1 := v][p2 := v][p3 := w]
    ensures Linked(h2, heads, lists)
  {
    LinkedWrite2(h, heads, lists, p1, p2, v, h[p1 := v][p2 := v]);
    LinkedWrite(h[p1 := v][p2 := v], heads, lists, p3, w);
  }

  /** The header and the footer of a block off the lists are no link words. */
  lemma TagsClear(h: seq<nat>, blocks: seq<nat>, lists: seq<seq<nat>>, ex: set<nat>, i: nat)
    requires Shape(h, blocks, lists, ex) && i < |blocks|
    requires blocks[i] in ex || !IsFree(h, blocks[i])
    ensures blocks[i] + SizeAt(h, blocks[i]) / WSIZE - 2 < |h|
    ensures AllClear(lists, blocks[i] - 1) && AllClear(lists, blocks[i] + SizeAt(h, blocks[i]) / WSIZE - 2)
  {
    BlockBounds(h, blocks, i);
    SpanClear(h, blocks, lists, ex, i, blocks[i] - 1);
    SpanClear(h, blocks, lists, ex, i, Ftrp(h, blocks[i]));
  }

  /** Rewriting the tags of a block that is off the lists leaves the lists linked. */
  lemma RetagLinked(h: seq<nat>, heads: seq<nat>, blocks: seq<nat>, lists: seq<seq<nat>>, ex: set<nat>, i: nat, alloc: nat)
    requires HeapInv(h, heads, blocks, lists, ex) && i < |blocks| && alloc < 2
    requires blocks[i] in ex || !IsFree(h, blocks[i])
    ensures SizeAt(h, blocks[i]) % DSIZE == 0 && SizeAt(h, blocks[i]) >= DSIZE
    ensures blocks[i] + SizeAt(h, blocks[i]) / WSIZE - 2 < |h|
    ensures Linked(SetTags(h, blocks[i], SizeAt(h, blocks[i]), alloc), heads, lists)
  {
    BlockBounds(h, blocks, i);
    SizeAligned(h, blocks[i]);
    TagsClear(h, blocks, lists, ex, i);
    var p := blocks[i] - 1;
    var q := blocks[i] + SizeAt(h, blocks[i]) / WSIZE - 2;
    var v := SizeAt(h, blocks[i]) + alloc;
    LinkedWrite2(h, heads, lists, p, q, v, SetTags(h, blocks[i], SizeAt(h, blocks[i]), alloc));
  }

  /** The tag-level invariant after marking an exempt block allocated, the other blocks' tags unchanged. */
  lemma PlaceShape(h: seq<nat>, h2: seq<nat>, blocks: seq<nat>, lists: seq<seq<nat>>, ex: set<nat>, i: nat)
    requires Shape(h, blocks, lists, ex) && Tiling(h2, blocks) && i < |blocks| && blocks[i] in ex
    requires SizeAt(h2, blocks[i]) >= MIN_BLOCK_SIZE && !IsFree(h2, blocks[i])
    requires forall t :: 0 <= t < |blocks| && t != i ==>
      SizeAt(h2, blocks[t]) == SizeAt(h, blocks[t]) && IsFree(h2, blocks[t]) == IsFree(h, blocks[t])
    ensures Shape(h2, blocks, lists, ex - {blocks[i]})
  {
    forall c, m | 0 <= c < FREE_LIST_SIZE && 0 <= m < |lists[c]|
      ensures SizeAt(h2, lists[c][m]) == SizeAt(h, lists[c][m]) && IsFree(h2, lists[c][m])
    {
      var t := ListedIndex(h, blocks, lists, ex, c, m);
    }
    assert Filed(h2, blocks, lists, ex - {blocks[i]});
  }

  /** place on an exempt block of at least MIN_BLOCK_SIZE: marked allocated, it needs no exemption. */
  lemma PlaceStep(h: seq<nat>, heads: seq<nat>, blocks: seq<nat>, lists: seq<seq<nat>>, ex: set<nat>, i: nat)
    requires HeapInv(h, heads, blocks, lists, ex) && i < |blocks| && blocks[i] in ex
    requires SizeAt(h, blocks[i]) >= MIN_BLOCK_SIZE
    ensures SizeAt(h, blocks[i]) % DSIZE == 0 && blocks[i] + SizeAt(h, blocks[i]) / WSIZE - 2 < |h|
    ensures var h2 := SetTags(h, blocks[i], SizeAt(h, blocks[i]), 1);
      HeapInv(h2, heads, blocks, lists, ex - {blocks[i]}) && !IsFree(h2, blocks[i])
  {
    RetagTiling(h, blocks, i, 1);
    RetagLinked(h, heads, blocks, lists, ex, i, 1);
    var h2 := SetTags(h, blocks[i], SizeAt(h, blocks[i]), 1);
    PlaceShape(h, h2, blocks, lists, ex, i);
  }

  /** The tag-level invariant after marking an allocated block free, the other blocks' tags unchanged. */
  lemma FreeShape(h: seq<nat>, h2: seq<nat>, blocks: seq<nat>, lists: seq<seq<nat>>, i: nat)
    requires Shape(h, blocks, lists, {}) && Tiling(h2, blocks) && i < |blocks| && !IsFree(h, blocks[i])
    requires SizeAt(h2, blocks[i]) == SizeAt(h, blocks[i])
    requires forall t :: 0 <= t < |blocks| && t != i ==>
      SizeAt(h2, blocks[t]) == SizeAt(h, blocks[t]) && IsFree(h2, blocks[t]) == IsFree(h, blocks[t])
    ensures Shape(h2, blocks, lists, {blocks[i]})
  {
    forall c, m | 0 <= c < FREE_LIST_SIZE && 0 <= m < |lists[c]|
      ensures lists[c][m] != blocks[i] && SizeAt(h2, lists[c][m]) == SizeAt(h, lists[c][m]) && IsFree(h2, lists[c][m])
    {
      var t := ListedIndex(h, blocks, lists, {}, c, m);
    }
    assert Filed(h2, blocks, lists, {blocks[i]});
  }

  /** mm_free's retagging of an allocated block: the invariant holds with that block exempted. */
  lemma FreeStep(h: seq<nat>, heads: seq<nat>, blocks: seq<nat>, lists: seq<seq<nat>>, i: nat)
    requires HeapInv(h, heads, blocks, lists, {}) && i < |blocks| && !IsFree(h, blocks[i])
    ensures SizeAt(h, blocks[i]) % DSIZE == 0 && blocks[i] + SizeAt(h, blocks[i]) / WSIZE - 2 < |h|
    ensures var h2 := SetTags(h, blocks[i], SizeAt(h, blocks[i]), 0);
      HeapInv(h2, heads, blocks, lists, {blocks[i]}) && IsFree(h2, blocks[i])
  {
    RetagTiling(h, blocks, i, 0);
    RetagLinked(h, heads, blocks, lists, {}, i, 0);
    var h2 := SetTags(h, blocks[i], SizeAt(h, blocks[i]), 0);
    FreeShape(h, h2, blocks, lists, i);
  }

  /** Blocks outside the run `blocks[s..s + n]` have the same size and allocated bit in `h2` as in `h`. */
  ghost predicate KeptOutside(h: seq<nat>, h2: seq<nat>, blocks: seq<nat>, s: nat, n: nat)
    requires Tiling(h, blocks) && |h2| == |h|
  {
    forall t :: 0 <= t < |blocks| && (t < s || s + n <= t) ==>
      SizeAt(h2, blocks[t]) == SizeAt(h, blocks[t]) && IsFree(h2, blocks[t]) == IsFree(h, blocks[t])
  }

  /** Words changed only inside the span of the run keep every block outside it. */
  lemma SpanWritesKeep(h: seq<nat>, h2: seq<nat>, blocks: seq<nat>, s: nat, n: nat)
    requires Tiling(h, blocks) && 0 < n && s + n <= |blocks| && |h2| == |h|
    requires forall p :: 0 <= p < |h| && !(blocks[s] - 1 <= p < EndOf(h, blocks, s + n - 1) - 1) ==> h2[p] == h[p]
    ensures KeptOutside(h, h2, blocks, s, n)
  {
    forall t | 0 <= t < |blocks| && (t < s || s + n <= t)
      ensures SizeAt(h2, blocks[t]) == SizeAt(h, blocks[t]) && IsFree(h2, blocks[t]) == IsFree(h, blocks[t])
    {
      OutsideKept(h, h2, blocks, s, n, t);
    }
  }

  /** handle_split_block's four tag writes, in the order the code makes them. */
  function SplitWords(h: seq<nat>, bp: nat, asize: nat): (h2: seq<nat>)
    requires Tagged(h, bp) && SizeAt(h, bp) % DSIZE == 0
    requires asize % DSIZE == 0 && asize >= DSIZE && SizeAt(h, bp) >= asize + DSIZE
    ensures |h2| == |h|
  {
    SetTags(SetTags(h, bp, asize, 0), bp + asize / WSIZE, SizeAt(h, bp) - asize, 0)
  }

  /** The two halves of a split block are well formed, follow each other, and span the old block exactly. */
  lemma SplitRun(h: seq<nat>, bp: nat, asize: nat)
    requires Tagged(h, bp)
    requires asize % DSIZE == 0 && asize >= DSIZE && SizeAt(h, bp) >= asize + DSIZE
    ensures SizeAt(h, bp) % DSIZE == 0
    ensures var h2 := SplitWords(h, bp, asize);
      var sub := bp + asize / WSIZE;
      Run(h2, [bp, sub], bp, NextBlkp(h, bp)) &&
      SizeAt(h2, bp) == asize && SizeAt(h2, sub) == SizeAt(h, bp) - asize && IsFree(h2, bp) && IsFree(h2, sub) &&
      (forall p :: 0 <= p < |h| && !(bp - 1 <= p < NextBlkp(h, bp) - 1) ==> h2[p] == h[p])
  {
    var size := SizeAt(h, bp);
    var rest := size - asize;
    var sub := bp + asize / WSIZE;
    SplitWordsForm(h, bp, asize);
    AlignedDifference(size, asize);
    PackRoundTrip(asize, 0);
    PackRoundTrip(rest, 0);
    var p2 := bp + asize / WSIZE - 2;
    var p4 := NextBlkp(h, bp) - 2;
    var h2 := h[bp - 1 := asize][p2 := asize][p2 + 1 := rest][p4 := rest];
    assert h2[bp - 1] == asize && h2[p2] == asize && h2[sub - 1] == rest && h2[p4] == rest;
    assert Tagged(h2, bp) && NextBlkp(h2, bp) == sub;
    assert Tagged(h2, sub) && NextBlkp(h2, sub) == NextBlkp(h, bp);
    RunSingle(h2, bp);
    RunSingle(h2, sub);
    RunConcat(h2, [bp], [sub], bp, sub, NextBlkp(h, bp));
    assert [bp] + [sub] == [bp, sub];
    assert SplitWords(h, bp, asize) == h2;
  }

  /** After the split the old block's place in the tiling is taken by its two halves. */
  lemma SplitTiling(h: seq<nat>, blocks: seq<nat>, blocks2: seq<nat>, i: nat, asize: nat)
    requires Tiling(h, blocks) && i < |blocks|
    requires asize % DSIZE == 0 && asize >= DSIZE && SizeAt(h, blocks[i]) >= asize + DSIZE
    requires blocks2 == blocks[..i] + ([blocks[i], blocks[i] + asize / WSIZE] + blocks[i + 1..])
    ensures SizeAt(h, blocks[i]) % DSIZE == 0 && Tagged(h, blocks[i])
    ensures var h2 := SplitWords(h, blocks[i], asize);
      Tiling(h2, blocks2) && KeptOutside(h, h2, blocks, i, 1)
  {
    BlockBounds(h, blocks, i);
    SplitRun(h, blocks[i], asize);
    var h2 := SplitWords(h, blocks[i], asize);
    TilingReplace(h, h2, blocks, i, 1, [blocks[i], blocks[i] + asize / WSIZE]);
    SpanWritesKeep(h, h2, blocks, i, 1);
  }

  /** The four words the split writes, all inside the old block. */
  lemma SplitWordsForm(h: seq<nat>, bp: nat, asize: nat)
    requires Tagged(h, bp)
    requires asize % DSIZE == 0 && asize >= DSIZE && SizeAt(h, bp) >= asize + DSIZE
    ensures SizeAt(h, bp) % DSIZE == 0
    ensures var p2 := bp + asize / WSIZE - 2;
      var p4 := NextBlkp(h, bp) - 2;
      bp - 1 < p2 < p2 + 1 < p4 < NextBlkp(h, bp) - 1 &&
      bp + asize / WSIZE + (SizeAt(h, bp) - asize) / WSIZE == NextBlkp(h, bp) &&
      SplitWords(h, bp, asize) == h[bp - 1 := asize][p2 := asize][p2 + 1 := SizeAt(h, bp) - asize][p4 := SizeAt(h, bp) - asize]
  {
    var size := SizeAt(h, bp);
    SizeAligned(h, bp);
    AlignedDifference(size, asize);
  }

  /** The split writes only inside a block that is off the lists, so the lists stay linked. */
  lemma SplitLinked(h: seq<nat>, heads: seq<nat>, blocks: seq<nat>, lists: seq<seq<nat>>, ex: set<nat>, i: nat, asize: nat)
    requires HeapInv(h, heads, blocks, lists, ex) && i < |blocks| && blocks[i] in ex
    requires asize % DSIZE == 0 && asize >= DSIZE && SizeAt(h, blocks[i]) >= asize + DSIZE
    ensures SizeAt(h, blocks[i]) % DSIZE == 0 && Tagged(h, blocks[i])
    ensures Linked(SplitWords(h, blocks[i], asize), heads, lists)
  {
    var b := blocks[i];
    BlockBounds(h, blocks, i);
    SplitWordsForm(h, b, asize);
    var p2 := b + asize / WSIZE - 2;
    var p4 := NextBlkp(h, b) - 2;
    var rest := SizeAt(h, b) - asize;
    SpanClear(h, blocks, lists, ex, i, b - 1);
    SpanClear(h, blocks, lists, ex, i, p2);
    SpanClear(h, blocks, lists, ex, i, p2 + 1);
    SpanClear(h, blocks, lists, ex, i, p4);
    LinkedWrite4(h, heads, lists, b - 1, p2, p2 + 1, p4, asize, rest, SplitWords(h, b, asize));
  }

  /** `blocks2` is `blocks` with block `i` followed by the new block `sub`. */
  ghost predicate SplitSeq(blocks: seq<nat>, blocks2: seq<nat>, i: nat, sub: nat)
  {
    i < |blocks| && |blocks2| == |blocks| + 1 &&
    forall t {:trigger blocks2[t]} :: 0 <= t < |blocks2| ==>
      blocks2[t] == if t < i then blocks[t] else if t == i then blocks[i] else if t == i + 1 then sub else blocks[t - 1]
  }

  /** Where the old blocks and the two halves sit in the new block sequence. */
  lemma SplitIndex(blocks: seq<nat>, i: nat, sub: nat)
    requires i < |blocks|
    ensures SplitSeq(blocks, blocks[..i] + ([blocks[i], sub] + blocks[i + 1..]), i, sub)
  {
    var b2 := blocks[..i] + ([blocks[i], sub] + blocks[i + 1..]);
    forall t | 0 <= t < |b2|
      ensures b2[t] == if t < i then blocks[t] else if t == i then blocks[i] else if t == i + 1 then sub else blocks[t - 1]
    {
      ReplaceIndex(blocks, i, 1, [blocks[i], sub], t);
    }
  }

  /** After the split every block is big enough for its links. */
  lemma SplitSized(h: seq<nat>, h2: seq<nat>, blocks: seq<nat>, blocks2: seq<nat>, i: nat, asize: nat)
    requires i < |blocks| && Tiling(h, blocks) && Sized(h, blocks, {blocks[i]}) && |h2| == |h|
    requires asize >= MIN_BLOCK_SIZE && SizeAt(h, blocks[i]) >= asize + MIN_BLOCK_SIZE
    requires SplitSeq(blocks, blocks2, i, blocks[i] + asize / WSIZE)
    requires Tiling(h2, blocks2) && KeptOutside(h, h2, blocks, i, 1)
    requires SizeAt(h2, blocks[i]) == asize && SizeAt(h2, blocks[i] + asize / WSIZE) == SizeAt(h, blocks[i]) - asize
    ensures Sized(h2, blocks2, {})
  {
    forall t | 0 <= t < |blocks2|
      ensures SizeAt(h2, blocks2[t]) >= MIN_BLOCK_SIZE
    {
    }
  }

  /** After the split no free block has a free neighbour but the first half. */
  lemma SplitUnpaired(h: seq<nat>, h2: seq<nat>, blocks: seq<nat>, blocks2: seq<nat>, i: nat, sub: nat)
    requires i < |blocks| && Tiling(h, blocks) && Unpaired(h, blocks, {}) && IsFree(h, blocks[i]) && |h2| == |h|
    requires SplitSeq(blocks, blocks2, i, sub) && Tiling(h2, blocks2) && KeptOutside(h, h2, blocks, i, 1)
    ensures Unpaired(h2, blocks2, {blocks[i]})
  {
    var b := blocks[i];
    forall t, u | 0 <= t && u == t + 1 && u < |blocks2|
      ensures IsFree(h2, blocks2[t]) && IsFree(h2, blocks2[u]) ==> blocks2[t] == b || blocks2[u] == b
    {
      if t == i + 1 {
        assert !IsFree(h, blocks[i + 1]);
      } else if u < i {
        assert !(IsFree(h, blocks[t]) && IsFree(h, blocks[u]));
      } else if t > i + 1 {
        assert !(IsFree(h, blocks[t - 1]) && IsFree(h, blocks[u - 1]));
      }
    }
  }

  /** After the split the lists still hold exactly the free blocks other than the two halves. */
  lemma SplitFiled(h: seq<nat>, h2: seq<nat>, blocks: seq<nat>, blocks2: seq<nat>, lists: seq<seq<nat>>, i: nat, sub: nat)
    requires i < |blocks| && Shape(h, blocks, lists, {blocks[i]}) && |h2| == |h|
    requires SplitSeq(blocks, blocks2, i, sub) && Tiling(h2, blocks2) && KeptOutside(h, h2, blocks, i, 1)
    ensures Filed(h2, blocks2, lists, {blocks[i], sub}) && Complete(h2, blocks2, lists, {blocks[i], sub})
  {
    var b := blocks[i];
    forall c, m | 0 <= c < FREE_LIST_SIZE && 0 <= m < |lists[c]|
      ensures lists[c][m] in blocks2 && lists[c][m] != b && lists[c][m] != sub &&
        SizeAt(h2, lists[c][m]) == SizeAt(h, lists[c][m]) && IsFree(h2, lists[c][m])
    {
      var t := ListedIndex(h, blocks, lists, {b}, c, m);
      var t2 := if t < i then t else t + 1;
      assert blocks2[t2] == blocks[t] && blocks2[i + 1] == sub;
      BlocksApart(h2, blocks2, t2, i + 1);
    }
    forall t | 0 <= t < |blocks2| && blocks2[t] !in {b, sub} && IsFree(h2, blocks2[t])
      ensures blocks2[t] in lists[FlistIndex(SizeAt(h2, blocks2[t]))]
    {
      assert t != i && t != i + 1;
    }
  }

  /**
    handle_split_block's tag writes on an unlisted free block: the block
    keeps `asize` bytes and the rest becomes a free block right after it,
    still to be listed. Nothing else changes.
   */
  lemma SplitStep(h: seq<nat>, heads: seq<nat>, blocks: seq<nat>, blocks2: seq<nat>, lists: seq<seq<nat>>, i: nat, asize: nat)
    requires i < |blocks| && HeapInv(h, heads, blocks, lists, {blocks[i]}) && IsFree(h, blocks[i]) && Unpaired(h, blocks, {})
    requires asize % DSIZE == 0 && asize >= MIN_BLOCK_SIZE && SizeAt(h, blocks[i]) >= asize + MIN_BLOCK_SIZE
    requires SplitSeq(blocks, blocks2, i, blocks[i] + asize / WSIZE)
    ensures Tagged(h, blocks[i]) && SizeAt(h, blocks[i]) % DSIZE == 0 && blocks[i] + asize / WSIZE < |h|
    ensures var b := blocks[i];
      var sub := b + asize / WSIZE;
      var h2 := SplitWords(h, b, asize);
      Tiling(h2, blocks2) && Sized(h2, blocks2, {}) && Unpaired(h2, blocks2, {b}) && HeapInv(h2, heads, blocks2, lists, {b, sub}) &&
      SizeAt(h2, b) == asize && SizeAt(h2, sub) == SizeAt(h, b) - asize && IsFree(h2, b) && IsFree(h2, sub) &&
      NextBlkp(h2, b) == sub && NextBlkp(h2, sub) == NextBlkp(h, b)
  {
    BlockBounds(h, blocks, i);
    SplitRun(h, blocks[i], asize);
    SplitKept(h, heads, blocks, blocks2, lists, i, asize);
  }

  /** The invariant half of SplitStep: the new tiling and what the lists and links make of it. */
  lemma SplitKept(h: seq<nat>, heads: seq<nat>, blocks: seq<nat>, blocks2: seq<nat>, lists: seq<seq<nat>>, i: nat, asize: nat)
    requires i < |blocks| && HeapInv(h, heads, blocks, lists, {blocks[i]}) && IsFree(h, blocks[i]) && Unpaired(h, blocks, {})
    requires asize % DSIZE == 0 && asize >= MIN_BLOCK_SIZE && SizeAt(h, blocks[i]) >= asize + MIN_BLOCK_SIZE
    requires SplitSeq(blocks, blocks2, i, blocks[i] + asize / WSIZE)
    requires Tagged(h, blocks[i]) && SizeAt(h, blocks[i]) % DSIZE == 0
    requires var h2 := SplitWords(h, blocks[i], asize);
      SizeAt(h2, blocks[i]) == asize && SizeAt(h2, blocks[i] + asize / WSIZE) == SizeAt(h, blocks[i]) - asize
    ensures var b := blocks[i];
      var sub := b + asize / WSIZE;
      var h2 := SplitWords(h, b, asize);
      Tiling(h2, blocks2) && Sized(h2, blocks2, {}) && Unpaired(h2, blocks2, {b}) && HeapInv(h2, heads, blocks2, lists, {b, sub})
  {
    var b := blocks[i];
    var sub := b + asize / WSIZE;
    var h2 := SplitWords(h, b, asize);
    SplitIndex(blocks, i, sub);
    assert blocks2 == blocks[..i] + ([b, sub] + blocks[i + 1..]);
    SplitTiling(h, blocks, blocks2, i, asize);
    assert Sized(h2, blocks2, {}) by {
      SplitSized(h, h2, blocks, blocks2, i, asize);
    }
    assert Unpaired(h2, blocks2, {b}) by {
      SplitUnpaired(h, h2, blocks, blocks2, i, sub);
    }
    assert Filed(h2, blocks2, lists, {b, sub}) && Complete(h2, blocks2, lists, {b, sub}) by {
      SplitFiled(h, h2, blocks, blocks2, lists, i, sub);
    }
    assert Linked(h2, heads, lists) by {
      SplitLinked(h, heads, blocks, lists, {b}, i, asize);
    }
    assert Sized(h2, blocks2, {b, sub}) && Unpaired(h2, blocks2, {b, sub});
  }

  /** The exempt blocks are exactly the run `blocks[s..s + n]`. */
  ghost predicate RunExempt(blocks: seq<nat>, ex: set<nat>, s: nat, n: nat)
  {
    forall t :: 0 <= t < |blocks| ==> (blocks[t] in ex <==> s <= t < s + n)
  }

  /** `blocks2` is `blocks` with the run `blocks[s..s + n]` replaced by its first block. */
  ghost predicate MergeSeq(blocks: seq<nat>, blocks2: seq<nat>, s: nat, n: nat)
  {
    0 < n && s + n <= |blocks| && |blocks2| == |blocks| - n + 1 &&
    forall t {:trigger blocks2[t]} :: 0 <= t < |blocks2| ==>
      blocks2[t] == if t <= s then blocks[t] else blocks[t + n - 1]
  }

  lemma MergeIndex(blocks: seq<nat>, s: nat, n: nat)
    requires 0 < n && s + n <= |blocks|
    ensures MergeSeq(blocks, blocks[..s] + ([blocks[s]] + blocks[s + n..]), s, n)
  {
    var b2 := blocks[..s] + ([blocks[s]] + blocks[s + n..]);
    forall t | 0 <= t < |b2|
      ensures b2[t] == if t <= s then blocks[t] else blocks[t + n - 1]
    {
      ReplaceIndex(blocks, s, n, [blocks[s]], t);
    }
  }

  /** The merged block's two tag words make one free block over the words `m - 1 .. e - 1`, and nothing else changes. */
  lemma MergeRun(h: seq<nat>, m: nat, e: nat, size: nat)
    requires FIRST_BP <= m && m + size / WSIZE == e <= |h|
    requires size % DSIZE == 0 && size >= MIN_BLOCK_SIZE
    ensures var h2 := h[m - 1 := size][e - 2 := size];
      Run(h2, [m], m, e) && SizeAt(h2, m) == size && IsFree(h2, m) && NextBlkp(h2, m) == e &&
      (forall p :: 0 <= p < |h| && !(m - 1 <= p < e - 1) ==> h2[p] == h[p])
  {
    PackRoundTrip(size, 0);
    var h2 := h[m - 1 := size][e - 2 := size];
    assert h2[m - 1] == Pack(size, 0);
    assert Tagged(h2, m);
  }

  /** The merged block takes the place of the run in the tiling, and the blocks around it keep their tags. */
  lemma MergeTiling(h: seq<nat>, h2: seq<nat>, blocks: seq<nat>, s: nat, n: nat, size: nat)
    requires Tiling(h, blocks) && 0 < n && s + n <= |blocks|
    requires size % DSIZE == 0 && size >= MIN_BLOCK_SIZE && blocks[s] + size / WSIZE == EndOf(h, blocks, s + n - 1)
    requires h2 == h[blocks[s] - 1 := size][EndOf(h, blocks, s + n - 1) - 2 := size]
    ensures Tiling(h2, blocks[..s] + ([blocks[s]] + blocks[s + n..])) && KeptOutside(h, h2, blocks, s, n)
    ensures SizeAt(h2, blocks[s]) == size && IsFree(h2, blocks[s]) && NextBlkp(h2, blocks[s]) == EndOf(h, blocks, s + n - 1)
  {
    BlockBounds(h, blocks, s);
    BlockBounds(h, blocks, s + n - 1);
    MergeRun(h, blocks[s], EndOf(h, blocks, s + n - 1), size);
    TilingReplace(h, h2, blocks, s, n, [blocks[s]]);
    SpanWritesKeep(h, h2, blocks, s, n);
  }

  /** The merge writes only the first header and the last footer of a run that is off the lists. */
  lemma MergeLinked(h: seq<nat>, h2: seq<nat>, heads: seq<nat>, blocks: seq<nat>, lists: seq<seq<nat>>, ex: set<nat>, s: nat, n: nat, size: nat)
    requires Shape(h, blocks, lists, ex) && Linked(h, heads, lists) && 0 < n && s + n <= |blocks|
    requires blocks[s] in ex && blocks[s + n - 1] in ex
    requires h2 == h[blocks[s] - 1 := size][EndOf(h, blocks, s + n - 1) - 2 := size]
    ensures Linked(h2, heads, lists)
  {
    TagsClear(h, blocks, lists, ex, s);
    TagsClear(h, blocks, lists, ex, s + n - 1);
    LinkedWrite2(h, heads, lists, blocks[s] - 1, EndOf(h, blocks, s + n - 1) - 2, size, h2);
  }

  /** After the merge every block is big enough for its links. */
  lemma MergeSized(h: seq<nat>, h2: seq<nat>, blocks: seq<nat>, blocks2: seq<nat>, ex: set<nat>, s: nat, n: nat)
    requires Tiling(h, blocks) && Sized(h, blocks, ex) && RunExempt(blocks, ex, s, n) && |h2| == |h|
    requires MergeSeq(blocks, blocks2, s, n) && Tiling(h2, blocks2) && KeptOutside(h, h2, blocks, s, n)
    requires SizeAt(h2, blocks[s]) >= MIN_BLOCK_SIZE
    ensures Sized(h2, blocks2, {})
  {
    forall t | 0 <= t < |blocks2|
      ensures SizeAt(h2, blocks2[t]) >= MIN_BLOCK_SIZE
    {
      if t > s {
        assert blocks2[t] == blocks[t + n - 1];
      }
    }
  }

  /** With both outer neighbours of the run allocated, no two neighbouring blocks are free after the merge. */
  lemma MergeUnpaired(h: seq<nat>, h2: seq<nat>, blocks: seq<nat>, blocks2: seq<nat>, ex: set<nat>, s: nat, n: nat)
    requires Tiling(h, blocks) && Unpaired(h, blocks, ex) && RunExempt(blocks, ex, s, n) && |h2| == |h|
    requires MergeSeq(blocks, blocks2, s, n) && Tiling(h2, blocks2) && KeptOutside(h, h2, blocks, s, n)
    requires s > 0 ==> !IsFree(h, blocks[s - 1])
    requires s + n < |blocks| ==> !IsFree(h, blocks[s + n])
    ensures Unpaired(h2, blocks2, {})
  {
    forall t, u | 0 <= t && u == t + 1 && u < |blocks2|
      ensures !(IsFree(h2, blocks2[t]) && IsFree(h2, blocks2[u]))
    {
      if u < s {
        assert !(IsFree(h, blocks[t]) && IsFree(h, blocks[u]));
      } else if u == s {
        assert !IsFree(h2, blocks2[t]);
      } else if t == s {
        assert blocks2[u] == blocks[s + n];
      } else {
        assert blocks2[t] == blocks[t + n - 1] && blocks2[u] == blocks[u + n - 1];
        assert !(IsFree(h, blocks[t + n - 1]) && IsFree(h, blocks[u + n - 1]));
      }
    }
  }

  /** One listed block after the merge: still a free block of the same size and class, and not the merged one. */
  lemma MergeFiledAt(h: seq<nat>, h2: seq<nat>, blocks: seq<nat>, blocks2: seq<nat>, lists: seq<seq<nat>>, ex: set<nat>, s: nat, n: nat,
                     c: nat, m: nat)
    requires Tiling(h, blocks) && |lists| == FREE_LIST_SIZE && Filed(h, blocks, lists, ex)
    requires RunExempt(blocks, ex, s, n) && |h2| == |h|
    requires MergeSeq(blocks, blocks2, s, n) && Tiling(h2, blocks2) && KeptOutside(h, h2, blocks, s, n)
    requires c < FREE_LIST_SIZE && m < |lists[c]|
    ensures var x := lists[c][m];
      x in blocks2 && x !in {blocks[s]} && Tagged(h2, x) && IsFree(h2, x) &&
      SizeAt(h2, x) >= MIN_BLOCK_SIZE && FlistIndex(SizeAt(h2, x)) == c
  {
    assert lists[c][m] in blocks;
    var t :| 0 <= t < |blocks| && blocks[t] == lists[c][m];
    assert t < s || s + n <= t;
    var t2 := if t < s then t else t - n + 1;
    assert blocks2[t2] == blocks[t];
    assert blocks[s] in ex;
    assert Tagged(h2, blocks2[t2]);
  }

  /** After the merge every listed block is still a free block of the same size, and not the merged one. */
  lemma MergeFiled(h: seq<nat>, h2: seq<nat>, blocks: seq<nat>, blocks2: seq<nat>, lists: seq<seq<nat>>, ex: set<nat>, s: nat, n: nat)
    requires Shape(h, blocks, lists, ex) && RunExempt(blocks, ex, s, n) && |h2| == |h|
    requires MergeSeq(blocks, blocks2, s, n) && Tiling(h2, blocks2) && KeptOutside(h, h2, blocks, s, n)
    ensures Filed(h2, blocks2, lists, {blocks[s]})
  {
    forall c, m | 0 <= c < FREE_LIST_SIZE && 0 <= m < |lists[c]|
      ensures var x := lists[c][m];
        x in blocks2 && x !in {blocks[s]} && Tagged(h2, x) && IsFree(h2, x) &&
        SizeAt(h2, x) >= MIN_BLOCK_SIZE && FlistIndex(SizeAt(h2, x)) == c
    {
      MergeFiledAt(h, h2, blocks, blocks2, lists, ex, s, n, c, m);
    }
  }

  /** After the merge every free block but the merged one is still listed in its class. */
  lemma MergeComplete(h: seq<nat>, h2: seq<nat>, blocks: seq<nat>, blocks2: seq<nat>, lists: seq<seq<nat>>, ex: set<nat>, s: nat, n: nat)
    requires Shape(h, blocks, lists, ex) && RunExempt(blocks, ex, s, n) && |h2| == |h|
    requires MergeSeq(blocks, blocks2, s, n) && Tiling(h2, blocks2) && KeptOutside(h, h2, blocks, s, n)
    ensures Complete(h2, blocks2, lists, {blocks[s]})
  {
    forall t | 0 <= t < |blocks2| && blocks2[t] != blocks[s] && IsFree(h2, blocks2[t])
      ensures blocks2[t] in lists[FlistIndex(SizeAt(h2, blocks2[t]))]
    {
      if t > s {
        assert blocks2[t] == blocks[t + n - 1];
      }
    }
  }

  /**
    coalesce's tag writes on a run of unlisted free blocks whose outer
    neighbours are allocated: the run becomes one free block, still to be
    listed, over the same words.
   */
  lemma MergeStep(h: seq<nat>, h2: seq<nat>, heads: seq<nat>, blocks: seq<nat>, blocks2: seq<nat>, lists: seq<seq<nat>>, ex: set<nat>, s: nat, n: nat, size: nat)
    requires HeapInv(h, heads, blocks, lists, ex) && 0 < n && s + n <= |blocks| && RunExempt(blocks, ex, s, n)
    requires s > 0 ==> !IsFree(h, blocks[s - 1])
    requires s + n < |blocks| ==> !IsFree(h, blocks[s + n])
    requires size % DSIZE == 0 && size >= MIN_BLOCK_SIZE && blocks[s] + size / WSIZE == EndOf(h, blocks, s + n - 1)
    requires h2 == h[blocks[s] - 1 := size][EndOf(h, blocks, s + n - 1) - 2 := size]
    requires MergeSeq(blocks, blocks2, s, n)
    ensures HeapInv(h2, heads, blocks2, lists, {blocks[s]}) && Sized(h2, blocks2, {}) && Unpaired(h2, blocks2, {})
    ensures SizeAt(h2, blocks[s]) == size && IsFree(h2, blocks[s]) && NextBlkp(h2, blocks[s]) == EndOf(h, blocks, s + n - 1)
  {
    assert blocks[s] in ex && blocks[s + n - 1] in ex;
    MergeTiling(h, h2, blocks, s, n, size);
    MergeIndex(blocks, s, n);
    assert blocks2 == blocks[..s] + ([blocks[s]] + blocks[s + n..]);
    MergeLinked(h, h2, heads, blocks, lists, ex, s, n, size);
    MergeSized(h, h2, blocks, blocks2, ex, s, n);
    MergeUnpaired(h, h2, blocks, blocks2, ex, s, n);
    MergeFiled(h, h2, blocks, blocks2, lists, ex, s, n);
    MergeComplete(h, h2, blocks, blocks2, lists, ex, s, n);
  }

  /** No listed block has a link word at or past the old epilogue. */
  lemma EndClear(h: seq<nat>, blocks: seq<nat>, lists: seq<seq<nat>>, ex: set<nat>, p: nat)
    requires Shape(h, blocks, lists, ex) && p + 1 >= |h|
    ensures AllClear(lists, p)
  {
    forall k, j | 0 <= k < FREE_LIST_SIZE && 0 <= j < |lists[k]|
      ensures lists[k][j] != p && lists[k][j] + 1 != p
    {
      var t := ListedIndex(h, blocks, lists, ex, k, j);
      BlockBounds(h, blocks, t);
    }
    forall k | 0 <= k < FREE_LIST_SIZE
      ensures Clear(lists[k], p)
    {
      forall j | 0 <= j < |lists[k]|
        ensures lists[k][j] != p && lists[k][j] + 1 != p
      {
      }
    }
  }

  /** Growing the heap keeps every list: the old words stay where they were. */
  lemma LinkedGrow(h: seq<nat>, h1: seq<nat>, heads: seq<nat>, lists: seq<seq<nat>>)
    requires Linked(h, heads, lists) && |h1| >= |h| && h1[..|h|] == h
    ensures Linked(h1, heads, lists)
  {
    forall k | 0 <= k < FREE_LIST_SIZE
      ensures Chain(h1, heads[k], lists[k])
    {
      var l := lists[k];
      assert forall i :: 0 <= i < |l| ==> h1[l[i]] == h[l[i]] && h1[l[i] + 1] == h[l[i] + 1];
    }
  }

  /** The three words extend_heap writes in the grown heap: the new block's header and footer and the new epilogue. */
  ghost predicate Grown(h: seq<nat>, h1: seq<nat>, h2: seq<nat>, size: nat)
  {
    |h| >= 1 && size % DSIZE == 0 && size >= DSIZE &&
    |h1| == |h| + size / WSIZE && h1[..|h|] == h &&
    h2 == h1[|h| - 1 := size][|h| + size / WSIZE - 2 := size][|h| + size / WSIZE - 1 := EPILOGUE]
  }

  /** The new block starts at the old end of the heap and follows the old tiling. */
  lemma ExtendTiling(h: seq<nat>, h1: seq<nat>, h2: seq<nat>, blocks: seq<nat>, size: nat)
    requires Tiling(h, blocks) && Grown(h, h1, h2, size)
    ensures Tiling(h2, blocks + [|h|]) && Tagged(h2, |h|)
    ensures SizeAt(h2, |h|) == size && IsFree(h2, |h|) && NextBlkp(h2, |h|) == |h2|
    ensures forall t :: 0 <= t < |blocks| ==> SizeAt(h2, blocks[t]) == SizeAt(h, blocks[t]) && IsFree(h2, blocks[t]) == IsFree(h, blocks[t])
  {
    var L := |h|;
    PackRoundTrip(size, 0);
    assert h2[L - 1] == Pack(size, 0);
    assert Tagged(h2, L);
    RunSingle(h2, L);
    assert h2[1] == h[1] && h2[2] == h[2];
    if |blocks| == 0 {
      assert blocks + [L] == [L];
    } else {
      forall p | FIRST_BP - 1 <= p < L - 1 && p < |h|
        ensures h2[p] == h[p]
      {
        assert h1[p] == h[p];
      }
      RunUnchanged(h, h2, blocks, FIRST_BP, L);
      RunConcat(h2, blocks, [L], FIRST_BP, L, |h2|);
    }
    forall t | 0 <= t < |blocks|
      ensures SizeAt(h2, blocks[t]) == SizeAt(h, blocks[t]) && IsFree(h2, blocks[t]) == IsFree(h, blocks[t])
    {
      BlockBounds(h, blocks, t);
      assert h1[blocks[t] - 1] == h[blocks[t] - 1];
    }
  }

  /** The lists survive the growth and the three tag writes past the old end. */
  lemma ExtendLinked(h: seq<nat>, h1: seq<nat>, h2: seq<nat>, heads: seq<nat>, blocks: seq<nat>, lists: seq<seq<nat>>, size: nat)
    requires HeapInv(h, heads, blocks, lists, {}) && Grown(h, h1, h2, size)
    ensures Linked(h2, heads, lists)
  {
    var L := |h|;
    var w := size / WSIZE;
    LinkedGrow(h, h1, heads, lists);
    EndClear(h, blocks, lists, {}, L - 1);
    EndClear(h, blocks, lists, {}, L + w - 2);
    EndClear(h, blocks, lists, {}, L + w - 1);
    LinkedWrite3(h1, heads, lists, L - 1, L + w - 2, L + w - 1, size, EPILOGUE, h2);
  }

  /** Only pairs with the new block may be two free neighbours after the growth. */
  lemma ExtendUnpaired(h: seq<nat>, h2: seq<nat>, blocks: seq<nat>)
    requires Tiling(h, blocks) && Unpaired(h, blocks, {}) && Tiling(h2, blocks + [|h|]) && |h2| > |h|
    requires forall t :: 0 <= t < |blocks| ==> 1 <= blocks[t] <= |h| && IsFree(h2, blocks[t]) == IsFree(h, blocks[t])
    ensures Unpaired(h2, blocks + [|h|], {|h|})
  {
    var b2 := blocks + [|h|];
    forall t, u | 0 <= t && u == t + 1 && u < |b2|
      ensures IsFree(h2, b2[t]) && IsFree(h2, b2[u]) ==> b2[t] in {|h|} || b2[u] in {|h|}
    {
      if u < |blocks| {
        assert b2[t] == blocks[t] && b2[u] == blocks[u];
        assert !(IsFree(h, blocks[t]) && IsFree(h, blocks[u]));
      }
    }
  }

  /** Only the new block is free and unlisted after the growth; the rest of the invariant is as before. */
  lemma ExtendShape(h: seq<nat>, h2: seq<nat>, blocks: seq<nat>, lists: seq<seq<nat>>)
    requires Shape(h, blocks, lists, {}) && Tiling(h2, blocks + [|h|]) && |h2| > |h|
    requires forall t :: 0 <= t < |blocks| ==> SizeAt(h2, blocks[t]) == SizeAt(h, blocks[t]) && IsFree(h2, blocks[t]) == IsFree(h, blocks[t])
    ensures Shape(h2, blocks + [|h|], lists, {|h|})
  {
    var L := |h|;
    var b2 := blocks + [L];
    assert forall t :: 0 <= t < |blocks| ==> b2[t] == blocks[t];
    forall t | 0 <= t < |blocks|
      ensures 1 <= blocks[t] < L
    {
      BlockBounds(h, blocks, t);
    }
    ExtendUnpaired(h, h2, blocks);
    forall c, m | 0 <= c < FREE_LIST_SIZE && 0 <= m < |lists[c]|
      ensures lists[c][m] in b2 && lists[c][m] != L
    {
      var t := ListedIndex(h, blocks, lists, {}, c, m);
      assert b2[t] == blocks[t];
    }
    forall t | 0 <= t < |b2| && b2[t] !in {L} && IsFree(h2, b2[t])
      ensures b2[t] in lists[FlistIndex(SizeAt(h2, b2[t]))]
    {
      assert t < |blocks|;
    }
  }

  /**
    extend_heap's writes after mem_sbrk: the old epilogue becomes the header
    of a free block of `size` bytes that fills the new words, with a new
    epilogue after it. The new block is still to be coalesced and listed.
   */
  lemma ExtendStep(h: seq<nat>, h1: seq<nat>, h2: seq<nat>, heads: seq<nat>, blocks: seq<nat>, lists: seq<seq<nat>>, size: nat)
    requires HeapInv(h, heads, blocks, lists, {}) && Grown(h, h1, h2, size)
    ensures HeapInv(h2, heads, blocks + [|h|], lists, {|h|})
    ensures SizeAt(h2, |h|) == size && IsFree(h2, |h|) && NextBlkp(h2, |h|) == |h2|
  {
    ExtendTiling(h, h1, h2, blocks, size);
    ExtendLinked(h, h1, h2, heads, blocks, lists, size);
    ExtendShape(h, h2, blocks, lists);
  }
}
