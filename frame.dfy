/**
  What the allocator leaves alone. Every write of its routines lands in the
  tags or link words of a free block, or past the old heap, so a block that
  is allocated keeps every word from its header to its footer, its payload
  included, and stays one of the blocks.
 */
module Frame {
  import opened Layout
  import opened Heap
  import opened FreeList
  import opened Invariant
  import opened Steps

  /** Block `b` is one of `blocks` and allocated in `h`. */
  ghost predicate Allocated(h: seq<nat>, blocks: seq<nat>, b: nat)
  {
    b in blocks && 1 <= b <= |h| && !IsFree(h, b)
  }

  /** Block `b` has the same words in `h2` as in `h`, from its header to its footer. */
  ghost predicate SameWords(h: seq<nat>, h2: seq<nat>, b: nat)
    requires 1 <= b <= |h| <= |h2|
  {
    h2[b - 1] == h[b - 1] && forall p :: b <= p <= Ftrp(h, b) && p < |h| ==> h2[p] == h[p]
  }

  /**
    Every block of `blocks` allocated in `h`, other than `x`, is still one
    of `blocks2` and has all its words unchanged in `h2`, which may be longer.
   */
  ghost predicate KeepsAllocatedBut(h: seq<nat>, blocks: seq<nat>, x: nat, h2: seq<nat>, blocks2: seq<nat>)
  {
    |h| <= |h2| &&
    forall b: nat {:trigger Allocated(h, blocks, b)} :: Allocated(h, blocks, b) && b != x ==> b in blocks2 && SameWords(h, h2, b)
  }

  /** Every allocated block of `blocks` is kept, word for word, in `h2` and `blocks2` (no block is named 0). */
  ghost predicate KeepsAllocated(h: seq<nat>, blocks: seq<nat>, h2: seq<nat>, blocks2: seq<nat>)
  {
    KeepsAllocatedBut(h, blocks, 0, h2, blocks2)
  }

  /** Word `p` belongs to no allocated block of `blocks`. */
  ghost predicate Unowned(h: seq<nat>, blocks: seq<nat>, p: nat)
  {
    forall b: nat {:trigger Allocated(h, blocks, b)} :: Allocated(h, blocks, b) ==> p + 1 != b && !(b <= p <= Ftrp(h, b))
  }

  /**
    A free block of the heap, or the word index at the old break where new
    words begin, is not an allocated block: handing it out aliases no
    client's block.
   */
  lemma NotAllocated(n: nat, h: seq<nat>, heads: seq<nat>, blocks: seq<nat>, lists: seq<seq<nat>>, r: nat)
    requires Sealed(n, h, heads, blocks, lists, {}, {})
    requires r == |h| || (1 <= r <= |h| && IsFree(h, r))
    ensures !Allocated(h, blocks, r)
  {
    if r == |h| {
      Unseal(n, h, heads, blocks, lists, {}, {});
      forall t | 0 <= t < |blocks|
        ensures blocks[t] != r
      {
        BlockBounds(h, blocks, t);
      }
    }
  }

  /** Keeping the allocated blocks composes: a block kept by the first change is allocated for the second. */
  lemma KeepsTrans(h: seq<nat>, blocks: seq<nat>, x: nat, h1: seq<nat>, blocks1: seq<nat>, h2: seq<nat>, blocks2: seq<nat>)
    requires KeepsAllocatedBut(h, blocks, x, h1, blocks1) && KeepsAllocated(h1, blocks1, h2, blocks2)
    ensures KeepsAllocatedBut(h, blocks, x, h2, blocks2)
  {
    forall b: nat | Allocated(h, blocks, b) && b != x
      ensures b in blocks2 && SameWords(h, h2, b)
    {
      assert h1[b - 1] == h[b - 1];
      assert Allocated(h1, blocks1, b) && Ftrp(h1, b) == Ftrp(h, b);
    }
  }

  /** A change of unowned words only, which keeps every allocated block among the blocks, keeps them all. */
  lemma UnownedWrites(h: seq<nat>, blocks: seq<nat>, h2: seq<nat>, blocks2: seq<nat>)
    requires |h| <= |h2|
    requires forall b: nat :: Allocated(h, blocks, b) ==> b in blocks2
    requires forall p: nat :: p < |h| && h2[p] != h[p] ==> Unowned(h, blocks, p)
    ensures KeepsAllocated(h, blocks, h2, blocks2)
  {
    forall b: nat | Allocated(h, blocks, b)
      ensures SameWords(h, h2, b)
    {
      assert !Unowned(h, blocks, b - 1);
      forall p: nat | b <= p <= Ftrp(h, b) && p < |h|
        ensures h2[p] == h[p]
      {
        assert !Unowned(h, blocks, p);
      }
    }
  }

  /** A word of a free block of the tiling, header to footer, belongs to no allocated block. */
  lemma FreeWord(h: seq<nat>, blocks: seq<nat>, u: nat, p: nat)
    requires Tiling(h, blocks) && u < |blocks| && Tagged(h, blocks[u]) && IsFree(h, blocks[u])
    requires blocks[u] - 1 <= p < NextBlkp(h, blocks[u]) - 1
    ensures Unowned(h, blocks, p)
  {
    forall b: nat | Allocated(h, blocks, b)
      ensures p + 1 != b && !(b <= p <= Ftrp(h, b))
    {
      var t :| 0 <= t < |blocks| && blocks[t] == b;
      BlockBounds(h, blocks, t);
      SpansDisjoint(h, blocks, u, t);
    }
  }

  /** The words of a listed block, header to footer, belong to no allocated block. */
  lemma ListedWord(h: seq<nat>, blocks: seq<nat>, lists: seq<seq<nat>>, ex: set<nat>, k: nat, j: nat, p: nat)
    requires Shape(h, blocks, lists, ex) && k < FREE_LIST_SIZE && j < |lists[k]|
    requires lists[k][j] <= p <= lists[k][j] + 1
    ensures Unowned(h, blocks, p)
  {
    var t := ListedIndex(h, blocks, lists, ex, k, j);
    BlockBounds(h, blocks, t);
    FreeWord(h, blocks, t, p);
  }

  /** remove_free_block writes only the link words of the block's list neighbours, which are free. */
  lemma UnlinkKeeps(h: seq<nat>, heads: seq<nat>, blocks: seq<nat>, lists: seq<seq<nat>>, ex: set<nat>, k: nat, j: nat)
    requires HeapInv(h, heads, blocks, lists, ex) && k < FREE_LIST_SIZE && j < |lists[k]|
    ensures var bp := lists[k][j];
      bp + 1 < |h| && (h[bp] != 0 ==> h[bp] + 1 < |h|) && h[bp + 1] < |h| &&
      KeepsAllocated(h, blocks, Unlink(h, h[bp], h[bp + 1]), blocks)
  {
    ListedLinks(h, heads, blocks, lists, ex, k, j);
    var bp := lists[k][j];
    var prev, next := h[bp], h[bp + 1];
    var h2 := Unlink(h, prev, next);
    forall p: nat | 0 <= p < |h| && h2[p] != h[p]
      ensures Unowned(h, blocks, p)
    {
      if prev != 0 && p == prev + 1 {
        ListedWord(h, blocks, lists, ex, k, j - 1, p);
      } else {
        ListedWord(h, blocks, lists, ex, k, j + 1, p);
      }
    }
    UnownedWrites(h, blocks, h2, blocks);
  }

  /** insert_free_block writes only the pushed block's link words and the old head's, both free. */
  lemma PushKeeps(h: seq<nat>, heads: seq<nat>, blocks: seq<nat>, lists: seq<seq<nat>>, ex: set<nat>, i: nat)
    requires HeapInv(h, heads, blocks, lists, ex) && i < |blocks| && Tagged(h, blocks[i]) && IsFree(h, blocks[i])
    requires SizeAt(h, blocks[i]) >= MIN_BLOCK_SIZE
    ensures var b := blocks[i];
      var k := FlistIndex(SizeAt(h, b));
      |heads| == FREE_LIST_SIZE && b + 1 < |h| && heads[k] < |h| &&
      KeepsAllocated(h, blocks, Push(h, b, heads[k]), blocks)
  {
    var b := blocks[i];
    var k := FlistIndex(SizeAt(h, b));
    BlockBounds(h, blocks, i);
    if heads[k] != 0 {
      ListedLinks(h, heads, blocks, lists, ex, k, 0);
    }
    var h2 := Push(h, b, heads[k]);
    forall p: nat | 0 <= p < |h| && h2[p] != h[p]
      ensures Unowned(h, blocks, p)
    {
      if p == b || p == b + 1 {
        FreeWord(h, blocks, i, p);
      } else {
        ListedWord(h, blocks, lists, ex, k, 0, p);
      }
    }
    UnownedWrites(h, blocks, h2, blocks);
  }

  /**
    coalesce's two tag writes, into the first header and the last footer of
    a run of free blocks, keep every allocated block, which is outside the
    run and so still a block once the run is one.
   */
  lemma RunTagsKeep(h: seq<nat>, blocks: seq<nat>, s: nat, cnt: nat, v: nat)
    requires Tiling(h, blocks) && 0 < cnt <= 3 && s + cnt <= |blocks|
    requires Tagged(h, blocks[s]) && IsFree(h, blocks[s])
    requires cnt > 1 ==> Tagged(h, blocks[s + 1]) && IsFree(h, blocks[s + 1])
    requires cnt > 2 ==> Tagged(h, blocks[s + 2]) && IsFree(h, blocks[s + 2])
    ensures var e := EndOf(h, blocks, s + cnt - 1);
      1 <= blocks[s] && 2 <= e <= |h| + 1 &&
      KeepsAllocated(h, blocks, h[blocks[s] - 1 := v][e - 2 := v], blocks[..s] + ([blocks[s]] + blocks[s + cnt..]))
  {
    var last := s + cnt - 1;
    BlockBounds(h, blocks, s);
    BlockBounds(h, blocks, last);
    var e := EndOf(h, blocks, last);
    var h2 := h[blocks[s] - 1 := v][e - 2 := v];
    var blocks2 := blocks[..s] + ([blocks[s]] + blocks[s + cnt..]);
    forall p: nat | 0 <= p < |h| && h2[p] != h[p]
      ensures Unowned(h, blocks, p)
    {
      if p == blocks[s] - 1 {
        FreeWord(h, blocks, s, p);
      } else {
        FreeWord(h, blocks, last, p);
      }
    }
    RunOutside(h, blocks, s, cnt);
    UnownedWrites(h, blocks, h2, blocks2);
  }

  /** Every allocated block lies outside a run of free blocks, so it is still a block once the run is one. */
  lemma RunOutside(h: seq<nat>, blocks: seq<nat>, s: nat, cnt: nat)
    requires Tiling(h, blocks) && 0 < cnt <= 3 && s + cnt <= |blocks|
    requires Tagged(h, blocks[s]) && IsFree(h, blocks[s])
    requires cnt > 1 ==> Tagged(h, blocks[s + 1]) && IsFree(h, blocks[s + 1])
    requires cnt > 2 ==> Tagged(h, blocks[s + 2]) && IsFree(h, blocks[s + 2])
    ensures forall b: nat :: Allocated(h, blocks, b) ==> b in blocks[..s] + ([blocks[s]] + blocks[s + cnt..])
  {
    var blocks2 := blocks[..s] + ([blocks[s]] + blocks[s + cnt..]);
    forall b: nat | Allocated(h, blocks, b)
      ensures b in blocks2
    {
      var t :| 0 <= t < |blocks| && blocks[t] == b;
      ReplaceIndex(blocks, s, cnt, [blocks[s]], if t < s then t else t - cnt + 1);
    }
  }

  /** handle_split_block's four tag writes land inside the free block it cuts, and every old block stays a block. */
  lemma SplitKeeps(h: seq<nat>, blocks: seq<nat>, i: nat, asize: nat)
    requires Tiling(h, blocks) && i < |blocks| && Tagged(h, blocks[i]) && IsFree(h, blocks[i])
    requires asize % DSIZE == 0 && asize >= DSIZE && SizeAt(h, blocks[i]) >= asize + DSIZE
    ensures SizeAt(h, blocks[i]) % DSIZE == 0
    ensures KeepsAllocated(h, blocks, SplitWords(h, blocks[i], asize), blocks[..i] + ([blocks[i], blocks[i] + asize / WSIZE] + blocks[i + 1..]))
  {
    var b := blocks[i];
    SplitWordsForm(h, b, asize);
    var h2 := SplitWords(h, b, asize);
    var blocks2 := blocks[..i] + ([b, b + asize / WSIZE] + blocks[i + 1..]);
    forall p: nat | 0 <= p < |h| && h2[p] != h[p]
      ensures Unowned(h, blocks, p)
    {
      FreeWord(h, blocks, i, p);
    }
    forall c: nat | Allocated(h, blocks, c)
      ensures c in blocks2
    {
      var t :| 0 <= t < |blocks| && blocks[t] == c;
      ReplaceIndex(blocks, i, 1, [b, b + asize / WSIZE], if t < i then t else t + 1);
    }
    UnownedWrites(h, blocks, h2, blocks2);
  }

  /** Writing the header and footer of a free block keeps every allocated block. */
  lemma TagsKeep(h: seq<nat>, blocks: seq<nat>, i: nat, v: nat)
    requires Tiling(h, blocks) && i < |blocks| && Tagged(h, blocks[i]) && IsFree(h, blocks[i])
    ensures KeepsAllocated(h, blocks, h[blocks[i] - 1 := v][Ftrp(h, blocks[i]) := v], blocks)
  {
    var h2 := h[blocks[i] - 1 := v][Ftrp(h, blocks[i]) := v];
    forall p: nat | 0 <= p < |h| && h2[p] != h[p]
      ensures Unowned(h, blocks, p)
    {
      FreeWord(h, blocks, i, p);
    }
    UnownedWrites(h, blocks, h2, blocks);
  }

  /**
    mm_free's two tag writes are in the freed block itself: every other
    allocated block keeps its words.
   */
  lemma FreedKeeps(h: seq<nat>, blocks: seq<nat>, i: nat)
    requires Tiling(h, blocks) && i < |blocks|
    ensures Tagged(h, blocks[i]) && SizeAt(h, blocks[i]) % DSIZE == 0
    ensures KeepsAllocatedBut(h, blocks, blocks[i], SetTags(h, blocks[i], SizeAt(h, blocks[i]), 0), blocks)
  {
    var b := blocks[i];
    BlockBounds(h, blocks, i);
    SizeAligned(h, b);
    var h2 := SetTags(h, b, SizeAt(h, b), 0);
    forall c: nat | Allocated(h, blocks, c) && c != b
      ensures SameWords(h, h2, c)
    {
      var t :| 0 <= t < |blocks| && blocks[t] == c;
      BlockBounds(h, blocks, t);
      SpansDisjoint(h, blocks, i, t);
    }
  }

  /**
    extend_heap writes the old epilogue header and words past the old heap:
    every allocated block, which ends before the epilogue, keeps its words,
    and the new block joins the blocks.
   */
  lemma GrowKeeps(h: seq<nat>, blocks: seq<nat>, g: seq<nat>, x: nat)
    requires Tiling(h, blocks) && |h| <= |g|
    requires forall p :: 0 <= p < |h| - 1 ==> g[p] == h[p]
    ensures KeepsAllocated(h, blocks, g, blocks + [x])
  {
    forall b: nat | Allocated(h, blocks, b)
      ensures b in blocks + [x] && SameWords(h, g, b)
    {
      var t :| 0 <= t < |blocks| && blocks[t] == b;
      BlockBounds(h, blocks, t);
      assert (blocks + [x])[t] == b;
    }
  }

  /** Nothing changed keeps everything. */
  lemma KeepsRefl(h: seq<nat>, blocks: seq<nat>)
    ensures KeepsAllocated(h, blocks, h, blocks)
  {
  }

  /** remove_free_block on the carried invariant keeps every allocated block. */
  lemma RemoveFrame(n: nat, h: seq<nat>, heads: seq<nat>, blocks: seq<nat>, lists: seq<seq<nat>>, ex: set<nat>, lax: set<nat>,
                    k: nat, j: nat)
    requires Sealed(n, h, heads, blocks, lists, ex, lax) && |lists| == FREE_LIST_SIZE && k < FREE_LIST_SIZE && j < |lists[k]|
    ensures var bp := lists[k][j];
      bp + 1 < |h| && (h[bp] != 0 ==> h[bp] + 1 < |h|) && h[bp + 1] < |h| &&
      KeepsAllocated(h, blocks, Unlink(h, h[bp], h[bp + 1]), blocks)
  {
    Unseal(n, h, heads, blocks, lists, ex, lax);
    UnlinkKeeps(h, heads, blocks, lists, ex, k, j);
  }

  /** insert_free_block on the carried invariant keeps every allocated block. */
  lemma InsertFrame(n: nat, h: seq<nat>, heads: seq<nat>, blocks: seq<nat>, lists: seq<seq<nat>>, ex: set<nat>, i: nat)
    requires i < |blocks| && blocks[i] in ex && Sealed(n, h, heads, blocks, lists, ex, ex - {blocks[i]})
    requires Tagged(h, blocks[i]) && IsFree(h, blocks[i])
    ensures var b := blocks[i];
      var k := FlistIndex(SizeAt(h, b));
      |heads| == FREE_LIST_SIZE && b + 1 < |h| && heads[k] < |h| &&
      KeepsAllocated(h, blocks, Push(h, b, heads[k]), blocks)
  {
    Unseal(n, h, heads, blocks, lists, ex, ex - {blocks[i]});
    assert blocks[i] !in ex - {blocks[i]};
    PushKeeps(h, heads, blocks, lists, ex, i);
  }

  /** handle_split_block's cut on the carried invariant keeps every allocated block. */
  lemma SplitFrame(n: nat, h: seq<nat>, heads: seq<nat>, blocks: seq<nat>, lists: seq<seq<nat>>, i: nat, asize: nat)
    requires i < |blocks| && Sealed(n, h, heads, blocks, lists, {blocks[i]}, {})
    requires Tagged(h, blocks[i]) && IsFree(h, blocks[i])
    requires asize % DSIZE == 0 && asize >= DSIZE && SizeAt(h, blocks[i]) >= asize + DSIZE
    ensures SizeAt(h, blocks[i]) % DSIZE == 0
    ensures KeepsAllocated(h, blocks, SplitWords(h, blocks[i], asize), blocks[..i] + ([blocks[i], blocks[i] + asize / WSIZE] + blocks[i + 1..]))
  {
    Unseal(n, h, heads, blocks, lists, {blocks[i]}, {});
    SplitKeeps(h, blocks, i, asize);
  }

  /** Writing back the words a sequence already holds changes nothing. */
  lemma SameUpdates(h: seq<nat>, p: nat, q: nat)
    requires p < |h| && q < |h|
    ensures h[p := h[p]][q := h[q]] == h
  {
  }

  /** Marking block `i` allocated, with its own size, keeps every allocated block. */
  lemma PlaceKeeps(h: seq<nat>, blocks: seq<nat>, i: nat)
    requires Tiling(h, blocks) && i < |blocks|
    ensures var b := blocks[i];
      SizeAt(h, b) % DSIZE == 0 && SizeAt(h, b) >= DSIZE && b + SizeAt(h, b) / WSIZE - 2 < |h| &&
      KeepsAllocated(h, blocks, SetTags(h, b, SizeAt(h, b), 1), blocks)
  {
    var b := blocks[i];
    BlockBounds(h, blocks, i);
    SizeAligned(h, b);
    var size := SizeAt(h, b);
    var h2 := SetTags(h, b, size, 1);
    assert h2 == h[b - 1 := size + 1][Ftrp(h, b) := size + 1];
    if IsFree(h, b) {
      TagsKeep(h, blocks, i, size + 1);
    } else {
      RetagSame(h, b);
      assert h2 == h;
      KeepsRefl(h, blocks);
    }
  }

  /** An allocated block's tags already say what place writes. */
  lemma RetagSame(h: seq<nat>, b: nat)
    requires Tagged(h, b) && !IsFree(h, b)
    ensures 0 <= Ftrp(h, b) < |h| && h[b - 1 := SizeAt(h, b) + 1][Ftrp(h, b) := SizeAt(h, b) + 1] == h
  {
    var f := Ftrp(h, b);
    assert h[b - 1] == SizeAt(h, b) + 1 && h[f] == h[b - 1];
    SameUpdates(h, b - 1, f);
  }

  /**
    place on the carried invariant keeps every allocated block: a free
    block's tags are no allocated block's words, and on an allocated block
    the writes change nothing.
   */
  lemma PlaceFrame(n: nat, h: seq<nat>, heads: seq<nat>, blocks: seq<nat>, lists: seq<seq<nat>>, ex: set<nat>, lax: set<nat>, i: nat)
    requires i < |blocks| && Sealed(n, h, heads, blocks, lists, ex, lax) && Tagged(h, blocks[i])
    ensures var b := blocks[i];
      SizeAt(h, b) % DSIZE == 0 && SizeAt(h, b) >= DSIZE && b + SizeAt(h, b) / WSIZE - 2 < |h| &&
      KeepsAllocated(h, blocks, SetTags(h, b, SizeAt(h, b), 1), blocks)
  {
    Unseal(n, h, heads, blocks, lists, ex, lax);
    PlaceKeeps(h, blocks, i);
  }

  /** mm_free's retagging on the carried invariant keeps every other allocated block. */
  lemma FreedFrame(n: nat, h: seq<nat>, heads: seq<nat>, blocks: seq<nat>, lists: seq<seq<nat>>, i: nat)
    requires i < |blocks| && Sealed(n, h, heads, blocks, lists, {}, {})
    ensures Tagged(h, blocks[i]) && SizeAt(h, blocks[i]) % DSIZE == 0
    ensures KeepsAllocatedBut(h, blocks, blocks[i], SetTags(h, blocks[i], SizeAt(h, blocks[i]), 0), blocks)
  {
    Unseal(n, h, heads, blocks, lists, {}, {});
    FreedKeeps(h, blocks, i);
  }

  /** coalesce's two tag writes on the carried invariant keep every allocated block. */
  lemma MergeFrame(n: nat, h: seq<nat>, heads: seq<nat>, blocks: seq<nat>, lists: seq<seq<nat>>, ex: set<nat>, lax: set<nat>,
                   s: nat, cnt: nat, v: nat, e: nat, blocks2: seq<nat>, h2: seq<nat>)
    requires Sealed(n, h, heads, blocks, lists, ex, lax) && 0 < cnt <= 3 && s + cnt <= |blocks|
    requires Tagged(h, blocks[s]) && IsFree(h, blocks[s])
    requires cnt > 1 ==> Tagged(h, blocks[s + 1]) && IsFree(h, blocks[s + 1])
    requires cnt > 2 ==> Tagged(h, blocks[s + 2]) && IsFree(h, blocks[s + 2])
    requires e == NextBlkp(h, blocks[s + cnt - 1]) && blocks2 == blocks[..s] + ([blocks[s]] + blocks[s + cnt..])
    requires 1 <= blocks[s] && 2 <= e <= |h| + 1 && h2 == h[blocks[s] - 1 := v][e - 2 := v]
    ensures KeepsAllocated(h, blocks, h2, blocks2)
  {
    Unseal(n, h, heads, blocks, lists, ex, lax);
    RunTagsKeep(h, blocks, s, cnt, v);
  }

  /** extend_heap's three writes on the carried invariant keep every allocated block, and the new block joins the blocks. */
  lemma ExtendFrame(n: nat, h: seq<nat>, h1: seq<nat>, h2: seq<nat>, heads: seq<nat>, blocks: seq<nat>, lists: seq<seq<nat>>, size: nat)
    requires Sealed(n, h, heads, blocks, lists, {}, {}) && Grown(h, h1, h2, size)
    ensures KeepsAllocated(h, blocks, h2, blocks + [|h|])
  {
    Unseal(n, h, heads, blocks, lists, {}, {});
    forall p: nat | p < |h| - 1
      ensures h2[p] == h[p]
    {
      assert h1[..|h|][p] == h[p];
    }
    GrowKeeps(h, blocks, h2, |h|);
  }
}
