/**
  coalesce on values: what it reads around a freed block, each of its four
  cases as a step of the carried invariant, and the outcome it promises,
  stated over snapshots so that the method of the allocator only passes
  its state along.
 */
module Coalescing {
  import opened Layout
  import opened Heap
  import opened FreeList
  import opened Invariant
  import opened Merge
  import opened Transitions
  import opened Frame

  /**
    The unlisted free block `i` of `h` and its neighbours as coalesce finds
    them: `pf` and `nf` say whether the previous and the next block are
    free; a neighbour that exists is tagged and abuts the block.
   */
  ghost predicate Around(h: seq<nat>, blocks: seq<nat>, i: nat, pf: bool, nf: bool)
  {
    i < |blocks| && Tagged(h, blocks[i]) && IsFree(h, blocks[i]) &&
    (pf ==> i > 0) && (nf ==> i + 1 < |blocks|) &&
    (i > 0 ==> Tagged(h, blocks[i - 1]) && IsFree(h, blocks[i - 1]) == pf &&
               blocks[i - 1] + SizeAt(h, blocks[i - 1]) / WSIZE == blocks[i]) &&
    (i + 1 < |blocks| ==> Tagged(h, blocks[i + 1]) && IsFree(h, blocks[i + 1]) == nf &&
                          blocks[i] + SizeAt(h, blocks[i]) / WSIZE == blocks[i + 1])
  }

  /**
    What coalesce reads around the unlisted free block `i`: PREV_BLKP and
    NEXT_BLKP land on the neighbouring blocks, or on the prologue and the
    end of the heap, the allocated bits it reads say whether those are
    free, and a free neighbour sits in some list.
   */
  lemma CoalesceView(n: nat, h: seq<nat>, heads: seq<nat>, blocks: seq<nat>, lists: seq<seq<nat>>, i: nat)
      returns (pf: bool, nf: bool, kp: nat, kn: nat)
    requires i < |blocks| && Sealed(n + 1, h, heads, blocks, lists, {blocks[i]}, {blocks[i]}) && Tagged(h, blocks[i]) && IsFree(h, blocks[i])
    ensures |lists| == FREE_LIST_SIZE && Around(h, blocks, i, pf, nf)
    ensures i > 0 ==> blocks[i - 1] != blocks[i]
    ensures i + 1 < |blocks| ==> blocks[i + 1] != blocks[i] && (i > 0 ==> blocks[i + 1] != blocks[i - 1])
    ensures var bp := blocks[i];
      bp >= FIRST_BP && GetSize(h[bp - 2]) / WSIZE + 2 <= bp &&
      var prev := bp - GetSize(h[bp - 2]) / WSIZE;
      prev == (if i == 0 then 2 else blocks[i - 1]) &&
      prev + GetSize(h[prev - 1]) / WSIZE - 2 == bp - 2 &&
      (GetAlloc(h[bp - 2]) == 0 <==> pf)
    ensures var bp := blocks[i];
      var next := bp + GetSize(h[bp - 1]) / WSIZE;
      next == NextBlkp(h, bp) && next <= |h| &&
      next == (if i + 1 == |blocks| then |h| else blocks[i + 1]) &&
      (GetAlloc(h[next - 1]) == 0 <==> nf)
    ensures pf ==> kp < FREE_LIST_SIZE && blocks[i - 1] in lists[kp]
    ensures nf ==> kn < FREE_LIST_SIZE && blocks[i + 1] in lists[kn]
  {
    Unseal(n + 1, h, heads, blocks, lists, {blocks[i]}, {blocks[i]});
    PrevView(h, blocks, i);
    NextView(h, blocks, i);
    FreeNeighbours(h, blocks, lists, i);
    BlockBounds(h, blocks, i);
    pf := i > 0 && IsFree(h, blocks[i - 1]);
    nf := i + 1 < |blocks| && IsFree(h, blocks[i + 1]);
    kp, kn := 0, 0;
    if i > 0 {
      BlockBounds(h, blocks, i - 1);
      BlocksApart(h, blocks, i - 1, i);
      kp := FlistIndex(SizeAt(h, blocks[i - 1]));
    }
    if i + 1 < |blocks| {
      BlockBounds(h, blocks, i + 1);
      BlocksApart(h, blocks, i + 1, i);
      kn := FlistIndex(SizeAt(h, blocks[i + 1]));
      if i > 0 {
        BlocksApart(h, blocks, i + 1, i - 1);
      }
    }
  }

  /** A block still sits in its list once another block is dropped from every list. */
  lemma StillListed(lists: seq<seq<nat>>, k: nat, x: nat, y: nat) returns (j: nat)
    requires k < |lists| && x in lists[k] && x != y
    ensures j < |Drop(lists, y)[k]| && Drop(lists, y)[k][j] == x
  {
    EraseKeeps(lists[k], x, y);
    var l := Drop(lists, y)[k];
    j :| 0 <= j < |l| && l[j] == x;
  }

  /**
    What coalesce has done to the unlisted free block `i` of `h` before it
    lists the result: the block and its free neighbours are one free block
    `r` of their summed size, ending where the last of them ended, and the
    neighbours are off the lists.
   */
  ghost predicate Merged(h: seq<nat>, blocks: seq<nat>, lists: seq<seq<nat>>, i: nat, r: nat,
                         h2: seq<nat>, blocks2: seq<nat>, lists2: seq<seq<nat>>)
  {
    Tiling(h, blocks) && i < |blocks| && |lists| == FREE_LIST_SIZE &&
    r == blocks[MergeFirst(h, blocks, i)] && blocks2 == MergedBlocks(h, blocks, i) &&
    |h2| == |h| && Tagged(h2, r) && IsFree(h2, r) && SizeAt(h2, r) == MergedSize(h, blocks, i) &&
    NextBlkp(h2, r) == MergedEnd(h, blocks, i) && lists2 == DropMerged(h, blocks, lists, i)
  }

  /**
    What coalesce leaves of the unlisted free block `i` of `h`: it is merged
    with its free neighbours into the block `r`, whose size is the sum of
    theirs, which ends where the last of them ended, and which heads the
    list of its class once the neighbours are off the lists. Every
    allocated block keeps all its words.
   */
  ghost predicate Coalesced(h: seq<nat>, blocks: seq<nat>, lists: seq<seq<nat>>, i: nat, r: nat,
                            h2: seq<nat>, blocks2: seq<nat>, lists2: seq<seq<nat>>)
  {
    Tiling(h, blocks) && i < |blocks| && |lists| == FREE_LIST_SIZE &&
    var size := MergedSize(h, blocks, i);
    var rest := DropMerged(h, blocks, lists, i);
    var c := FlistIndex(size);
    r == blocks[MergeFirst(h, blocks, i)] && blocks2 == MergedBlocks(h, blocks, i) &&
    |h2| == |h| && Tagged(h2, r) && IsFree(h2, r) && SizeAt(h2, r) == size && NextBlkp(h2, r) == MergedEnd(h, blocks, i) &&
    |rest| == FREE_LIST_SIZE && lists2 == rest[c := [r] + rest[c]] &&
    KeepsAllocated(h, blocks, h2, blocks2)
  }

  /** Listing the merged block at the head of its class completes coalesce. */
  lemma CoalescedByInsert(h: seq<nat>, blocks: seq<nat>, lists: seq<seq<nat>>, i: nat, r: nat,
                          h1: seq<nat>, blocks1: seq<nat>, lists1: seq<seq<nat>>, h2: seq<nat>, lists2: seq<seq<nat>>)
    requires Merged(h, blocks, lists, i, r, h1, blocks1, lists1)
    requires |h2| == |h1| && Kept(h1, h2, r) && |lists1| == FREE_LIST_SIZE
    requires var k := FlistIndex(SizeAt(h1, r)); lists2 == lists1[k := [r] + lists1[k]]
    requires KeepsAllocated(h, blocks, h1, blocks1) && KeepsAllocated(h1, blocks1, h2, blocks1)
    ensures Coalesced(h, blocks, lists, i, r, h2, blocks1, lists2)
  {
    KeepsTrans(h, blocks, 0, h1, blocks1, h2, blocks1);
  }

  /** A step that keeps every allocated block, followed by coalesce, keeps them all. */
  lemma CoalescedAfter(h0: seq<nat>, b0: seq<nat>, h: seq<nat>, blocks: seq<nat>, lists: seq<seq<nat>>, i: nat, r: nat,
                       h2: seq<nat>, blocks2: seq<nat>, lists2: seq<seq<nat>>, x: nat)
    requires KeepsAllocatedBut(h0, b0, x, h, blocks) && Coalesced(h, blocks, lists, i, r, h2, blocks2, lists2)
    ensures KeepsAllocatedBut(h0, b0, x, h2, blocks2)
  {
    KeepsTrans(h0, b0, x, h, blocks, h2, blocks2);
  }

  /** Case 1 as a merge: a block between allocated ones is a run of one. */
  lemma AloneMerged(n: nat, h: seq<nat>, heads: seq<nat>, blocks: seq<nat>, lists: seq<seq<nat>>, ex: set<nat>, lax: set<nat>, i: nat)
    requires Sealed(n + 1, h, heads, blocks, lists, ex, lax) && |lists| == FREE_LIST_SIZE && i < |blocks|
    requires Tagged(h, blocks[i]) && IsFree(h, blocks[i])
    requires i > 0 ==> Tagged(h, blocks[i - 1]) && !IsFree(h, blocks[i - 1])
    requires i + 1 < |blocks| ==> Tagged(h, blocks[i + 1]) && !IsFree(h, blocks[i + 1])
    ensures Merged(h, blocks, lists, i, blocks[i], h, blocks, lists)
  {
    SealedTiling(n + 1, h, heads, blocks, lists, ex, lax);
    assert MergeFirst(h, blocks, i) == i && MergeCount(h, blocks, i) == 1;
    SpliceSame(blocks, i);
    assert MergedBlocks(h, blocks, i) == blocks;
  }

  /** Case 2 as a merge: the run of the block and the next one. */
  lemma NextMerged(n: nat, h: seq<nat>, heads: seq<nat>, blocks: seq<nat>, lists: seq<seq<nat>>, ex: set<nat>, lax: set<nat>,
                   i: nat, h2: seq<nat>, blocks2: seq<nat>)
    requires Sealed(n + 1, h, heads, blocks, lists, ex, lax) && |lists| == FREE_LIST_SIZE && i + 1 < |blocks|
    requires Tagged(h, blocks[i]) && Tagged(h, blocks[i + 1]) && IsFree(h, blocks[i + 1])
    requires i > 0 ==> Tagged(h, blocks[i - 1]) && !IsFree(h, blocks[i - 1])
    requires blocks2 == blocks[..i] + ([blocks[i]] + blocks[i + 2..])
    requires |h2| == |h| && Tagged(h2, blocks[i]) && IsFree(h2, blocks[i])
    requires SizeAt(h2, blocks[i]) == SizeAt(h, blocks[i]) + SizeAt(h, blocks[i + 1])
    requires NextBlkp(h2, blocks[i]) == NextBlkp(h, blocks[i + 1])
    ensures Merged(h, blocks, lists, i, blocks[i], h2, blocks2, Drop(lists, blocks[i + 1]))
  {
    SealedTiling(n + 1, h, heads, blocks, lists, ex, lax);
  }

  /** Case 3 as a merge: the run of the previous block and the block. */
  lemma PrevMerged(n: nat, h: seq<nat>, heads: seq<nat>, blocks: seq<nat>, lists: seq<seq<nat>>, ex: set<nat>, lax: set<nat>,
                   i: nat, h2: seq<nat>, blocks2: seq<nat>)
    requires Sealed(n + 1, h, heads, blocks, lists, ex, lax) && |lists| == FREE_LIST_SIZE && 0 < i < |blocks|
    requires Tagged(h, blocks[i]) && Tagged(h, blocks[i - 1]) && IsFree(h, blocks[i - 1])
    requires i + 1 < |blocks| ==> Tagged(h, blocks[i + 1]) && !IsFree(h, blocks[i + 1])
    requires blocks2 == blocks[..i - 1] + ([blocks[i - 1]] + blocks[i + 1..])
    requires |h2| == |h| && Tagged(h2, blocks[i - 1]) && IsFree(h2, blocks[i - 1])
    requires SizeAt(h2, blocks[i - 1]) == SizeAt(h, blocks[i - 1]) + SizeAt(h, blocks[i])
    requires NextBlkp(h2, blocks[i - 1]) == NextBlkp(h, blocks[i])
    ensures Merged(h, blocks, lists, i, blocks[i - 1], h2, blocks2, Drop(lists, blocks[i - 1]))
  {
    SealedTiling(n + 1, h, heads, blocks, lists, ex, lax);
  }

  /** Case 4 as a merge: the run of all three blocks. */
  lemma BothMerged(n: nat, h: seq<nat>, heads: seq<nat>, blocks: seq<nat>, lists: seq<seq<nat>>, ex: set<nat>, lax: set<nat>,
                   i: nat, h2: seq<nat>, blocks2: seq<nat>)
    requires Sealed(n + 1, h, heads, blocks, lists, ex, lax) && |lists| == FREE_LIST_SIZE && 0 < i && i + 1 < |blocks|
    requires Tagged(h, blocks[i]) && Tagged(h, blocks[i - 1]) && IsFree(h, blocks[i - 1])
    requires Tagged(h, blocks[i + 1]) && IsFree(h, blocks[i + 1])
    requires blocks2 == blocks[..i - 1] + ([blocks[i - 1]] + blocks[i + 2..])
    requires |h2| == |h| && Tagged(h2, blocks[i - 1]) && IsFree(h2, blocks[i - 1])
    requires SizeAt(h2, blocks[i - 1]) == SizeAt(h, blocks[i - 1]) + SizeAt(h, blocks[i]) + SizeAt(h, blocks[i + 1])
    requires NextBlkp(h2, blocks[i - 1]) == NextBlkp(h, blocks[i + 1])
    ensures Merged(h, blocks, lists, i, blocks[i - 1], h2, blocks2, Drop(Drop(lists, blocks[i - 1]), blocks[i + 1]))
  {
    SealedTiling(n + 1, h, heads, blocks, lists, ex, lax);
  }

  /** The carried invariant includes the tiling of the heap by its blocks. */
  lemma SealedTiling(n: nat, h: seq<nat>, heads: seq<nat>, blocks: seq<nat>, lists: seq<seq<nat>>, ex: set<nat>, lax: set<nat>)
    requires Sealed(n + 1, h, heads, blocks, lists, ex, lax)
    ensures Tiling(h, blocks)
  {
    Unseal(n + 1, h, heads, blocks, lists, ex, lax);
  }

  /** Case 1 of coalesce: both neighbours allocated, the block stays as it is. */
  lemma MergeAlone(n: nat, h: seq<nat>, heads: seq<nat>, blocks: seq<nat>, lists: seq<seq<nat>>, i: nat)
    requires Around(h, blocks, i, false, false) && SizeAt(h, blocks[i]) >= MIN_BLOCK_SIZE
    requires Sealed(n + 1, h, heads, blocks, lists, {blocks[i]}, {blocks[i]}) && |lists| == FREE_LIST_SIZE
    ensures Sealed(n + 1, h, heads, blocks, lists, {blocks[i]}, {})
    ensures Merged(h, blocks, lists, i, blocks[i], h, blocks, lists)
  {
    AloneSealed(n + 1, h, heads, blocks, lists, i);
    AloneMerged(n + 1, h, heads, blocks, lists, {blocks[i]}, {blocks[i]}, i);
  }

  /** A block of at least the minimum size between allocated neighbours needs no exemption from the size and pairing rules. */
  lemma AloneSealed(n: nat, h: seq<nat>, heads: seq<nat>, blocks: seq<nat>, lists: seq<seq<nat>>, i: nat)
    requires i < |blocks| && Sealed(n + 1, h, heads, blocks, lists, {blocks[i]}, {blocks[i]})
    requires Tagged(h, blocks[i]) && SizeAt(h, blocks[i]) >= MIN_BLOCK_SIZE
    requires i > 0 ==> Tagged(h, blocks[i - 1]) && !IsFree(h, blocks[i - 1])
    requires i + 1 < |blocks| ==> Tagged(h, blocks[i + 1]) && !IsFree(h, blocks[i + 1])
    ensures Sealed(n + 1, h, heads, blocks, lists, {blocks[i]}, {})
  {
    var b := blocks[i];
    Unseal(n + 1, h, heads, blocks, lists, {b}, {b});
    forall t | 0 <= t < |blocks|
      ensures SizeAt(h, blocks[t]) >= MIN_BLOCK_SIZE
    {
      if t != i {
        BlocksApart(h, blocks, t, i);
      }
    }
    forall t, u | 0 <= t && u == t + 1 && u < |blocks|
      ensures !(IsFree(h, blocks[t]) && IsFree(h, blocks[u]))
    {
      if t != i {
        BlocksApart(h, blocks, t, i);
      }
      if u != i {
        BlocksApart(h, blocks, u, i);
      }
    }
    Seal(n + 1, h, heads, blocks, lists, {b}, {});
  }

  /** Case 2: the next block is free; it leaves its list and joins the block. */
  lemma MergeNext(n: nat, h: seq<nat>, heads: seq<nat>, blocks: seq<nat>, lists: seq<seq<nat>>, i: nat, k: nat, j: nat,
                  h1: seq<nat>, heads1: seq<nat>, lists1: seq<seq<nat>>) returns (size: nat, blocks2: seq<nat>, h2: seq<nat>)
    requires Around(h, blocks, i, false, true)
    requires Sealed(n + 1, h, heads, blocks, lists, {blocks[i]}, {blocks[i]}) && |lists| == FREE_LIST_SIZE
    requires k < FREE_LIST_SIZE && j < |lists[k]| && lists[k][j] == blocks[i + 1]
    requires Unlinked(h, lists, blocks[i + 1], h1, lists1)
    requires Sealed(n + 1, h1, heads1, blocks, lists1, {blocks[i]} + {blocks[i + 1]}, {blocks[i]})
    ensures var b, nb := blocks[i], blocks[i + 1];
      Tagged(h1, b) && Tagged(h1, nb) && SizeAt(h1, b) == SizeAt(h, b) && size == SizeAt(h1, b) + SizeAt(h1, nb) &&
      size % DSIZE == 0 && size >= MIN_BLOCK_SIZE && b >= 1 && b + size / WSIZE - 2 < |h1| &&
      h2 == SetTags(h1, b, size, 0)
    ensures i < |blocks2| && blocks2[i] == blocks[i] && Sealed(n + 1, h2, heads1, blocks2, lists1, {blocks[i]}, {})
    ensures Merged(h, blocks, lists, i, blocks[i], h2, blocks2, lists1)
    ensures KeepsAllocated(h1, blocks, h2, blocks2)
  {
    var b, nb := blocks[i], blocks[i + 1];
    AroundKept(n, h, heads, blocks, lists, i, k, j, h1, lists1);
    assert {b} + {nb} == {blocks[i], blocks[i + 1]};
    var e;
    size, e, blocks2, h2 := MergeSealed(n + 1, h1, heads1, blocks, lists1, {b} + {nb}, i, i, 2);
    MergeFrame(n + 1, h1, heads1, blocks, lists1, {b} + {nb}, {b}, i, 2, size, e, blocks2, h2);
    NextMerged(n + 1, h, heads, blocks, lists, {b}, {b}, i, h2, blocks2);
  }

  /**
    Taking list entry `j` of class `k` off its list keeps the tags of block
    `i` and of its neighbours, and the removal is the unlinking of that entry.
   */
  lemma AroundKept(n: nat, h: seq<nat>, heads: seq<nat>, blocks: seq<nat>, lists: seq<seq<nat>>, i: nat, k: nat, j: nat,
                   h1: seq<nat>, lists1: seq<seq<nat>>)
    requires i < |blocks| && Sealed(n + 1, h, heads, blocks, lists, {blocks[i]}, {blocks[i]}) && |lists| == FREE_LIST_SIZE
    requires k < FREE_LIST_SIZE && j < |lists[k]| && Unlinked(h, lists, lists[k][j], h1, lists1)
    ensures var bp := lists[k][j];
      bp + 1 < |h| && (h[bp] != 0 ==> h[bp] + 1 < |h|) && h[bp + 1] < |h| &&
      h1 == Unlink(h, h[bp], h[bp + 1]) && lists1 == Drop(lists, bp) && |h1| == |h|
    ensures Kept(h, h1, blocks[i])
    ensures i > 0 ==> Kept(h, h1, blocks[i - 1])
    ensures i + 1 < |blocks| ==> Kept(h, h1, blocks[i + 1])
  {
    OpenUnlinked(|h| + 2, h, lists, lists[k][j], h1, lists1);
    RemoveKeeps(n + 1, h, heads, blocks, lists, {blocks[i]}, {blocks[i]}, k, j, i);
    if i > 0 {
      RemoveKeeps(n + 1, h, heads, blocks, lists, {blocks[i]}, {blocks[i]}, k, j, i - 1);
    }
    if i + 1 < |blocks| {
      RemoveKeeps(n + 1, h, heads, blocks, lists, {blocks[i]}, {blocks[i]}, k, j, i + 1);
    }
  }

  /** Before case 2 writes anything: the two blocks and their total size. */
  lemma NextRow(n: nat, h: seq<nat>, heads: seq<nat>, blocks: seq<nat>, lists: seq<seq<nat>>, i: nat, k: nat, j: nat,
                h1: seq<nat>, heads1: seq<nat>, lists1: seq<seq<nat>>) returns (size: nat)
    requires Around(h, blocks, i, false, true)
    requires Sealed(n + 1, h, heads, blocks, lists, {blocks[i]}, {blocks[i]}) && |lists| == FREE_LIST_SIZE
    requires k < FREE_LIST_SIZE && j < |lists[k]| && lists[k][j] == blocks[i + 1]
    requires Unlinked(h, lists, blocks[i + 1], h1, lists1)
    requires Sealed(n + 1, h1, heads1, blocks, lists1, {blocks[i]} + {blocks[i + 1]}, {blocks[i]})
    ensures var b, nb := blocks[i], blocks[i + 1];
      Tagged(h1, b) && Tagged(h1, nb) && SizeAt(h1, b) == SizeAt(h, b) &&
      size == SizeAt(h1, b) + SizeAt(h1, nb) && size % DSIZE == 0 && size >= MIN_BLOCK_SIZE &&
      b >= 1 && b + size / WSIZE - 2 < |h1|
  {
    var b2, h2;
    size, b2, h2 := MergeNext(n, h, heads, blocks, lists, i, k, j, h1, heads1, lists1);
  }

  /**
    Case 3: the previous block is free; it leaves its list and grows over
    the block.
   */
  lemma MergePrev(n: nat, h: seq<nat>, heads: seq<nat>, blocks: seq<nat>, lists: seq<seq<nat>>, i: nat, k: nat, j: nat,
                  h1: seq<nat>, heads1: seq<nat>, lists1: seq<seq<nat>>) returns (size: nat, blocks2: seq<nat>, h2: seq<nat>)
    requires Around(h, blocks, i, true, false)
    requires Sealed(n + 1, h, heads, blocks, lists, {blocks[i]}, {blocks[i]}) && |lists| == FREE_LIST_SIZE
    requires k < FREE_LIST_SIZE && j < |lists[k]| && lists[k][j] == blocks[i - 1]
    requires Unlinked(h, lists, blocks[i - 1], h1, lists1)
    requires Sealed(n + 1, h1, heads1, blocks, lists1, {blocks[i]} + {blocks[i - 1]}, {blocks[i]})
    ensures var b, p := blocks[i], blocks[i - 1];
      Tagged(h1, p) && Tagged(h1, b) && p + SizeAt(h1, p) / WSIZE == b && SizeAt(h1, b) == SizeAt(h, b) &&
      size == SizeAt(h1, p) + SizeAt(h1, b) && size % DSIZE == 0 &&
      h2 == h1[p - 1 := size][NextBlkp(h1, b) - 2 := size]
    ensures i - 1 < |blocks2| && blocks2[i - 1] == blocks[i - 1] && Sealed(n + 1, h2, heads1, blocks2, lists1, {blocks[i - 1]}, {})
    ensures Merged(h, blocks, lists, i, blocks[i - 1], h2, blocks2, lists1)
    ensures KeepsAllocated(h1, blocks, h2, blocks2)
  {
    var b, p := blocks[i], blocks[i - 1];
    AroundKept(n, h, heads, blocks, lists, i, k, j, h1, lists1);
    assert {b} + {p} == {blocks[i - 1], blocks[i]};
    var e;
    size, e, blocks2, h2 := MergeSealed(n + 1, h1, heads1, blocks, lists1, {b} + {p}, i, i - 1, 2);
    MergeFrame(n + 1, h1, heads1, blocks, lists1, {b} + {p}, {b}, i - 1, 2, size, e, blocks2, h2);
    PrevMerged(n + 1, h, heads, blocks, lists, {b}, {b}, i, h2, blocks2);
  }

  /** Before case 3 writes anything: the two blocks and their total size. */
  lemma PrevRow(n: nat, h: seq<nat>, heads: seq<nat>, blocks: seq<nat>, lists: seq<seq<nat>>, i: nat, k: nat, j: nat,
                h1: seq<nat>, heads1: seq<nat>, lists1: seq<seq<nat>>) returns (size: nat)
    requires Around(h, blocks, i, true, false)
    requires Sealed(n + 1, h, heads, blocks, lists, {blocks[i]}, {blocks[i]}) && |lists| == FREE_LIST_SIZE
    requires k < FREE_LIST_SIZE && j < |lists[k]| && lists[k][j] == blocks[i - 1]
    requires Unlinked(h, lists, blocks[i - 1], h1, lists1)
    requires Sealed(n + 1, h1, heads1, blocks, lists1, {blocks[i]} + {blocks[i - 1]}, {blocks[i]})
    ensures var b, p := blocks[i], blocks[i - 1];
      Tagged(h1, p) && Tagged(h1, b) && p + SizeAt(h1, p) / WSIZE == b && SizeAt(h1, b) == SizeAt(h, b) &&
      size == SizeAt(h1, p) + SizeAt(h1, b) && size % DSIZE == 0
  {
    var b2, h2;
    size, b2, h2 := MergePrev(n, h, heads, blocks, lists, i, k, j, h1, heads1, lists1);
  }

  /**
    The order in which coalesce writes the tags when the previous block
    absorbs this one: the footer of this block first, then the header of
    the previous one, found again through the new footer word before it.
   */
  lemma PrevWrites(h: seq<nat>, p: nat, b: nat, size: nat) returns (h2: seq<nat>)
    requires Tagged(h, p) && Tagged(h, b) && p + SizeAt(h, p) / WSIZE == b
    requires size == SizeAt(h, p) + SizeAt(h, b) && size % DSIZE == 0
    ensures Pack(size, 0) == size && 2 <= b <= |h| && 1 <= p && 0 <= Ftrp(h, b) < |h|
    ensures PrevBlkp(h[Ftrp(h, b) := size], b) == p
    ensures h2 == h[Ftrp(h, b) := size][p - 1 := size] && PrevBlkp(h2, b) == p
    ensures h2 == h[p - 1 := size][NextBlkp(h, b) - 2 := size]
  {
    PackRoundTrip(size, 0);
    var f := Ftrp(h, b);
    assert h[f := size][b - 2] == h[b - 2];
    h2 := h[f := size][p - 1 := size];
    assert h2[b - 2] == h[b - 2];
  }

  /** Three tagged blocks in a row whose sizes add up to `size`, a multiple of the alignment. */
  ghost predicate InRow(h: seq<nat>, p: nat, b: nat, nb: nat, size: nat)
  {
    Tagged(h, p) && Tagged(h, b) && Tagged(h, nb) &&
    p + SizeAt(h, p) / WSIZE == b && b + SizeAt(h, b) / WSIZE == nb &&
    size == SizeAt(h, p) + SizeAt(h, b) + SizeAt(h, nb) && size % DSIZE == 0
  }

  /** Both removals of case 4 leave the three blocks with their tags. */
  lemma BothKept(n: nat, h: seq<nat>, heads: seq<nat>, blocks: seq<nat>, lists: seq<seq<nat>>, i: nat, kp: nat, jp: nat,
                 h1: seq<nat>, heads1: seq<nat>, lists1: seq<seq<nat>>, kn: nat, jn: nat,
                 h2: seq<nat>, lists2: seq<seq<nat>>)
    requires 0 < i && i + 1 < |blocks|
    requires Sealed(n + 1, h, heads, blocks, lists, {blocks[i]}, {blocks[i]}) && |lists| == FREE_LIST_SIZE
    requires kp < FREE_LIST_SIZE && jp < |lists[kp]| && lists[kp][jp] == blocks[i - 1]
    requires Unlinked(h, lists, blocks[i - 1], h1, lists1)
    requires Sealed(n + 1, h1, heads1, blocks, lists1, {blocks[i]} + {blocks[i - 1]}, {blocks[i]})
    requires |lists1| == FREE_LIST_SIZE && kn < FREE_LIST_SIZE && jn < |lists1[kn]| && lists1[kn][jn] == blocks[i + 1]
    requires Unlinked(h1, lists1, blocks[i + 1], h2, lists2)
    ensures |h2| == |h| && lists2 == Drop(Drop(lists, blocks[i - 1]), blocks[i + 1])
    ensures Kept(h, h2, blocks[i - 1]) && Kept(h, h2, blocks[i]) && Kept(h, h2, blocks[i + 1])
  {
    var b, p, nb := blocks[i], blocks[i - 1], blocks[i + 1];
    OpenUnlinked(|h| + 2, h, lists, p, h1, lists1);
    OpenUnlinked(|h1| + 2, h1, lists1, nb, h2, lists2);
    RemoveKeeps(n + 1, h, heads, blocks, lists, {b}, {b}, kp, jp, i - 1);
    RemoveKeeps(n + 1, h, heads, blocks, lists, {b}, {b}, kp, jp, i);
    RemoveKeeps(n + 1, h, heads, blocks, lists, {b}, {b}, kp, jp, i + 1);
    RemoveKeeps(n + 1, h1, heads1, blocks, lists1, {b} + {p}, {b}, kn, jn, i - 1);
    RemoveKeeps(n + 1, h1, heads1, blocks, lists1, {b} + {p}, {b}, kn, jn, i);
    RemoveKeeps(n + 1, h1, heads1, blocks, lists1, {b} + {p}, {b}, kn, jn, i + 1);
  }

  /**
    Case 4: both neighbours are free; both leave their lists and the
    previous block grows over all three.
   */
  lemma MergeBoth(n: nat, h: seq<nat>, heads: seq<nat>, blocks: seq<nat>, lists: seq<seq<nat>>, i: nat, kp: nat, jp: nat,
                  h1: seq<nat>, heads1: seq<nat>, lists1: seq<seq<nat>>, kn: nat, jn: nat,
                  h2: seq<nat>, heads2: seq<nat>, lists2: seq<seq<nat>>) returns (size: nat, blocks2: seq<nat>, h3: seq<nat>)
    requires Around(h, blocks, i, true, true)
    requires Sealed(n + 1, h, heads, blocks, lists, {blocks[i]}, {blocks[i]}) && |lists| == FREE_LIST_SIZE
    requires kp < FREE_LIST_SIZE && jp < |lists[kp]| && lists[kp][jp] == blocks[i - 1]
    requires Unlinked(h, lists, blocks[i - 1], h1, lists1)
    requires Sealed(n + 1, h1, heads1, blocks, lists1, {blocks[i]} + {blocks[i - 1]}, {blocks[i]})
    requires |lists1| == FREE_LIST_SIZE && kn < FREE_LIST_SIZE && jn < |lists1[kn]| && lists1[kn][jn] == blocks[i + 1]
    requires Unlinked(h1, lists1, blocks[i + 1], h2, lists2)
    requires Sealed(n + 1, h2, heads2, blocks, lists2, {blocks[i]} + {blocks[i - 1]} + {blocks[i + 1]}, {blocks[i]})
    ensures InRow(h2, blocks[i - 1], blocks[i], blocks[i + 1], size) && SizeAt(h2, blocks[i]) == SizeAt(h, blocks[i])
    ensures h3 == h2[blocks[i - 1] - 1 := size][NextBlkp(h2, blocks[i + 1]) - 2 := size]
    ensures i - 1 < |blocks2| && blocks2[i - 1] == blocks[i - 1] && Sealed(n + 1, h3, heads2, blocks2, lists2, {blocks[i - 1]}, {})
    ensures Merged(h, blocks, lists, i, blocks[i - 1], h3, blocks2, lists2)
    ensures KeepsAllocated(h2, blocks, h3, blocks2)
  {
    var b, p, nb := blocks[i], blocks[i - 1], blocks[i + 1];
    BothKept(n, h, heads, blocks, lists, i, kp, jp, h1, heads1, lists1, kn, jn, h2, lists2);
    assert {b} + {p} + {nb} == {blocks[i - 1], blocks[i], blocks[i + 1]};
    var e;
    size, e, blocks2, h3 := MergeSealed(n + 1, h2, heads2, blocks, lists2, {b} + {p} + {nb}, i, i - 1, 3);
    MergeFrame(n + 1, h2, heads2, blocks, lists2, {b} + {p} + {nb}, {b}, i - 1, 3, size, e, blocks2, h3);
    BothMerged(n + 1, h, heads, blocks, lists, {b}, {b}, i, h3, blocks2);
  }

  /** Before case 4 writes anything: the three blocks and their total size. */
  lemma BothRow(n: nat, h: seq<nat>, heads: seq<nat>, blocks: seq<nat>, lists: seq<seq<nat>>, i: nat, kp: nat, jp: nat,
                h1: seq<nat>, heads1: seq<nat>, lists1: seq<seq<nat>>, kn: nat, jn: nat,
                h2: seq<nat>, heads2: seq<nat>, lists2: seq<seq<nat>>) returns (size: nat)
    requires Around(h, blocks, i, true, true)
    requires Sealed(n + 1, h, heads, blocks, lists, {blocks[i]}, {blocks[i]}) && |lists| == FREE_LIST_SIZE
    requires kp < FREE_LIST_SIZE && jp < |lists[kp]| && lists[kp][jp] == blocks[i - 1]
    requires Unlinked(h, lists, blocks[i - 1], h1, lists1)
    requires Sealed(n + 1, h1, heads1, blocks, lists1, {blocks[i]} + {blocks[i - 1]}, {blocks[i]})
    requires |lists1| == FREE_LIST_SIZE && kn < FREE_LIST_SIZE && jn < |lists1[kn]| && lists1[kn][jn] == blocks[i + 1]
    requires Unlinked(h1, lists1, blocks[i + 1], h2, lists2)
    requires Sealed(n + 1, h2, heads2, blocks, lists2, {blocks[i]} + {blocks[i - 1]} + {blocks[i + 1]}, {blocks[i]})
    ensures InRow(h2, blocks[i - 1], blocks[i], blocks[i + 1], size) && SizeAt(h2, blocks[i]) == SizeAt(h, blocks[i])
  {
    var b2, h3;
    size, b2, h3 := MergeBoth(n, h, heads, blocks, lists, i, kp, jp, h1, heads1, lists1, kn, jn, h2, heads2, lists2);
  }

  /** After case 4's two writes, which leave `hf`: the merged block and the invariant. */
  lemma BothDone(n: nat, h: seq<nat>, heads: seq<nat>, blocks: seq<nat>, lists: seq<seq<nat>>, i: nat, kp: nat, jp: nat,
                 h1: seq<nat>, heads1: seq<nat>, lists1: seq<seq<nat>>, kn: nat, jn: nat,
                 h2: seq<nat>, heads2: seq<nat>, lists2: seq<seq<nat>>, size: nat, hf: seq<nat>) returns (blocks2: seq<nat>)
    requires Around(h, blocks, i, true, true)
    requires Sealed(n + 1, h, heads, blocks, lists, {blocks[i]}, {blocks[i]}) && |lists| == FREE_LIST_SIZE
    requires kp < FREE_LIST_SIZE && jp < |lists[kp]| && lists[kp][jp] == blocks[i - 1]
    requires Unlinked(h, lists, blocks[i - 1], h1, lists1)
    requires Sealed(n + 1, h1, heads1, blocks, lists1, {blocks[i]} + {blocks[i - 1]}, {blocks[i]})
    requires |lists1| == FREE_LIST_SIZE && kn < FREE_LIST_SIZE && jn < |lists1[kn]| && lists1[kn][jn] == blocks[i + 1]
    requires Unlinked(h1, lists1, blocks[i + 1], h2, lists2)
    requires Sealed(n + 1, h2, heads2, blocks, lists2, {blocks[i]} + {blocks[i - 1]} + {blocks[i + 1]}, {blocks[i]})
    requires InRow(h2, blocks[i - 1], blocks[i], blocks[i + 1], size)
    requires 1 <= blocks[i - 1] && 2 <= NextBlkp(h2, blocks[i + 1]) <= |h2| + 1
    requires hf == h2[blocks[i - 1] - 1 := size][NextBlkp(h2, blocks[i + 1]) - 2 := size]
    ensures i - 1 < |blocks2| && blocks2[i - 1] == blocks[i - 1] && Sealed(n + 1, hf, heads2, blocks2, lists2, {blocks[i - 1]}, {})
    ensures Merged(h, blocks, lists, i, blocks[i - 1], hf, blocks2, lists2)
    ensures KeepsAllocated(h2, blocks, hf, blocks2)
  {
    var size2, h3;
    size2, blocks2, h3 := MergeBoth(n, h, heads, blocks, lists, i, kp, jp, h1, heads1, lists1, kn, jn, h2, heads2, lists2);
  }

  /**
    The order in which coalesce writes the tags when the previous block
    absorbs this one and the next: the header of the previous block first,
    then the footer of the next one, found through the new header.
   */
  lemma BothWrites(h: seq<nat>, p: nat, b: nat, nb: nat, size: nat) returns (h3: seq<nat>)
    requires InRow(h, p, b, nb, size)
    ensures Pack(size, 0) == size && 2 <= b <= |h| && 1 <= p && 1 <= nb <= |h|
    ensures 0 <= Ftrp(h, nb) < |h| && GetSize(h[Ftrp(h, nb)]) == SizeAt(h, nb) && PrevBlkp(h, b) == p
    ensures NextBlkp(h[p - 1 := size], b) == nb && 0 <= Ftrp(h[p - 1 := size], nb) < |h|
    ensures h3 == h[p - 1 := size][Ftrp(h[p - 1 := size], nb) := size] && PrevBlkp(h3, b) == p
    ensures h3 == h[p - 1 := size][NextBlkp(h, nb) - 2 := size]
  {
    PackRoundTrip(size, 0);
    var h1 := h[p - 1 := size];
    assert h1[b - 1] == h[b - 1] && h1[nb - 1] == h[nb - 1];
    h3 := h1[Ftrp(h1, nb) := size];
    assert h3[b - 2] == h[b - 2];
  }
}
