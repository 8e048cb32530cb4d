/**
  mm_malloc's two ways to a block, on values: the block find_fit hands
  over, and the block extend_heap and coalesce make when find_fit comes
  back empty, grown by what get_extend_size asks for.
 */
module Growth {
  import opened Layout
  import opened Heap
  import opened Invariant
  import opened Steps
  import opened Policy
  import opened Merge
  import opened Transitions
  import opened Coalescing
  import opened Frame

  /** extend_heap's byte count: `words` rounded up to an even number of words, so that the heap stays 16-byte aligned. */
  function ExtendBytes(words: nat): (size: nat)
    ensures size % DSIZE == 0 && words * WSIZE <= size < words * WSIZE + DSIZE
  {
    if words % 2 == 1 then (words + 1) * WSIZE else words * WSIZE
  }

  /** A multiple of 16 bytes is an even number of words, and extend_heap grows by exactly that much. */
  lemma ExtendBytesExact(e: nat)
    requires e % DSIZE == 0
    ensures ExtendBytes(e / WSIZE) == e
  {
    assert e == DSIZE * (e / DSIZE) && e / WSIZE == 2 * (e / DSIZE);
  }

  /**
    After the handle_split_block of a block of at least `asize` bytes, the
    block keeps its place among the blocks and at least `asize` bytes:
    exactly `asize` when it was cut, its old size otherwise.
   */
  lemma SplitKeepsPlace(h: seq<nat>, blocks: seq<nat>, lists: seq<seq<nat>>, split: bool, bp: nat, i: nat, asize: nat,
                        h2: seq<nat>, blocks2: seq<nat>, lists2: seq<seq<nat>>)
    requires SplitOutcome(h, blocks, lists, split, bp, i, asize, h2, blocks2, lists2) && SizeAt(h, bp) >= asize
    ensures i < |blocks2| && blocks2[i] == bp && Tagged(h2, bp) && IsFree(h2, bp) && SizeAt(h2, bp) >= asize
    ensures SizeAt(h2, bp) == if split && SizeAt(h, bp) >= asize + MIN_BLOCK_SIZE then asize else SizeAt(h, bp)
  {
    if split && SizeAt(h, bp) >= asize + MIN_BLOCK_SIZE {
      assert blocks2[i] == ([bp, bp + asize / WSIZE] + blocks[i + 1..])[0];
    }
  }

  /**
    What find_fit leaves: when some class from the request's own up lists a
    block of at least `asize` bytes, the first such block of the first such
    class, passed through handle_split_block; otherwise NULL, with nothing
    changed.
   */
  ghost predicate FitOutcome(h: seq<nat>, blocks: seq<nat>, lists: seq<seq<nat>>, split: bool, asize: nat, bp: nat, i: nat,
                             h2: seq<nat>, blocks2: seq<nat>, lists2: seq<seq<nat>>)
  {
    ListsInHeap(h, lists) &&
    var c := FitClass(h, lists, asize, FlistIndex(asize));
    if c < FREE_LIST_SIZE then
      var l := lists[c];
      bp == l[FirstFit(h, l, asize)] && SplitOutcome(h, blocks, lists, split, bp, i, asize, h2, blocks2, lists2)
    else
      bp == 0 && h2 == h && blocks2 == blocks && lists2 == lists
  }

  /**
    find_fit returns NULL exactly when no class has a fit; otherwise its
    block is a listed free block of at least `asize` bytes, and what
    handle_split_block leaves of it is block `i` with at least `asize` bytes.
   */
  lemma FitView(n: nat, h: seq<nat>, heads: seq<nat>, blocks: seq<nat>, lists: seq<seq<nat>>, asize: nat,
                split: bool, bp: nat, i: nat, h2: seq<nat>, blocks2: seq<nat>, lists2: seq<seq<nat>>)
    requires Sealed(n, h, heads, blocks, lists, {}, {})
    requires FitOutcome(h, blocks, lists, split, asize, bp, i, h2, blocks2, lists2)
    ensures ListsInHeap(h, lists)
    ensures bp == 0 <==> FitClass(h, lists, asize, FlistIndex(asize)) == FREE_LIST_SIZE
    ensures bp == 0 ==> h2 == h && blocks2 == blocks && lists2 == lists
    ensures bp != 0 ==> i < |blocks2| && blocks2[i] == bp && Tagged(h2, bp) && IsFree(h2, bp) && SizeAt(h2, bp) >= asize
    ensures bp != 0 ==> !Allocated(h, blocks, bp)
    ensures KeepsAllocated(h, blocks, h2, blocks2)
  {
    KeepsRefl(h, blocks);
    if FitClass(h, lists, asize, FlistIndex(asize)) < FREE_LIST_SIZE {
      Unseal(n, h, heads, blocks, lists, {}, {});
      FitFound(h, blocks, lists, {}, asize, FlistIndex(asize));
      SplitKeepsPlace(h, blocks, lists, split, bp, i, asize, h2, blocks2, lists2);
    }
  }

  /**
    When no list has a fit for `asize`, get_extend_size asks for a positive
    multiple of 16 bytes: when the last block is free, which makes it
    smaller than the request, exactly the part of the request it lacks;
    otherwise at least the whole request.
   */
  lemma ExtendSizeFits(n: nat, h: seq<nat>, heads: seq<nat>, blocks: seq<nat>, lists: seq<seq<nat>>, asize: nat)
    requires Sealed(n, h, heads, blocks, lists, {}, {})
    requires asize % DSIZE == 0 && asize >= MIN_BLOCK_SIZE && asize < SIZE_T_MOD
    requires ListsInHeap(h, lists) && FitClass(h, lists, asize, FlistIndex(asize)) == FREE_LIST_SIZE
    ensures |h| >= 2 && 1 <= LastBlkp(h) <= |h|
    ensures LastBlkp(h) == if |blocks| == 0 then 2 else blocks[|blocks| - 1]
    ensures |blocks| > 0 ==> Tagged(h, blocks[|blocks| - 1])
    ensures IsFree(h, LastBlkp(h)) <==> |blocks| > 0 && IsFree(h, blocks[|blocks| - 1])
    ensures var e := ExtendSize(h, asize);
      e % DSIZE == 0 && e >= DSIZE && ExtendBytes(e / WSIZE) == e &&
      (IsFree(h, LastBlkp(h)) ==> SizeAt(h, LastBlkp(h)) + e == asize) &&
      (!IsFree(h, LastBlkp(h)) ==> e >= asize)
  {
    HeapView(n, h, heads, blocks, lists, {}, {});
    var last := LastBlkp(h);
    var e := ExtendSize(h, asize);
    if IsFree(h, last) {
      LastFreeSmall(n, h, heads, blocks, lists, asize);
      SizeAligned(h, last);
      AlignedGap(asize, SizeAt(h, last), e);
    } else {
      assert e == asize || e == CHUNKSIZE;
    }
    ExtendBytesExact(e);
  }

  /** The gap between two aligned sizes is itself an aligned size. */
  lemma AlignedGap(a: nat, b: nat, e: nat)
    requires a % DSIZE == 0 && b % DSIZE == 0 && b < a && e + b == a
    ensures e % DSIZE == 0 && e >= DSIZE
  {
    AlignedDifference(a, b);
  }

  /** With no fit on the lists, a free last block is smaller than the request. */
  lemma LastFreeSmall(n: nat, h: seq<nat>, heads: seq<nat>, blocks: seq<nat>, lists: seq<seq<nat>>, asize: nat)
    requires Sealed(n, h, heads, blocks, lists, {}, {}) && |blocks| > 0
    requires ListsInHeap(h, lists) && FitClass(h, lists, asize, FlistIndex(asize)) == FREE_LIST_SIZE
    requires Tagged(h, blocks[|blocks| - 1]) && IsFree(h, blocks[|blocks| - 1])
    ensures SizeAt(h, blocks[|blocks| - 1]) < asize
  {
    Unseal(n, h, heads, blocks, lists, {}, {});
    NoFitAllSmall(h, blocks, lists, {}, asize, |blocks| - 1);
  }

  /**
    After extend_heap grew the heap by what get_extend_size asked for and
    coalesce merged the new block, the block returned is free, heads the
    list of its class and holds at least `asize` bytes: exactly `asize`
    when it is the free last block grown, and otherwise the new block alone.
    It is block `s` of the blocks after the merge.
   */
  lemma GrowthMerged(h: seq<nat>, blocks: seq<nat>, lists: seq<seq<nat>>, asize: nat, g: seq<nat>, r: nat,
                     h2: seq<nat>, blocks2: seq<nat>, lists2: seq<seq<nat>>) returns (s: nat)
    requires |h| >= 2 && 1 <= LastBlkp(h) <= |h| && asize < SIZE_T_MOD
    requires LastBlkp(h) == if |blocks| == 0 then 2 else blocks[|blocks| - 1]
    requires IsFree(h, LastBlkp(h)) <==> |blocks| > 0 && IsFree(h, blocks[|blocks| - 1])
    requires IsFree(h, LastBlkp(h)) ==> SizeAt(h, LastBlkp(h)) + ExtendSize(h, asize) == asize
    requires !IsFree(h, LastBlkp(h)) ==> ExtendSize(h, asize) >= asize
    requires Tagged(g, |h|) && SizeAt(g, |h|) == ExtendSize(h, asize)
    requires |blocks| > 0 ==> Kept(h, g, blocks[|blocks| - 1])
    requires Coalesced(g, blocks + [|h|], lists, |blocks|, r, h2, blocks2, lists2)
    ensures Tagged(h2, r) && IsFree(h2, r) && SizeAt(h2, r) >= asize
    ensures IsFree(h, LastBlkp(h)) ==> r == LastBlkp(h) && SizeAt(h2, r) == asize
    ensures !IsFree(h, LastBlkp(h)) ==> r == |h| && SizeAt(h2, r) == ExtendSize(h, asize)
    ensures s < |blocks2| && blocks2[s] == r
    ensures var k := FlistIndex(SizeAt(h2, r)); |lists2| == FREE_LIST_SIZE && 0 < |lists2[k]| && lists2[k][0] == r
  {
    var b := blocks + [|h|];
    var i := |blocks|;
    assert b[i] == |h|;
    if i > 0 {
      assert b[i - 1] == blocks[|blocks| - 1];
    }
    s := MergeFirst(g, b, i);
    assert blocks2 == b[..s] + ([b[s]] + b[s + MergeCount(g, b, i)..]);
    assert blocks2[s] == b[s];
  }
}
