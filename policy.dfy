/**
  The read-only decisions of the allocator, as functions of the heap words
  and the abstract lists: which listed block find_block and find_fit pick,
  which block get_extend_size finds at the end of the heap, and how much
  it asks extend_heap for.
 */
module Policy {
  import opened Layout
  import opened Heap
  import opened FreeList
  import opened Invariant

  /** Every block of `l` has a header inside the heap. */
  ghost predicate InHeap(h: seq<nat>, l: seq<nat>)
  {
    forall i :: 0 <= i < |l| ==> 1 <= l[i] <= |h|
  }

  /** Every list has its headers inside the heap. */
  ghost predicate ListsInHeap(h: seq<nat>, lists: seq<seq<nat>>)
  {
    |lists| == FREE_LIST_SIZE && forall k :: 0 <= k < FREE_LIST_SIZE ==> InHeap(h, lists[k])
  }

  /** The position find_block stops at in list `l`: the first block of at least `asize` bytes, or `|l|` when there is none. */
  ghost function FirstFit(h: seq<nat>, l: seq<nat>, asize: nat): (j: nat)
    requires InHeap(h, l)
    ensures j <= |l|
    ensures j < |l| ==> SizeAt(h, l[j]) >= asize
    decreases |l|
  {
    if |l| == 0 then 0
    else if SizeAt(h, l[0]) >= asize then 0
    else
      var r := FirstFit(h, l[1..], asize);
      assert forall i :: 0 < i <= r ==> l[i] == l[1..][i - 1];
      1 + r
  }

  /** Every block of `l` before the position FirstFit names is smaller than `asize`. */
  lemma {:induction false} FirstFitSkips(h: seq<nat>, l: seq<nat>, asize: nat)
    requires InHeap(h, l)
    ensures forall i :: 0 <= i < FirstFit(h, l, asize) ==> SizeAt(h, l[i]) < asize
    decreases |l|
  {
    if |l| > 0 && SizeAt(h, l[0]) < asize {
      FirstFitSkips(h, l[1..], asize);
      assert forall i :: 0 < i < |l| ==> l[i] == l[1..][i - 1];
    }
  }

  /** The class find_fit finds its block in when it starts at class `k`: the first class from `k` up with a fit, or FREE_LIST_SIZE when none has one. */
  ghost function FitClass(h: seq<nat>, lists: seq<seq<nat>>, asize: nat, k: nat): (c: nat)
    requires ListsInHeap(h, lists) && k <= FREE_LIST_SIZE
    ensures k <= c <= FREE_LIST_SIZE
    ensures c < FREE_LIST_SIZE ==> FirstFit(h, lists[c], asize) < |lists[c]|
    decreases FREE_LIST_SIZE - k
  {
    if k == FREE_LIST_SIZE then k
    else if FirstFit(h, lists[k], asize) < |lists[k]| then k
    else FitClass(h, lists, asize, k + 1)
  }

  /** Every class from `k` below the one FitClass names has no fit. */
  lemma {:induction false} FitClassSkips(h: seq<nat>, lists: seq<seq<nat>>, asize: nat, k: nat)
    requires ListsInHeap(h, lists) && k <= FREE_LIST_SIZE
    ensures forall m :: k <= m < FitClass(h, lists, asize, k) ==> FirstFit(h, lists[m], asize) == |lists[m]|
    decreases FREE_LIST_SIZE - k
  {
    if k < FREE_LIST_SIZE && FirstFit(h, lists[k], asize) == |lists[k]| {
      FitClassSkips(h, lists, asize, k + 1);
    }
  }

  /** The lists of a well-formed heap name blocks inside it. */
  lemma ShapeInHeap(h: seq<nat>, blocks: seq<nat>, lists: seq<seq<nat>>, ex: set<nat>)
    requires Shape(h, blocks, lists, ex)
    ensures ListsInHeap(h, lists)
  {
    forall k | 0 <= k < FREE_LIST_SIZE
      ensures InHeap(h, lists[k])
    {
      forall i | 0 <= i < |lists[k]|
        ensures 1 <= lists[k][i] <= |h|
      {
        assert Tagged(h, lists[k][i]);
      }
    }
  }

  /**
    When find_fit comes back empty, every free block on the lists is
    smaller than the request: a larger one would sit in a class at or above
    the class of the request, where the search looked.
   */
  lemma NoFitAllSmall(h: seq<nat>, blocks: seq<nat>, lists: seq<seq<nat>>, ex: set<nat>, asize: nat, t: nat)
    requires Shape(h, blocks, lists, ex) && t < |blocks| && blocks[t] !in ex && IsFree(h, blocks[t])
    requires ListsInHeap(h, lists) && FitClass(h, lists, asize, FlistIndex(asize)) == FREE_LIST_SIZE
    ensures SizeAt(h, blocks[t]) < asize
  {
    var size := SizeAt(h, blocks[t]);
    if size >= asize {
      FlistIndexMonotone(asize, size);
      FlistIndexBounds(asize);
      FitClassSkips(h, lists, asize, FlistIndex(asize));
      FirstFitSkips(h, lists[FlistIndex(size)], asize);
    }
  }

  /** The block find_fit returns: the first fit of the class FitClass names, a listed free block of at least `asize` bytes. */
  lemma FitFound(h: seq<nat>, blocks: seq<nat>, lists: seq<seq<nat>>, ex: set<nat>, asize: nat, k: nat)
    requires Shape(h, blocks, lists, ex) && ListsInHeap(h, lists) && k <= FREE_LIST_SIZE
    requires FitClass(h, lists, asize, k) < FREE_LIST_SIZE
    ensures var c := FitClass(h, lists, asize, k);
      var bp := lists[c][FirstFit(h, lists[c], asize)];
      bp in blocks && bp !in ex && IsFree(h, bp) && SizeAt(h, bp) >= asize && FlistIndex(SizeAt(h, bp)) == c
  {
  }

  /** PREV_BLKP(mem_heap_hi() + 1): the block whose footer is the word before the epilogue. */
  function LastBlkp(h: seq<nat>): int
    requires |h| >= 2
  {
    PrevBlkp(h, |h|)
  }

  /** The last block of a tiling, or the prologue when there are no blocks, whose header reads as allocated. */
  lemma LastBlock(h: seq<nat>, blocks: seq<nat>)
    requires Tiling(h, blocks)
    ensures LastBlkp(h) == if |blocks| == 0 then 2 else blocks[|blocks| - 1]
    ensures |blocks| == 0 ==> GetAlloc(h[1]) == 1
  {
    if |blocks| > 0 {
      BlockBounds(h, blocks, |blocks| - 1);
    } else {
      assert GetSize(PROLOGUE) == DSIZE;
    }
  }

  /** `a - b` in size_t arithmetic. */
  function SizeMinus(a: nat, b: nat): (r: nat)
    requires a < SIZE_T_MOD && b < SIZE_T_MOD
    ensures r < SIZE_T_MOD
    ensures (r + b) % SIZE_T_MOD == a
  {
    if b <= a then a - b else a + SIZE_T_MOD - b
  }

  /**
    get_extend_size: a request below half a chunk grows the heap by the
    request itself, any other by at least a chunk; when the last block is
    free, only the missing part is asked for.
   */
  function ExtendSize(h: seq<nat>, asize: nat): (r: nat)
    requires |h| >= 2 && 1 <= LastBlkp(h) <= |h| && asize < SIZE_T_MOD
    ensures !IsFree(h, LastBlkp(h)) ==> r >= asize && (r == asize || r == CHUNKSIZE)
    ensures !IsFree(h, LastBlkp(h)) && asize * 2 < CHUNKSIZE ==> r == asize
    ensures !IsFree(h, LastBlkp(h)) && asize * 2 >= CHUNKSIZE ==> r >= CHUNKSIZE
    ensures IsFree(h, LastBlkp(h)) && SizeAt(h, LastBlkp(h)) <= asize ==> r + SizeAt(h, LastBlkp(h)) == asize
  {
    var extendsize := if asize * 2 < CHUNKSIZE then asize else if CHUNKSIZE > asize then CHUNKSIZE else asize;
    var last := LastBlkp(h);
    if !IsFree(h, last) then extendsize
    else SizeMinus(asize, SizeAt(h, last) % SIZE_T_MOD)
  }

  /**
    Why mm_malloc returns NULL for a request it accepts: no list has a block
    of `asize` bytes, and the memory system cannot grow the heap by what
    get_extend_size asks for.
   */
  ghost predicate OutOfMemory(h: seq<nat>, lists: seq<seq<nat>>, asize: nat, capacity: nat)
  {
    ListsInHeap(h, lists) && |h| >= 2 && 1 <= LastBlkp(h) <= |h| && asize < SIZE_T_MOD &&
    FitClass(h, lists, asize, FlistIndex(asize)) == FREE_LIST_SIZE &&
    |h| + ExtendSize(h, asize) / WSIZE > capacity
  }
}
