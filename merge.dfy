/**
  What coalesce decides and what it produces, as functions of the heap
  before the call: which neighbours of block `i` are free, where the merged
  block starts and ends, what it weighs, and the lists once the merged
  neighbours are dropped from them.
 */
module Merge {
  import opened Layout
  import opened Heap
  import opened FreeList
  import opened Invariant
  import opened Steps

  /** The block before block `i` is free; before the first block sits the allocated prologue. */
  ghost predicate PrevFree(h: seq<nat>, blocks: seq<nat>, i: nat)
    requires Tiling(h, blocks) && i < |blocks|
  {
    i > 0 && IsFree(h, blocks[i - 1])
  }

  /** The block after block `i` is free; after the last block sits the allocated epilogue. */
  ghost predicate NextFree(h: seq<nat>, blocks: seq<nat>, i: nat)
    requires Tiling(h, blocks) && i < |blocks|
  {
    i + 1 < |blocks| && IsFree(h, blocks[i + 1])
  }

  /** Position of the first block coalesce merges into the result. */
  ghost function MergeFirst(h: seq<nat>, blocks: seq<nat>, i: nat): nat
    requires Tiling(h, blocks) && i < |blocks|
  {
    if PrevFree(h, blocks, i) then i - 1 else i
  }

  /** How many blocks coalesce merges: block `i` and its free neighbours. */
  ghost function MergeCount(h: seq<nat>, blocks: seq<nat>, i: nat): nat
    requires Tiling(h, blocks) && i < |blocks|
  {
    1 + (if PrevFree(h, blocks, i) then 1 else 0) + (if NextFree(h, blocks, i) then 1 else 0)
  }

  /** The size of the merged block: block `i`'s size plus those of its free neighbours. */
  ghost function MergedSize(h: seq<nat>, blocks: seq<nat>, i: nat): nat
    requires Tiling(h, blocks) && i < |blocks|
  {
    (if PrevFree(h, blocks, i) then SizeAt(h, blocks[i - 1]) else 0) +
    SizeAt(h, blocks[i]) +
    (if NextFree(h, blocks, i) then SizeAt(h, blocks[i + 1]) else 0)
  }

  /** The payload position just past the merged block. */
  ghost function MergedEnd(h: seq<nat>, blocks: seq<nat>, i: nat): nat
    requires Tiling(h, blocks) && i < |blocks|
  {
    EndOf(h, blocks, MergeFirst(h, blocks, i) + MergeCount(h, blocks, i) - 1)
  }

  /** The blocks after the merge: the merged run replaced by its first block. */
  ghost function MergedBlocks(h: seq<nat>, blocks: seq<nat>, i: nat): seq<nat>
    requires Tiling(h, blocks) && i < |blocks|
  {
    var s := MergeFirst(h, blocks, i);
    blocks[..s] + ([blocks[s]] + blocks[s + MergeCount(h, blocks, i)..])
  }

  /** Every list with `x` erased from it. */
  ghost function Drop(lists: seq<seq<nat>>, x: nat): (r: seq<seq<nat>>)
    ensures |r| == |lists|
    ensures forall k :: 0 <= k < |lists| ==> r[k] == Erase(lists[k], x)
  {
    if |lists| == 0 then [] else [Erase(lists[0], x)] + Drop(lists[1..], x)
  }

  /**
    What remove_free_block leaves of `h` and `lists`: the neighbours of `bp`
    in its list linked past it, and `bp` erased from the abstract lists.
   */
  ghost predicate Unlinks(h: seq<nat>, lists: seq<seq<nat>>, bp: nat, h2: seq<nat>, lists2: seq<seq<nat>>)
  {
    bp + 1 < |h| && (h[bp] != 0 ==> h[bp] + 1 < |h|) && h[bp + 1] < |h| &&
    h2 == Unlink(h, h[bp], h[bp + 1]) && lists2 == Drop(lists, bp)
  }

  /** The same fact sealed `k` levels deep, so that callers carry it unopened. */
  ghost predicate UnlinkedBy(k: nat, h: seq<nat>, lists: seq<seq<nat>>, bp: nat, h2: seq<nat>, lists2: seq<seq<nat>>)
    decreases k
  {
    if k == 0 then Unlinks(h, lists, bp, h2, lists2) else UnlinkedBy(k - 1, h, lists, bp, h2, lists2)
  }

  /** The removal as the allocator records it. */
  ghost predicate Unlinked(h: seq<nat>, lists: seq<seq<nat>>, bp: nat, h2: seq<nat>, lists2: seq<seq<nat>>)
  {
    UnlinkedBy(|h| + 2, h, lists, bp, h2, lists2)
  }

  lemma {:induction false} OpenUnlinked(k: nat, h: seq<nat>, lists: seq<seq<nat>>, bp: nat, h2: seq<nat>, lists2: seq<seq<nat>>)
    requires UnlinkedBy(k, h, lists, bp, h2, lists2)
    ensures Unlinks(h, lists, bp, h2, lists2)
    decreases k
  {
    if k > 0 {
      OpenUnlinked(k - 1, h, lists, bp, h2, lists2);
    }
  }

  lemma {:induction false} CloseUnlinked(k: nat, h: seq<nat>, lists: seq<seq<nat>>, bp: nat, h2: seq<nat>, lists2: seq<seq<nat>>)
    requires Unlinks(h, lists, bp, h2, lists2)
    ensures UnlinkedBy(k, h, lists, bp, h2, lists2)
    decreases k
  {
    if k > 0 {
      CloseUnlinked(k - 1, h, lists, bp, h2, lists2);
    }
  }

  /** The lists after coalesce has unlinked the free neighbours of block `i`. */
  ghost function DropMerged(h: seq<nat>, blocks: seq<nat>, lists: seq<seq<nat>>, i: nat): seq<seq<nat>>
    requires Tiling(h, blocks) && i < |blocks|
  {
    var l1 := if PrevFree(h, blocks, i) then Drop(lists, blocks[i - 1]) else lists;
    if NextFree(h, blocks, i) then Drop(l1, blocks[i + 1]) else l1
  }

  lemma {:induction false} EraseAbsent(l: seq<nat>, x: nat)
    requires x !in l
    ensures Erase(l, x) == l
  {
    if |l| > 0 {
      assert l[1..] == l[1..];
      assert x !in l[1..] by {
        forall m | 0 <= m < |l[1..]|
          ensures l[1..][m] != x
        {
          assert l[1..][m] == l[m + 1];
        }
      }
      EraseAbsent(l[1..], x);
      assert [l[0]] + l[1..] == l;
    }
  }

  /** Erasing one block keeps every other block in the list. */
  lemma EraseKeeps(l: seq<nat>, x: nat, y: nat)
    requires x in l && x != y
    ensures x in Erase(l, y)
  {
    EraseMultiset(l, y);
    assert x in multiset(l);
  }

  /** Cutting a listed block out of its list is erasing it from every list: it sits in no other. */
  lemma DropCut(h: seq<nat>, heads: seq<nat>, lists: seq<seq<nat>>, k: nat, j: nat)
    requires Linked(h, heads, lists) && k < FREE_LIST_SIZE && j < |lists[k]|
    ensures Drop(lists, lists[k][j]) == lists[k := lists[k][..j] + lists[k][j + 1..]]
  {
    var x := lists[k][j];
    SparseSpread(lists, k);
    SpreadErase(lists[k], j);
    forall c | 0 <= c < FREE_LIST_SIZE && c != k
      ensures Erase(lists[c], x) == lists[c]
    {
      assert x !in lists[c] by {
        forall m | 0 <= m < |lists[c]|
          ensures lists[c][m] != x
        {
          assert Gap(lists, c, m, k, j);
        }
      }
      EraseAbsent(lists[c], x);
    }
  }

  /**
    remove_free_block on values: the link words of entry `j` of list `k`
    lie inside the heap, the head of class `k` is rewritten exactly when
    there is no predecessor, and unlinking by those words keeps every tag
    and the invariant, with the block exempt and erased from the lists.
   */
  lemma RemoveStep(h: seq<nat>, heads: seq<nat>, blocks: seq<nat>, lists: seq<seq<nat>>, ex: set<nat>, k: nat, j: nat,
                   h2: seq<nat>, heads2: seq<nat>, lists2: seq<seq<nat>>)
    requires HeapInv(h, heads, blocks, lists, ex) && k < FREE_LIST_SIZE && j < |lists[k]|
    requires var bp := lists[k][j];
      1 <= bp && bp + 1 < |h| && (h[bp] != 0 ==> h[bp] + 1 < |h|) && h[bp + 1] < |h| &&
      h2 == Unlink(h, h[bp], h[bp + 1]) &&
      heads2 == (if h[bp] == 0 then heads[k := h[bp + 1]] else heads) &&
      lists2 == Drop(lists, bp)
    ensures SameTags(h, h2, blocks) && HeapInv(h2, heads2, blocks, lists2, ex + {lists[k][j]})
  {
    ListedLinks(h, heads, blocks, lists, ex, k, j);
    UnlinkStep(h, heads, blocks, lists, ex, k, j);
    DropCut(h, heads, lists, k, j);
  }

  /** PREV_BLKP of a free, unlisted block `i`, and the footer coalesce reads its allocated bit from. */
  lemma PrevView(h: seq<nat>, blocks: seq<nat>, i: nat)
    requires Tiling(h, blocks) && i < |blocks|
    ensures blocks[i] >= FIRST_BP && GetSize(h[blocks[i] - 2]) / WSIZE + 2 <= blocks[i]
    ensures var bp := blocks[i];
      var prev := bp - GetSize(h[bp - 2]) / WSIZE;
      prev == (if i == 0 then 2 else blocks[i - 1]) &&
      prev + GetSize(h[prev - 1]) / WSIZE - 2 == bp - 2 &&
      (GetAlloc(h[bp - 2]) == 0 <==> PrevFree(h, blocks, i))
  {
    Neighbours(h, blocks, i);
    BlockBounds(h, blocks, i);
    if i > 0 {
      BlockBounds(h, blocks, i - 1);
    }
  }

  /** NEXT_BLKP of block `i`, and the header coalesce reads its allocated bit from. */
  lemma NextView(h: seq<nat>, blocks: seq<nat>, i: nat)
    requires Tiling(h, blocks) && i < |blocks|
    ensures var bp := blocks[i];
      var next := bp + GetSize(h[bp - 1]) / WSIZE;
      next == NextBlkp(h, bp) && next <= |h| &&
      next == (if i + 1 == |blocks| then |h| else blocks[i + 1]) &&
      (GetAlloc(h[next - 1]) == 0 <==> NextFree(h, blocks, i))
  {
    Neighbours(h, blocks, i);
    BlockBounds(h, blocks, i);
  }

  /**
    A free neighbour of the unlisted free block `i` is listed in its class,
    big enough for its links, and has an allocated block on its far side.
   */
  lemma FreeNeighbours(h: seq<nat>, blocks: seq<nat>, lists: seq<seq<nat>>, i: nat)
    requires i < |blocks| && Shape(h, blocks, lists, {blocks[i]}) && IsFree(h, blocks[i])
    ensures PrevFree(h, blocks, i) ==>
      blocks[i - 1] in lists[FlistIndex(SizeAt(h, blocks[i - 1]))] && SizeAt(h, blocks[i - 1]) >= MIN_BLOCK_SIZE &&
      (i >= 2 ==> !IsFree(h, blocks[i - 2]))
    ensures NextFree(h, blocks, i) ==>
      blocks[i + 1] in lists[FlistIndex(SizeAt(h, blocks[i + 1]))] && SizeAt(h, blocks[i + 1]) >= MIN_BLOCK_SIZE &&
      (i + 2 < |blocks| ==> !IsFree(h, blocks[i + 2]))
  {
    if i > 0 {
      BlocksApart(h, blocks, i - 1, i);
    }
    if i >= 2 {
      BlocksApart(h, blocks, i - 2, i);
    }
    if i + 1 < |blocks| {
      BlocksApart(h, blocks, i + 1, i);
    }
    if i + 2 < |blocks| {
      BlocksApart(h, blocks, i + 2, i);
    }
  }

  /** Keeping the tags keeps the pairs of free neighbours. */
  lemma SameTagsUnpaired(h: seq<nat>, h2: seq<nat>, blocks: seq<nat>, ex: set<nat>)
    requires Tiling(h, blocks) && SameTags(h, h2, blocks) && Unpaired(h, blocks, ex)
    ensures Tiling(h2, blocks) && Unpaired(h2, blocks, ex)
  {
    SameTagsTiling(h, h2, blocks);
  }

  /** The exempt set made of a run of one to three blocks is exactly that run. */
  lemma RunOfExempt(h: seq<nat>, blocks: seq<nat>, s: nat, n: nat, ex: set<nat>)
    requires Tiling(h, blocks) && 0 < n <= 3 && s + n <= |blocks|
    requires ex == if n == 1 then {blocks[s]} else if n == 2 then {blocks[s], blocks[s + 1]} else {blocks[s], blocks[s + 1], blocks[s + 2]}
    ensures RunExempt(blocks, ex, s, n)
  {
    forall t | 0 <= t < |blocks| && (t < s || s + n <= t)
      ensures blocks[t] !in ex
    {
      BlocksApart(h, blocks, t, s);
      if n > 1 {
        BlocksApart(h, blocks, t, s + 1);
      }
      if n > 2 {
        BlocksApart(h, blocks, t, s + 2);
      }
    }
  }

  /** A multiple of DSIZE bytes is twice its number of double words in words. */
  lemma DoubleWords(x: nat)
    ensures (DSIZE * x) % DSIZE == 0 && (DSIZE * x) / WSIZE == 2 * x
  {
  }

  /** Block sizes that are multiples of DSIZE add up word by word. */
  lemma WordsAdd(a: nat, b: nat)
    requires a % DSIZE == 0 && b % DSIZE == 0
    ensures (a + b) % DSIZE == 0 && (a + b) / WSIZE == a / WSIZE + b / WSIZE
  {
    var x := a / DSIZE;
    var y := b / DSIZE;
    DoubleWords(x);
    DoubleWords(y);
    DoubleWords(x + y);
    assert a + b == DSIZE * (x + y);
  }

  /** Two neighbouring blocks' sizes add up to the distance from the first payload to the end of the second. */
  lemma SizesJoin2(h: seq<nat>, blocks: seq<nat>, s: nat)
    requires Tiling(h, blocks) && s + 2 <= |blocks|
    ensures var total := SizeAt(h, blocks[s]) + SizeAt(h, blocks[s + 1]);
      total % DSIZE == 0 && blocks[s] + total / WSIZE == EndOf(h, blocks, s + 1)
  {
    SizeAligned(h, blocks[s]);
    BlockBounds(h, blocks, s + 1);
    SizeAligned(h, blocks[s + 1]);
    assert blocks[s + 1] == NextBlkp(h, blocks[s]);
    WordsAdd(SizeAt(h, blocks[s]), SizeAt(h, blocks[s + 1]));
  }

  /** Three neighbouring blocks' sizes add up to the distance from the first payload to the end of the third. */
  lemma SizesJoin3(h: seq<nat>, blocks: seq<nat>, s: nat)
    requires Tiling(h, blocks) && s + 3 <= |blocks|
    ensures var total := SizeAt(h, blocks[s]) + SizeAt(h, blocks[s + 1]) + SizeAt(h, blocks[s + 2]);
      total % DSIZE == 0 && blocks[s] + total / WSIZE == EndOf(h, blocks, s + 2)
  {
    SizesJoin2(h, blocks, s);
    BlockBounds(h, blocks, s + 2);
    SizeAligned(h, blocks[s + 2]);
    assert blocks[s + 2] == NextBlkp(h, blocks[s + 1]);
    WordsAdd(SizeAt(h, blocks[s]) + SizeAt(h, blocks[s + 1]), SizeAt(h, blocks[s + 2]));
  }
}
