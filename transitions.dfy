/**
  The steps of the composite routines on values: what holds between the
  calls handle_split_block, coalesce, extend_heap and mm_malloc make, stated
  over snapshots of the heap, the list heads and the abstract lists, so that
  the methods of the allocator only pass their state along.
 */
module Transitions {
  import opened Layout
  import opened Heap
  import opened FreeList
  import opened Invariant
  import opened Steps
  import opened Merge
  import opened Policy
  import opened Frame

  /**
    The cut of handle_split_block, on an unlisted free block `b` (block `i`)
    with room for `asize` bytes and another minimal block: the header and
    footer writes give `b` exactly `asize` bytes and make the rest a free
    block `sub` right after it, which alone is left to list.
   */
  lemma SplitPlan(h: seq<nat>, heads: seq<nat>, blocks: seq<nat>, lists: seq<seq<nat>>, i: nat, b: nat,
                  asize: nat, sub: nat) returns (blocks2: seq<nat>)
    requires i < |blocks| && blocks[i] == b && HeapInv(h, heads, blocks, lists, {b})
    requires Tagged(h, b) && IsFree(h, b) && Unpaired(h, blocks, {})
    requires asize % DSIZE == 0 && asize >= MIN_BLOCK_SIZE && SizeAt(h, b) >= asize + MIN_BLOCK_SIZE
    requires sub == b + asize / WSIZE
    ensures SizeAt(h, b) % DSIZE == 0 && sub < |h|
    ensures blocks2 == blocks[..i] + ([b, sub] + blocks[i + 1..])
    ensures i + 1 < |blocks2| && blocks2[i] == b && blocks2[i + 1] == sub
    ensures var h2 := SplitWords(h, b, asize);
      HeapInv(h2, heads, blocks2, lists, {b, sub}) && IsFree(h2, sub) &&
      Sized(h2, blocks2, {b}) && Unpaired(h2, blocks2, {b}) &&
      SizeAt(h2, b) == asize && IsFree(h2, b) && SizeAt(h2, sub) == SizeAt(h, b) - asize
  {
    SplitIndex(blocks, i, sub);
    blocks2 := blocks[..i] + ([b, sub] + blocks[i + 1..]);
    SplitStep(h, heads, blocks, blocks2, lists, i, asize);
    var h2 := SplitWords(h, b, asize);
    assert Sized(h2, blocks2, {b}) by {
      assert Sized(h2, blocks2, {});
    }
  }

  /** Block `b` is well formed in both heaps, with the same size and allocated bit. */
  ghost predicate Kept(h: seq<nat>, h2: seq<nat>, b: nat)
  {
    Tagged(h, b) && Tagged(h2, b) && SizeAt(h2, b) == SizeAt(h, b) && IsFree(h2, b) == IsFree(h, b)
  }

  /** Asking the size and pairing rules of fewer blocks. */
  lemma LaxWiden(n: nat, h: seq<nat>, heads: seq<nat>, blocks: seq<nat>, lists: seq<seq<nat>>, ex: set<nat>, lax: set<nat>, lax2: set<nat>)
    requires Sealed(n, h, heads, blocks, lists, ex, lax) && lax <= lax2
    ensures Sealed(n, h, heads, blocks, lists, ex, lax2)
  {
    Unseal(n, h, heads, blocks, lists, ex, lax);
    Seal(n, h, heads, blocks, lists, ex, lax2);
  }

  /** The words find_block and get_extend_size read: the lists' blocks lie in the heap, and so does the last block. */
  lemma HeapView(n: nat, h: seq<nat>, heads: seq<nat>, blocks: seq<nat>, lists: seq<seq<nat>>, ex: set<nat>, lax: set<nat>)
    requires Sealed(n, h, heads, blocks, lists, ex, lax)
    ensures |h| >= INITIAL_WORDS && |heads| == FREE_LIST_SIZE && ListsInHeap(h, lists)
    ensures LastBlkp(h) == if |blocks| == 0 then 2 else blocks[|blocks| - 1]
    ensures |blocks| == 0 ==> !IsFree(h, 2)
    ensures |blocks| > 0 ==> Tagged(h, blocks[|blocks| - 1])
  {
    Unseal(n, h, heads, blocks, lists, ex, lax);
    ShapeInHeap(h, blocks, lists, ex);
    LastBlock(h, blocks);
  }

  /** Entry `j` of list `k`: a listed free block, outside `ex`, whose next link names the entry after it. */
  lemma EntryView(n: nat, h: seq<nat>, heads: seq<nat>, blocks: seq<nat>, lists: seq<seq<nat>>, ex: set<nat>, lax: set<nat>, k: nat, j: nat)
      returns (t: nat)
    requires Sealed(n, h, heads, blocks, lists, ex, lax) && |lists| == FREE_LIST_SIZE && k < FREE_LIST_SIZE && j < |lists[k]|
    ensures t < |blocks| && blocks[t] == lists[k][j] && blocks[t] !in ex
    ensures Tagged(h, lists[k][j]) && IsFree(h, lists[k][j]) && lists[k][j] + 1 < |h|
    ensures h[lists[k][j] + 1] == NextOf(lists[k], j)
  {
    Unseal(n, h, heads, blocks, lists, ex, lax);
    ListedLinks(h, heads, blocks, lists, ex, k, j);
    t := ListedIndex(h, blocks, lists, ex, k, j);
  }

  /** The head of list `k` is its first entry, or NULL for an empty list. */
  lemma HeadView(n: nat, h: seq<nat>, heads: seq<nat>, blocks: seq<nat>, lists: seq<seq<nat>>, ex: set<nat>, lax: set<nat>, k: nat)
    requires Sealed(n, h, heads, blocks, lists, ex, lax) && k < FREE_LIST_SIZE
    ensures |heads| == FREE_LIST_SIZE && |lists| == FREE_LIST_SIZE && heads[k] == HeadOf(lists[k])
  {
    Unseal(n, h, heads, blocks, lists, ex, lax);
  }

  /**
    insert_free_block on the carried invariant: the exempt free block `i`
    goes in front of the list of its class, and any block `t` keeps its tags.
   */
  lemma InsertSealed(n: nat, h: seq<nat>, heads: seq<nat>, blocks: seq<nat>, lists: seq<seq<nat>>, ex: set<nat>, i: nat, t: nat)
    requires i < |blocks| && blocks[i] in ex && Sealed(n, h, heads, blocks, lists, ex, ex - {blocks[i]})
    requires Tagged(h, blocks[i]) && IsFree(h, blocks[i])
    ensures var b := blocks[i];
      var k := FlistIndex(SizeAt(h, b));
      |heads| == FREE_LIST_SIZE && |lists| == FREE_LIST_SIZE && heads[k] < |h| && b + 1 < |h| &&
      var h2 := Push(h, b, heads[k]);
      Sealed(n, h2, heads[k := b], blocks, lists[k := [b] + lists[k]], ex - {b}, ex - {b}) &&
      Kept(h, h2, b) && (t < |blocks| ==> Kept(h, h2, blocks[t]))
  {
    Unseal(n, h, heads, blocks, lists, ex, ex - {blocks[i]});
    PushStep(h, heads, blocks, lists, ex, i);
    var b := blocks[i];
    var k := FlistIndex(SizeAt(h, b));
    var h2 := Push(h, b, heads[k]);
    SameTagsBlock(h, h2, blocks, i);
    BlockBounds(h, blocks, i);
    if t < |blocks| {
      SameTagsBlock(h, h2, blocks, t);
      BlockBounds(h, blocks, t);
    }
    Seal(n, h2, heads[k := b], blocks, lists[k := [b] + lists[k]], ex - {b}, ex - {b});
  }

  /**
    remove_free_block on the carried invariant: entry `j` of list `k` has
    its links inside the heap, the head is rewritten when it has no
    predecessor, and unlinking it keeps every block's tags and the
    invariant, with the block exempt and erased from the lists.
   */
  lemma RemoveSealed(n: nat, h: seq<nat>, heads: seq<nat>, blocks: seq<nat>, lists: seq<seq<nat>>, ex: set<nat>, lax: set<nat>,
                     k: nat, j: nat)
    requires Sealed(n, h, heads, blocks, lists, ex, lax) && |lists| == FREE_LIST_SIZE && k < FREE_LIST_SIZE && j < |lists[k]|
    ensures var bp := lists[k][j];
      |heads| == FREE_LIST_SIZE && bp in blocks && bp !in ex &&
      Tagged(h, bp) && IsFree(h, bp) && SizeAt(h, bp) >= MIN_BLOCK_SIZE &&
      bp + 1 < |h| && (h[bp] != 0 ==> h[bp] + 1 < |h|) && h[bp + 1] < |h| &&
      (h[bp] == 0 ==> FlistIndex(SizeAt(h, bp)) == k) &&
      var h2 := Unlink(h, h[bp], h[bp + 1]);
      Sealed(n, h2, if h[bp] == 0 then heads[k := h[bp + 1]] else heads, blocks, Drop(lists, bp), ex + {bp}, lax)
  {
    Unseal(n, h, heads, blocks, lists, ex, lax);
    var bp := lists[k][j];
    ListedLinks(h, heads, blocks, lists, ex, k, j);
    var u := ListedIndex(h, blocks, lists, ex, k, j);
    var h2 := Unlink(h, h[bp], h[bp + 1]);
    var heads2 := if h[bp] == 0 then heads[k := h[bp + 1]] else heads;
    RemoveStep(h, heads, blocks, lists, ex, k, j, h2, heads2, Drop(lists, bp));
    SameTagsUnpaired(h, h2, blocks, lax);
    SameTagsTiling(h, h2, blocks);
    Seal(n, h2, heads2, blocks, Drop(lists, bp), ex + {bp}, lax);
  }

  /** remove_free_block keeps the tags of every block `t`, its own among them. */
  lemma RemoveKeeps(n: nat, h: seq<nat>, heads: seq<nat>, blocks: seq<nat>, lists: seq<seq<nat>>, ex: set<nat>, lax: set<nat>,
                    k: nat, j: nat, t: nat)
    requires Sealed(n, h, heads, blocks, lists, ex, lax) && |lists| == FREE_LIST_SIZE && k < FREE_LIST_SIZE && j < |lists[k]| && t < |blocks|
    ensures var bp := lists[k][j];
      bp + 1 < |h| && (h[bp] != 0 ==> h[bp] + 1 < |h|) && h[bp + 1] < |h| &&
      Kept(h, Unlink(h, h[bp], h[bp + 1]), blocks[t])
  {
    Unseal(n, h, heads, blocks, lists, ex, lax);
    var bp := lists[k][j];
    ListedLinks(h, heads, blocks, lists, ex, k, j);
    var h2 := Unlink(h, h[bp], h[bp + 1]);
    UnlinkStep(h, heads, blocks, lists, ex, k, j);
    SameTagsBlock(h, h2, blocks, t);
    BlockBounds(h, blocks, t);
  }

  /**
    The cut of handle_split_block on the carried invariant: the unlisted
    free block `b` keeps `asize` bytes and the rest becomes the free block
    `sub`, exempt until it is listed.
   */
  lemma SplitSealed(n: nat, h: seq<nat>, heads: seq<nat>, blocks: seq<nat>, lists: seq<seq<nat>>, i: nat, b: nat,
                    asize: nat, sub: nat) returns (blocks2: seq<nat>)
    requires i < |blocks| && blocks[i] == b && Sealed(n, h, heads, blocks, lists, {b}, {})
    requires Tagged(h, b) && IsFree(h, b)
    requires asize % DSIZE == 0 && asize >= MIN_BLOCK_SIZE && SizeAt(h, b) >= asize + MIN_BLOCK_SIZE
    requires sub == b + asize / WSIZE
    ensures SizeAt(h, b) % DSIZE == 0
    ensures blocks2 == blocks[..i] + ([b, sub] + blocks[i + 1..])
    ensures i + 1 < |blocks2| && blocks2[i] == b && blocks2[i + 1] == sub && b != sub
    ensures var h2 := SplitWords(h, b, asize);
      Tagged(h2, b) && SizeAt(h2, b) == asize && IsFree(h2, b) &&
      Tagged(h2, sub) && SizeAt(h2, sub) == SizeAt(h, b) - asize && IsFree(h2, sub) &&
      Sealed(n, h2, heads, blocks2, lists, {b, sub}, {b})
  {
    Unseal(n, h, heads, blocks, lists, {b}, {});
    blocks2 := SplitPlan(h, heads, blocks, lists, i, b, asize, sub);
    var h2 := SplitWords(h, b, asize);
    BlockBounds(h2, blocks2, i);
    BlockBounds(h2, blocks2, i + 1);
    Seal(n, h2, heads, blocks2, lists, {b, sub}, {b});
  }

  /** place on the carried invariant: the chosen block, exempt so far, is marked allocated and nothing is exempt. */
  lemma PlaceSealed(n: nat, h: seq<nat>, heads: seq<nat>, blocks: seq<nat>, lists: seq<seq<nat>>, i: nat)
    requires i < |blocks| && Sealed(n, h, heads, blocks, lists, {blocks[i]}, {blocks[i]})
    requires Tagged(h, blocks[i]) && SizeAt(h, blocks[i]) >= MIN_BLOCK_SIZE
    ensures var b := blocks[i];
      SizeAt(h, b) % DSIZE == 0 && b + SizeAt(h, b) / WSIZE - 2 < |h| &&
      var h2 := SetTags(h, b, SizeAt(h, b), 1);
      Tagged(h2, b) && SizeAt(h2, b) == SizeAt(h, b) && !IsFree(h2, b) &&
      Sealed(n, h2, heads, blocks, lists, {}, {})
  {
    var b := blocks[i];
    Unseal(n, h, heads, blocks, lists, {b}, {b});
    PlaceStep(h, heads, blocks, lists, {b}, i);
    var h2 := SetTags(h, b, SizeAt(h, b), 1);
    assert {b} - {b} == {};
    BlockBounds(h2, blocks, i);
    Seal(n, h2, heads, blocks, lists, {}, {});
  }

  /** mm_free's retagging on the carried invariant: the allocated block `i` is marked free and exempt until coalesce lists it. */
  lemma FreeSealed(n: nat, h: seq<nat>, heads: seq<nat>, blocks: seq<nat>, lists: seq<seq<nat>>, i: nat)
    requires i < |blocks| && Sealed(n, h, heads, blocks, lists, {}, {})
    requires Tagged(h, blocks[i]) && !IsFree(h, blocks[i])
    ensures var b := blocks[i];
      SizeAt(h, b) >= MIN_BLOCK_SIZE && SizeAt(h, b) % DSIZE == 0 && b + SizeAt(h, b) / WSIZE - 2 < |h| &&
      var h2 := SetTags(h, b, SizeAt(h, b), 0);
      Tagged(h2, b) && SizeAt(h2, b) == SizeAt(h, b) && IsFree(h2, b) &&
      Sealed(n, h2, heads, blocks, lists, {b}, {b})
  {
    var b := blocks[i];
    Unseal(n, h, heads, blocks, lists, {}, {});
    FreeStep(h, heads, blocks, lists, i);
    var h2 := SetTags(h, b, SizeAt(h, b), 0);
    BlockBounds(h2, blocks, i);
    Seal(n, h2, heads, blocks, lists, {b}, {b});
  }

  /** extend_heap's three writes on the carried invariant: a new free block at the old end, exempt until coalesce lists it. */
  lemma ExtendSealed(n: nat, h: seq<nat>, h1: seq<nat>, h2: seq<nat>, heads: seq<nat>, blocks: seq<nat>, lists: seq<seq<nat>>, size: nat)
    requires Sealed(n, h, heads, blocks, lists, {}, {}) && Grown(h, h1, h2, size)
    ensures Tagged(h2, |h|) && SizeAt(h2, |h|) == size && IsFree(h2, |h|) && NextBlkp(h2, |h|) == |h2|
    ensures |blocks| > 0 ==> Kept(h, h2, blocks[|blocks| - 1])
    ensures Sealed(n, h2, heads, blocks + [|h|], lists, {|h|}, {|h|})
  {
    Unseal(n, h, heads, blocks, lists, {}, {});
    ExtendStep(h, h1, h2, heads, blocks, lists, size);
    var blocks2 := blocks + [|h|];
    BlockBounds(h2, blocks2, |blocks|);
    if |blocks| > 0 {
      BlockBounds(h, blocks, |blocks| - 1);
      BlockBounds(h2, blocks2, |blocks| - 1);
    }
    Seal(n, h2, heads, blocks2, lists, {|h|}, {|h|});
  }

  /**
    What handle_split_block leaves of the listed free block `bp` (block `i`
    of `h`): the block is off the lists and free; when splitting is on and
    it has room for `asize` bytes and another minimal block, it keeps
    `asize` bytes and the rest follows it as a free block at the head of
    the list of its class; otherwise it keeps its size. Every allocated
    block keeps all its words.
   */
  ghost predicate SplitOutcome(h: seq<nat>, blocks: seq<nat>, lists: seq<seq<nat>>, split: bool, bp: nat, i: nat, asize: nat,
                               h2: seq<nat>, blocks2: seq<nat>, lists2: seq<seq<nat>>)
  {
    |lists| == FREE_LIST_SIZE && i < |blocks| && blocks[i] == bp && Tagged(h, bp) &&
    |h2| == |h| && Tagged(h2, bp) && IsFree(h2, bp) && KeepsAllocated(h, blocks, h2, blocks2) &&
    var size := SizeAt(h, bp);
    var rest := Drop(lists, bp);
    if split && size >= asize + MIN_BLOCK_SIZE then
      var sub := bp + asize / WSIZE;
      var c := FlistIndex(size - asize);
      SizeAt(h2, bp) == asize && Tagged(h2, sub) && SizeAt(h2, sub) == size - asize && IsFree(h2, sub) &&
      blocks2 == blocks[..i] + ([bp, sub] + blocks[i + 1..]) && lists2 == rest[c := [sub] + rest[c]]
    else
      SizeAt(h2, bp) == size && blocks2 == blocks && lists2 == rest
  }

  /** The outcome of handle_split_block, gathered from its two cases. */
  lemma SplitOutcomeOf(h: seq<nat>, blocks: seq<nat>, lists: seq<seq<nat>>, split: bool, bp: nat, i: nat, asize: nat,
                       h2: seq<nat>, blocks2: seq<nat>, lists2: seq<seq<nat>>)
    requires |lists| == FREE_LIST_SIZE && i < |blocks| && blocks[i] == bp && Tagged(h, bp)
    requires |h2| == |h| && Tagged(h2, bp) && IsFree(h2, bp) && KeepsAllocated(h, blocks, h2, blocks2)
    requires split && SizeAt(h, bp) >= asize + MIN_BLOCK_SIZE ==>
      var sub := bp + asize / WSIZE;
      var rest := Drop(lists, bp);
      var c := FlistIndex(SizeAt(h, bp) - asize);
      SizeAt(h2, bp) == asize && Tagged(h2, sub) && SizeAt(h2, sub) == SizeAt(h, bp) - asize && IsFree(h2, sub) &&
      blocks2 == blocks[..i] + ([bp, sub] + blocks[i + 1..]) && lists2 == rest[c := [sub] + rest[c]]
    requires !(split && SizeAt(h, bp) >= asize + MIN_BLOCK_SIZE) ==>
      SizeAt(h2, bp) == SizeAt(h, bp) && blocks2 == blocks && lists2 == Drop(lists, bp)
    ensures SplitOutcome(h, blocks, lists, split, bp, i, asize, h2, blocks2, lists2)
  {
  }

  /**
    The splitting case of handle_split_block, from the state after the
    block left its list (`h1`, `lists1`) and the state after the cut.
   */
  lemma SplitCase(h: seq<nat>, blocks: seq<nat>, lists: seq<seq<nat>>, bp: nat, i: nat, asize: nat,
                  h1: seq<nat>, lists1: seq<seq<nat>>, h2: seq<nat>, blocks2: seq<nat>, lists2: seq<seq<nat>>)
    requires |lists| == FREE_LIST_SIZE && i < |blocks| && blocks[i] == bp && Tagged(h, bp) && SizeAt(h, bp) >= asize + MIN_BLOCK_SIZE
    requires |h1| == |h| && SizeAt(h1, bp) == SizeAt(h, bp) && lists1 == Drop(lists, bp)
    requires var sub := bp + asize / WSIZE;
      |h2| == |h| && Tagged(h2, bp) && SizeAt(h2, bp) == asize && IsFree(h2, bp) &&
      Tagged(h2, sub) && SizeAt(h2, sub) == SizeAt(h1, bp) - asize && IsFree(h2, sub) &&
      blocks2 == blocks[..i] + ([bp, sub] + blocks[i + 1..])
    requires var c := FlistIndex(SizeAt(h1, bp) - asize); c < |lists1| && lists2 == lists1[c := [bp + asize / WSIZE] + lists1[c]]
    requires KeepsAllocated(h, blocks, h1, blocks) && KeepsAllocated(h1, blocks, h2, blocks2)
    ensures SplitOutcome(h, blocks, lists, true, bp, i, asize, h2, blocks2, lists2)
  {
    KeepsTrans(h, blocks, 0, h1, blocks, h2, blocks2);
  }

  /**
    coalesce's two tag writes on the carried invariant: the run of `cnt`
    free blocks from `s`, which holds block `i` and its free neighbours and
    is exactly the exempt set, becomes one free block of their summed size
    over the same words, still to be listed.
   */
  lemma MergeSealed(n: nat, h: seq<nat>, heads: seq<nat>, blocks: seq<nat>, lists: seq<seq<nat>>, ex: set<nat>,
                    i: nat, s: nat, cnt: nat) returns (size: nat, e: nat, blocks2: seq<nat>, h2: seq<nat>)
    requires i < |blocks| && Sealed(n, h, heads, blocks, lists, ex, {blocks[i]})
    requires (s == i || s + 1 == i) && i < s + cnt <= |blocks| && (s + cnt == i + 1 || s + cnt == i + 2)
    requires ex == if cnt == 1 then {blocks[s]} else if cnt == 2 then {blocks[s], blocks[s + 1]} else {blocks[s], blocks[s + 1], blocks[s + 2]}
    requires Tagged(h, blocks[s]) && IsFree(h, blocks[s])
    requires cnt > 1 ==> Tagged(h, blocks[s + 1]) && IsFree(h, blocks[s + 1])
    requires cnt > 2 ==> Tagged(h, blocks[s + 2]) && IsFree(h, blocks[s + 2])
    requires s == i && i > 0 ==> Tagged(h, blocks[i - 1]) && !IsFree(h, blocks[i - 1])
    requires s + cnt == i + 1 && i + 1 < |blocks| ==> Tagged(h, blocks[i + 1]) && !IsFree(h, blocks[i + 1])
    requires cnt == 1 ==> SizeAt(h, blocks[i]) >= MIN_BLOCK_SIZE
    ensures size == SizeAt(h, blocks[s]) + (if cnt > 1 then SizeAt(h, blocks[s + 1]) else 0) + (if cnt > 2 then SizeAt(h, blocks[s + 2]) else 0)
    ensures size % DSIZE == 0 && size >= MIN_BLOCK_SIZE
    ensures e == NextBlkp(h, blocks[s + cnt - 1]) && blocks[s] >= FIRST_BP && blocks[s] + size / WSIZE == e && e <= |h|
    ensures blocks2 == blocks[..s] + ([blocks[s]] + blocks[s + cnt..]) && s < |blocks2| && blocks2[s] == blocks[s]
    ensures h2 == h[blocks[s] - 1 := size][e - 2 := size]
    ensures Tagged(h2, blocks[s]) && IsFree(h2, blocks[s]) && SizeAt(h2, blocks[s]) == size && NextBlkp(h2, blocks[s]) == e
    ensures Sealed(n, h2, heads, blocks2, lists, {blocks[s]}, {})
  {
    Unseal(n, h, heads, blocks, lists, ex, {blocks[i]});
    RunOfExempt(h, blocks, s, cnt, ex);
    size := MergePlan(h, blocks, i, s, cnt);
    MergeIndex(blocks, s, cnt);
    blocks2 := blocks[..s] + ([blocks[s]] + blocks[s + cnt..]);
    e := EndOf(h, blocks, s + cnt - 1);
    h2 := h[blocks[s] - 1 := size][e - 2 := size];
    MergeStep(h, h2, heads, blocks, blocks2, lists, ex, s, cnt, size);
    BlockBounds(h2, blocks2, s);
    Seal(n, h2, heads, blocks2, lists, {blocks[s]}, {});
  }

  /**
    The run coalesce merges, on the tags alone: its outer neighbours are
    allocated, and its sizes add up to a block that fits its words exactly.
   */
  lemma MergePlan(h: seq<nat>, blocks: seq<nat>, i: nat, s: nat, cnt: nat) returns (size: nat)
    requires Tiling(h, blocks) && i < |blocks| && Unpaired(h, blocks, {blocks[i]})
    requires (s == i || s + 1 == i) && i < s + cnt <= |blocks| && (s + cnt == i + 1 || s + cnt == i + 2)
    requires Tagged(h, blocks[s]) && IsFree(h, blocks[s])
    requires cnt > 1 ==> Tagged(h, blocks[s + 1]) && IsFree(h, blocks[s + 1])
    requires cnt > 2 ==> Tagged(h, blocks[s + 2]) && IsFree(h, blocks[s + 2])
    requires s == i && i > 0 ==> Tagged(h, blocks[i - 1]) && !IsFree(h, blocks[i - 1])
    requires s + cnt == i + 1 && i + 1 < |blocks| ==> Tagged(h, blocks[i + 1]) && !IsFree(h, blocks[i + 1])
    requires cnt == 1 ==> SizeAt(h, blocks[i]) >= MIN_BLOCK_SIZE
    ensures size == SizeAt(h, blocks[s]) + (if cnt > 1 then SizeAt(h, blocks[s + 1]) else 0) + (if cnt > 2 then SizeAt(h, blocks[s + 2]) else 0)
    ensures size % DSIZE == 0 && size >= MIN_BLOCK_SIZE && blocks[s] + size / WSIZE == EndOf(h, blocks, s + cnt - 1)
    ensures s > 0 ==> Tagged(h, blocks[s - 1]) && !IsFree(h, blocks[s - 1])
    ensures s + cnt < |blocks| ==> Tagged(h, blocks[s + cnt]) && !IsFree(h, blocks[s + cnt])
  {
    MergeGuards(h, blocks, i, s, cnt);
    size := RunSize(h, blocks, s, cnt);
  }

  /** A free neighbour merged into the run has an allocated block beyond it, or the run would pair two free blocks. */
  lemma MergeGuards(h: seq<nat>, blocks: seq<nat>, i: nat, s: nat, cnt: nat)
    requires Tiling(h, blocks) && i < |blocks| && Unpaired(h, blocks, {blocks[i]})
    requires (s == i || s + 1 == i) && i < s + cnt <= |blocks| && (s + cnt == i + 1 || s + cnt == i + 2)
    requires Tagged(h, blocks[s]) && IsFree(h, blocks[s])
    requires cnt > 1 ==> Tagged(h, blocks[s + 1]) && IsFree(h, blocks[s + 1])
    requires cnt > 2 ==> Tagged(h, blocks[s + 2]) && IsFree(h, blocks[s + 2])
    requires s == i && i > 0 ==> Tagged(h, blocks[i - 1]) && !IsFree(h, blocks[i - 1])
    requires s + cnt == i + 1 && i + 1 < |blocks| ==> Tagged(h, blocks[i + 1]) && !IsFree(h, blocks[i + 1])
    ensures s > 0 ==> Tagged(h, blocks[s - 1]) && !IsFree(h, blocks[s - 1])
    ensures s + cnt < |blocks| ==> Tagged(h, blocks[s + cnt]) && !IsFree(h, blocks[s + cnt])
  {
    if s > 0 {
      BlockBounds(h, blocks, s - 1);
    }
    if s + cnt < |blocks| {
      BlockBounds(h, blocks, s + cnt);
    }
    if s > 0 && s + 1 == i {
      PairApart(h, blocks, i, s - 1);
    }
    if s + cnt < |blocks| && s + cnt == i + 2 {
      PairApart(h, blocks, i, s + cnt - 1);
    }
  }

  /** Two neighbouring blocks away from block `i` are not both free when only block `i` may pair. */
  lemma PairApart(h: seq<nat>, blocks: seq<nat>, i: nat, t: nat)
    requires Tiling(h, blocks) && i < |blocks| && Unpaired(h, blocks, {blocks[i]})
    requires t + 1 < |blocks| && t != i && t + 1 != i
    ensures !(IsFree(h, blocks[t]) && IsFree(h, blocks[t + 1]))
  {
    BlocksApart(h, blocks, t, i);
    BlocksApart(h, blocks, t + 1, i);
  }

  /** The sizes of a run of one to three blocks add up to its length in words. */
  lemma RunSize(h: seq<nat>, blocks: seq<nat>, s: nat, cnt: nat) returns (size: nat)
    requires Tiling(h, blocks) && 0 < cnt <= 3 && s + cnt <= |blocks|
    ensures size == SizeAt(h, blocks[s]) + (if cnt > 1 then SizeAt(h, blocks[s + 1]) else 0) + (if cnt > 2 then SizeAt(h, blocks[s + 2]) else 0)
    ensures size % DSIZE == 0 && blocks[s] + size / WSIZE == EndOf(h, blocks, s + cnt - 1)
    ensures size >= cnt * DSIZE
  {
    BlockBounds(h, blocks, s);
    SizeAligned(h, blocks[s]);
    if cnt == 1 {
      size := SizeAt(h, blocks[s]);
    } else if cnt == 2 {
      BlockBounds(h, blocks, s + 1);
      size := SizeAt(h, blocks[s]) + SizeAt(h, blocks[s + 1]);
      SizesJoin2(h, blocks, s);
    } else {
      BlockBounds(h, blocks, s + 1);
      BlockBounds(h, blocks, s + 2);
      size := SizeAt(h, blocks[s]) + SizeAt(h, blocks[s + 1]) + SizeAt(h, blocks[s + 2]);
      SizesJoin3(h, blocks, s);
    }
  }
}
