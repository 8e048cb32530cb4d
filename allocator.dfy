/**
  The allocator itself: the heap words and the array of list heads as the
  state of one object, and each routine of mm.c as a method that updates
  them in the order the C code does. Ghost fields carry the block sequence
  and the abstract free lists, so every method is specified against the
  heap invariant and the functions of Policy and Merge.
 */
module MM {
  import opened Layout
  import opened Heap
  import opened FreeList
  import opened Invariant
  import opened Steps
  import opened Policy
  import opened Merge
  import opened Transitions
  import opened Coalescing
  import opened Growth
  import opened Frame

  class Allocator {
    /** The heap words, from the alignment pad up to the epilogue header. */
    var heap: seq<nat>
    /** flist: the head of each segregated free list, 0 standing for NULL. */
    const flist: array<nat>
    /** split_flag: whether handle_split_block may split a block. */
    var splitFlag: bool
    /** The most words the memory system hands out before mem_sbrk fails. */
    const capacity: nat
    /** How deep the carried invariant is sealed beyond two levels; any depth will do. */
    ghost const depth: nat
    /** The blocks between prologue and epilogue, in address order. */
    ghost var blocks: seq<nat>
    /** The contents of each free list, from its head. */
    ghost var lists: seq<seq<nat>>

    /**
      The heap invariant, with the blocks of `ex` free but off the lists and
      the size and pairing rules asked of the blocks outside `lax`, carried
      whole through the routines.
     */
    ghost predicate State(ex: set<nat>, lax: set<nat>)
      reads this, flist
    {
      flist.Length == FREE_LIST_SIZE && |lists| == FREE_LIST_SIZE &&
      Sealed(depth + 2, heap, flist[..], blocks, lists, ex, lax)
    }

    /**
      Where a case of coalesce leaves the heap it started from as `h`, `b`
      and `l`: block `s` is the merged block `r`, free but not yet listed,
      and every allocated block has kept its words.
     */
    ghost predicate MergedAt(h: seq<nat>, b: seq<nat>, l: seq<seq<nat>>, i: nat, r: nat, s: nat)
      reads this, flist
    {
      s < |blocks| && blocks[s] == r && State({r}, {}) && Merged(h, b, l, i, r, heap, blocks, lists) &&
      KeepsAllocated(h, b, heap, blocks)
    }

    /** The invariant between calls: every free block is listed. */
    ghost predicate Valid()
      reads this, flist
    {
      State({}, {})
    }

    /** An allocator over an empty memory system of `capacity` words. */
    constructor (capacity: nat)
      ensures this.capacity == capacity && heap == [] && splitFlag
      ensures fresh(flist) && flist.Length == FREE_LIST_SIZE
    {
      this.capacity := capacity;
      depth := 0;
      heap := [];
      flist := new nat[FREE_LIST_SIZE](_ => 0);
      splitFlag := true;
      blocks := [];
      lists := [];
    }

    /**
      mem_sbrk: grow the heap by `incr` bytes of unspecified contents and
      return the old break, the index just past the old heap, or fail with
      -1 past the capacity.
     */
    method MemSbrk(incr: nat) returns (brk: int)
      requires incr % WSIZE == 0
      modifies this`heap
      ensures brk == -1 <==> old(|heap|) + incr / WSIZE > capacity
      ensures brk != -1 ==> brk == old(|heap|) && |heap| == old(|heap|) + incr / WSIZE && heap[..old(|heap|)] == old(heap)
      ensures brk == -1 ==> heap == old(heap)
    {
      if |heap| + incr / WSIZE > capacity {
        return -1;
      }
      brk := |heap|;
      heap := heap + seq(incr / WSIZE, _ => 0);
    }

    /** mm_init: lay down the pad, the prologue and the epilogue, and empty every list. */
    method Init() returns (r: int)
      requires heap == [] && flist.Length == FREE_LIST_SIZE
      modifies this`heap, this`blocks, this`lists, flist
      ensures r == 0 || r == -1
      ensures r == 0 ==> Valid() && heap == [0, PROLOGUE, PROLOGUE, EPILOGUE] && blocks == []
      ensures r == 0 ==> forall k :: 0 <= k < FREE_LIST_SIZE ==> flist[k] == 0 && lists[k] == []
      ensures r == -1 ==> heap == [] && capacity < INITIAL_WORDS && blocks == old(blocks) && lists == old(lists) && flist[..] == old(flist[..])
    {
      var brk := MemSbrk(4 * WSIZE);
      if brk == -1 {
        return -1;
      }
      heap := heap[0 := 0];
      heap := heap[1 := Pack(DSIZE, 1)];
      heap := heap[2 := Pack(DSIZE, 1)];
      heap := heap[3 := Pack(0, 1)];
      var i := 0;
      while i < FREE_LIST_SIZE
        invariant i <= FREE_LIST_SIZE
        invariant forall k :: 0 <= k < i ==> flist[k] == 0
        modifies flist
      {
        flist[i] := 0;
        i := i + 1;
      }
      blocks := [];
      lists := seq(FREE_LIST_SIZE, _ => []);
      assert flist[..] == seq(FREE_LIST_SIZE, _ => 0);
      Seal(depth + 2, heap, flist[..], blocks, lists, {}, {});
      return 0;
    }

    /**
      insert_free_block: `bp` becomes the head of the list of its class, in
      front of the old head, and leaves the exempt set.
     */
    method InsertFreeBlock(bp: nat, ghost i: nat, ghost ex: set<nat>)
      requires State(ex, ex - {bp}) && i < |blocks| && blocks[i] == bp && bp in ex && Tagged(heap, bp) && IsFree(heap, bp)
      modifies this`heap, this`lists, flist
      ensures var k := FlistIndex(SizeAt(old(heap), bp));
        bp + 1 < |old(heap)| && old(flist[k]) < |old(heap)| &&
        heap == Push(old(heap), bp, old(flist[k])) &&
        flist[..] == old(flist[..])[k := bp] &&
        lists == old(lists)[k := [bp] + old(lists)[k]]
      ensures State(ex - {bp}, ex - {bp}) && Kept(old(heap), heap, bp)
      ensures KeepsAllocated(old(heap), blocks, heap, blocks)
    {
      ghost var h0: seq<nat>, heads: seq<nat>, l0: seq<seq<nat>> := heap, flist[..], lists;
      ghost var k := FlistIndex(SizeAt(heap, bp));
      InsertSealed(depth + 2, h0, heads, blocks, l0, ex, i, i);
      InsertFrame(depth + 2, h0, heads, blocks, l0, ex, i);
      var asize := GetSize(heap[bp - 1]);
      var index := GetFlistIndex(asize);
      var first := flist[index];
      if first != 0 {
        heap := heap[first := bp];
        heap := heap[bp + 1 := first];
      } else {
        heap := heap[bp + 1 := 0];
      }
      heap := heap[bp := 0];
      assert heap == Push(h0, bp, heads[k]);
      flist[index] := bp;
      ghost var entry: seq<nat> := [bp] + lists[index];
      lists := lists[index := entry];
      assert flist[..] == heads[k := bp];
    }

    /**
      remove_free_block: unlink the listed block `bp`, entry `j` of list
      `k`, rewiring its neighbours or the head, so that it joins the exempt
      set.
     */
    method RemoveFreeBlock(bp: nat, ghost k: nat, ghost j: nat, ghost ex: set<nat>, ghost lax: set<nat>)
      requires State(ex, lax) && k < FREE_LIST_SIZE && j < |lists[k]| && lists[k][j] == bp
      modifies this`heap, this`lists, flist
      ensures var h := old(heap);
        Tagged(h, bp) && IsFree(h, bp) && SizeAt(h, bp) >= MIN_BLOCK_SIZE && bp in blocks && bp !in ex &&
        Unlinked(h, old(lists), bp, heap, lists) && lists == Drop(old(lists), bp) &&
        |heap| == |h| && Kept(h, heap, bp) && KeepsAllocated(h, blocks, heap, blocks) &&
        flist[..] == if h[bp] == 0 then old(flist[..])[k := h[bp + 1]] else old(flist[..])
      ensures State(ex + {bp}, lax)
    {
      ghost var h0: seq<nat>, heads: seq<nat>, l0: seq<seq<nat>> := heap, flist[..], lists;
      RemoveSealed(depth + 2, h0, heads, blocks, l0, ex, lax, k, j);
      ghost var t :| 0 <= t < |blocks| && blocks[t] == bp;
      RemoveKeeps(depth + 2, h0, heads, blocks, l0, ex, lax, k, j, t);
      RemoveFrame(depth + 2, h0, heads, blocks, l0, ex, lax, k, j);
      var asize := GetSize(heap[bp - 1]);
      var prev := heap[bp];
      var next := heap[bp + 1];
      if prev == 0 {
        var index := GetFlistIndex(asize);
        flist[index] := next;
      }
      // The neighbours' link words: NEXT of prev (when there is one) and PREV of next.
      heap := Unlink(heap, prev, next);
      lists := Drop(lists, bp);
      CloseUnlinked(|h0| + 2, h0, l0, bp, heap, lists);
    }

    /**
      handle_split_block's tag writes: the two PUTs on bp's header and
      footer, then the two on the rest block's, which becomes a block of its
      own.
     */
    method SplitTags(bp: nat, asize: nat, ghost blocks2: seq<nat>)
      requires Tagged(heap, bp) && SizeAt(heap, bp) % DSIZE == 0
      requires asize % DSIZE == 0 && asize >= DSIZE && SizeAt(heap, bp) >= asize + DSIZE
      modifies this`heap, this`blocks
      ensures heap == SplitWords(old(heap), bp, asize) && blocks == blocks2
    {
      ghost var h0 := heap;
      SplitWordsForm(h0, bp, asize);
      var subSize := GetSize(heap[bp - 1]) - asize;
      PackRoundTrip(asize, 0);
      heap := heap[bp - 1 := asize];
      heap := heap[Ftrp(heap, bp) := asize];
      var sub := NextBlkp(heap, bp);
      AlignedDifference(SizeAt(h0, bp), asize);
      heap := heap[sub - 1 := subSize];
      heap := heap[Ftrp(heap, sub) := subSize];
      blocks := blocks2;
    }

    /**
      The splitting branch of handle_split_block: cut the unlisted free
      block `bp` (block `i`) after `asize` bytes and list the rest, which
      goes to the head of the list of its class.
     */
    method SplitFreeBlock(bp: nat, asize: nat, ghost i: nat)
      requires State({bp}, {}) && i < |blocks| && blocks[i] == bp && Tagged(heap, bp) && IsFree(heap, bp)
      requires asize % DSIZE == 0 && asize >= MIN_BLOCK_SIZE && SizeAt(heap, bp) >= asize + MIN_BLOCK_SIZE
      modifies this`heap, this`lists, this`blocks, flist
      ensures SizeAt(old(heap), bp) % DSIZE == 0
      ensures var size := SizeAt(old(heap), bp);
        var sub: nat := bp + asize / WSIZE;
        var c := FlistIndex(size - asize);
        sub + 1 < |old(heap)| && old(flist[c]) < |old(heap)| &&
        heap == Push(SplitWords(old(heap), bp, asize), sub, old(flist[c])) &&
        flist[..] == old(flist[..])[c := sub] &&
        blocks == old(blocks)[..i] + ([bp, sub] + old(blocks)[i + 1..]) &&
        lists == old(lists)[c := [sub] + old(lists)[c]]
      ensures State({bp}, {bp})
      ensures var sub := bp + asize / WSIZE;
        Tagged(heap, bp) && SizeAt(heap, bp) == asize && IsFree(heap, bp) &&
        Tagged(heap, sub) && SizeAt(heap, sub) == SizeAt(old(heap), bp) - asize && IsFree(heap, sub)
      ensures KeepsAllocated(old(heap), old(blocks), heap, blocks)
    {
      ghost var h0: seq<nat>, heads: seq<nat>, b0: seq<nat>, l0: seq<seq<nat>> := heap, flist[..], blocks, lists;
      var sub: nat := bp + asize / WSIZE;
      ghost var blocks2 := SplitSealed(depth + 2, heap, flist[..], blocks, lists, i, bp, asize, sub);
      SplitFrame(depth + 2, heap, flist[..], blocks, lists, i, asize);
      SplitTags(bp, asize, blocks2);
      ghost var h2: seq<nat> := heap;
      assert {bp, sub} - {sub} == {bp};
      InsertFreeBlock(sub, i + 1, {bp, sub});
      InsertSealed(depth + 2, h2, heads, blocks2, l0, {bp, sub}, i + 1, i);
      KeepsTrans(h0, b0, 0, h2, blocks2, heap, blocks);
    }

    /**
      handle_split_block: take the listed block `bp` (entry `j` of list `k`,
      block `i` of the heap) off its list and, when splitting is on and the
      block has room for `asize` bytes and another minimal block, cut it
      there and list the rest. `bp` is returned free and unlisted.
     */
    method HandleSplitBlock(bp: nat, asize: nat, ghost k: nat, ghost j: nat, ghost i: nat) returns (r: nat)
      requires Valid() && k < FREE_LIST_SIZE && j < |lists[k]| && lists[k][j] == bp && i < |blocks| && blocks[i] == bp
      requires asize % DSIZE == 0 && asize >= MIN_BLOCK_SIZE
      modifies this`heap, this`lists, this`blocks, flist
      ensures r == bp && SplitOutcome(old(heap), old(blocks), old(lists), old(splitFlag), bp, i, asize, heap, blocks, lists)
      ensures State({bp}, {bp})
    {
      ghost var h0: seq<nat>, heads: seq<nat>, b0: seq<nat>, l0: seq<seq<nat>> := heap, flist[..], blocks, lists;
      ghost var t := EntryView(depth + 2, h0, heads, blocks, l0, {}, {}, k, j);
      var blockSize := GetSize(heap[bp - 1]);
      assert {} + {bp} == {bp};
      RemoveFreeBlock(bp, k, j, {}, {});
      if !splitFlag {
        LaxWiden(depth + 2, heap, flist[..], blocks, lists, {bp}, {}, {bp});
        SplitOutcomeOf(h0, b0, l0, splitFlag, bp, i, asize, heap, blocks, lists);
        return bp;
      }
      if blockSize < asize + MIN_BLOCK_SIZE {
        LaxWiden(depth + 2, heap, flist[..], blocks, lists, {bp}, {}, {bp});
        SplitOutcomeOf(h0, b0, l0, splitFlag, bp, i, asize, heap, blocks, lists);
        return bp;
      }
      ghost var h1: seq<nat>, l1: seq<seq<nat>> := heap, lists;
      SplitFreeBlock(bp, asize, i);
      SplitCase(h0, b0, l0, bp, i, asize, h1, l1, heap, blocks, lists);
      return bp;
    }

    /**
      find_block: walk list `index` from its head to the first block of at
      least `asize` bytes and hand it to handle_split_block; NULL, with
      nothing changed, when the list has none.
     */
    method FindBlock(index: nat, asize: nat) returns (bp: nat, ghost i: nat)
      requires Valid() && index < FREE_LIST_SIZE && asize % DSIZE == 0 && asize >= MIN_BLOCK_SIZE
      modifies this`heap, this`lists, this`blocks, flist
      ensures ListsInHeap(old(heap), old(lists))
      ensures var l := old(lists)[index];
        var j := FirstFit(old(heap), l, asize);
        if j < |l| then
          bp == l[j] && State({bp}, {bp}) &&
          SplitOutcome(old(heap), old(blocks), old(lists), splitFlag, bp, i, asize, heap, blocks, lists)
        else
          bp == 0 && Valid() && heap == old(heap) && flist[..] == old(flist[..]) && blocks == old(blocks) && lists == old(lists)
    {
      ghost var h0: seq<nat>, heads: seq<nat>, l0: seq<seq<nat>> := heap, flist[..], lists;
      ghost var l := l0[index];
      HeapView(depth + 2, h0, heads, blocks, l0, {}, {});
      HeadView(depth + 2, h0, heads, blocks, l0, {}, {}, index);
      FirstFitSkips(h0, l, asize);
      bp, i := flist[index], 0;
      ghost var j := 0;
      while bp != 0
        invariant heap == h0 && j <= FirstFit(h0, l, asize)
        invariant bp == if j < |l| then l[j] else 0
        decreases |l| - j
        modifies {}
      {
        ghost var t := EntryView(depth + 2, h0, heads, blocks, l0, {}, {}, index, j);
        var blockSize := GetSize(heap[bp - 1]);
        if blockSize >= asize {
          i := t;
          break;
        }
        bp := heap[bp + 1];
        j := j + 1;
      }
      if bp != 0 {
        bp := HandleSplitBlock(bp, asize, index, j, i);
      }
    }

    /**
      find_fit: try find_block on every class from the request's own up;
      the block comes from the first class with a fit, and NULL, with
      nothing changed, means no list has one.
     */
    method FindFit(asize: nat) returns (bp: nat, ghost i: nat)
      requires Valid() && asize % DSIZE == 0 && asize >= MIN_BLOCK_SIZE
      modifies this`heap, this`lists, this`blocks, flist
      ensures FitOutcome(old(heap), old(blocks), old(lists), splitFlag, asize, bp, i, heap, blocks, lists)
      ensures bp != 0 ==> State({bp}, {bp})
      ensures bp == 0 ==> Valid() && flist[..] == old(flist[..])
    {
      HeapView(depth + 2, heap, flist[..], blocks, lists, {}, {});
      bp, i := 0, 0;
      var index := GetFlistIndex(asize);
      FlistIndexBounds(asize);
      while index < FREE_LIST_SIZE
        invariant FlistIndex(asize) <= index <= FREE_LIST_SIZE
        invariant Valid() && heap == old(heap) && flist[..] == old(flist[..]) && blocks == old(blocks) && lists == old(lists)
        invariant FitClass(heap, lists, asize, FlistIndex(asize)) == FitClass(heap, lists, asize, index)
        decreases FREE_LIST_SIZE - index
      {
        bp, i := FindBlock(index, asize);
        if bp != 0 {
          return;
        }
        index := index + 1;
      }
    }

    /** place: mark the unlisted free block `bp` (block `i`) allocated, keeping its size; `asize` is not consulted. */
    method Place(bp: nat, asize: nat, ghost i: nat)
      requires State({bp}, {bp}) && i < |blocks| && blocks[i] == bp && Tagged(heap, bp) && SizeAt(heap, bp) >= MIN_BLOCK_SIZE
      modifies this`heap
      ensures heap == old(heap)[bp - 1 := SizeAt(old(heap), bp) + 1][Ftrp(old(heap), bp) := SizeAt(old(heap), bp) + 1]
      ensures Valid() && Tagged(heap, bp) && SizeAt(heap, bp) == SizeAt(old(heap), bp) && !IsFree(heap, bp)
      ensures KeepsAllocated(old(heap), blocks, heap, blocks)
    {
      PlaceSealed(depth + 2, heap, flist[..], blocks, lists, i);
      PlaceFrame(depth + 2, heap, flist[..], blocks, lists, {bp}, {bp}, i);
      var bsize := GetSize(heap[bp - 1]);
      heap := SetTags(heap, bp, bsize, 1);
    }

    /**
      coalesce: merge the unlisted free block `bp` (block `i`) with whichever
      of its neighbours are free, taking those off their lists first, and
      list the merged block, which is returned. A block under the minimum
      size is accepted when the block before it is free, as extend_heap's
      smallest growth is.
     */
    method Coalesce(bp: nat, ghost i: nat) returns (r: nat)
      requires State({bp}, {bp}) && i < |blocks| && blocks[i] == bp && Tagged(heap, bp) && IsFree(heap, bp)
      requires SizeAt(heap, bp) >= MIN_BLOCK_SIZE || (i > 0 && Tagged(heap, blocks[i - 1]) && IsFree(heap, blocks[i - 1]))
      modifies this`heap, this`lists, this`blocks, flist
      ensures Coalesced(old(heap), old(blocks), old(lists), i, r, heap, blocks, lists)
      ensures Valid()
    {
      ghost var h0: seq<nat>, heads0: seq<nat>, b0: seq<nat>, l0: seq<seq<nat>> := heap, flist[..], blocks, lists;
      ghost var pf, nf, kp, kn := CoalesceView(depth + 1, h0, heads0, b0, l0, i);
      var prev := PrevBlkp(heap, bp);
      var next := NextBlkp(heap, bp);
      var prevAlloc := GetAlloc(heap[Ftrp(heap, prev)]);
      var nextAlloc := GetAlloc(heap[next - 1]);
      var size := GetSize(heap[bp - 1]);
      ghost var s: nat := i;
      if prevAlloc != 0 && nextAlloc != 0 {
        // Case 1: nothing to merge.
        MergeAlone(depth + 1, h0, heads0, b0, l0, i);
        KeepsRefl(h0, b0);
        r := bp;
        assert MergedAt(h0, b0, l0, i, r, s);
      } else if prevAlloc != 0 && nextAlloc == 0 {
        r := CoalesceNext(bp, next, size, i, kn);
      } else if prevAlloc == 0 && nextAlloc != 0 {
        r := CoalescePrev(bp, prev, size, i, kp);
        s := i - 1;
      } else {
        r := CoalesceBoth(bp, prev, next, size, i, kp, kn);
        s := i - 1;
      }
      ListMerged(r, s, h0, b0, l0, i);
    }

    /** The last step of coalesce: the merged block `r`, block `s`, goes to the head of the list of its class. */
    method ListMerged(r: nat, ghost s: nat, ghost h0: seq<nat>, ghost b0: seq<nat>, ghost l0: seq<seq<nat>>, ghost i: nat)
      requires MergedAt(h0, b0, l0, i, r, s)
      modifies this`heap, this`lists, flist
      ensures var k := FlistIndex(SizeAt(old(heap), r));
        r + 1 < |old(heap)| && old(flist[k]) < |old(heap)| &&
        heap == Push(old(heap), r, old(flist[k])) &&
        flist[..] == old(flist[..])[k := r] &&
        lists == old(lists)[k := [r] + old(lists)[k]]
      ensures Coalesced(h0, b0, l0, i, r, heap, blocks, lists) && Valid()
    {
      ghost var hm: seq<nat>, lm: seq<seq<nat>> := heap, lists;
      assert {r} - {r} == {};
      InsertFreeBlock(r, s, {r});
      CoalescedByInsert(h0, b0, l0, i, r, hm, blocks, lm, heap, lists);
    }

    /** Case 2 of coalesce: the block absorbs the free block after it, which leaves its list. */
    method CoalesceNext(bp: nat, next: nat, size: nat, ghost i: nat, ghost kn: nat) returns (r: nat)
      requires State({bp}, {bp}) && Around(heap, blocks, i, false, true) && blocks[i] == bp && blocks[i + 1] == next
      requires size == SizeAt(heap, bp) && kn < FREE_LIST_SIZE && next in lists[kn]
      modifies this`heap, this`lists, this`blocks, flist
      ensures r == bp && MergedAt(old(heap), old(blocks), old(lists), i, r, i)
    {
      ghost var h0: seq<nat>, heads0: seq<nat>, b0: seq<nat>, l0: seq<seq<nat>> := heap, flist[..], blocks, lists;
      ghost var jn :| 0 <= jn < |l0[kn]| && l0[kn][jn] == next;
      RemoveFreeBlock(next, kn, jn, {bp}, {bp});
      ghost var size2 := NextRow(depth + 1, h0, heads0, b0, l0, i, kn, jn, heap, flist[..], lists);
      var asize := size + GetSize(heap[next - 1]);
      assert asize == size2;
      PutNextTags(bp, asize, next, i, kn, jn, h0, heads0, b0, l0);
      r := bp;
    }

    /** The two writes of case 2: the header of the block, then the footer found through it. */
    method PutNextTags(bp: nat, size: nat, ghost next: nat, ghost i: nat, ghost kn: nat, ghost jn: nat,
                       ghost h0: seq<nat>, ghost heads0: seq<nat>, ghost b0: seq<nat>, ghost l0: seq<seq<nat>>)
      requires Around(h0, b0, i, false, true) && b0[i] == bp && b0[i + 1] == next
      requires Sealed(depth + 2, h0, heads0, b0, l0, {bp}, {bp}) && |l0| == FREE_LIST_SIZE
      requires kn < FREE_LIST_SIZE && jn < |l0[kn]| && l0[kn][jn] == next
      requires Unlinked(h0, l0, next, heap, lists)
      requires blocks == b0 && State({bp} + {next}, {bp})
      requires Tagged(heap, bp) && Tagged(heap, next) && size == SizeAt(heap, bp) + SizeAt(heap, next)
      requires size % DSIZE == 0 && size >= MIN_BLOCK_SIZE && bp >= 1 && bp + size / WSIZE - 2 < |heap|
      requires KeepsAllocated(h0, b0, heap, blocks)
      modifies this`heap, this`blocks
      ensures heap == SetTags(old(heap), bp, size, 0)
      ensures MergedAt(h0, b0, l0, i, bp, i)
    {
      ghost var h1: seq<nat>, heads1: seq<nat> := heap, flist[..];
      ghost var size2, b2, h2 := MergeNext(depth + 1, h0, heads0, b0, l0, i, kn, jn, h1, heads1, lists);
      assert size2 == size;
      KeepsTrans(h0, b0, 0, h1, b0, h2, b2);
      heap := SetTags(heap, bp, size, 0);
      blocks := b2;
    }

    /** Case 3 of coalesce: the free block before this one, which leaves its list, absorbs it. */
    method CoalescePrev(bp: nat, prev: nat, size: nat, ghost i: nat, ghost kp: nat) returns (r: nat)
      requires State({bp}, {bp}) && Around(heap, blocks, i, true, false) && blocks[i] == bp && blocks[i - 1] == prev
      requires size == SizeAt(heap, bp) && kp < FREE_LIST_SIZE && prev in lists[kp]
      modifies this`heap, this`lists, this`blocks, flist
      ensures r == prev && MergedAt(old(heap), old(blocks), old(lists), i, r, i - 1)
    {
      ghost var h0: seq<nat>, heads0: seq<nat>, b0: seq<nat>, l0: seq<seq<nat>> := heap, flist[..], blocks, lists;
      ghost var jp :| 0 <= jp < |l0[kp]| && l0[kp][jp] == prev;
      RemoveFreeBlock(prev, kp, jp, {bp}, {bp});
      ghost var size2 := PrevRow(depth + 1, h0, heads0, b0, l0, i, kp, jp, heap, flist[..], lists);
      var asize := size + GetSize(heap[prev - 1]);
      assert asize == size2;
      PutPrevTags(bp, asize, prev, i, kp, jp, h0, heads0, b0, l0);
      r := PrevBlkp(heap, bp);
    }

    /**
      The two writes of case 3: the footer of the block, then the header of
      the previous block, found again through the word before the block.
     */
    method PutPrevTags(bp: nat, size: nat, ghost prev: nat, ghost i: nat, ghost kp: nat, ghost jp: nat,
                       ghost h0: seq<nat>, ghost heads0: seq<nat>, ghost b0: seq<nat>, ghost l0: seq<seq<nat>>)
      requires Around(h0, b0, i, true, false) && b0[i - 1] == prev && b0[i] == bp
      requires Sealed(depth + 2, h0, heads0, b0, l0, {bp}, {bp}) && |l0| == FREE_LIST_SIZE
      requires kp < FREE_LIST_SIZE && jp < |l0[kp]| && l0[kp][jp] == prev
      requires Unlinked(h0, l0, prev, heap, lists)
      requires blocks == b0 && State({bp} + {prev}, {bp})
      requires Tagged(heap, prev) && Tagged(heap, bp) && size == SizeAt(heap, prev) + SizeAt(heap, bp)
      requires KeepsAllocated(h0, b0, heap, blocks)
      modifies this`heap, this`blocks
      ensures heap == old(heap)[prev - 1 := size][NextBlkp(old(heap), bp) - 2 := size] && PrevBlkp(heap, bp) == prev
      ensures MergedAt(h0, b0, l0, i, prev, i - 1)
    {
      ghost var h1: seq<nat>, heads1: seq<nat> := heap, flist[..];
      ghost var size2, b2, h2 := MergePrev(depth + 1, h0, heads0, b0, l0, i, kp, jp, h1, heads1, lists);
      KeepsTrans(h0, b0, 0, h1, b0, h2, b2);
      ghost var hw := PrevWrites(heap, prev, bp, size);
      var hs := heap;
      var w := Pack(size, 0);
      var f := Ftrp(hs, bp);
      hs := hs[f := w];
      var p := PrevBlkp(hs, bp);
      hs := hs[p - 1 := w];
      heap := hs;
      blocks := b2;
    }

    /** Case 4 of coalesce: both neighbours leave their lists and the previous block absorbs the other two. */
    method CoalesceBoth(bp: nat, prev: nat, next: nat, size: nat, ghost i: nat, ghost kp: nat, ghost kn: nat) returns (r: nat)
      requires State({bp}, {bp}) && Around(heap, blocks, i, true, true)
      requires blocks[i - 1] == prev && blocks[i] == bp && blocks[i + 1] == next && size == SizeAt(heap, bp)
      requires kp < FREE_LIST_SIZE && prev in lists[kp] && kn < FREE_LIST_SIZE && next in lists[kn]
      modifies this`heap, this`lists, this`blocks, flist
      ensures r == prev && MergedAt(old(heap), old(blocks), old(lists), i, r, i - 1)
    {
      ghost var h0: seq<nat>, heads0: seq<nat>, b0: seq<nat>, l0: seq<seq<nat>> := heap, flist[..], blocks, lists;
      ghost var jp :| 0 <= jp < |l0[kp]| && l0[kp][jp] == prev;
      RemoveFreeBlock(prev, kp, jp, {bp}, {bp});
      ghost var h1: seq<nat>, heads1: seq<nat>, l1: seq<seq<nat>> := heap, flist[..], lists;
      ghost var jn := StillListed(l0, kn, next, prev);
      RemoveFreeBlock(next, kn, jn, {bp} + {prev}, {bp});
      ghost var h2: seq<nat>, heads2: seq<nat>, l2: seq<seq<nat>> := heap, flist[..], lists;
      KeepsTrans(h0, b0, 0, h1, b0, h2, b0);
      ghost var size2 := BothRow(depth + 1, h0, heads0, b0, l0, i, kp, jp, h1, heads1, l1, kn, jn, h2, heads2, l2);
      var asize := size + GetSize(heap[prev - 1]) + GetSize(heap[Ftrp(heap, next)]);
      assert asize == size2;
      PutBothTags(bp, asize, prev, next, i, kp, jp, kn, jn, h0, heads0, b0, l0, h1, heads1, l1);
      r := PrevBlkp(heap, bp);
    }

    /**
      The two writes of case 4: the header of the previous block, then the
      footer of the next one, found through that new header.
     */
    method PutBothTags(bp: nat, size: nat, ghost prev: nat, ghost next: nat, ghost i: nat, ghost kp: nat, ghost jp: nat, ghost kn: nat, ghost jn: nat,
                       ghost h0: seq<nat>, ghost heads0: seq<nat>, ghost b0: seq<nat>, ghost l0: seq<seq<nat>>,
                       ghost h1: seq<nat>, ghost heads1: seq<nat>, ghost l1: seq<seq<nat>>)
      requires Around(h0, b0, i, true, true) && b0[i - 1] == prev && b0[i] == bp && b0[i + 1] == next
      requires Sealed(depth + 2, h0, heads0, b0, l0, {bp}, {bp}) && |l0| == FREE_LIST_SIZE
      requires kp < FREE_LIST_SIZE && jp < |l0[kp]| && l0[kp][jp] == prev
      requires Unlinked(h0, l0, prev, h1, l1)
      requires Sealed(depth + 2, h1, heads1, b0, l1, {bp} + {prev}, {bp})
      requires |l1| == FREE_LIST_SIZE && kn < FREE_LIST_SIZE && jn < |l1[kn]| && l1[kn][jn] == next
      requires Unlinked(h1, l1, next, heap, lists)
      requires blocks == b0 && State({bp} + {prev} + {next}, {bp})
      requires InRow(heap, prev, bp, next, size) && KeepsAllocated(h0, b0, heap, blocks)
      modifies this`heap, this`blocks
      ensures heap == old(heap)[prev - 1 := size][NextBlkp(old(heap), next) - 2 := size] && PrevBlkp(heap, bp) == prev
      ensures MergedAt(h0, b0, l0, i, prev, i - 1)
    {
      ghost var h2: seq<nat>, heads2: seq<nat> := heap, flist[..];
      ghost var h3 := BothWrites(heap, prev, bp, next, size);
      ghost var b2 := BothDone(depth + 1, h0, heads0, b0, l0, i, kp, jp, h1, heads1, l1, kn, jn, h2, heads2, lists, size, h3);
      KeepsTrans(h0, b0, 0, h2, b0, h3, b2);
      var hs := heap;
      var w := Pack(size, 0);
      var p := PrevBlkp(hs, bp);
      hs := hs[p - 1 := w];
      var nx := NextBlkp(hs, bp);
      var f := Ftrp(hs, nx);
      hs := hs[f := w];
      heap := hs;
      blocks := b2;
    }

    /**
      extend_heap's three PUTs on the heap `h0` grown by `size` bytes: the new
      block's header over the old epilogue, its footer, and the new epilogue
      after it. The new block joins the blocks, free and not yet listed.
     */
    method PutExtendTags(bp: nat, size: nat, ghost h0: seq<nat>)
      requires flist.Length == FREE_LIST_SIZE && |lists| == FREE_LIST_SIZE && Sealed(depth + 2, h0, flist[..], blocks, lists, {}, {})
      requires size % DSIZE == 0 && size >= DSIZE && 1 <= bp == |h0| && |heap| == |h0| + size / WSIZE && heap[..|h0|] == h0
      modifies this`heap, this`blocks
      ensures heap == old(heap)[bp - 1 := size][bp + size / WSIZE - 2 := size][bp + size / WSIZE - 1 := EPILOGUE]
      ensures blocks == old(blocks) + [bp] && State({bp}, {bp})
      ensures Tagged(heap, bp) && SizeAt(heap, bp) == size && IsFree(heap, bp) && NextBlkp(heap, bp) == |heap|
      ensures |old(blocks)| > 0 ==> Kept(h0, heap, old(blocks)[|old(blocks)| - 1])
      ensures KeepsAllocated(h0, old(blocks), heap, blocks)
    {
      ghost var h1: seq<nat> := heap;
      PackRoundTrip(size, 0);
      heap := heap[bp - 1 := Pack(size, 0)];
      heap := heap[Ftrp(heap, bp) := Pack(size, 0)];
      heap := heap[NextBlkp(heap, bp) - 1 := Pack(0, 1)];
      ExtendSealed(depth + 2, h0, h1, heap, flist[..], blocks, lists, size);
      ExtendFrame(depth + 2, h0, h1, heap, flist[..], blocks, lists, size);
      blocks := blocks + [bp];
    }

    /**
      extend_heap: grow the heap by `words` words rounded up to an even
      number, make the old epilogue and the new words one free block `g`
      shows, with a new epilogue after it, and coalesce that block with a
      free block before it. NULL, with nothing changed, when the memory
      system has no room. The new block must be a minimal block or follow a
      free one, as every call mm_malloc makes ensures.
     */
    method ExtendHeap(words: nat) returns (bp: nat, ghost g: seq<nat>)
      requires Valid() && words > 0
      requires ExtendBytes(words) >= MIN_BLOCK_SIZE || (|blocks| > 0 && Tagged(heap, blocks[|blocks| - 1]) && IsFree(heap, blocks[|blocks| - 1]))
      modifies this`heap, this`lists, this`blocks, flist
      ensures Valid()
      ensures bp == 0 <==> |old(heap)| + ExtendBytes(words) / WSIZE > capacity
      ensures bp == 0 ==> heap == old(heap) && flist[..] == old(flist[..]) && blocks == old(blocks) && lists == old(lists)
      ensures bp != 0 ==> var L := |old(heap)|;
        Tagged(g, L) && SizeAt(g, L) == ExtendBytes(words) && IsFree(g, L) && NextBlkp(g, L) == |g| &&
        (|old(blocks)| > 0 ==> Kept(old(heap), g, old(blocks)[|old(blocks)| - 1])) &&
        Coalesced(g, old(blocks) + [L], old(lists), |old(blocks)|, bp, heap, blocks, lists)
      ensures bp != 0 ==> KeepsAllocated(old(heap), old(blocks), heap, blocks)
    {
      ghost var h0: seq<nat>, heads: seq<nat>, b0: seq<nat>, l0: seq<seq<nat>> := heap, flist[..], blocks, lists;
      HeapView(depth + 2, h0, heads, b0, l0, {}, {});
      var size := if words % 2 == 1 then (words + 1) * WSIZE else words * WSIZE;
      assert size == ExtendBytes(words);
      var brk := MemSbrk(size);
      if brk == -1 {
        return 0, heap;
      }
      bp, g := ExtendFresh(brk, size, h0, b0, l0);
    }

    /**
      The rest of extend_heap once the memory system has handed out the
      words from `brk` on: the new free block `g` shows, then coalesce.
     */
    method ExtendFresh(brk: nat, size: nat, ghost h0: seq<nat>, ghost b0: seq<nat>, ghost l0: seq<seq<nat>>) returns (bp: nat, ghost g: seq<nat>)
      requires flist.Length == FREE_LIST_SIZE && |lists| == FREE_LIST_SIZE && Sealed(depth + 2, h0, flist[..], blocks, lists, {}, {})
      requires blocks == b0 && lists == l0
      requires size % DSIZE == 0 && size >= DSIZE && 1 <= brk == |h0| && |heap| == |h0| + size / WSIZE && heap[..|h0|] == h0
      requires size >= MIN_BLOCK_SIZE || (|b0| > 0 && Tagged(h0, b0[|b0| - 1]) && IsFree(h0, b0[|b0| - 1]))
      modifies this`heap, this`lists, this`blocks, flist
      ensures Valid() && bp != 0
      ensures Tagged(g, brk) && SizeAt(g, brk) == size && IsFree(g, brk) && NextBlkp(g, brk) == |g| &&
        (|b0| > 0 ==> Kept(h0, g, b0[|b0| - 1])) &&
        Coalesced(g, b0 + [brk], l0, |b0|, bp, heap, blocks, lists)
      ensures KeepsAllocated(h0, b0, heap, blocks)
    {
      PutExtendTags(brk, size, h0);
      g := heap;
      bp := Coalesce(brk, |b0|);
      CoalescedAfter(h0, b0, g, b0 + [|h0|], l0, |b0|, bp, heap, blocks, lists, 0);
    }

    /**
      mm_free: NULL changes nothing; otherwise the allocated block `bp`
      (block `i`) is marked free, header then footer, and coalesced, which
      lists the merged block `r`.
     */
    method Free(bp: nat, ghost i: nat) returns (ghost r: nat)
      requires Valid()
      requires bp != 0 ==> i < |blocks| && blocks[i] == bp && Tagged(heap, bp) && !IsFree(heap, bp)
      modifies this`heap, this`lists, this`blocks, flist
      ensures Valid()
      ensures bp == 0 ==> heap == old(heap) && flist[..] == old(flist[..]) && blocks == old(blocks) && lists == old(lists)
      ensures bp != 0 ==>
        SizeAt(old(heap), bp) % DSIZE == 0 && bp + SizeAt(old(heap), bp) / WSIZE - 2 < |old(heap)| &&
        Coalesced(SetTags(old(heap), bp, SizeAt(old(heap), bp), 0), old(blocks), old(lists), i, r, heap, blocks, lists)
      ensures bp != 0 ==> KeepsAllocatedBut(old(heap), old(blocks), bp, heap, blocks)
    {
      if bp == 0 {
        return 0;
      }
      ghost var h0: seq<nat>, b0: seq<nat>, l0: seq<seq<nat>> := heap, blocks, lists;
      FreeSealed(depth + 2, heap, flist[..], blocks, lists, i);
      FreedFrame(depth + 2, heap, flist[..], blocks, lists, i);
      var size := GetSize(heap[bp - 1]);
      heap := SetTags(heap, bp, size, 0);
      ghost var h1 := heap;
      r := Coalesce(bp, i);
      CoalescedAfter(h0, b0, h1, b0, l0, i, r, heap, blocks, lists, bp);
    }

    /**
      mm_malloc: NULL for a request of 0 bytes, or of so many that the
      adjustment would not fit in a size_t, or when no list has a fit and the
      heap cannot grow; otherwise an allocated block `bp` (block `i`) of at
      least the adjusted size, taken from the lists or made by growing the
      heap. NULL changes nothing.
     */
    method Malloc(size: nat) returns (bp: nat, ghost i: nat)
      requires Valid() && size < SIZE_T_MOD
      modifies this`heap, this`lists, this`blocks, flist
      ensures Valid()
      ensures bp == 0 <==>
        size == 0 || size + DSIZE + (DSIZE - 1) >= SIZE_T_MOD || OutOfMemory(old(heap), old(lists), AdjustSize(size), capacity)
      ensures bp == 0 ==> heap == old(heap) && flist[..] == old(flist[..]) && blocks == old(blocks) && lists == old(lists)
      ensures bp != 0 ==> i < |blocks| && blocks[i] == bp && Tagged(heap, bp) && !IsFree(heap, bp) && SizeAt(heap, bp) >= AdjustSize(size)
      ensures bp != 0 ==> KeepsAllocated(old(heap), old(blocks), heap, blocks) && !Allocated(old(heap), old(blocks), bp)
    {
      if size == 0 {
        return 0, 0;
      }
      if size + DSIZE + (DSIZE - 1) >= SIZE_T_MOD {
        return 0, 0;
      }
      var asize := AdjustSize(size);
      AdjustSizeSpec(size);
      ghost var h0: seq<nat>, heads0: seq<nat>, b0: seq<nat>, l0: seq<seq<nat>> := heap, flist[..], blocks, lists;
      bp, i := FindFit(asize);
      FitView(depth + 2, h0, heads0, b0, l0, asize, splitFlag, bp, i, heap, blocks, lists);
      if bp != 0 {
        ghost var h1: seq<nat>, b1: seq<nat> := heap, blocks;
        Place(bp, asize, i);
        KeepsTrans(h0, b0, 0, h1, b1, heap, blocks);
        return;
      }
      bp, i := ExtendAndPlace(asize);
    }

    /**
      The rest of mm_malloc once find_fit has come back empty: grow the heap
      by what get_extend_size asks for, cut the block extend_heap returns to
      `asize` bytes when it has room to spare, and mark it allocated. The
      guard before handle_split_block always holds. NULL, with nothing
      changed, when the heap cannot grow.
     */
    method ExtendAndPlace(asize: nat) returns (bp: nat, ghost i: nat)
      requires Valid() && asize % DSIZE == 0 && asize >= MIN_BLOCK_SIZE && asize < SIZE_T_MOD
      requires ListsInHeap(heap, lists) && FitClass(heap, lists, asize, FlistIndex(asize)) == FREE_LIST_SIZE
      modifies this`heap, this`lists, this`blocks, flist
      ensures Valid()
      ensures bp == 0 <==> OutOfMemory(old(heap), old(lists), asize, capacity)
      ensures bp == 0 ==> heap == old(heap) && flist[..] == old(flist[..]) && blocks == old(blocks) && lists == old(lists)
      ensures bp != 0 ==> i < |blocks| && blocks[i] == bp && Tagged(heap, bp) && !IsFree(heap, bp) && SizeAt(heap, bp) >= asize
      ensures bp != 0 ==> KeepsAllocated(old(heap), old(blocks), heap, blocks) && !Allocated(old(heap), old(blocks), bp)
    {
      ghost var h0: seq<nat>, b0: seq<nat> := heap, blocks;
      bp, i := ExtendForFit(asize);
      if bp == 0 {
        return;
      }
      ghost var h1: seq<nat>, b1: seq<nat> := heap, blocks;
      bp := SplitAndPlace(bp, asize, i);
      KeepsTrans(h0, b0, 0, h1, b1, heap, blocks);
    }

    /**
      The growth half of that tail: extend_heap by get_extend_size, whose
      coalesced block `bp` (block `i`) is free, heads its list, has at least
      `asize` bytes, and was the free last block or begins at the old break,
      so it is no block a client holds.
     */
    method ExtendForFit(asize: nat) returns (bp: nat, ghost i: nat)
      requires Valid() && asize % DSIZE == 0 && asize >= MIN_BLOCK_SIZE && asize < SIZE_T_MOD
      requires ListsInHeap(heap, lists) && FitClass(heap, lists, asize, FlistIndex(asize)) == FREE_LIST_SIZE
      modifies this`heap, this`lists, this`blocks, flist
      ensures Valid()
      ensures bp == 0 <==> OutOfMemory(old(heap), old(lists), asize, capacity)
      ensures bp == 0 ==> heap == old(heap) && flist[..] == old(flist[..]) && blocks == old(blocks) && lists == old(lists)
      ensures bp != 0 ==> i < |blocks| && blocks[i] == bp && Tagged(heap, bp) && IsFree(heap, bp) && SizeAt(heap, bp) >= asize
      ensures bp != 0 ==> var k := FlistIndex(SizeAt(heap, bp)); |lists| == FREE_LIST_SIZE && 0 < |lists[k]| && lists[k][0] == bp
      ensures bp != 0 ==> KeepsAllocated(old(heap), old(blocks), heap, blocks) && !Allocated(old(heap), old(blocks), bp)
    {
      ghost var h0: seq<nat>, heads0: seq<nat>, b0: seq<nat>, l0: seq<seq<nat>> := heap, flist[..], blocks, lists;
      ExtendSizeFits(depth + 2, h0, heads0, b0, l0, asize);
      NotAllocated(depth + 2, h0, heads0, b0, l0, |h0|);
      if IsFree(h0, LastBlkp(h0)) {
        NotAllocated(depth + 2, h0, heads0, b0, l0, LastBlkp(h0));
      }
      var extendSize := ExtendSize(heap, asize);
      ghost var g: seq<nat>;
      bp, g := ExtendHeap(extendSize / WSIZE);
      if bp == 0 {
        return 0, 0;
      }
      i := GrowthMerged(h0, b0, l0, asize, g, bp, heap, blocks, lists);
    }

    /**
      The end of mm_malloc on the block `bp` (block `i`) extend_heap
      returned, free and at the head of its list: handle_split_block when it
      holds at least `asize` bytes, which it always does, then place. The
      block keeps its place and ends allocated, cut to `asize` bytes when
      splitting is on and it had room for another minimal block.
     */
    method SplitAndPlace(bp: nat, asize: nat, ghost i: nat) returns (r: nat)
      requires Valid() && asize % DSIZE == 0 && asize >= MIN_BLOCK_SIZE
      requires i < |blocks| && blocks[i] == bp && Tagged(heap, bp) && IsFree(heap, bp) && SizeAt(heap, bp) >= asize
      requires var k := FlistIndex(SizeAt(heap, bp)); |lists| == FREE_LIST_SIZE && 0 < |lists[k]| && lists[k][0] == bp
      modifies this`heap, this`lists, this`blocks, flist
      ensures Valid() && r == bp && i < |blocks| && blocks[i] == bp && Tagged(heap, bp) && !IsFree(heap, bp)
      ensures SizeAt(heap, bp) == if splitFlag && SizeAt(old(heap), bp) >= asize + MIN_BLOCK_SIZE then asize else SizeAt(old(heap), bp)
      ensures KeepsAllocated(old(heap), old(blocks), heap, blocks)
    {
      ghost var h0: seq<nat>, b0: seq<nat> := heap, blocks;
      r := bp;
      var blockSize := GetSize(heap[bp - 1]);
      if blockSize >= asize {
        ghost var h1: seq<nat>, b1: seq<nat>, l1: seq<seq<nat>> := heap, blocks, lists;
        r := HandleSplitBlock(bp, asize, FlistIndex(blockSize), 0, i);
        SplitKeepsPlace(h1, b1, l1, splitFlag, bp, i, asize, heap, blocks, lists);
      } else {
        assert false;
      }
      ghost var h2: seq<nat>, b2: seq<nat> := heap, blocks;
      Place(r, asize, i);
      KeepsTrans(h0, b0, 0, h2, b2, heap, blocks);
    }
  }
}
