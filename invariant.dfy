/**
  The heap invariant that mm_check leaves as a stub, split into its parts.
  `ex` is the set of blocks that are free but deliberately not on any list
  for the moment: the block being freed before coalesce inserts it, the
  block just taken off a list before place marks it, the blocks coalesce
  has unlinked before it merges them, and the block extend_heap has just
  made.
 */
module Invariant {
  import opened Layout
  import opened Heap
  import opened FreeList

  /** Every block outside `ex` is at least MIN_BLOCK_SIZE long. */
  ghost predicate Sized(h: seq<nat>, blocks: seq<nat>, ex: set<nat>)
    requires Tiling(h, blocks)
  {
    forall i :: 0 <= i < |blocks| && blocks[i] !in ex ==> SizeAt(h, blocks[i]) >= MIN_BLOCK_SIZE
  }

  /** No two neighbouring blocks are both free, unless one of them is in `ex`. */
  ghost predicate Unpaired(h: seq<nat>, blocks: seq<nat>, ex: set<nat>)
    requires Tiling(h, blocks)
  {
    forall i, j :: 0 <= i && j == i + 1 && j < |blocks| && IsFree(h, blocks[i]) && IsFree(h, blocks[j]) ==>
      blocks[i] in ex || blocks[j] in ex
  }

  /** Every listed block is a free block of the heap outside `ex`, big enough for its links, in the list of its size class. */
  ghost predicate Filed(h: seq<nat>, blocks: seq<nat>, lists: seq<seq<nat>>, ex: set<nat>)
    requires Tiling(h, blocks) && |lists| == FREE_LIST_SIZE
  {
    forall k, j :: 0 <= k < FREE_LIST_SIZE && 0 <= j < |lists[k]| ==>
      lists[k][j] in blocks && lists[k][j] !in ex && Tagged(h, lists[k][j]) &&
      IsFree(h, lists[k][j]) && SizeAt(h, lists[k][j]) >= MIN_BLOCK_SIZE &&
      FlistIndex(SizeAt(h, lists[k][j])) == k
  }

  /** Every free block outside `ex` is on the list of its size class. */
  ghost predicate Complete(h: seq<nat>, blocks: seq<nat>, lists: seq<seq<nat>>, ex: set<nat>)
    requires Tiling(h, blocks) && |lists| == FREE_LIST_SIZE
  {
    forall i :: 0 <= i < |blocks| && blocks[i] !in ex && IsFree(h, blocks[i]) ==>
      blocks[i] in lists[FlistIndex(SizeAt(h, blocks[i]))]
  }

  /** The parts of the invariant that read only the boundary tags. */
  ghost predicate Shape(h: seq<nat>, blocks: seq<nat>, lists: seq<seq<nat>>, ex: set<nat>)
  {
    Tiling(h, blocks) && |lists| == FREE_LIST_SIZE &&
    Sized(h, blocks, ex) && Unpaired(h, blocks, ex) && Filed(h, blocks, lists, ex) && Complete(h, blocks, lists, ex)
  }

  /** The heap invariant: the tags tile the heap and agree with the free lists, and the lists are linked. */
  ghost predicate HeapInv(h: seq<nat>, heads: seq<nat>, blocks: seq<nat>, lists: seq<seq<nat>>, ex: set<nat>)
  {
    Shape(h, blocks, lists, ex) && Linked(h, heads, lists)
  }

  /** `h2` holds the same sentinels and the same header and footer words of every block as `h`. */
  ghost predicate SameTags(h: seq<nat>, h2: seq<nat>, blocks: seq<nat>)
    requires Tiling(h, blocks)
  {
    |h2| == |h| && h2[1] == h[1] && h2[2] == h[2] && h2[|h| - 1] == h[|h| - 1] &&
    forall i :: 0 <= i < |blocks| ==>
      h2[blocks[i] - 1] == h[blocks[i] - 1] && h2[Ftrp(h, blocks[i])] == h[Ftrp(h, blocks[i])]
  }

  /** Keeping the tags keeps the tiling and every block's size and allocated bit. */
  lemma SameTagsTiling(h: seq<nat>, h2: seq<nat>, blocks: seq<nat>)
    requires Tiling(h, blocks) && SameTags(h, h2, blocks)
    ensures Tiling(h2, blocks)
    ensures forall i :: 0 <= i < |blocks| ==>
      SizeAt(h2, blocks[i]) == SizeAt(h, blocks[i]) && IsFree(h2, blocks[i]) == IsFree(h, blocks[i])
  {
    forall i | 0 <= i < |blocks|
      ensures Tagged(h2, blocks[i]) && SizeAt(h2, blocks[i]) == SizeAt(h, blocks[i])
    {
      BlockBounds(h, blocks, i);
    }
  }

  /** Keeping the tags keeps block `t` tagged, with its size and allocated bit. */
  lemma SameTagsBlock(h: seq<nat>, h2: seq<nat>, blocks: seq<nat>, t: nat)
    requires Tiling(h, blocks) && SameTags(h, h2, blocks) && t < |blocks|
    ensures Tagged(h2, blocks[t]) && SizeAt(h2, blocks[t]) == SizeAt(h, blocks[t])
    ensures IsFree(h2, blocks[t]) == IsFree(h, blocks[t])
  {
    SameTagsTiling(h, h2, blocks);
    BlockBounds(h2, blocks, t);
  }

  /** Keeping the tags keeps everything the invariant says about them. */
  lemma SameTagsShape(h: seq<nat>, h2: seq<nat>, blocks: seq<nat>, lists: seq<seq<nat>>, ex: set<nat>)
    requires Shape(h, blocks, lists, ex) && SameTags(h, h2, blocks)
    ensures Shape(h2, blocks, lists, ex)
  {
    SameTagsTiling(h, h2, blocks);
    forall k, j | 0 <= k < FREE_LIST_SIZE && 0 <= j < |lists[k]|
      ensures Tagged(h2, lists[k][j]) && SizeAt(h2, lists[k][j]) == SizeAt(h, lists[k][j]) &&
        IsFree(h2, lists[k][j]) == IsFree(h, lists[k][j])
    {
      var t :| 0 <= t < |blocks| && blocks[t] == lists[k][j];
      BlockBounds(h2, blocks, t);
    }
  }

  /** A write strictly inside the payload of a block of at least four words touches no tag. */
  lemma InteriorWrite(h: seq<nat>, blocks: seq<nat>, i: nat, p: nat, v: nat)
    requires Tiling(h, blocks) && i < |blocks|
    requires SizeAt(h, blocks[i]) >= MIN_BLOCK_SIZE && blocks[i] <= p <= blocks[i] + 1
    ensures p < |h| && SameTags(h, h[p := v], blocks)
  {
    BlockBounds(h, blocks, i);
    forall t | 0 <= t < |blocks|
      ensures p != blocks[t] - 1 && p != Ftrp(h, blocks[t])
    {
      BlockBounds(h, blocks, t);
      if t != i {
        SpansDisjoint(h, blocks, i, t);
      }
    }
  }

  /** Word `p` is no link word of any listed block. */
  ghost predicate AllClear(lists: seq<seq<nat>>, p: nat)
  {
    forall k :: 0 <= k < |lists| ==> Clear(lists[k], p)
  }

  /** A write to a word that is no link word of any listed block keeps the lists linked. */
  lemma LinkedWrite(h: seq<nat>, heads: seq<nat>, lists: seq<seq<nat>>, p: nat, v: nat)
    requires Linked(h, heads, lists) && p < |h| && AllClear(lists, p)
    ensures Linked(h[p := v], heads, lists)
  {
    forall k | 0 <= k < FREE_LIST_SIZE
      ensures Chain(h[p := v], heads[k], lists[k])
    {
      ChainWrite(h, heads[k], lists[k], p, v);
    }
  }

  /**
    No word of the span of a block that is off the lists (because it is in
    `ex` or allocated) is a link word of a listed block.
   */
  lemma SpanClear(h: seq<nat>, blocks: seq<nat>, lists: seq<seq<nat>>, ex: set<nat>, i: nat, p: nat)
    requires Shape(h, blocks, lists, ex) && i < |blocks|
    requires blocks[i] in ex || !IsFree(h, blocks[i])
    requires blocks[i] - 1 <= p < NextBlkp(h, blocks[i]) - 1
    ensures AllClear(lists, p)
  {
    forall k, j | 0 <= k < FREE_LIST_SIZE && 0 <= j < |lists[k]|
      ensures lists[k][j] != p && lists[k][j] + 1 != p
    {
      var t :| 0 <= t < |blocks| && blocks[t] == lists[k][j];
      assert t != i;
      BlockBounds(h, blocks, t);
      SpansDisjoint(h, blocks, i, t);
    }
    forall k | 0 <= k < FREE_LIST_SIZE
      ensures Clear(lists[k], p)
    {
      forall j | 0 <= j < |lists[k]|
        ensures lists[k][j] != p && lists[k][j] + 1 != p
      {
      }
    }
  }

  /** The block index of a listed block. */
  lemma ListedIndex(h: seq<nat>, blocks: seq<nat>, lists: seq<seq<nat>>, ex: set<nat>, k: nat, j: nat) returns (t: nat)
    requires Shape(h, blocks, lists, ex) && k < FREE_LIST_SIZE && j < |lists[k]|
    ensures t < |blocks| && blocks[t] == lists[k][j]
    ensures SizeAt(h, blocks[t]) >= MIN_BLOCK_SIZE && IsFree(h, blocks[t]) && blocks[t] !in ex
  {
    assert lists[k][j] in blocks;
    t :| 0 <= t < |blocks| && blocks[t] == lists[k][j];
  }

  /** Keeping the tags is transitive. */
  lemma SameTagsTrans(h: seq<nat>, h1: seq<nat>, h2: seq<nat>, blocks: seq<nat>)
    requires Tiling(h, blocks) && SameTags(h, h1, blocks)
    requires Tiling(h1, blocks) && SameTags(h1, h2, blocks)
    ensures SameTags(h, h2, blocks)
  {
    SameTagsTiling(h, h1, blocks);
  }

  /** A write to a link word of a listed block keeps every tag. */
  lemma LinkWordWrite(h: seq<nat>, blocks: seq<nat>, lists: seq<seq<nat>>, ex: set<nat>, k: nat, j: nat, p: nat, v: nat)
    requires Shape(h, blocks, lists, ex) && k < FREE_LIST_SIZE && j < |lists[k]|
    requires lists[k][j] <= p <= lists[k][j] + 1
    ensures p < |h| && SameTags(h, h[p := v], blocks) && Shape(h[p := v], blocks, lists, ex)
  {
    var t := ListedIndex(h, blocks, lists, ex, k, j);
    InteriorWrite(h, blocks, t, p, v);
    SameTagsShape(h, h[p := v], blocks, lists, ex);
  }

  /** Entries of a list with one entry cut out are entries of the whole list, other than the cut one. */
  lemma CutEntry(lists: seq<seq<nat>>, k: nat, j: nat, m: nat)
    requires Sparse(lists) && k < |lists| && j < |lists[k]| && m + 1 < |lists[k]|
    ensures var l2 := lists[k][..j] + lists[k][j + 1..];
      m < |l2| && l2[m] == lists[k][if m >= j then m + 1 else m] && l2[m] != lists[k][j]
  {
    CutAt(lists[k], j, m);
    assert Gap(lists, k, j, k, if m >= j then m + 1 else m);
  }

  /** An entry other than the cut one stays in the list. */
  lemma CutKeeps(l: seq<nat>, j: nat, x: nat)
    requires j < |l| && x in l && x != l[j]
    ensures x in l[..j] + l[j + 1..]
  {
    var m :| 0 <= m < |l| && l[m] == x;
    if m < j {
      assert (l[..j] + l[j + 1..])[m] == x;
    } else {
      assert (l[..j] + l[j + 1..])[m - 1] == x;
    }
  }

  /** Taking entry `j` out of list `k` and exempting it keeps the tag-level invariant. */
  lemma ShapeCut(h: seq<nat>, blocks: seq<nat>, lists: seq<seq<nat>>, ex: set<nat>, k: nat, j: nat)
    requires Shape(h, blocks, lists, ex) && Sparse(lists) && k < FREE_LIST_SIZE && j < |lists[k]|
    ensures Shape(h, blocks, lists[k := lists[k][..j] + lists[k][j + 1..]], ex + {lists[k][j]})
  {
    var l := lists[k];
    var b := l[j];
    var lists2 := lists[k := l[..j] + l[j + 1..]];
    forall c, m | 0 <= c < FREE_LIST_SIZE && 0 <= m < |lists2[c]|
      ensures lists2[c][m] in lists[c] && lists2[c][m] != b
    {
      if c == k {
        CutEntry(lists, k, j, m);
      } else {
        assert lists2[c][m] == lists[c][m];
        if j < |lists[c]| {
          assert Gap(lists, k, j, c, m);
        }
      }
    }
    assert Filed(h, blocks, lists2, ex + {b});
    forall i | 0 <= i < |blocks| && blocks[i] !in ex + {b} && IsFree(h, blocks[i])
      ensures blocks[i] in lists2[FlistIndex(SizeAt(h, blocks[i]))]
    {
      if FlistIndex(SizeAt(h, blocks[i])) == k {
        CutKeeps(l, j, blocks[i]);
      }
    }
  }

  /** remove_free_block's two link writes touch no tag. */
  lemma UnlinkTags(h: seq<nat>, blocks: seq<nat>, lists: seq<seq<nat>>, ex: set<nat>, k: nat, j: nat)
    requires Shape(h, blocks, lists, ex) && k < FREE_LIST_SIZE && j < |lists[k]|
    requires PrevOf(lists[k], j) != 0 ==> PrevOf(lists[k], j) + 1 < |h|
    requires NextOf(lists[k], j) < |h|
    ensures var h2 := Unlink(h, PrevOf(lists[k], j), NextOf(lists[k], j));
      SameTags(h, h2, blocks) && Shape(h2, blocks, lists, ex)
  {
    var l := lists[k];
    var prev := PrevOf(l, j);
    var next := NextOf(l, j);
    var h1 := h;
    if prev != 0 {
      LinkWordWrite(h, blocks, lists, ex, k, j - 1, prev + 1, next);
      h1 := h[prev + 1 := next];
    }
    if next != 0 {
      LinkWordWrite(h1, blocks, lists, ex, k, j + 1, next, prev);
      SameTagsTrans(h, h1, h1[next := prev], blocks);
    }
  }

  /** What remove_free_block reads of a listed block: its two link words, which name in-range neighbours, and its size class. */
  lemma ListedLinks(h: seq<nat>, heads: seq<nat>, blocks: seq<nat>, lists: seq<seq<nat>>, ex: set<nat>, k: nat, j: nat)
    requires HeapInv(h, heads, blocks, lists, ex) && k < FREE_LIST_SIZE && j < |lists[k]|
    ensures var bp := lists[k][j];
      1 <= bp && bp + 1 < |h| && h[bp] == PrevOf(lists[k], j) && h[bp + 1] == NextOf(lists[k], j) &&
      (PrevOf(lists[k], j) != 0 ==> PrevOf(lists[k], j) + 1 < |h|) && NextOf(lists[k], j) < |h| &&
      (PrevOf(lists[k], j) == 0 <==> j == 0) && FlistIndex(SizeAt(h, bp)) == k
  {
    ChainAt(h, heads[k], lists[k], j);
    if j > 0 {
      ChainAt(h, heads[k], lists[k], j - 1);
    }
    if j + 1 < |lists[k]| {
      ChainAt(h, heads[k], lists[k], j + 1);
    }
  }

  /** remove_free_block on entry `j` of list `k`: the invariant holds with that block exempted. */
  lemma UnlinkStep(h: seq<nat>, heads: seq<nat>, blocks: seq<nat>, lists: seq<seq<nat>>, ex: set<nat>, k: nat, j: nat)
    requires HeapInv(h, heads, blocks, lists, ex) && k < FREE_LIST_SIZE && j < |lists[k]|
    ensures PrevOf(lists[k], j) != 0 ==> PrevOf(lists[k], j) + 1 < |h|
    ensures NextOf(lists[k], j) < |h|
    ensures var h2 := Unlink(h, PrevOf(lists[k], j), NextOf(lists[k], j));
      SameTags(h, h2, blocks) &&
      HeapInv(h2, if j == 0 then heads[k := NextOf(lists[k], j)] else heads, blocks,
        lists[k := lists[k][..j] + lists[k][j + 1..]], ex + {lists[k][j]})
  {
    LinkedAfterUnlink(h, heads, lists, k, j);
    UnlinkTags(h, blocks, lists, ex, k, j);
    ShapeCut(Unlink(h, PrevOf(lists[k], j), NextOf(lists[k], j)), blocks, lists, ex, k, j);
  }

  /** Putting an exempt free block in front of its size class's list keeps the tag-level invariant. */
  lemma ShapePush(h: seq<nat>, blocks: seq<nat>, lists: seq<seq<nat>>, ex: set<nat>, i: nat)
    requires Shape(h, blocks, lists, ex) && i < |blocks| && blocks[i] in ex && IsFree(h, blocks[i])
    requires Sized(h, blocks, ex - {blocks[i]}) && Unpaired(h, blocks, ex - {blocks[i]})
    ensures var k := FlistIndex(SizeAt(h, blocks[i]));
      Shape(h, blocks, lists[k := [blocks[i]] + lists[k]], ex - {blocks[i]})
  {
    var b := blocks[i];
    var k := FlistIndex(SizeAt(h, b));
    var lists2 := lists[k := [b] + lists[k]];
    BlockBounds(h, blocks, i);
    forall c, m | 0 <= c < FREE_LIST_SIZE && 0 <= m < |lists2[c]|
      ensures lists2[c][m] in blocks && lists2[c][m] !in ex - {b} && Tagged(h, lists2[c][m]) &&
        IsFree(h, lists2[c][m]) && SizeAt(h, lists2[c][m]) >= MIN_BLOCK_SIZE &&
        FlistIndex(SizeAt(h, lists2[c][m])) == c
    {
      if c == k && m > 0 {
        assert lists2[c][m] == lists[k][m - 1];
      } else if c != k {
        assert lists2[c][m] == lists[c][m];
      }
    }
    forall t | 0 <= t < |blocks| && blocks[t] !in ex - {b} && IsFree(h, blocks[t])
      ensures blocks[t] in lists2[FlistIndex(SizeAt(h, blocks[t]))]
    {
      if blocks[t] != b {
        var c := FlistIndex(SizeAt(h, blocks[t]));
        assert blocks[t] in lists[c];
      } else {
        assert lists2[k][0] == b;
      }
    }
  }

  /** insert_free_block's three link writes touch no tag. */
  lemma PushTags(h: seq<nat>, blocks: seq<nat>, lists: seq<seq<nat>>, ex: set<nat>, i: nat, k: nat, first: nat)
    requires Shape(h, blocks, lists, ex) && i < |blocks| && SizeAt(h, blocks[i]) >= MIN_BLOCK_SIZE
    requires k < FREE_LIST_SIZE && first == HeadOf(lists[k]) && first < |h|
    ensures blocks[i] + 1 < |h| && SameTags(h, Push(h, blocks[i], first), blocks)
  {
    var b := blocks[i];
    BlockBounds(h, blocks, i);
    var h1 := h;
    if first != 0 {
      LinkWordWrite(h, blocks, lists, ex, k, 0, first, b);
      h1 := h[first := b];
    }
    SameTagsTiling(h, h1, blocks);
    InteriorWrite(h1, blocks, i, b + 1, first);
    var h2 := h1[b + 1 := first];
    SameTagsTrans(h, h1, h2, blocks);
    SameTagsTiling(h1, h2, blocks);
    InteriorWrite(h2, blocks, i, b, 0);
    SameTagsTrans(h, h2, h2[b := 0], blocks);
  }

  /** x is at least two words away from every listed block. */
  lemma ExemptApart(h: seq<nat>, blocks: seq<nat>, lists: seq<seq<nat>>, ex: set<nat>, i: nat)
    requires Shape(h, blocks, lists, ex) && i < |blocks| && blocks[i] in ex
    ensures Apart(lists, blocks[i])
  {
    forall c, m | 0 <= c < FREE_LIST_SIZE && 0 <= m < |lists[c]|
      ensures lists[c][m] + 2 <= blocks[i] || blocks[i] + 2 <= lists[c][m]
    {
      var t := ListedIndex(h, blocks, lists, ex, c, m);
      BlocksApart(h, blocks, t, i);
    }
  }

  /** insert_free_block on an exempt free block: the invariant holds without the exemption. */
  lemma PushStep(h: seq<nat>, heads: seq<nat>, blocks: seq<nat>, lists: seq<seq<nat>>, ex: set<nat>, i: nat)
    requires HeapInv(h, heads, blocks, lists, ex) && i < |blocks| && blocks[i] in ex && IsFree(h, blocks[i])
    requires Sized(h, blocks, ex - {blocks[i]}) && Unpaired(h, blocks, ex - {blocks[i]})
    ensures var k := FlistIndex(SizeAt(h, blocks[i]));
      heads[k] < |h| && blocks[i] + 1 < |h| &&
      SameTags(h, Push(h, blocks[i], heads[k]), blocks) &&
      HeapInv(Push(h, blocks[i], heads[k]), heads[k := blocks[i]], blocks, lists[k := [blocks[i]] + lists[k]], ex - {blocks[i]})
  {
    var b := blocks[i];
    var k := FlistIndex(SizeAt(h, b));
    BlockBounds(h, blocks, i);
    ExemptApart(h, blocks, lists, ex, i);
    LinkedAfterPush(h, heads, lists, k, b);
    PushTags(h, blocks, lists, ex, i, k, heads[k]);
    var h3 := Push(h, b, heads[k]);
    SameTagsShape(h, h3, blocks, lists, ex);
    SameTagsTiling(h, h3, blocks);
    ShapePush(h3, blocks, lists, ex, i);
  }

  /**
    The invariant as the allocator carries it between steps: HeapInv with
    the blocks of `ex` off the lists, and the size and pairing rules asked
    of every block outside the smaller set `lax`. The depth `n` only delays
    the definition: the verifier opens one level of it per mention, so a
    routine that holds it at a depth of two or more sees none of its body
    and passes it along whole; Unseal and Seal open and close it at any
    depth.
   */
  ghost predicate Sealed(n: nat, h: seq<nat>, heads: seq<nat>, blocks: seq<nat>, lists: seq<seq<nat>>, ex: set<nat>, lax: set<nat>)
    decreases n
  {
    if n == 0 then HeapInv(h, heads, blocks, lists, ex) && Sized(h, blocks, lax) && Unpaired(h, blocks, lax)
    else Sealed(n - 1, h, heads, blocks, lists, ex, lax)
  }

  /** Opening the carried invariant. */
  lemma {:induction false} Unseal(n: nat, h: seq<nat>, heads: seq<nat>, blocks: seq<nat>, lists: seq<seq<nat>>, ex: set<nat>, lax: set<nat>)
    requires Sealed(n, h, heads, blocks, lists, ex, lax)
    ensures HeapInv(h, heads, blocks, lists, ex) && Sized(h, blocks, lax) && Unpaired(h, blocks, lax)
    decreases n
  {
    if n > 0 {
      Unseal(n - 1, h, heads, blocks, lists, ex, lax);
    }
  }

  /** Closing it again. */
  lemma {:induction false} Seal(n: nat, h: seq<nat>, heads: seq<nat>, blocks: seq<nat>, lists: seq<seq<nat>>, ex: set<nat>, lax: set<nat>)
    requires HeapInv(h, heads, blocks, lists, ex) && Sized(h, blocks, lax) && Unpaired(h, blocks, lax)
    ensures Sealed(n, h, heads, blocks, lists, ex, lax)
    decreases n
  {
    if n > 0 {
      Seal(n - 1, h, heads, blocks, lists, ex, lax);
    }
  }
}
