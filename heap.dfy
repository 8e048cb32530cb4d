/**
  The heap as a sequence of 8-byte words, indexed from the start of the
  heap. Word 0 is the alignment pad (and index 0 doubles as NULL), words 1
  and 2 are the prologue's header and footer, and the last word is the
  epilogue header. A block is named by the index of its first payload word
  `bp`: its header sits at `bp - 1`, its footer at `bp + size / 8 - 2`, and
  the next block's payload starts at `bp + size / 8`.
 */
module Heap {
  import opened Layout

  /** PACK(DSIZE, 1), the prologue's header and footer. */
  const PROLOGUE: nat := 17
  /** PACK(0, 1), the epilogue header. */
  const EPILOGUE: nat := 1
  /** The heap mm_init lays down: pad, prologue header and footer, epilogue. */
  const INITIAL_WORDS: nat := 4
  /** Payload index of the first regular block: just after the prologue. */
  const FIRST_BP: nat := 4

  /** GET_SIZE(HDRP(bp)), in bytes. */
  function SizeAt(h: seq<nat>, bp: nat): nat
    requires 1 <= bp <= |h|
  {
    GetSize(h[bp - 1])
  }

  /** GET_ALLOC(HDRP(bp)) == 0 */
  predicate IsFree(h: seq<nat>, bp: nat)
    requires 1 <= bp <= |h|
  {
    GetAlloc(h[bp - 1]) == 0
  }

  /** FTRP(bp), as a word index. */
  function Ftrp(h: seq<nat>, bp: nat): int
    requires 1 <= bp <= |h|
  {
    bp + SizeAt(h, bp) / WSIZE - 2
  }

  /** NEXT_BLKP(bp), as a word index. */
  function NextBlkp(h: seq<nat>, bp: nat): nat
    requires 1 <= bp <= |h|
  {
    bp + SizeAt(h, bp) / WSIZE
  }

  /** PREV_BLKP(bp), as a word index: back over the size in the word before the header. */
  function PrevBlkp(h: seq<nat>, bp: nat): int
    requires 2 <= bp <= |h| + 1
  {
    bp - GetSize(h[bp - 2]) / WSIZE
  }

  /** The prologue and the epilogue in place. */
  ghost predicate Sentinels(h: seq<nat>)
  {
    |h| >= INITIAL_WORDS && h[1] == PROLOGUE && h[2] == PROLOGUE && h[|h| - 1] == EPILOGUE
  }

  /**
    A well-formed block at `bp`: past the prologue, its header holds a size
    that is a multiple of 16 with only the allocated bit below, the block is
    at least a header and a footer long, fits before the epilogue, and its
    footer equals its header.
   */
  ghost predicate Tagged(h: seq<nat>, bp: nat)
  {
    FIRST_BP <= bp < |h| &&
    h[bp - 1] % DSIZE < 2 && SizeAt(h, bp) >= DSIZE && NextBlkp(h, bp) <= |h| &&
    h[Ftrp(h, bp)] == h[bp - 1]
  }

  /** The blocks `r` follow each other without gaps from payload `lo` to the payload position `hi` just past them. */
  ghost predicate Run(h: seq<nat>, r: seq<nat>, lo: nat, hi: nat)
  {
    |r| > 0 && r[0] == lo &&
    (forall t :: 0 <= t < |r| ==> Tagged(h, r[t])) &&
    (forall t, u :: 0 <= t && u == t + 1 && u < |r| ==> r[u] == NextBlkp(h, r[t])) &&
    NextBlkp(h, r[|r| - 1]) == hi
  }

  /** The blocks, in address order, tile the heap from the prologue to the epilogue. */
  ghost predicate Tiling(h: seq<nat>, blocks: seq<nat>)
  {
    Sentinels(h) &&
    if |blocks| == 0 then |h| == INITIAL_WORDS else Run(h, blocks, FIRST_BP, |h|)
  }

  /** Later blocks of a run start at or after the end of earlier ones, and all stay within the run's bounds. */
  lemma {:induction false} RunOrdered(h: seq<nat>, r: seq<nat>, lo: nat, hi: nat, s: nat, t: nat)
    requires Run(h, r, lo, hi) && s < t < |r|
    ensures NextBlkp(h, r[s]) <= r[t]
    decreases t - s
  {
    if s + 1 < t {
      RunOrdered(h, r, lo, hi, s + 1, t);
      assert r[s + 1] == NextBlkp(h, r[s]);
    } else {
      assert r[t] == NextBlkp(h, r[s]);
    }
  }

  lemma RunBounds(h: seq<nat>, r: seq<nat>, lo: nat, hi: nat, t: nat)
    requires Run(h, r, lo, hi) && t < |r|
    ensures lo <= r[t] && NextBlkp(h, r[t]) <= hi
  {
    if t > 0 {
      RunOrdered(h, r, lo, hi, 0, t);
    }
    if t < |r| - 1 {
      RunOrdered(h, r, lo, hi, t, |r| - 1);
    }
  }

  /** Distinct blocks of a run are at least two words apart, so their two link words never overlap. */
  lemma RunApart(h: seq<nat>, r: seq<nat>, lo: nat, hi: nat, s: nat, t: nat)
    requires Run(h, r, lo, hi) && s < |r| && t < |r| && s != t
    ensures r[s] + 2 <= r[t] || r[t] + 2 <= r[s]
  {
    if s < t {
      RunOrdered(h, r, lo, hi, s, t);
    } else {
      RunOrdered(h, r, lo, hi, t, s);
    }
  }

  /** A run survives any change of words outside it. */
  lemma RunUnchanged(h: seq<nat>, h2: seq<nat>, r: seq<nat>, lo: nat, hi: nat)
    requires Run(h, r, lo, hi) && |h2| >= |h|
    requires forall p :: lo - 1 <= p < hi - 1 && p < |h| ==> h2[p] == h[p]
    ensures Run(h2, r, lo, hi)
  {
    forall t | 0 <= t < |r|
      ensures Tagged(h2, r[t]) && NextBlkp(h2, r[t]) == NextBlkp(h, r[t])
    {
      RunBounds(h, r, lo, hi, t);
      assert h2[r[t] - 1] == h[r[t] - 1];
      assert h2[Ftrp(h, r[t])] == h[Ftrp(h, r[t])];
    }
  }

  /** Two runs that meet make one run. */
  lemma RunConcat(h: seq<nat>, a: seq<nat>, b: seq<nat>, lo: nat, mid: nat, hi: nat)
    requires Run(h, a, lo, mid) && Run(h, b, mid, hi)
    ensures Run(h, a + b, lo, hi)
  {
    var r := a + b;
    forall t, u | 0 <= t && u == t + 1 && u < |r|
      ensures r[u] == NextBlkp(h, r[t])
    {
      if u < |a| {
        assert r[t] == a[t] && r[u] == a[u];
      } else if t == |a| - 1 {
        assert r[t] == a[|a| - 1] && r[u] == b[0];
      } else {
        assert r[t] == b[t - |a|] && r[u] == b[u - |a|];
      }
    }
  }

  /** A run cut before position `i` is two runs. */
  lemma RunCut(h: seq<nat>, r: seq<nat>, lo: nat, hi: nat, i: nat)
    requires Run(h, r, lo, hi) && 0 < i < |r|
    ensures Run(h, r[..i], lo, r[i]) && Run(h, r[i..], r[i], hi)
  {
    var a := r[..i];
    var b := r[i..];
    forall t, u | 0 <= t && u == t + 1 && u < |a|
      ensures a[u] == NextBlkp(h, a[t])
    {
      assert a[t] == r[t] && a[u] == r[u];
    }
    assert r[i] == NextBlkp(h, r[i - 1]);
    forall t, u | 0 <= t && u == t + 1 && u < |b|
      ensures b[u] == NextBlkp(h, b[t])
    {
      assert b[t] == r[i + t] && b[u] == r[i + u];
    }
  }

  /** The payload position just past block `i` of the tiling. */
  function EndOf(h: seq<nat>, blocks: seq<nat>, i: nat): nat
    requires Tiling(h, blocks) && i < |blocks|
  {
    NextBlkp(h, blocks[i])
  }

  /** The replacement run followed by the untouched blocks after it runs to the end of the heap. */
  lemma ReplaceSuffix(h: seq<nat>, h2: seq<nat>, blocks: seq<nat>, i: nat, n: nat, mid: seq<nat>)
    requires Tiling(h, blocks) && 0 < n && i + n <= |blocks| && |h2| == |h|
    requires Run(h2, mid, blocks[i], EndOf(h, blocks, i + n - 1))
    requires forall p :: EndOf(h, blocks, i + n - 1) - 1 <= p < |h| ==> h2[p] == h[p]
    ensures Run(h2, mid + blocks[i + n..], blocks[i], |h|)
  {
    var hi := EndOf(h, blocks, i + n - 1);
    if i + n < |blocks| {
      RunCut(h, blocks, FIRST_BP, |h|, i + n);
      assert blocks[i + n] == hi;
      RunUnchanged(h, h2, blocks[i + n..], hi, |h|);
      RunConcat(h2, mid, blocks[i + n..], blocks[i], hi, |h|);
    } else {
      assert mid + blocks[i + n..] == mid;
    }
  }

  /** The untouched blocks before a run that reaches the end of the heap, followed by it, tile the heap. */
  lemma ReplacePrefix(h: seq<nat>, h2: seq<nat>, blocks: seq<nat>, i: nat, r: seq<nat>)
    requires Tiling(h, blocks) && i < |blocks| && |h2| == |h|
    requires Run(h2, r, blocks[i], |h|)
    requires forall p :: 0 <= p < blocks[i] - 1 ==> h2[p] == h[p]
    requires h2[|h| - 1] == h[|h| - 1]
    ensures Tiling(h2, blocks[..i] + r)
  {
    RunBounds(h, blocks, FIRST_BP, |h|, i);
    assert h2[1] == h[1] && h2[2] == h[2];
    if i > 0 {
      RunCut(h, blocks, FIRST_BP, |h|, i);
      RunUnchanged(h, h2, blocks[..i], FIRST_BP, blocks[i]);
      RunConcat(h2, blocks[..i], r, FIRST_BP, blocks[i], |h|);
    } else {
      assert blocks[..i] + r == r;
    }
  }

  /**
    Replacing the blocks `blocks[i..i + n]` by a run `mid` over the same
    words, with every other word unchanged, gives a tiling again.
   */
  lemma TilingReplace(h: seq<nat>, h2: seq<nat>, blocks: seq<nat>, i: nat, n: nat, mid: seq<nat>)
    requires Tiling(h, blocks) && 0 < n && i + n <= |blocks| && |h2| == |h|
    requires Run(h2, mid, blocks[i], EndOf(h, blocks, i + n - 1))
    requires forall p :: 0 <= p < |h| && !(blocks[i] - 1 <= p < EndOf(h, blocks, i + n - 1) - 1) ==> h2[p] == h[p]
    ensures Tiling(h2, blocks[..i] + (mid + blocks[i + n..]))
  {
    RunBounds(h, blocks, FIRST_BP, |h|, i + n - 1);
    ReplaceSuffix(h, h2, blocks, i, n, mid);
    ReplacePrefix(h, h2, blocks, i, mid + blocks[i + n..]);
  }

  /** Cutting out one block and putting it back gives the same sequence. */
  lemma SpliceSame(s: seq<nat>, i: nat)
    requires i < |s|
    ensures s[..i] + ([s[i]] + s[i + 1..]) == s
  {
  }

  /** The single block at `bp` is a run up to its end. */
  lemma RunSingle(h: seq<nat>, bp: nat)
    requires Tagged(h, bp)
    ensures Run(h, [bp], bp, NextBlkp(h, bp))
  {
  }

  /**
    The neighbours coalesce reads: PREV_BLKP of block `i` is block `i - 1`,
    or the prologue at payload 2 for the first block, whose footer reads as
    allocated; NEXT_BLKP is block `i + 1`, or the end of the heap, whose
    header is the allocated epilogue.
   */
  lemma Neighbours(h: seq<nat>, blocks: seq<nat>, i: nat)
    requires Tiling(h, blocks) && i < |blocks|
    ensures 2 <= blocks[i] && PrevBlkp(h, blocks[i]) == (if i == 0 then 2 else blocks[i - 1])
    ensures NextBlkp(h, blocks[i]) == (if i + 1 == |blocks| then |h| else blocks[i + 1])
    ensures i == 0 ==> SizeAt(h, 2) == DSIZE && Ftrp(h, 2) == 2 && GetAlloc(h[2]) == 1
    ensures i > 0 ==> Ftrp(h, blocks[i - 1]) == blocks[i] - 2
    ensures i > 0 ==> GetAlloc(h[blocks[i] - 2]) == GetAlloc(h[blocks[i - 1] - 1])
    ensures i + 1 == |blocks| ==> GetAlloc(h[|h| - 1]) == 1
  {
    var b := blocks[i];
    if i > 0 {
      assert b == NextBlkp(h, blocks[i - 1]);
      assert Tagged(h, blocks[i - 1]);
    } else {
      assert b == FIRST_BP;
      assert GetSize(PROLOGUE) == DSIZE;
    }
    if i + 1 < |blocks| {
      assert blocks[i + 1] == NextBlkp(h, b);
    }
  }

  /** Two different blocks of the tiling are at least two words apart. */
  lemma BlocksApart(h: seq<nat>, blocks: seq<nat>, s: nat, t: nat)
    requires Tiling(h, blocks) && s < |blocks| && t < |blocks| && s != t
    ensures blocks[s] + 2 <= blocks[t] || blocks[t] + 2 <= blocks[s]
  {
    RunApart(h, blocks, FIRST_BP, |h|, s, t);
  }

  /** Block `t` lies wholly before or wholly after block `s`: its words are outside the span of `s`. */
  lemma SpansDisjoint(h: seq<nat>, blocks: seq<nat>, s: nat, t: nat)
    requires Tiling(h, blocks) && s < |blocks| && t < |blocks| && s != t
    ensures NextBlkp(h, blocks[t]) <= blocks[s] || NextBlkp(h, blocks[s]) <= blocks[t]
  {
    if s < t {
      RunOrdered(h, blocks, FIRST_BP, |h|, s, t);
    } else {
      RunOrdered(h, blocks, FIRST_BP, |h|, t, s);
    }
  }

  /** Block `i` lies inside the heap after the prologue. */
  lemma BlockBounds(h: seq<nat>, blocks: seq<nat>, i: nat)
    requires Tiling(h, blocks) && i < |blocks|
    ensures FIRST_BP <= blocks[i] && NextBlkp(h, blocks[i]) <= |h| && Tagged(h, blocks[i])
  {
    RunBounds(h, blocks, FIRST_BP, |h|, i);
  }

  /**
    PUT(HDRP(bp), PACK(size, alloc)) and then PUT(FTRP(bp), PACK(size, alloc)),
    the footer being found through the header just written.
   */
  function SetTags(h: seq<nat>, bp: nat, size: nat, alloc: nat): (h2: seq<nat>)
    requires 1 <= bp && size % DSIZE == 0 && size >= DSIZE && alloc < 2 && bp + size / WSIZE - 2 < |h|
    ensures |h2| == |h| && h2 == h[bp - 1 := size + alloc][bp + size / WSIZE - 2 := size + alloc]
  {
    PackRoundTrip(size, alloc);
    var w := Pack(size, alloc);
    var h1 := h[bp - 1 := w];
    h1[Ftrp(h1, bp) := w]
  }

  /** Sizes read from a header are multiples of 16. */
  lemma SizeAligned(h: seq<nat>, bp: nat)
    requires 1 <= bp <= |h|
    ensures SizeAt(h, bp) % DSIZE == 0
  {
    var w := h[bp - 1];
    assert w == DSIZE * (w / DSIZE) + w % DSIZE;
  }

  /** Where the blocks of a tiling land after `blocks[s..s + n]` is replaced by `mid`. */
  lemma ReplaceIndex(blocks: seq<nat>, s: nat, n: nat, mid: seq<nat>, t: nat)
    requires s + n <= |blocks| && t < |blocks| - n + |mid|
    ensures var b2 := blocks[..s] + (mid + blocks[s + n..]);
      |b2| == |blocks| - n + |mid| &&
      b2[t] == if t < s then blocks[t] else if t < s + |mid| then mid[t - s] else blocks[t - |mid| + n]
  {
  }

  /**
    A block outside the replaced run `blocks[s..s + n]` lies wholly before or
    after its words, so it keeps its tags when only those words change.
   */
  lemma OutsideKept(h: seq<nat>, h2: seq<nat>, blocks: seq<nat>, s: nat, n: nat, t: nat)
    requires Tiling(h, blocks) && 0 < n && s + n <= |blocks| && |h2| == |h|
    requires forall p :: 0 <= p < |h| && !(blocks[s] - 1 <= p < EndOf(h, blocks, s + n - 1) - 1) ==> h2[p] == h[p]
    requires t < |blocks| && (t < s || s + n <= t)
    ensures t < s ==> NextBlkp(h, blocks[t]) <= blocks[s]
    ensures s + n <= t ==> EndOf(h, blocks, s + n - 1) <= blocks[t]
    ensures Tagged(h, blocks[t]) && h2[blocks[t] - 1] == h[blocks[t] - 1] && h2[Ftrp(h, blocks[t])] == h[Ftrp(h, blocks[t])]
    ensures SizeAt(h2, blocks[t]) == SizeAt(h, blocks[t]) && IsFree(h2, blocks[t]) == IsFree(h, blocks[t])
  {
    BlockBounds(h, blocks, t);
    BlockBounds(h, blocks, s);
    if t < s {
      RunOrdered(h, blocks, FIRST_BP, |h|, t, s);
    } else {
      RunOrdered(h, blocks, FIRST_BP, |h|, s + n - 1, t);
    }
    assert h2[blocks[t] - 1] == h[blocks[t] - 1];
  }
}
