/**
  The segregated free lists as they sit in the heap words: every free block
  keeps the payload index of its predecessor in its first payload word and
  that of its successor in the second, index 0 standing for NULL. Each list
  is given abstractly by the sequence of its blocks, head first; `Linked`
  ties those sequences to the words of the heap and to the table of heads.
 */
module FreeList {
  import opened Layout

  function HeadOf(l: seq<nat>): nat
  {
    if |l| == 0 then 0 else l[0]
  }

  function PrevOf(l: seq<nat>, j: nat): nat
    requires j < |l|
  {
    if j == 0 then 0 else l[j - 1]
  }

  function NextOf(l: seq<nat>, j: nat): nat
    requires j < |l|
  {
    if j + 1 < |l| then l[j + 1] else 0
  }

  /**
    One list as it sits in the heap `h`: it starts at `head`, consecutive
    blocks point at each other, the first has no predecessor and the last no
    successor.
   */
  ghost predicate Chain(h: seq<nat>, head: nat, l: seq<nat>)
  {
    head == HeadOf(l) &&
    (forall i :: 0 <= i < |l| ==> 1 <= l[i] && l[i] + 1 < |h|) &&
    (|l| > 0 ==> h[l[0]] == 0 && h[l[|l| - 1] + 1] == 0) &&
    (forall i, j :: 0 <= i && j == i + 1 && j < |l| ==> h[l[i] + 1] == l[j] && h[l[j]] == l[i])
  }

  /** Two listed blocks at different places keep their link words apart. */
  ghost predicate Sparse(lists: seq<seq<nat>>)
  {
    forall k1, i1, k2, i2 {:trigger Gap(lists, k1, i1, k2, i2)} ::
      0 <= k1 < |lists| && 0 <= i1 < |lists[k1]| && 0 <= k2 < |lists| && 0 <= i2 < |lists[k2]| &&
      (k1 != k2 || i1 != i2) ==>
      Gap(lists, k1, i1, k2, i2)
  }

  /** Entry `i1` of list `k1` and entry `i2` of list `k2` keep their link words apart. */
  ghost predicate Gap(lists: seq<seq<nat>>, k1: nat, i1: nat, k2: nat, i2: nat)
    requires k1 < |lists| && i1 < |lists[k1]| && k2 < |lists| && i2 < |lists[k2]|
  {
    lists[k1][i1] + 2 <= lists[k2][i2] || lists[k2][i2] + 2 <= lists[k1][i1]
  }

  /** The heads table and the link words of the heap spell out `lists` exactly. */
  ghost predicate Linked(h: seq<nat>, heads: seq<nat>, lists: seq<seq<nat>>)
  {
    |heads| == FREE_LIST_SIZE && |lists| == FREE_LIST_SIZE &&
    (forall k :: 0 <= k < FREE_LIST_SIZE ==> Chain(h, heads[k], lists[k])) &&
    Sparse(lists)
  }

  /** Block `x` is in no list and its link words are clear of every listed block's. */
  ghost predicate Apart(lists: seq<seq<nat>>, x: nat)
  {
    forall k, j :: 0 <= k < |lists| && 0 <= j < |lists[k]| ==> lists[k][j] + 2 <= x || x + 2 <= lists[k][j]
  }

  /** Word `p` is neither link word of any block of `l`. */
  ghost predicate Clear(l: seq<nat>, p: nat)
  {
    forall i :: 0 <= i < |l| ==> l[i] != p && l[i] + 1 != p
  }

  /** The two link words of one listed block name its neighbours in its list. */
  lemma ChainAt(h: seq<nat>, head: nat, l: seq<nat>, j: nat)
    requires Chain(h, head, l) && j < |l|
    ensures 1 <= l[j] && l[j] + 1 < |h|
    ensures h[l[j]] == PrevOf(l, j) && h[l[j] + 1] == NextOf(l, j)
  {
    if j > 0 {
      assert h[l[j - 1] + 1] == l[j] && h[l[j]] == l[j - 1];
    }
    if j + 1 < |l| {
      assert h[l[j] + 1] == l[j + 1] && h[l[j + 1]] == l[j];
    }
  }

  /** A write to a word that is no link word of the list leaves the list intact. */
  lemma ChainWrite(h: seq<nat>, head: nat, l: seq<nat>, p: nat, v: nat)
    requires Chain(h, head, l) && p < |h| && Clear(l, p)
    ensures Chain(h[p := v], head, l)
  {
  }

  /** remove_free_block's writes: the predecessor skips to the successor and back. */
  function Unlink(h: seq<nat>, prev: nat, next: nat): (h2: seq<nat>)
    requires prev != 0 ==> prev + 1 < |h|
    requires next < |h|
    ensures |h2| == |h|
  {
    var h1 := if prev != 0 then h[prev + 1 := next] else h;
    if next != 0 then h1[next := prev] else h1
  }

  /** insert_free_block's writes: `bp` goes in front of `first`. */
  function Push(h: seq<nat>, bp: nat, first: nat): (h2: seq<nat>)
    requires bp + 1 < |h| && first < |h|
    ensures |h2| == |h|
  {
    var h1 := if first != 0 then h[first := bp] else h;
    h1[bp + 1 := first][bp := 0]
  }

  /** Blocks of one list keep their link words apart. */
  ghost predicate Spread(l: seq<nat>)
  {
    forall a, b :: 0 <= a < |l| && 0 <= b < |l| && a != b ==> l[a] + 2 <= l[b] || l[b] + 2 <= l[a]
  }

  /** The link words of the block at position `m` once position `j` is unlinked. */
  lemma CutWords(h: seq<nat>, head: nat, l: seq<nat>, j: nat, m: nat)
    requires Chain(h, head, l) && Spread(l) && j < |l| && m < |l| && m != j
    ensures var h2 := Unlink(h, PrevOf(l, j), NextOf(l, j));
      h2[l[m]] == (if m == j + 1 then PrevOf(l, j) else h[l[m]]) &&
      h2[l[m] + 1] == (if m + 1 == j then NextOf(l, j) else h[l[m] + 1])
  {
    ChainAt(h, head, l, j);
    ChainAt(h, head, l, m);
    if j > 0 {
      ChainAt(h, head, l, j - 1);
    }
    if j + 1 < |l| {
      ChainAt(h, head, l, j + 1);
    }
  }

  /** Position `a` of a list with position `j` cut out. */
  lemma CutAt(l: seq<nat>, j: nat, a: nat)
    requires j < |l| && a + 1 < |l|
    ensures |l[..j] + l[j + 1..]| == |l| - 1
    ensures (l[..j] + l[j + 1..])[a] == l[if a >= j then a + 1 else a]
  {
  }

  lemma CutRange(h: seq<nat>, head: nat, l: seq<nat>, j: nat)
    requires Chain(h, head, l) && j < |l|
    ensures var l2 := l[..j] + l[j + 1..];
      forall i :: 0 <= i < |l2| ==> 1 <= l2[i] && l2[i] + 1 < |h|
  {
    var l2 := l[..j] + l[j + 1..];
    forall i | 0 <= i < |l2|
      ensures 1 <= l2[i] && l2[i] + 1 < |h|
    {
      CutAt(l, j, i);
    }
  }

  /** The ends of a list once position `j` is unlinked. */
  lemma CutEnds(h: seq<nat>, head: nat, l: seq<nat>, j: nat)
    requires Chain(h, head, l) && Spread(l) && j < |l|
    ensures var h2 := Unlink(h, PrevOf(l, j), NextOf(l, j));
      var l2 := l[..j] + l[j + 1..];
      (forall i :: 0 <= i < |l2| ==> 1 <= l2[i] && l2[i] + 1 < |h2|) &&
      (if j == 0 then NextOf(l, j) else head) == HeadOf(l2) &&
      (|l2| > 0 ==> h2[l2[0]] == 0 && h2[l2[|l2| - 1] + 1] == 0)
  {
    ChainAt(h, head, l, j);
    var l2 := l[..j] + l[j + 1..];
    CutRange(h, head, l, j);
    if |l2| > 0 {
      var first := if j == 0 then 1 else 0;
      var last := if j == |l| - 1 then |l| - 2 else |l| - 1;
      CutAt(l, j, 0);
      CutAt(l, j, |l2| - 1);
      CutWords(h, head, l, j, first);
      CutWords(h, head, l, j, last);
      ChainAt(h, head, l, first);
      ChainAt(h, head, l, last);
    }
  }

  /** Consecutive blocks of a list still point at each other once position `j` is unlinked. */
  lemma CutPairs(h: seq<nat>, head: nat, l: seq<nat>, j: nat, i: nat)
    requires Chain(h, head, l) && Spread(l) && j < |l| && i + 2 < |l|
    ensures var h2 := Unlink(h, PrevOf(l, j), NextOf(l, j));
      var l2 := l[..j] + l[j + 1..];
      l2[i] + 1 < |h2| && l2[i + 1] < |h2| &&
      h2[l2[i] + 1] == l2[i + 1] && h2[l2[i + 1]] == l2[i]
  {
    var a := if i >= j then i + 1 else i;
    var b := if i + 1 >= j then i + 2 else i + 1;
    CutAt(l, j, i);
    CutAt(l, j, i + 1);
    CutWords(h, head, l, j, a);
    CutWords(h, head, l, j, b);
    ChainAt(h, head, l, a);
    ChainAt(h, head, l, b);
    if j > 0 {
      ChainAt(h, head, l, j - 1);
    }
    if b == a + 1 {
      assert h[l[a] + 1] == l[b] && h[l[b]] == l[a];
    }
  }

  /** Unlinking position `j` of a list leaves the rest of it linked, with a new head when `j` was the head. */
  lemma ChainCut(h: seq<nat>, head: nat, l: seq<nat>, j: nat)
    requires Chain(h, head, l) && Spread(l) && j < |l|
    ensures Chain(Unlink(h, PrevOf(l, j), NextOf(l, j)),
                  if j == 0 then NextOf(l, j) else head,
                  l[..j] + l[j + 1..])
  {
    var h2 := Unlink(h, PrevOf(l, j), NextOf(l, j));
    var l2 := l[..j] + l[j + 1..];
    CutEnds(h, head, l, j);
    forall i, i1 | 0 <= i && i1 == i + 1 && i1 < |l2|
      ensures h2[l2[i] + 1] == l2[i1] && h2[l2[i1]] == l2[i]
    {
      CutPairs(h, head, l, j, i);
    }
  }

  /** Unlinking leaves a list intact when the two rewritten words are none of its link words. */
  lemma ChainUnlinkOther(h: seq<nat>, head: nat, l: seq<nat>, prev: nat, next: nat)
    requires Chain(h, head, l)
    requires prev != 0 ==> prev + 1 < |h| && Clear(l, prev + 1)
    requires next < |h| && (next != 0 ==> Clear(l, next))
    ensures Chain(Unlink(h, prev, next), head, l)
  {
    var h1 := if prev != 0 then h[prev + 1 := next] else h;
    if prev != 0 {
      ChainWrite(h, head, l, prev + 1, next);
    }
    if next != 0 {
      ChainWrite(h1, head, l, next, prev);
    }
  }

  /** Pushing `bp` leaves a list intact when none of the three rewritten words is one of its link words. */
  lemma ChainPushOther(h: seq<nat>, head: nat, l: seq<nat>, bp: nat, first: nat)
    requires Chain(h, head, l)
    requires bp + 1 < |h| && Clear(l, bp) && Clear(l, bp + 1)
    requires first < |h| && (first != 0 ==> Clear(l, first))
    ensures Chain(Push(h, bp, first), head, l)
  {
    var h1 := if first != 0 then h[first := bp] else h;
    if first != 0 {
      ChainWrite(h, head, l, first, bp);
    }
    ChainWrite(h1, head, l, bp + 1, first);
    ChainWrite(h1[bp + 1 := first], head, l, bp, 0);
  }

  /** Block `bp` keeps its link words clear of those of every block of `l`. */
  ghost predicate Away(l: seq<nat>, bp: nat)
  {
    forall i :: 0 <= i < |l| ==> l[i] + 2 <= bp || bp + 2 <= l[i]
  }

  /** Pushing `bp` in front of a list gives a list headed by `bp`. */
  lemma ChainPush(h: seq<nat>, head: nat, l: seq<nat>, bp: nat)
    requires Chain(h, head, l) && Spread(l)
    requires 1 <= bp && bp + 1 < |h| && Away(l, bp)
    ensures Chain(Push(h, bp, head), bp, [bp] + l)
  {
    var h2 := Push(h, bp, head);
    var l2 := [bp] + l;
    if |l| > 0 {
      ChainAt(h, head, l, 0);
      ChainAt(h, head, l, |l| - 1);
      assert l2[|l2| - 1] == l[|l| - 1];
    }
    forall i, i1 | 0 <= i && i1 == i + 1 && i1 < |l2|
      ensures h2[l2[i] + 1] == l2[i1] && h2[l2[i1]] == l2[i]
    {
      if i == 0 {
        ChainAt(h, head, l, 0);
      } else {
        assert l2[i] == l[i - 1] && l2[i1] == l[i];
        ChainAt(h, head, l, i - 1);
        ChainAt(h, head, l, i);
        ChainAt(h, head, l, 0);
      }
    }
  }

  /** The blocks of each single list are spread when all lists are sparse. */
  lemma SparseSpread(lists: seq<seq<nat>>, k: nat)
    requires Sparse(lists) && k < |lists|
    ensures Spread(lists[k])
  {
    var l := lists[k];
    forall a, b | 0 <= a < |l| && 0 <= b < |l| && a != b
      ensures l[a] + 2 <= l[b] || l[b] + 2 <= l[a]
    {
      assert Gap(lists, k, a, k, b);
    }
  }

  /** Cutting a position out of one list keeps the lists sparse. */
  lemma SparseCut(lists: seq<seq<nat>>, k: nat, j: nat)
    requires Sparse(lists) && k < |lists| && j < |lists[k]|
    ensures Sparse(lists[k := lists[k][..j] + lists[k][j + 1..]])
  {
    var l := lists[k];
    var lists2 := lists[k := l[..j] + l[j + 1..]];
    forall k1, i1, k2, i2 |
      0 <= k1 < |lists2| && 0 <= i1 < |lists2[k1]| && 0 <= k2 < |lists2| && 0 <= i2 < |lists2[k2]| &&
      (k1 != k2 || i1 != i2)
      ensures Gap(lists2, k1, i1, k2, i2)
    {
      var a1 := if k1 == k && i1 >= j then i1 + 1 else i1;
      var a2 := if k2 == k && i2 >= j then i2 + 1 else i2;
      if k1 == k {
        CutAt(l, j, i1);
      }
      if k2 == k {
        CutAt(l, j, i2);
      }
      assert lists2[k1][i1] == lists[k1][a1] && lists2[k2][i2] == lists[k2][a2] && Gap(lists, k1, a1, k2, a2);
    }
  }

  /** Pushing a block that is apart from every listed block keeps the lists sparse. */
  lemma SparsePush(lists: seq<seq<nat>>, k: nat, bp: nat)
    requires Sparse(lists) && k < |lists| && Apart(lists, bp)
    ensures Sparse(lists[k := [bp] + lists[k]])
  {
    var l := lists[k];
    var lists2 := lists[k := [bp] + l];
    forall k1, i1, k2, i2 |
      0 <= k1 < |lists2| && 0 <= i1 < |lists2[k1]| && 0 <= k2 < |lists2| && 0 <= i2 < |lists2[k2]| &&
      (k1 != k2 || i1 != i2)
      ensures Gap(lists2, k1, i1, k2, i2)
    {
      if k1 == k && i1 == 0 {
        if !(k2 == k && i2 == 0) {
          var a2 := if k2 == k then i2 - 1 else i2;
          assert lists2[k2][i2] == lists[k2][a2];
        }
      } else if k2 == k && i2 == 0 {
        var a1 := if k1 == k then i1 - 1 else i1;
        assert lists2[k1][i1] == lists[k1][a1];
      } else {
        var a1 := if k1 == k then i1 - 1 else i1;
        var a2 := if k2 == k then i2 - 1 else i2;
        assert lists2[k1][i1] == lists[k1][a1] && lists2[k2][i2] == lists[k2][a2] && Gap(lists, k1, a1, k2, a2);
      }
    }
  }

  /** A list other than the one unlinked from keeps its links. */
  lemma OtherAfterUnlink(h: seq<nat>, heads: seq<nat>, lists: seq<seq<nat>>, k: nat, j: nat, k2: nat)
    requires Linked(h, heads, lists) && k < FREE_LIST_SIZE && j < |lists[k]| && k2 < FREE_LIST_SIZE && k2 != k
    ensures Chain(Unlink(h, PrevOf(lists[k], j), NextOf(lists[k], j)), heads[k2], lists[k2])
  {
    var l := lists[k];
    var o := lists[k2];
    ChainAt(h, heads[k], l, j);
    var prev := PrevOf(l, j);
    var next := NextOf(l, j);
    if j > 0 {
      ChainAt(h, heads[k], l, j - 1);
      forall i | 0 <= i < |o|
        ensures o[i] != prev + 1 && o[i] + 1 != prev + 1
      {
        assert lists[k2][i] == o[i] && lists[k][j - 1] == prev && Gap(lists, k2, i, k, j - 1);
      }
    }
    if j + 1 < |l| {
      forall i | 0 <= i < |o|
        ensures o[i] != next && o[i] + 1 != next
      {
        assert lists[k2][i] == o[i] && lists[k][j + 1] == next && Gap(lists, k2, i, k, j + 1);
      }
    }
    ChainUnlinkOther(h, heads[k2], o, prev, next);
  }

  /** A list other than the one pushed on keeps its links. */
  lemma OtherAfterPush(h: seq<nat>, heads: seq<nat>, lists: seq<seq<nat>>, k: nat, bp: nat, k2: nat)
    requires Linked(h, heads, lists) && k < FREE_LIST_SIZE && k2 < FREE_LIST_SIZE && k2 != k
    requires 1 <= bp && bp + 1 < |h| && Apart(lists, bp)
    ensures heads[k] < |h|
    ensures Chain(Push(h, bp, heads[k]), heads[k2], lists[k2])
  {
    var l := lists[k];
    var o := lists[k2];
    var first := heads[k];
    if |l| > 0 {
      ChainAt(h, first, l, 0);
      forall i | 0 <= i < |o|
        ensures o[i] != first && o[i] + 1 != first
      {
        assert lists[k2][i] == o[i] && lists[k][0] == first && Gap(lists, k2, i, k, 0);
      }
    }
    forall i | 0 <= i < |o|
      ensures o[i] != bp && o[i] + 1 != bp && o[i] != bp + 1 && o[i] + 1 != bp + 1
    {
      assert lists[k2][i] == o[i];
    }
    ChainPushOther(h, heads[k2], o, bp, first);
  }

  /**
    remove_free_block on position `j` of list `k`: the list loses exactly that
    position, its head moves on when `j` was the head, and all lists stay
    linked.
   */
  lemma LinkedAfterUnlink(h: seq<nat>, heads: seq<nat>, lists: seq<seq<nat>>, k: nat, j: nat)
    requires Linked(h, heads, lists) && k < FREE_LIST_SIZE && j < |lists[k]|
    ensures Linked(Unlink(h, PrevOf(lists[k], j), NextOf(lists[k], j)),
                   if j == 0 then heads[k := NextOf(lists[k], j)] else heads,
                   lists[k := lists[k][..j] + lists[k][j + 1..]])
  {
    var l := lists[k];
    var h2 := Unlink(h, PrevOf(l, j), NextOf(l, j));
    var heads2 := if j == 0 then heads[k := NextOf(l, j)] else heads;
    var lists2 := lists[k := l[..j] + l[j + 1..]];
    SparseSpread(lists, k);
    ChainCut(h, heads[k], l, j);
    forall k2 | 0 <= k2 < FREE_LIST_SIZE
      ensures Chain(h2, heads2[k2], lists2[k2])
    {
      if k2 != k {
        OtherAfterUnlink(h, heads, lists, k, j, k2);
      }
    }
    SparseCut(lists, k, j);
  }

  /**
    insert_free_block of `bp` into list `k`: `bp` becomes the head of that
    list in front of the old blocks, and all lists stay linked.
   */
  lemma LinkedAfterPush(h: seq<nat>, heads: seq<nat>, lists: seq<seq<nat>>, k: nat, bp: nat)
    requires Linked(h, heads, lists) && k < FREE_LIST_SIZE
    requires 1 <= bp && bp + 1 < |h| && Apart(lists, bp)
    ensures heads[k] < |h|
    ensures Linked(Push(h, bp, heads[k]), heads[k := bp], lists[k := [bp] + lists[k]])
  {
    var l := lists[k];
    if |l| > 0 {
      ChainAt(h, heads[k], l, 0);
    }
    var h2 := Push(h, bp, heads[k]);
    var heads2 := heads[k := bp];
    var lists2 := lists[k := [bp] + l];
    SparseSpread(lists, k);
    forall i | 0 <= i < |l|
      ensures l[i] + 2 <= bp || bp + 2 <= l[i]
    {
      assert lists[k][i] == l[i];
    }
    ChainPush(h, heads[k], l, bp);
    forall k2 | 0 <= k2 < FREE_LIST_SIZE
      ensures Chain(h2, heads2[k2], lists2[k2])
    {
      if k2 != k {
        OtherAfterPush(h, heads, lists, k, bp, k2);
      }
    }
    SparsePush(lists, k, bp);
  }

  /** The list without the first occurrence of `x`. */
  function Erase(l: seq<nat>, x: nat): seq<nat>
  {
    if |l| == 0 then []
    else if l[0] == x then l[1..]
    else [l[0]] + Erase(l[1..], x)
  }

  /** Erasing an element that first occurs at `j` cuts out exactly that position, keeping the order of the rest. */
  lemma {:induction false} EraseAt(l: seq<nat>, j: nat)
    requires j < |l| && l[j] !in l[..j]
    ensures Erase(l, l[j]) == l[..j] + l[j + 1..]
  {
    if j > 0 {
      assert l[1..][j - 1] == l[j];
      assert l[1..][..j - 1] == l[..j][1..];
      EraseAt(l[1..], j - 1);
      assert l[1..][..j - 1] + l[1..][j..] == l[1..j] + l[j + 1..];
      assert [l[0]] + (l[1..j] + l[j + 1..]) == l[..j] + l[j + 1..];
    }
  }

  /** Erasing loses exactly one copy of `x` when there is one, and nothing else. */
  lemma {:induction false} EraseMultiset(l: seq<nat>, x: nat)
    ensures multiset(Erase(l, x)) == multiset(l) - multiset{x}
  {
    if |l| > 0 {
      assert l == [l[0]] + l[1..];
      if l[0] != x {
        EraseMultiset(l[1..], x);
      }
    }
  }

  /** Pushing at the head then erasing gives back the list: insert and remove are inverses. */
  lemma ErasePush(l: seq<nat>, x: nat)
    ensures Erase([x] + l, x) == l
  {
    assert ([x] + l)[1..] == l;
  }

  /** In a spread list a block occurs once, so cutting out its position erases it. */
  lemma SpreadErase(l: seq<nat>, j: nat)
    requires Spread(l) && j < |l|
    ensures Erase(l, l[j]) == l[..j] + l[j + 1..]
  {
    assert l[j] !in l[..j] by {
      forall i | 0 <= i < j
        ensures l[..j][i] != l[j]
      {
        assert l[..j][i] == l[i];
      }
    }
    EraseAt(l, j);
  }
}
