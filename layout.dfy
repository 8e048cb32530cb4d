/**
  Constants, the boundary-tag word codec, the request-size adjustment and the
  size-class function of the segregated-list allocator. The word size is fixed
  at 8 bytes, so a double word is 16 bytes and the smallest block (header,
  two link words, footer) is 32 bytes.
 */
module Layout {

  const WSIZE: nat := 8
  const DSIZE: nat := 16
  const CHUNKSIZE: nat := 144
  const MIN_BLOCK_SIZE: nat := 32
  const FREE_LIST_SIZE: nat := 20
  /** 2 to the 64: size_t arithmetic wraps modulo this. */
  const SIZE_T_MOD: nat := 0x1_0000_0000_0000_0000

  /** Bitwise "or" of two naturals, bit by bit from the low end. */
  function BitOr(x: nat, y: nat): nat
    decreases x + y
  {
    if x == 0 then y
    else if y == 0 then x
    else 2 * BitOr(x / 2, y / 2) + (if x % 2 == 1 || y % 2 == 1 then 1 else 0)
  }

  /** PACK(size, alloc): a size and an allocated bit in one word. */
  function Pack(size: nat, alloc: nat): (w: nat)
    ensures size % 2 == 0 && alloc < 2 ==> w == size + alloc
  {
    PackIsSum(size, alloc);
    BitOr(size, alloc)
  }

  lemma PackIsSum(size: nat, alloc: nat)
    ensures size % 2 == 0 && alloc < 2 ==> BitOr(size, alloc) == size + alloc
  {
    if size % 2 == 0 && alloc == 1 && size != 0 {
      assert BitOr(size / 2, 0) == size / 2;
    }
  }

  /** GET_SIZE: the word with its low four bits cleared. */
  function GetSize(w: nat): nat
  {
    w - w % DSIZE
  }

  /** GET_ALLOC: the lowest bit of the word. */
  function GetAlloc(w: nat): nat
  {
    w % 2
  }

  /** Decoding a packed word gives back its size and its allocated bit. */
  lemma PackRoundTrip(size: nat, alloc: nat)
    requires size % DSIZE == 0 && alloc < 2
    ensures GetSize(Pack(size, alloc)) == size
    ensures GetAlloc(Pack(size, alloc)) == alloc
    ensures Pack(size, alloc) % DSIZE < 2
  {
    var w := Pack(size, alloc);
    assert w == size + alloc;
    assert w % DSIZE == alloc by {
      assert w == DSIZE * (size / DSIZE) + alloc;
    }
  }

  /** The difference of two aligned sizes is aligned. */
  lemma AlignedDifference(a: nat, b: nat)
    requires a % DSIZE == 0 && b % DSIZE == 0 && b <= a
    ensures (a - b) % DSIZE == 0 && (a - b) / WSIZE == a / WSIZE - b / WSIZE
  {
    assert a - b == DSIZE * (a / DSIZE - b / DSIZE);
    assert a == WSIZE * (a / WSIZE) && b == WSIZE * (b / WSIZE);
  }

  /** 8 << i */
  function Shl8(i: nat): (r: nat)
    ensures r >= 8
  {
    if i == 0 then 8 else 2 * Shl8(i - 1)
  }

  lemma {:induction false} Shl8Increasing(i: nat, j: nat)
    requires i < j
    ensures Shl8(i) < Shl8(j)
    decreases j - i
  {
    if i + 1 < j {
      Shl8Increasing(i, j - 1);
    }
  }

  /**
    The class chosen for size `asize` when the scan starts at class `i`:
    the first class whose bound `8 << i` exceeds the size, the last class
    catching everything beyond.
   */
  function ClassFrom(asize: nat, i: nat): nat
    decreases FREE_LIST_SIZE - i
  {
    if i >= FREE_LIST_SIZE - 1 then FREE_LIST_SIZE - 1
    else if asize < Shl8(i) then i
    else ClassFrom(asize, i + 1)
  }

  /** get_flist_index, as a specification function over byte sizes. */
  function FlistIndex(asize: nat): (k: nat)
    ensures k < FREE_LIST_SIZE
  {
    ClassFromIs(asize, 0);
    ClassFrom(asize, 0)
  }

  lemma {:induction false} ClassFromIs(asize: nat, i: nat)
    requires i < FREE_LIST_SIZE
    ensures i <= ClassFrom(asize, i) < FREE_LIST_SIZE
    ensures ClassFrom(asize, i) < FREE_LIST_SIZE - 1 ==> asize < Shl8(ClassFrom(asize, i))
    ensures forall m :: i <= m < ClassFrom(asize, i) ==> asize >= Shl8(m)
    decreases FREE_LIST_SIZE - i
  {
    if i < FREE_LIST_SIZE - 1 && asize >= Shl8(i) {
      ClassFromIs(asize, i + 1);
    }
  }

  /** The class index is in range and brackets the size between two bounds. */
  lemma FlistIndexBounds(asize: nat)
    ensures FlistIndex(asize) < FREE_LIST_SIZE
    ensures FlistIndex(asize) < FREE_LIST_SIZE - 1 ==> asize < Shl8(FlistIndex(asize))
    ensures FlistIndex(asize) > 0 ==> asize >= Shl8(FlistIndex(asize) - 1)
  {
    ClassFromIs(asize, 0);
  }

  /** Both directions: `k` is the class of `asize` exactly when the bounds of class `k` bracket it. */
  lemma FlistIndexExact(asize: nat, k: nat)
    ensures FlistIndex(asize) == k <==>
      k < FREE_LIST_SIZE &&
      (k == FREE_LIST_SIZE - 1 || asize < Shl8(k)) &&
      (k == 0 || asize >= Shl8(k - 1))
  {
    ClassFromIs(asize, 0);
    var r := FlistIndex(asize);
    if k < FREE_LIST_SIZE && (k == FREE_LIST_SIZE - 1 || asize < Shl8(k)) && (k == 0 || asize >= Shl8(k - 1)) {
      if r < k {
        Shl8Increasing(r, k - 1);
      }
    }
  }

  /** A larger size never falls into a smaller class. */
  lemma FlistIndexMonotone(a: nat, b: nat)
    requires a <= b
    ensures FlistIndex(a) <= FlistIndex(b)
  {
    ClassFromIs(a, 0);
    ClassFromIs(b, 0);
  }

  /** Every size of at least `8 << 18` lands in the last class. */
  lemma FlistIndexLarge(asize: nat)
    requires asize >= Shl8(FREE_LIST_SIZE - 2)
    ensures FlistIndex(asize) == FREE_LIST_SIZE - 1
  {
    ClassFromIs(asize, 0);
    if FlistIndex(asize) < FREE_LIST_SIZE - 1 {
      Shl8Increasing(FlistIndex(asize), FREE_LIST_SIZE - 2);
    }
  }

  /** get_flist_index with its loop over the class bounds. */
  method GetFlistIndex(asize: nat) returns (index: nat)
    ensures index == FlistIndex(asize)
  {
    var maxSize: nat := 8;
    index := 0;
    while index < FREE_LIST_SIZE
      invariant index <= FREE_LIST_SIZE
      invariant maxSize == Shl8(index)
      invariant ClassFrom(asize, index) == FlistIndex(asize)
    {
      if asize < maxSize {
        break;
      }
      maxSize := maxSize * 2;
      index := index + 1;
    }
    index := if index < FREE_LIST_SIZE then index else FREE_LIST_SIZE - 1;
  }

  /** The adjusted block size mm_malloc computes for a request of `size` bytes. */
  function AdjustSize(size: nat): nat
  {
    if size <= DSIZE then 2 * DSIZE
    else DSIZE * ((size + DSIZE + (DSIZE - 1)) / DSIZE)
  }

  /**
    The adjusted size is the least multiple of 16 that holds the payload plus
    header and footer, and never below the 32-byte minimum block.
   */
  lemma AdjustSizeSpec(size: nat)
    requires size > 0
    ensures AdjustSize(size) % DSIZE == 0
    ensures AdjustSize(size) >= size + DSIZE
    ensures AdjustSize(size) >= 2 * DSIZE
    ensures AdjustSize(size) < size + 2 * DSIZE
  {
  }

  /**
    The same adjustment computed in 64-bit size_t arithmetic, as mm_malloc
    writes it: `size + DSIZE + (DSIZE - 1)` wraps for the largest requests.
   */
  function AdjustSizeAsWritten(size: nat): nat
    requires size < SIZE_T_MOD
  {
    if size <= DSIZE then 2 * DSIZE
    else DSIZE * (((size + DSIZE + (DSIZE - 1)) % SIZE_T_MOD) / DSIZE)
  }

  /** Below the wrap the 64-bit computation is the adjustment. */
  lemma AdjustSizeAsWrittenAgrees(size: nat)
    requires size + DSIZE + (DSIZE - 1) < SIZE_T_MOD
    ensures AdjustSizeAsWritten(size) == AdjustSize(size)
  {
  }

  /** A request of SIZE_MAX bytes is adjusted to a single 16-byte block, below the minimum and below the request. */
  lemma AdjustSizeAsWrittenWraps()
    ensures AdjustSizeAsWritten(SIZE_T_MOD - 1) == DSIZE
    ensures AdjustSizeAsWritten(SIZE_T_MOD - 1) < MIN_BLOCK_SIZE
  {
    assert (SIZE_T_MOD - 1 + DSIZE + (DSIZE - 1)) % SIZE_T_MOD == 30;
  }
}
