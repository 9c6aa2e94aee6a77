/**
 * The word encoding, the size classes and the request rounding of the
 * segregated-fit allocator in malloclab/mm.c.
 *
 * Addresses are byte offsets from the start of the allocator's area (BASEADDR
 * in mm.c), a word is 4 bytes, and every value the allocator stores in a word
 * (a size with its status bits, or an offset) is below 2^32 because the heap is.
 */
module MmLayout {
  import opened MmWord
  const WSIZE: nat := 4
  const DSIZE: nat := 8
  /** The smallest amount the heap is extended by. */
  const CHUNKSIZE: nat := 464
  /** The number of segregated lists. */
  const SEG_NUM: nat := 14
  /** Sizes are size_t: 64 bits. */
  const SIZE_LIMIT: nat := 0x1_0000_0000_0000_0000

  // ---------------------------------------------------------------------------
  // Size classes

  /** The lower bound of each segregated list; the last one has no upper bound. */
  const SEG_LOW: seq<nat> := [0, 16, 32, 64, 128, 256, 480, 960, 1920, 3840, 7680, 15360, 30720, 61440]

  /** get_seg_listp's if-chain, as the list index rather than the slot's address. */
  function SegIndex(size: nat): nat
  {
    if size < 16 then 0
    else if size < 32 then 1
    else if size < 64 then 2
    else if size < 128 then 3
    else if size < 256 then 4
    else if size < 480 then 5
    else if size < 960 then 6
    else if size < 1920 then 7
    else if size < 3840 then 8
    else if size < 7680 then 9
    else if size < 15360 then 10
    else if size < 30720 then 11
    else if size < 61440 then 12
    else 13
  }

  /** The first list from i on whose upper bound is above the size, or the last list. */
  function BucketFrom(size: nat, i: nat): (r: nat)
    requires i < SEG_NUM
    ensures i <= r < SEG_NUM
    decreases SEG_NUM - i
  {
    if i == SEG_NUM - 1 || size < SEG_LOW[i + 1] then i else BucketFrom(size, i + 1)
  }

  /** The list a block of this size belongs to. */
  function Bucket(size: nat): (r: nat)
    ensures r < SEG_NUM
  {
    BucketFrom(size, 0)
  }

  /** The size lies in the range of its list. */
  predicate InClass(size: nat, i: nat)
    requires i < SEG_NUM
  {
    SEG_LOW[i] <= size && (i == SEG_NUM - 1 || size < SEG_LOW[i + 1])
  }

  /** Every size falls in the range of its list, and of no other list. */
  lemma BucketSpec(size: nat, i: nat)
    requires i < SEG_NUM
    ensures Bucket(size) < SEG_NUM
    ensures InClass(size, i) <==> i == Bucket(size)
  {
    BucketFromSpec(size, 0, i);
  }

  lemma {:induction false} BucketFromSpec(size: nat, k: nat, i: nat)
    requires k <= i < SEG_NUM && SEG_LOW[k] <= size
    ensures InClass(size, i) <==> i == BucketFrom(size, k)
    decreases SEG_NUM - k
  {
    if !(k == SEG_NUM - 1 || size < SEG_LOW[k + 1]) {
      if k < i {
        BucketFromSpec(size, k + 1, i);
      } else {
        BucketFromSpec(size, k + 1, k + 1);
      }
    }
  }

  /** get_seg_listp's if-chain picks the list whose range holds the size. */
  lemma SegIndexIsBucket(size: nat)
    ensures SegIndex(size) == Bucket(size)
  {
    BucketSpec(size, SegIndex(size));
  }

  /** A larger size never goes to a smaller list. */
  lemma BucketMonotone(s: nat, t: nat)
    requires s <= t
    ensures Bucket(s) <= Bucket(t)
  {
    BucketSpec(s, Bucket(s));
    BucketSpec(t, Bucket(t));
  }

  // ---------------------------------------------------------------------------
  // Request rounding

  /** malloc's adjusted block size: a whole number of double words with room for the header. */
  function AdjustSize(size: nat): nat
  {
    if size <= DSIZE then 2 * DSIZE else DSIZE * ((size + WSIZE + (DSIZE - 1)) / DSIZE)
  }

  /**
   * For a non-empty request the block is the least multiple of 8 that is at least 16
   * and leaves at least `size` bytes after the one-word header.
   */
  lemma AdjustSizeSpec(size: nat)
    requires size > 0
    ensures AdjustSize(size) % 8 == 0 && AdjustSize(size) >= 16
    ensures AdjustSize(size) - WSIZE >= size
    ensures forall m: nat :: m % 8 == 0 && m >= 16 && m - WSIZE >= size ==> AdjustSize(size) <= m
  {
  }

  /** The same computation in size_t, where `size + 11` wraps around. */
  function AdjustSizeAsWritten(size: nat): nat
    requires size < SIZE_LIMIT
  {
    if size <= DSIZE then 2 * DSIZE else DSIZE * (((size + WSIZE + (DSIZE - 1)) % SIZE_LIMIT) / DSIZE)
  }

  /** A request a few bytes below 2^64 rounds down to a block of size 0. */
  lemma AdjustSizeAsWrittenWraps()
    ensures AdjustSizeAsWritten(SIZE_LIMIT - 5) == 0
  {
  }

  /** Below the wrap the two computations agree. */
  lemma AdjustSizeAgrees(size: nat)
    requires size + WSIZE + DSIZE - 1 < SIZE_LIMIT
    ensures AdjustSizeAsWritten(size) == AdjustSize(size)
  {
  }

  /** extend_heap's byte count for a number of words: rounded up to an even count, at least 8 bytes. */
  function ExtendBytes(words: nat): (r: nat)
    ensures r % 8 == 0 && r % WSIZE == 0 && r >= WSIZE * words && r >= DSIZE
    ensures r < WSIZE * words + DSIZE || r == DSIZE
  {
    EvenWords(words);
    var size := if words % 2 == 1 then (words + 1) * WSIZE else words * WSIZE;
    if size > DSIZE then size else DSIZE
  }

  /** An even number of words is a whole number of double words. */
  lemma EvenWords(words: nat)
    ensures (if words % 2 == 1 then (words + 1) * WSIZE else words * WSIZE) == 8 * ((words + 1) / 2)
    ensures (8 * ((words + 1) / 2)) % 8 == 0 && (8 * ((words + 1) / 2)) % WSIZE == 0
  {
    var h := words / 2;
    ModUnique(words, 2, h, words % 2);
    if words % 2 == 1 {
      ModUnique(words + 1, 2, h + 1, 0);
    } else {
      ModUnique(words + 1, 2, h, 1);
    }
    var m := (words + 1) / 2;
    ModUnique(8 * m, 8, m, 0);
    ModUnique(8 * m, 4, 2 * m, 0);
  }

  /** The heap growth malloc asks for when no list has a fit: MAX(asize, CHUNKSIZE) bytes. */
  function ExtendWords(asize: nat): nat
  {
    (if asize > CHUNKSIZE then asize else CHUNKSIZE) / WSIZE
  }

  /** For an adjusted size the growth is a block large enough for it. */
  lemma ExtendWordsFits(asize: nat)
    requires asize % 8 == 0
    ensures ExtendBytes(ExtendWords(asize)) >= asize && WSIZE * ExtendWords(asize) >= CHUNKSIZE
    ensures ExtendBytes(ExtendWords(asize)) == if asize > CHUNKSIZE then asize else CHUNKSIZE
  {
  }
}
