/**
 * What malloc, realloc and calloc in malloclab/mm.c do to the heap, as functions of the view:
 * find_fit, then place in the block found, or else extend_heap and place in the block it
 * returns; and the promises those functions keep.
 */
module MmMalloc {
  import opened MmLayout
  import opened MmWord
  import opened MmView
  import opened MmFit

  /** The growth malloc asks extend_heap for when no list has a fit, in bytes. */
  function GrowBytes(asize: nat): (r: nat)
    requires asize % 8 == 0
    ensures r % 8 == 0 && r >= asize && r >= CHUNKSIZE
  {
    ExtendWordsFits(asize);
    ExtendBytes(ExtendWords(asize))
  }

  /** mem_sbrk can hand out that growth: the heap ends at v.end, and cap bytes is the most it can reach. */
  predicate Room(v: View, asize: nat, cap: nat)
    requires asize % 8 == 0
  {
    v.end + GrowBytes(asize) <= cap
  }

  /** The block malloc returns for an adjusted size of asize bytes, or 0 (NULL). */
  ghost function MallocAddr(v: View, asize: nat, cap: nat): nat
    requires WF(v) && asize % 8 == 0 && asize >= 2 * DSIZE
  {
    ListedInMap(v);
    var f := Fit(v, asize);
    if f.Some? then f.value
    else if Room(v, asize, cap) then ExtendAddr(v, GrowBytes(asize))
    else 0
  }

  /** The heap malloc leaves for an adjusted size of asize bytes. */
  ghost function MallocView(v: View, asize: nat, cap: nat): View
    requires WF(v) && asize % 8 == 0 && asize >= 2 * DSIZE
  {
    ListedInMap(v);
    FitSpec(v, asize);
    var f := Fit(v, asize);
    if f.Some? then PlaceView(v, f.value, asize)
    else if Room(v, asize, cap) then
      var n := GrowBytes(asize);
      ExtendWF(v, n);
      ExtendResult(v, n);
      PlaceView(ExtendView(v, n), ExtendAddr(v, n), asize)
    else v
  }

  /** An allocated block is kept by every step that exempts only a block that is not allocated. */
  lemma KeepsAny(v: View, w: View, x: nat, y: nat)
    requires KeepsAllocated(v, w, x) && (x in v.blocks ==> !v.blocks[x].alloc)
    ensures KeepsAllocated(v, w, y)
  {
  }

  /**
   * malloc's promise for a request adjusted to asize bytes: the heap stays well formed; the
   * block returned was not allocated before, is allocated now and holds asize bytes, with less
   * than a minimum block to spare; every other allocated block is untouched; the heap grows only
   * when no free block is large enough; and NULL comes back exactly when no free block is large
   * enough and mem_sbrk cannot grow the heap, which is then unchanged.
   */
  lemma MallocResult(v: View, asize: nat, cap: nat)
    requires WF(v) && asize % 8 == 0 && asize >= 2 * DSIZE
    ensures WF(MallocView(v, asize, cap))
    ensures var a := MallocAddr(v, asize, cap); var w := MallocView(v, asize, cap);
      (a != 0 ==> a in w.blocks && w.blocks[a].alloc && asize <= w.blocks[a].size < asize + 2 * DSIZE &&
                  (a in v.blocks ==> !v.blocks[a].alloc)) &&
      (a == 0 ==> w == v) &&
      KeepsAllocated(v, w, a) &&
      ((exists b | b in v.blocks && !v.blocks[b].alloc :: asize <= v.blocks[b].size) ==> a in v.blocks && w.end == v.end) &&
      (a == 0 <==> (forall b | b in v.blocks && !v.blocks[b].alloc :: v.blocks[b].size < asize) && !Room(v, asize, cap))
  {
    ListedInMap(v);
    FitSpec(v, asize);
    var f := Fit(v, asize);
    var w := MallocView(v, asize, cap);
    if f.Some? {
      PlaceWF(v, f.value, asize);
      PlaceResult(v, f.value, asize);
      PlaceTiled(v, f.value, asize);
      assert f.value >= FIRST_BLOCK;
    } else if Room(v, asize, cap) {
      var n := GrowBytes(asize);
      ExtendWF(v, n);
      ExtendResult(v, n);
      var e := ExtendView(v, n);
      var c := ExtendAddr(v, n);
      PlaceWF(e, c, asize);
      PlaceResult(e, c, asize);
      assert c >= FIRST_BLOCK;
      KeepsAny(v, e, v.end, c);
      KeepsTrans(v, e, w, c);
    }
  }

  /** malloc(size): NULL for a request of 0 bytes, otherwise the block for the adjusted size. */
  ghost function MallocPtr(v: View, size: nat, cap: nat): nat
    requires WF(v)
  {
    if size == 0 then 0 else AdjustSizeSpec(size); MallocAddr(v, AdjustSize(size), cap)
  }

  /** The heap malloc(size) leaves. */
  ghost function MallocState(v: View, size: nat, cap: nat): View
    requires WF(v)
  {
    if size == 0 then v else AdjustSizeSpec(size); MallocView(v, AdjustSize(size), cap)
  }

  /** A non-NULL result of malloc(size) has room for size bytes after its header, and the heap stays well formed. */
  lemma MallocFits(v: View, size: nat, cap: nat)
    requires WF(v)
    ensures WF(MallocState(v, size, cap))
    ensures var a := MallocPtr(v, size, cap); var w := MallocState(v, size, cap);
      (a != 0 ==> a in w.blocks && w.blocks[a].alloc && w.blocks[a].size - WSIZE >= size && (a in v.blocks ==> !v.blocks[a].alloc)) &&
      (a == 0 ==> w == v) && KeepsAllocated(v, w, a)
  {
    if size > 0 {
      AdjustSizeSpec(size);
      MallocResult(v, AdjustSize(size), cap);
    }
  }

  /** Block p is an allocated block of the heap. */
  predicate Allocated(v: View, p: nat)
  {
    p in v.blocks && v.blocks[p].alloc
  }

  /** realloc's copy length as written: min(size, GET_SIZE(HDRP(oldptr))), the whole block and not its payload. */
  function CopyLenAsWritten(size: nat, oldsize: nat): nat
  {
    if size < oldsize then size else oldsize
  }

  /** When the new size is no smaller, memcpy reads one word past the old block: the next block's header. */
  lemma CopyLenAsWrittenOverreads(size: nat, oldsize: nat)
    requires WSIZE <= oldsize <= size
    ensures CopyLenAsWritten(size, oldsize) == (oldsize - WSIZE) + WSIZE
  {
  }

  /** realloc(p, 100) on a 16-byte block copies 16 bytes from a block with 12 bytes of payload. */
  lemma CopyLenAsWrittenExample()
    ensures CopyLenAsWritten(100, 16) == 16 && 16 - WSIZE == 12
  {
  }

  /** The copy length realloc evidently means: the old payload, cut to the new size. */
  function CopyLen(size: nat, oldsize: nat): (r: nat)
    requires oldsize >= WSIZE
    ensures r <= size && r <= oldsize - WSIZE
    ensures r == size || r == oldsize - WSIZE
  {
    if size < oldsize - WSIZE then size else oldsize - WSIZE
  }

  /** The heap realloc(oldptr, size) leaves. */
  ghost function ReallocState(v: View, oldptr: nat, size: nat, cap: nat): View
    requires WF(v) && (oldptr == 0 || Allocated(v, oldptr))
  {
    if oldptr == 0 then MallocState(v, size, cap)
    else if size == 0 then FreeView(v, oldptr)
    else if MallocPtr(v, size, cap) == 0 then v
    else
      MallocFits(v, size, cap);
      FreeView(MallocState(v, size, cap), oldptr)
  }

  /** The block realloc(oldptr, size) returns, or 0 (NULL). */
  ghost function ReallocPtr(v: View, oldptr: nat, size: nat, cap: nat): nat
    requires WF(v)
  {
    if oldptr != 0 && size == 0 then 0 else MallocPtr(v, size, cap)
  }

  /**
   * realloc's promise for an allocated block and a non-zero size: when malloc fails, NULL and
   * the heap untouched; otherwise a different block with room for size bytes, allocated, while
   * the old block's bytes now lie in a free block and every other allocated block is kept.
   */
  lemma ReallocResult(v: View, oldptr: nat, size: nat, cap: nat)
    requires WF(v) && Allocated(v, oldptr) && size > 0
    ensures WF(ReallocState(v, oldptr, size, cap))
    ensures var a := ReallocPtr(v, oldptr, size, cap); var w := ReallocState(v, oldptr, size, cap);
      (a == 0 ==> w == v) &&
      (a != 0 ==> a != oldptr && Allocated(w, a) && w.blocks[a].size - WSIZE >= size && KeepsAllocated(v, w, oldptr))
    ensures ReallocPtr(v, oldptr, size, cap) != 0 ==>
      WF(MallocState(v, size, cap)) && Allocated(MallocState(v, size, cap), oldptr)
    ensures ReallocPtr(v, oldptr, size, cap) != 0 ==>
      var m := MallocState(v, size, cap);
      Released(m, ReallocState(v, oldptr, size, cap), oldptr, FreeAddr(m, oldptr))
  {
    MallocFits(v, size, cap);
    var a := MallocPtr(v, size, cap);
    if a != 0 {
      var m := MallocState(v, size, cap);
      FreeWF(m, oldptr);
      FreeResult(m, oldptr);
      KeepsTrans(v, m, FreeView(m, oldptr), oldptr);
    }
  }

  /** realloc(oldptr, 0) frees the block and returns NULL. */
  lemma ReallocZero(v: View, oldptr: nat, cap: nat)
    requires WF(v) && Allocated(v, oldptr)
    ensures WF(ReallocState(v, oldptr, 0, cap)) && ReallocPtr(v, oldptr, 0, cap) == 0
    ensures Released(v, ReallocState(v, oldptr, 0, cap), oldptr, FreeAddr(v, oldptr))
  {
    FreeWF(v, oldptr);
    FreeResult(v, oldptr);
  }

  /** calloc's byte count as written: nmemb * size in size_t, which wraps around. */
  function CallocBytesAsWritten(nmemb: nat, size: nat): nat
  {
    (nmemb * size) % SIZE_LIMIT
  }

  /** calloc(2^63 + 1, 2) asks malloc for 2 bytes. */
  lemma CallocBytesAsWrittenWraps()
    ensures CallocBytesAsWritten(0x8000_0000_0000_0001, 2) == 2
  {
  }

  /** The byte count calloc evidently means: the whole product, with no wrap-around. */
  function CallocBytes(nmemb: nat, size: nat): nat
  {
    nmemb * size
  }

  /** A non-NULL result of calloc has room for all nmemb elements of size bytes. */
  lemma CallocFits(v: View, nmemb: nat, size: nat, cap: nat)
    requires WF(v)
    ensures WF(MallocState(v, CallocBytes(nmemb, size), cap))
    ensures var a := MallocPtr(v, CallocBytes(nmemb, size), cap); var w := MallocState(v, CallocBytes(nmemb, size), cap);
      a != 0 ==> Allocated(w, a) && w.blocks[a].size - WSIZE >= nmemb * size
  {
    MallocFits(v, CallocBytes(nmemb, size), cap);
  }
}
