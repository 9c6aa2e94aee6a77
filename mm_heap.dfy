/**
 * The allocator of malloclab/mm.c on its heap words.  The heap is a sequence of 32-bit words
 * that memlib's mem_sbrk grows at the end; word k holds the bytes at offset 4k from the start
 * of the area (BASEADDR), and every pointer the C code handles is such an offset, with 0 for
 * NULL.  A ghost view (MmView) follows the heap, and every method keeps the words holding it
 * (MmRep.Rep) and, between public calls, the invariants mm_checkheap checks (MmView.WF).
 */
module MmHeap {
  import opened Opt
  import opened MmLayout
  import opened MmWord
  import opened MmView
  import opened MmFit
  import opened MmRep
  import opened MmSteps
  import opened MmMerge
  import opened MmGrow
  import opened MmMalloc

  /** heap_listp after mm_init: the prologue's payload, after the slots, the padding and its header. */
  const HEAP_LISTP: nat := 120
  /** mm_init's prologue, list slots and first chunk fit in this many bytes. */
  const INIT_BYTES: nat := 592
  /** Offsets are kept in 32 bits. */
  const OFFSET_LIMIT: nat := 0x1_0000_0000

  /**
   * What a walk along list i reads: the slot names the first block, and every listed block's
   * header gives its size and its next link names the block after it, or 0 at the end.
   */
  ghost predicate Walkable(mem: seq<nat>, m: map<nat, Blk>, l: seq<nat>, i: nat)
  {
    i < SEG_NUM && 2 * i + 1 < |mem| && mem[2 * i] == First(l) && InMap(m, l) &&
    forall j {:trigger Hdr(l[j])} {:trigger W(l[j])} | 0 <= j < |l| ::
      FIRST_BLOCK <= l[j] && W(l[j]) + 1 < |mem| && 0 <= Hdr(l[j]) < |mem| &&
      GetSize(mem[Hdr(l[j])]) == m[l[j]].size && mem[W(l[j]) + 1] == NextIn(l, j)
  }

  /** Words that hold a view can be walked along each of its lists. */
  lemma WalkableOf(mem: seq<nat>, v: View, i: nat)
    requires Rep(mem, v) && Tiled(v) && ListsIn(v) && i < SEG_NUM
    ensures Walkable(mem, v.blocks, v.lists[i], i)
  {
    var l := v.lists[i];
    ReadSlot(mem, v, i);
    forall j | 0 <= j < |l|
      ensures FIRST_BLOCK <= l[j] && W(l[j]) + 1 < |mem| && 0 <= Hdr(l[j]) < |mem| &&
        GetSize(mem[Hdr(l[j])]) == v.blocks[l[j]].size && mem[W(l[j]) + 1] == NextIn(l, j)
    {
      ReadLinks(mem, v, i, j);
      ReadHeader(mem, v, l[j]);
    }
  }

  /** A zero next link marks the end of the list: every listed block lies past the list slots. */
  lemma WalkEnd(mem: seq<nat>, m: map<nat, Blk>, l: seq<nat>, i: nat, j: nat)
    requires Walkable(mem, m, l, i) && j < |l|
    ensures mem[W(l[j]) + 1] == 0 <==> j == |l| - 1
  {
    if j < |l| - 1 {
      assert W(l[j + 1]) + 1 < |mem|;
    }
  }

  /** The block find_seg_fit settles on in list l, or 0 (NULL) for none. */
  function SegFitBlock(m: map<nat, Blk>, l: seq<nat>, asize: nat): nat
    requires InMap(m, l)
  {
    var r := SegFit(m, l, asize);
    if r.Some? then l[r.value] else 0
  }

  /**
   * find_seg_fit: walks list i from the block its slot names along the next links, taking the
   * first large enough block for a request below 960 bytes and otherwise the smallest one,
   * stopping early at an exact fit.
   */
  method FindSegFit(mem: seq<nat>, asize: nat, i: nat, ghost m: map<nat, Blk>, ghost l: seq<nat>) returns (bp: nat)
    requires Walkable(mem, m, l, i)
    ensures bp == SegFitBlock(m, l, asize)
  {
    var firstFree := mem[2 * i];
    if firstFree == 0 {
      return 0;
    }
    bp := firstFree;
    ghost var j := 0;
    if asize < SEG_LOW[7] {
      if asize <= GetSize(mem[Hdr(bp)]) {
        FirstStays(m, l, asize, |l|, 1);
        return bp;
      }
      while mem[W(bp) + 1] != 0
        invariant 0 <= j < |l| && bp == l[j] && FirstUpTo(m, l, asize, j + 1).None?
        decreases |l| - j
      {
        bp := mem[W(bp) + 1];
        j := j + 1;
        if asize <= GetSize(mem[Hdr(bp)]) {
          FirstStays(m, l, asize, |l|, j + 1);
          return bp;
        }
      }
      WalkEnd(mem, m, l, i, j);
      return 0;
    } else {
      var blockSize := GetSize(mem[Hdr(bp)]);
      if asize == blockSize {
        BestExactStays(m, l, asize, |l|, 1);
        return bp;
      }
      var smallSize := 0;
      var result := 0;
      if asize < blockSize {
        smallSize := blockSize;
        result := bp;
      }
      while mem[W(bp) + 1] != 0
        invariant 0 <= j < |l| && bp == l[j]
        invariant var r := BestUpTo(m, l, asize, j + 1);
          (r.None? ==> result == 0) &&
          (r.Some? ==> result == l[r.value] && FIRST_BLOCK <= result &&
                       smallSize == m[l[r.value]].size && asize < smallSize)
        decreases |l| - j
      {
        WalkEnd(mem, m, l, i, j);
        assert mem[W(l[j]) + 1] == l[j + 1];
        bp := mem[W(bp) + 1];
        j := j + 1;
        blockSize := GetSize(mem[Hdr(bp)]);
        assert blockSize == m[l[j]].size;
        BestNext(m, l, asize, j + 1);
        if asize == blockSize {
          BestExactStays(m, l, asize, |l|, j + 1);
          return bp;
        }
        if asize < blockSize {
          if result == 0 || blockSize < smallSize {
            smallSize := blockSize;
            result := bp;
          }
        }
      }
      WalkEnd(mem, m, l, i, j);
      return result;
    }
  }


  /**
   * find_fit: find_seg_fit on the list of the request's size, then on each larger list in turn;
   * after the loop the last list is searched once more.  The block is find_fit's choice, or 0.
   */
  method FindFit(mem: seq<nat>, asize: nat, ghost v: View) returns (bp: nat)
    requires Rep(mem, v) && Tiled(v) && Listed(v)
    ensures ListsInMap(v)
    ensures bp == if Fit(v, asize).Some? then Fit(v, asize).value else 0
  {
    ListedInMap(v);
    ExceptIn(v, {});
    var i := SegIndex(asize);
    SegIndexIsBucket(asize);
    WalkableOf(mem, v, i);
    bp := FindSegFit(mem, asize, i, v.blocks, v.lists[i]);
    if bp != 0 {
      return;
    }
    while i < SEG_NUM - 1
      invariant Bucket(asize) <= i < SEG_NUM && Fit(v, asize) == FitFrom(v, asize, i)
      invariant SegFit(v.blocks, v.lists[i], asize).None?
    {
      i := i + 1;
      WalkableOf(mem, v, i);
      bp := FindSegFit(mem, asize, i, v.blocks, v.lists[i]);
      if bp != 0 {
        return;
      }
    }
    WalkableOf(mem, v, i);
    bp := FindSegFit(mem, asize, i, v.blocks, v.lists[i]);
  }

  class Allocator {
    /** The heap words mem_sbrk has handed out. */
    var mem: seq<nat>
    /** heap_listp: 0 until mm_init has run. */
    var heapListp: nat
    /** The heap as mm_checkheap sees it. */
    ghost var view: View
    /** The most bytes mem_sbrk can hand out. */
    const capacity: nat

    /** An empty heap of the given capacity, before mm_init. */
    constructor (capacity: nat)
      requires INIT_BYTES <= capacity <= OFFSET_LIMIT
      ensures Valid() && mem == [] && heapListp == 0 && this.capacity == capacity
    {
      this.capacity := capacity;
      mem := [];
      heapListp := 0;
      view := EmptyView();
    }

    /** The state inside an operation: the words hold the view, the blocks tile the heap and the lists name free blocks. */
    ghost predicate Inner()
      reads this
    {
      heapListp == HEAP_LISTP && Rep(mem, view) && Tiled(view) && ListsIn(view) &&
      4 * |mem| <= capacity <= OFFSET_LIMIT
    }

    /** The state between calls: not yet initialised, or the heap mm_checkheap accepts. */
    ghost predicate Valid()
      reads this
    {
      INIT_BYTES <= capacity <= OFFSET_LIMIT &&
      ((heapListp == 0 && mem == []) || (Inner() && WF(view)))
    }

    /** mem_sbrk: the old end of the heap, after growing it by bytes zero bytes, or -1 when the capacity is reached. */
    method Sbrk(bytes: nat) returns (p: int)
      requires bytes % WSIZE == 0
      modifies this
      ensures 4 * old(|mem|) + bytes <= capacity ==>
        p == 4 * old(|mem|) && mem == old(mem) + seq(bytes / WSIZE, _ => 0)
      ensures 4 * old(|mem|) + bytes > capacity ==> p == -1 && mem == old(mem)
      ensures heapListp == old(heapListp) && view == old(view)
    {
      if 4 * |mem| + bytes <= capacity {
        p := 4 * |mem|;
        mem := mem + seq(bytes / WSIZE, _ => 0);
      } else {
        p := -1;
      }
    }

    /** add_free_block: the free block ptr goes on top of the list of its size. */
    method AddFreeBlock(ptr: nat)
      requires Inner() && ptr in view.blocks && !view.blocks[ptr].alloc
      requires ptr !in view.lists[Bucket(view.blocks[ptr].size)]
      modifies this
      ensures Inner() && view == Push(old(view), ptr)
      ensures var i := Bucket(old(view).blocks[ptr].size);
        2 * i + 1 < old(|mem|) && W(ptr) + 1 < old(|mem|) && W(old(mem)[2 * i]) < old(|mem|) &&
        mem == PushMem(old(mem), i, old(mem)[2 * i], ptr)
      ensures heapListp == old(heapListp)
    {
      PushStep(mem, view, ptr);
      var i := SegIndex(GetSize(mem[Hdr(ptr)]));
      var first := mem[2 * i];
      if first == 0 {
        mem := mem[2 * i := ptr][2 * i + 1 := 0];
        mem := mem[W(ptr) := 0];
        mem := mem[W(ptr) + 1 := 0];
      } else {
        mem := mem[W(ptr) := 0];
        mem := mem[W(ptr) + 1 := first];
        mem := mem[2 * i := ptr][2 * i + 1 := 0];
        mem := mem[W(first) := ptr];
      }
      view := Push(view, ptr);
    }

    /** remove_free_block: the listed block ptr leaves its list, whose neighbours now link to each other. */
    method RemoveFreeBlock(ptr: nat)
      requires Inner() && ptr in view.blocks && ptr in view.lists[Bucket(view.blocks[ptr].size)]
      modifies this
      ensures Inner() && view == Unlist(old(view), ptr)
      ensures ptr !in view.lists[Bucket(view.blocks[ptr].size)]
      ensures W(ptr) + 1 < old(|mem|) && SLOTS <= old(|mem|)
      ensures var i := Bucket(old(view).blocks[ptr].size); var prev := old(mem)[W(ptr)]; var next := old(mem)[W(ptr) + 1];
        W(prev) + 1 < old(|mem|) && W(next) < old(|mem|) && mem == UnlistMem(old(mem), i, prev, next)
      ensures heapListp == old(heapListp)
    {
      UnlistStep(mem, view, ptr);
      UnlistIn(view, ptr);
      var i := SegIndex(GetSize(mem[Hdr(ptr)]));
      var prev := mem[W(ptr)];
      var next := mem[W(ptr) + 1];
      // The writes of the four cases, then the words they leave.
      var words := mem;
      if prev == 0 {
        if next == 0 {
          words := words[2 * i := 0][2 * i + 1 := 0];
        } else {
          words := words[2 * i := next][2 * i + 1 := 0];
          words := words[W(next) := 0];
        }
      } else {
        if next == 0 {
          words := words[W(prev) + 1 := 0];
        } else {
          words := words[W(next) := prev];
          words := words[W(prev) + 1 := next];
        }
      }
      UnlistMemCases(mem, i, prev, next);
      assert words == UnlistMem(mem, i, prev, next);
      mem := words;
      view := Unlist(view, ptr);
    }

    /**
     * place: the free block ptr leaves its list and holds asize bytes; a rest of at least 16
     * bytes becomes a free block of its own on the list of its size, and otherwise the block
     * after ptr learns that ptr is allocated.
     */
    method Place(ptr: nat, asize: nat)
      requires Inner() && WF(view) && ptr in view.blocks && !view.blocks[ptr].alloc
      requires asize % 8 == 0 && asize >= 2 * DSIZE && view.blocks[ptr].size >= asize
      modifies this
      ensures Inner() && WF(view) && view == PlaceView(old(view), ptr, asize)
      ensures heapListp == old(heapListp)
    {
      ghost var v0 := view;
      ReadHeader(mem, view, ptr);
      var csize := GetSize(mem[Hdr(ptr)]);
      var prevAlloc := GetPrevAlloc(mem[Hdr(ptr)]);
      assert ptr in view.lists[Bucket(view.blocks[ptr].size)];
      RemoveFreeBlock(ptr);
      PlaceWF(v0, ptr, asize);
      if csize - asize >= 2 * DSIZE {
        PlaceSplit(ptr, asize, csize, prevAlloc, v0);
      } else {
        TakeWhole(ptr, asize, csize, prevAlloc, v0);
      }
    }

    /** place's split, then add_free_block on the rest. */
    method PlaceSplit(ptr: nat, asize: nat, csize: nat, prevAlloc: nat, ghost v0: View)
      requires Inner() && SplitReady(mem, v0, view, ptr, asize)
      requires csize == v0.blocks[ptr].size && prevAlloc == PrevBits(v0.blocks[ptr].prevAlloc)
      modifies this
      ensures Inner() && view == PlaceView(v0, ptr, asize) && heapListp == old(heapListp)
    {
      SplitFront(ptr, asize, csize, prevAlloc, v0);
      var q := ptr + asize;
      SplitViewFacts(v0, ptr, asize, q);
      AddFreeBlock(q);
    }

    /** place's split: ptr's header takes asize bytes, and the rest q becomes a free block, not yet listed. */
    method SplitFront(ptr: nat, asize: nat, csize: nat, prevAlloc: nat, ghost v0: View)
      requires Inner() && SplitReady(mem, v0, view, ptr, asize)
      requires csize == v0.blocks[ptr].size && prevAlloc == PrevBits(v0.blocks[ptr].prevAlloc)
      modifies this
      ensures Rep(mem, SplitView(v0, ptr, asize)) && view == SplitView(v0, ptr, asize)
      ensures 4 * |mem| <= capacity && heapListp == old(heapListp)
    {
      var m0 := mem;
      ghost var u := view;
      SplitBounds(m0, v0, u, ptr, asize);
      var words := WriteSplit(m0, ptr, asize, csize, prevAlloc, v0.blocks[ptr].prevAlloc);
      SplitRepStep(m0, words, v0, u, ptr, asize, csize);
      mem := words;
      view := SplitView(v0, ptr, asize);
    }

    /** place without a split: ptr's header marks it allocated, and so does the prev-allocated bit after it. */
    method TakeWhole(ptr: nat, asize: nat, csize: nat, prevAlloc: nat, ghost v0: View)
      requires Inner() && TakeReady(mem, v0, view, ptr, asize)
      requires csize == v0.blocks[ptr].size && prevAlloc == PrevBits(v0.blocks[ptr].prevAlloc)
      modifies this
      ensures Inner() && view == PlaceView(v0, ptr, asize) && heapListp == old(heapListp)
    {
      var m0 := mem;
      ghost var u := view;
      ghost var blk := u.blocks[ptr];
      ghost var n := NextBlock(u.blocks, ptr);
      TakeWords(m0, u, ptr, csize, n);
      var words := WriteTake(m0, ptr, csize, prevAlloc, blk, n);
      TakeRepStep(m0, words, v0, u, ptr, asize, csize, blk, n);
      PlaceIn(v0, ptr, asize);
      mem := words;
      view := PlaceView(v0, ptr, asize);
    }

    /**
     * coalesce: the free, listed block ptr merges with whichever of its neighbours are free,
     * and the merged block goes on top of the list of its size; the result is that block.
     */
    method Coalesce(ptr: nat) returns (r: nat)
      requires Inner() && Coalescible(view, ptr)
      modifies this
      ensures Inner() && view == CoalesceView(old(view), ptr) && r == CoalesceAddr(old(view), ptr)
      ensures heapListp == old(heapListp)
    {
      ghost var v0 := view;
      ReadHeader(mem, view, ptr);
      var prevAlloc := GetPrevAlloc(mem[Hdr(ptr)]);
      var size := GetSize(mem[Hdr(ptr)]);
      var next := ptr + size;
      NextReads(mem, view, ptr, size, next);
      var nextAlloc := GetAlloc(mem[Hdr(next)]);
      if prevAlloc != 0 && nextAlloc != 0 {
        return ptr;
      }
      assert ptr in view.lists[Bucket(view.blocks[ptr].size)];
      RemoveFreeBlock(ptr);
      if prevAlloc != 0 {
        CoalesceNext(ptr, size, next, v0);
        r := ptr;
      } else {
        PrevFooter(mem, view, v0, ptr);
        var psize := GetSize(mem[Hdr(ptr) - 1]);
        var prev := ptr - psize;
        PrevIs(mem, view, v0, ptr, psize, prev);
        if nextAlloc != 0 {
          CoalescePrev(ptr, size, prev, v0);
        } else {
          CoalesceBoth(ptr, size, prev, next, v0);
        }
        r := prev;
      }
    }

    /** coalesce with a free successor only: next leaves its list, ptr absorbs it and is listed. */
    method CoalesceNext(ptr: nat, size: nat, next: nat, ghost v0: View)
      requires Inner() && Coalescible(v0, ptr) && v0.blocks[ptr].prevAlloc && !NextAlloc(v0.blocks, ptr)
      requires view == Unlist(v0, ptr) && size == v0.blocks[ptr].size && next == NextBlock(v0.blocks, ptr)
      modifies this
      ensures Inner() && view == CoalesceView(v0, ptr) && heapListp == old(heapListp)
    {
      ghost var nsize := v0.blocks[next].size;
      NextMergedFacts(v0, ptr, next, size, nsize);
      RemoveFreeBlock(next);
      MergeNext(ptr, size, next, nsize);
      AddFreeBlock(ptr);
    }

    /** The merge's writes with a free successor: ptr's header and footer take both sizes. */
    method MergeNext(ptr: nat, size: nat, ghost next: nat, ghost nsize: nat)
      requires Inner() && ptr in view.blocks && next in view.blocks && next == NextBlock(view.blocks, ptr)
      requires size == view.blocks[ptr].size && nsize == view.blocks[next].size && view.blocks[ptr].prevAlloc
      requires Outside(view, {next} + {ptr})
      modifies this
      ensures Rep(mem, MergedAt(old(view), ptr, {next}, size + nsize)) && view == MergedAt(old(view), ptr, {next}, size + nsize)
      ensures 4 * |mem| <= capacity && heapListp == old(heapListp)
    {
      var m0 := mem;
      ghost var u := view;
      NextBounds(m0, u, ptr, next, size, nsize);
      var words := WriteNextMerge(m0, ptr, size, next, nsize);
      NextRepStep(m0, words, u, ptr, next, size, nsize);
      mem := words;
      view := MergedAt(u, ptr, {next}, size + nsize);
    }

    /** coalesce with a free predecessor only: prev leaves its list, absorbs ptr and is listed. */
    method CoalescePrev(ptr: nat, size: nat, prev: nat, ghost v0: View)
      requires Inner() && Coalescible(v0, ptr) && !v0.blocks[ptr].prevAlloc && NextAlloc(v0.blocks, ptr)
      requires view == Unlist(v0, ptr) && size == v0.blocks[ptr].size && prev == CoalesceAddr(v0, ptr)
      modifies this
      ensures Inner() && view == CoalesceView(v0, ptr) && heapListp == old(heapListp)
    {
      ghost var psize := v0.blocks[prev].size;
      PrevMergedFacts(v0, ptr, prev, size, psize);
      RemoveFreeBlock(prev);
      MergePrev(ptr, size, prev, psize);
      AddFreeBlock(prev);
    }

    /** The merge's writes with a free predecessor: ptr's footer and prev's header take both sizes. */
    method MergePrev(ptr: nat, size: nat, prev: nat, ghost psize: nat)
      requires Inner() && ptr in view.blocks && prev in view.blocks && NextBlock(view.blocks, prev) == ptr
      requires size == view.blocks[ptr].size && psize == view.blocks[prev].size
      requires Outside(view, {ptr} + {prev})
      modifies this
      ensures Rep(mem, MergedAt(old(view), prev, {ptr}, size + psize)) && view == MergedAt(old(view), prev, {ptr}, size + psize)
      ensures 4 * |mem| <= capacity && heapListp == old(heapListp)
    {
      var m0 := mem;
      ghost var u := view;
      ghost var pa := u.blocks[prev].prevAlloc;
      PrevBounds(m0, u, ptr, prev, size, psize, pa);
      var words := WritePrevMerge(m0, ptr, size, prev, psize, pa);
      PrevRepStep(m0, words, u, ptr, prev, size, psize);
      mem := words;
      view := MergedAt(u, prev, {ptr}, size + psize);
    }

    /** coalesce with both neighbours free: both leave their lists, prev absorbs ptr and next and is listed. */
    method CoalesceBoth(ptr: nat, size: nat, prev: nat, next: nat, ghost v0: View)
      requires Inner() && Coalescible(v0, ptr) && !v0.blocks[ptr].prevAlloc && !NextAlloc(v0.blocks, ptr)
      requires view == Unlist(v0, ptr) && size == v0.blocks[ptr].size
      requires prev == CoalesceAddr(v0, ptr) && next == NextBlock(v0.blocks, ptr)
      modifies this
      ensures Inner() && view == CoalesceView(v0, ptr) && heapListp == old(heapListp)
    {
      ghost var nsize := v0.blocks[next].size;
      ghost var psize := v0.blocks[prev].size;
      BothMergedFacts(v0, ptr, prev, next, size, nsize, psize);
      RemoveFreeBlock(prev);
      RemoveFreeBlock(next);
      MergeBoth(ptr, size, prev, next, nsize, psize);
      AddFreeBlock(prev);
    }

    /** The merge's writes with both neighbours free: prev's header and next's footer take all three sizes. */
    method MergeBoth(ptr: nat, size: nat, prev: nat, ghost next: nat, ghost nsize: nat, ghost psize: nat)
      requires Inner() && ptr in view.blocks && prev in view.blocks && next in view.blocks
      requires NextBlock(view.blocks, prev) == ptr && next == NextBlock(view.blocks, ptr)
      requires size == view.blocks[ptr].size && nsize == view.blocks[next].size && psize == view.blocks[prev].size
      requires Outside(view, {ptr, next} + {prev})
      modifies this
      ensures Rep(mem, MergedAt(old(view), prev, {ptr, next}, size + (nsize + psize)))
      ensures view == MergedAt(old(view), prev, {ptr, next}, size + (nsize + psize))
      ensures 4 * |mem| <= capacity && heapListp == old(heapListp)
    {
      var m0 := mem;
      ghost var u := view;
      ghost var pa := u.blocks[prev].prevAlloc;
      BothBounds(m0, u, ptr, prev, next, size, nsize, psize, pa);
      var words := WriteBothMerge(m0, ptr, size, prev, next, nsize, psize, pa);
      BothRepStep(m0, words, u, ptr, prev, next, size, nsize, psize);
      mem := words;
      view := MergedAt(u, prev, {ptr, next}, size + (nsize + psize));
    }

    /**
     * mm_init: fourteen two-word list slots, all 0, then the padding word, the prologue and the
     * epilogue, then a first free block of CHUNKSIZE bytes.  It returns 0 when the capacity
     * holds those INIT_BYTES, and -1 as soon as one of the mem_sbrk calls fails otherwise.
     */
    method Init() returns (r: int)
      requires capacity <= OFFSET_LIMIT && heapListp == 0 && mem == []
      modifies this
      ensures INIT_BYTES <= capacity ==> r == 0 && Inner() && WF(view) && view == InitView()
      ensures capacity < INIT_BYTES ==> r == -1
    {
      var i := 0;
      while i < SEG_NUM
        invariant 0 <= i <= SEG_NUM && |mem| == 2 * i && heapListp == 0 && 4 * |mem| <= capacity
        invariant forall k | 0 <= k < |mem| :: mem[k] == 0
      {
        var segListp := Sbrk(2 * WSIZE);
        if segListp == -1 {
          return -1;
        }
        mem := mem[W(segListp) := 0];
        mem := mem[W(segListp) + 1 := 0];
        i := i + 1;
      }
      var hp := Sbrk(4 * WSIZE);
      if hp == -1 {
        return -1;
      }
      mem := WritePrologue(mem, hp);
      heapListp := hp + 2 * WSIZE;
      view := EmptyView();
      EmptyWF();
      var bp := ExtendHeap(CHUNKSIZE / WSIZE);
      if bp == 0 {
        return -1;
      }
      r := 0;
    }

    /**
     * extend_heap: the heap grows by words words, rounded up to an even count; the new free block
     * gets its header, footer and list entry, a new epilogue follows it, and it is coalesced with
     * a free last block.  NULL, with nothing changed, when mem_sbrk fails.
     */
    method ExtendHeap(words: nat) returns (bp: nat)
      requires Inner() && WF(view) && WSIZE * words >= CHUNKSIZE
      modifies this
      ensures Inner() && WF(view) && heapListp == old(heapListp)
      ensures 4 * old(|mem|) + ExtendBytes(words) <= capacity ==>
        view == ExtendView(old(view), ExtendBytes(words)) && bp == ExtendAddr(old(view), ExtendBytes(words)) && bp != 0
      ensures 4 * old(|mem|) + ExtendBytes(words) > capacity ==> bp == 0 && view == old(view) && mem == old(mem)
    {
      ghost var v0 := view;
      var size := if words % 2 == 1 then (words + 1) * WSIZE else words * WSIZE;
      size := if size > DSIZE then size else DSIZE;
      assert size == ExtendBytes(words);
      var m0 := mem;
      var p := Sbrk(size);
      if p == -1 {
        return 0;
      }
      bp := GrowAndCoalesce(p, size, m0);
    }

    /** extend_heap after a successful mem_sbrk: the new block is written, listed and coalesced. */
    method GrowAndCoalesce(bp: nat, size: nat, ghost m0: seq<nat>) returns (r: nat)
      requires heapListp == HEAP_LISTP && Rep(m0, view) && WF(view) && capacity <= OFFSET_LIMIT
      requires mem == m0 + seq(size / WSIZE, _ => 0) && 4 * |mem| <= capacity
      requires bp == view.end && size % 8 == 0 && size >= 2 * DSIZE
      modifies this
      ensures Inner() && WF(view) && heapListp == old(heapListp)
      ensures view == ExtendView(old(view), size) && r == ExtendAddr(old(view), size) && r != 0
    {
      ghost var v0 := view;
      GrowBlock(bp, size, m0);
      if size >= 2 * DSIZE {
        AddFreeBlock(bp);
      }
      GrownCoalescible(v0, size);
      r := Coalesce(bp);
      ExtendWF(v0, size);
      ExtendResult(v0, size);
    }

    /** extend_heap's writes after mem_sbrk: the new free block at the old end, on no list yet. */
    method GrowBlock(bp: nat, size: nat, ghost m0: seq<nat>)
      requires heapListp == HEAP_LISTP && Rep(m0, view) && WF(view) && capacity <= OFFSET_LIMIT
      requires mem == m0 + seq(size / WSIZE, _ => 0) && 4 * |mem| <= capacity
      requires bp == view.end && size % 8 == 0 && size >= 2 * DSIZE
      modifies this
      ensures Inner() && view == Appended(old(view), size) && heapListp == old(heapListp)
      ensures bp in view.blocks && !view.blocks[bp].alloc && view.blocks[bp].size == size
      ensures bp !in view.lists[Bucket(size)]
    {
      ghost var u := view;
      AppendedFacts(u, size);
      assert EpiRep(m0, u.end, u.epiPrevAlloc);
      var words := WriteGrow(mem, bp, size, m0, u.epiPrevAlloc);
      GrowRep(m0, words, u, size);
      mem := words;
      view := Appended(u, size);
      assert view.blocks[bp] == Blk(size, false, u.epiPrevAlloc);
    }

    /** The heap a call starts from once malloc's lazy mm_init has run. */
    ghost function Started(): (r: View)
      requires Valid()
      reads this
      ensures WF(r)
    {
      InitResult();
      if heapListp == 0 then InitView() else view
    }

    /**
     * malloc: runs mm_init on a heap not yet initialised; NULL for 0 bytes; otherwise the block
     * find_fit finds for the adjusted size, or one extend_heap adds, placed, or NULL.
     */
    method Malloc(size: nat) returns (ptr: nat)
      requires Valid()
      modifies this
      ensures Valid() && heapListp == HEAP_LISTP
      ensures view == MallocState(old(Started()), size, capacity) && ptr == MallocPtr(old(Started()), size, capacity)
    {
      if heapListp == 0 {
        var _ := Init();
      }
      if size == 0 {
        return 0;
      }
      AdjustSizeSpec(size);
      var asize := AdjustSize(size);
      ptr := FitOrExtend(asize);
    }

    /** malloc after rounding the request: place in the block find_fit finds, or else in one extend_heap adds. */
    method FitOrExtend(asize: nat) returns (ptr: nat)
      requires Inner() && WF(view) && asize % 8 == 0 && asize >= 2 * DSIZE
      modifies this
      ensures Inner() && WF(view) && heapListp == old(heapListp)
      ensures view == MallocView(old(view), asize, capacity) && ptr == MallocAddr(old(view), asize, capacity)
    {
      ghost var v1 := view;
      assert EpiRep(mem, view.end, view.epiPrevAlloc);
      ptr := FindFit(mem, asize, view);
      FitSpec(view, asize);
      if ptr != 0 {
        Place(ptr, asize);
        return;
      }
      ExtendWordsFits(asize);
      ptr := ExtendHeap(ExtendWords(asize));
      if ptr == 0 {
        return;
      }
      ExtendResult(v1, GrowBytes(asize));
      Place(ptr, asize);
    }

    /**
     * free: NULL and pointers past the end of the heap are ignored; otherwise the block is
     * marked free, listed and coalesced with its free neighbours.
     */
    method Free(ptr: nat)
      requires Valid() && (ptr == 0 || ptr >= 4 * |mem| || Allocated(view, ptr))
      modifies this
      ensures Valid() && heapListp == old(heapListp)
      ensures ptr == 0 || ptr >= 4 * old(|mem|) ==> view == old(view) && mem == old(mem)
      ensures ptr != 0 && ptr < 4 * old(|mem|) ==> view == FreeView(old(view), ptr)
    {
      if ptr == 0 {
        return;
      }
      if ptr > 4 * |mem| - 1 {
        return;
      }
      ghost var v0 := view;
      assert BlockRep(mem, ptr, view.blocks[ptr]);
      PackFields(view.blocks[ptr].size, true, view.blocks[ptr].prevAlloc);
      var size := GetSize(mem[Hdr(ptr)]);
      FreeWrite(ptr, size);
      AddFreeBlock(ptr);
      FreedCoalescible(v0, ptr);
      var _ := Coalesce(ptr);
      FreeWF(v0, ptr);
    }

    /** free's writes: the block is marked free with a footer, and the next header's prev-allocated bit is cleared. */
    method FreeWrite(ptr: nat, size: nat)
      requires Inner() && Allocated(view, ptr) && size == view.blocks[ptr].size
      modifies this
      ensures Inner() && view == Cleared(old(view), ptr) && heapListp == old(heapListp)
      ensures ptr in view.blocks && !view.blocks[ptr].alloc && ptr !in view.lists[Bucket(view.blocks[ptr].size)]
    {
      var m0 := mem;
      ghost var u := view;
      ghost var blk := u.blocks[ptr];
      ghost var n := NextBlock(u.blocks, ptr);
      TakeWords(m0, u, ptr, size, n);
      assert BlockRep(m0, ptr, blk);
      var words := WriteFree(m0, ptr, size, blk, n);
      FreeRepStep(m0, words, u, ptr, blk, n);
      ClearedIn(u, ptr);
      mem := words;
      view := Cleared(u, ptr);
    }

    /**
     * realloc: malloc for NULL, free for size 0; otherwise a new block from malloc, the old
     * contents copied up to the new size (copied gives the byte count), and the old block freed.
     * When malloc fails the old block is left as it was.
     */
    method Realloc(oldptr: nat, size: nat) returns (newptr: nat, copied: nat)
      requires Valid() && (oldptr == 0 || (mem != [] && Allocated(view, oldptr)))
      modifies this
      ensures Valid() && (oldptr != 0 ==> heapListp == old(heapListp))
      ensures view == ReallocState(old(Started()), oldptr, size, capacity)
      ensures newptr == ReallocPtr(old(Started()), oldptr, size, capacity)
      ensures copied == if oldptr != 0 && newptr != 0 then CopyLen(size, old(view).blocks[oldptr].size) else 0
    {
      copied := 0;
      if oldptr == 0 {
        newptr := Malloc(size);
        return;
      }
      if size == 0 {
        Free(oldptr);
        return 0, 0;
      }
      newptr, copied := MoveBlock(oldptr, size);
    }

    /** realloc of an allocated block to a non-zero size: malloc, copy, then free the old block. */
    method MoveBlock(oldptr: nat, size: nat) returns (newptr: nat, copied: nat)
      requires Inner() && WF(view) && INIT_BYTES <= capacity && Allocated(view, oldptr) && size > 0
      modifies this
      ensures Inner() && WF(view) && heapListp == old(heapListp)
      ensures view == ReallocState(old(view), oldptr, size, capacity)
      ensures newptr == ReallocPtr(old(view), oldptr, size, capacity)
      ensures copied == if newptr != 0 then CopyLen(size, old(view).blocks[oldptr].size) else 0
    {
      ghost var v0 := view;
      copied := 0;
      newptr := Malloc(size);
      MallocFits(v0, size, capacity);
      if newptr == 0 {
        return;
      }
      ghost var w := view;
      assert BlockRep(mem, oldptr, view.blocks[oldptr]);
      PackFields(view.blocks[oldptr].size, true, view.blocks[oldptr].prevAlloc);
      var oldsize := GetSize(mem[Hdr(oldptr)]);
      copied := CopyLen(size, oldsize);
      Free(oldptr);
      assert view == FreeView(w, oldptr);
    }

    /** calloc: malloc for nmemb elements of size bytes; the zero fill is not modelled. */
    method Calloc(nmemb: nat, size: nat) returns (newptr: nat)
      requires Valid()
      modifies this
      ensures Valid() && heapListp == HEAP_LISTP
      ensures view == MallocState(old(Started()), CallocBytes(nmemb, size), capacity)
      ensures newptr == MallocPtr(old(Started()), CallocBytes(nmemb, size), capacity)
    {
      var bytes := CallocBytes(nmemb, size);
      newptr := Malloc(bytes);
    }
  }
}
