/**
 * The writes of extend_heap and mm_init in malloclab/mm.c on the heap words, and the view
 * they leave before the new block is listed.
 */
module MmGrow {
  import opened MmLayout
  import opened MmWord
  import opened MmView
  import opened MmRep
  import opened MmSteps
  import opened MmMerge

  /** The heap after extend_heap's writes: a free block of size bytes at the old end, on no list yet. */
  function Appended(v: View, size: nat): View
  {
    v.(blocks := v.blocks[v.end := Blk(size, false, v.epiPrevAlloc)], end := v.end + size, epiPrevAlloc := false)
  }

  /** The new block is free and on no list, the other lists are right, and listing it gives extend_heap's view before coalescing. */
  lemma AppendedFacts(v: View, size: nat)
    requires WF(v) && size % 8 == 0 && size >= 2 * DSIZE
    ensures Outside(v, {})
    ensures Tiled(Appended(v, size)) && ListsIn(Appended(v, size))
    ensures v.end in Appended(v, size).blocks && !Appended(v, size).blocks[v.end].alloc
    ensures v.end !in Appended(v, size).lists[Bucket(size)]
    ensures Push(Appended(v, size), v.end) == Grown(v, size)
  {
    ExceptOutside(v, {});
    var g := Appended(v, size);
    AppendTiles(v.blocks, v.end, Blk(size, false, v.epiPrevAlloc));
    assert Tiled(g);
    assert v.end !in v.blocks;
    WidenExcept(v, {}, v.end);
    ReblockExcept(v, {} + {v.end}, g.blocks);
    assert ListedExcept(g, {} + {v.end});
    NotListed(g, {} + {v.end}, v.end);
  }

  /**
   * extend_heap's writes after mem_sbrk: the old epilogue word becomes the new block's header,
   * keeping its prev-allocated bit, the footer FTRP finds from it repeats the size, and the
   * header NEXT_BLKP finds is the new epilogue.
   */
  method WriteGrow(mem: seq<nat>, bp: nat, size: nat, ghost m0: seq<nat>, ghost epi: bool) returns (words: seq<nat>)
    requires 0 < |m0| && m0[|m0| - 1] == HdrWord(Blk(0, true, epi)) && mem == m0 + seq(size / WSIZE, _ => 0)
    requires bp == 4 * |m0| && size % 8 == 0 && size >= 2 * DSIZE
    ensures GrowWritten(m0, words, size, epi)
  {
    var n := |m0|;
    GrowIndexes(bp, size, n);
    PackFields(size, false, epi);
    var h := Hdr(bp);
    words := mem[h := Pack(size, GetPrevAlloc(mem[h]))];
    EpilogueBits(epi);
    var bsize := GetSize(words[h]);
    words := words[Ftr(bp, bsize) := Pack(size, 0)];
    words := words[Hdr(bp + bsize) := Pack(0, 1)];
    GrownWords(m0, size, epi, words);
  }

  /** The grown heap with those three words written is what GrowWritten describes. */
  lemma GrownWords(m0: seq<nat>, size: nat, epi: bool, words: seq<nat>)
    requires 0 < |m0| && m0[|m0| - 1] == HdrWord(Blk(0, true, epi)) && size % 8 == 0 && size >= 2 * DSIZE
    requires size / WSIZE >= 4
    requires var n, q := |m0|, size / WSIZE;
      words == (m0 + seq(q, _ => 0))[n - 1 := Pack(size, Bits(false, epi))]
                                    [n + q - 2 := Pack(size, 0)][n + q - 1 := Pack(0, 1)]
    ensures GrowWritten(m0, words, size, epi)
  {
    var n := |m0|;
    assert forall j | 0 <= j < n - 1 :: words[j] == m0[j];
  }

  /** The epilogue's prev-allocated bit is the one a free block's header after it keeps. */
  lemma EpilogueBits(epi: bool)
    ensures GetPrevAlloc(HdrWord(Blk(0, true, epi))) == Bits(false, epi)
  {
    PackFields(0, true, epi);
  }

  /** The words extend_heap writes: the old epilogue, and the last two words of the grown heap. */
  lemma GrowIndexes(bp: nat, size: nat, n: nat)
    requires bp == 4 * n && size % 8 == 0 && size >= 2 * DSIZE
    ensures size / WSIZE >= 4
    ensures Hdr(bp) == n - 1 && Ftr(bp, size) == n + size / WSIZE - 2 && Hdr(bp + size) == n + size / WSIZE - 1
  {
    var k := size / 8;
    ModUnique(size, 8, k, 0);
    ModUnique(size, WSIZE, 2 * k, 0);
    ModUnique(bp, 4, n, 0);
    ModUnique(bp + size, 4, n + 2 * k, 0);
  }

  /**
   * mm_init's writes after the second mem_sbrk: the padding word, the prologue's header and
   * footer, and an epilogue whose prev-allocated bit says the prologue is allocated.
   */
  method WritePrologue(mem: seq<nat>, hp: nat) returns (words: seq<nat>)
    requires |mem| == SLOTS + 4 && hp == 4 * SLOTS && forall k | 0 <= k < |mem| :: mem[k] == 0
    ensures Rep(words, EmptyView())
  {
    words := mem[W(hp) := 0];
    words := words[W(hp) + 1 := Pack(DSIZE, 1)];
    words := words[W(hp) + 2 := Pack(DSIZE, 1)];
    words := words[W(hp) + 3 := Pack(0, 3)];
    InitRep(words);
  }
}
