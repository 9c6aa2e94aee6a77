/**
 * The header writes of place, coalesce, free and extend_heap in malloclab/mm.c, each stated
 * as the words a write sequence leaves and the view those words then hold.  The methods of
 * MmHeap make the same writes, in the same order, and take these facts as given.
 */
module MmSteps {
  import opened MmLayout
  import opened MmWord
  import opened MmView
  import opened MmRep

  /** The status bits GET_PREV_ALLOC reads for a prev-allocated bit. */
  function PrevBits(pa: bool): nat
  {
    if pa then 2 else 0
  }

  /** The listed blocks of a view whose lists are right apart from x are blocks other than x. */
  lemma ExceptOutside(v: View, x: set<nat>)
    requires ListedExcept(v, x)
    ensures Outside(v, x) && ListsIn(v)
  {
  }

  /** Where a split's words lie: the rest's header follows a's, and its footer is a's old footer. */
  lemma SplitArith(a: nat, asize: nat, c: nat, len: int)
    requires a % 8 == 0 && asize % 8 == 0 && c % 8 == 0 && asize >= 2 * DSIZE && c >= asize + 2 * DSIZE
    requires 0 <= Hdr(a) && Ftr(a, c) < len
    ensures 0 <= Hdr(a) < Hdr(a + asize) < Ftr(a + asize, c - asize) < len && Ftr(a + asize, c - asize) == Ftr(a, c)
  {
  }

  /** Where a flip's words lie: the footer ends the block and the next header follows it. */
  lemma FlipArith(a: nat, c: nat, len: int)
    requires a % 8 == 0 && c % 8 == 0 && c >= 2 * DSIZE && 0 <= Hdr(a) && a + c <= 4 * len
    ensures 0 <= Hdr(a) <= Ftr(a, c) < Hdr(a + c) < len
  {
  }

  /** place's split of free block a of v, already unlisted into u, into asize allocated bytes and a free rest. */
  predicate SplitReady(mem: seq<nat>, v: View, u: View, a: nat, asize: nat)
  {
    Tiled(v) && Listed(v) && a in v.blocks && !v.blocks[a].alloc &&
    asize % 8 == 0 && asize >= 2 * DSIZE && v.blocks[a].size >= asize + 2 * DSIZE &&
    u == Unlist(v, a) && Rep(mem, u) && Tiled(u)
  }

  /** The view after the split and before the rest is listed. */
  function SplitView(v: View, a: nat, asize: nat): View
    requires a in v.blocks && |v.lists| == SEG_NUM && v.blocks[a].size >= asize
  {
    Unlist(v, a).(blocks := SplitMap(v.blocks, a, asize))
  }

  /** An allocated header packs the size with the prev-allocated bits and bit 0. */
  lemma AllocWord(size: nat, pa: bool)
    requires size % 8 == 0
    ensures Pack(size, PrevBits(pa) + 1) == HdrWord(Blk(size, true, pa)) && GetSize(Pack(size, PrevBits(pa) + 1)) == size
  {
    PackFields(size, true, pa);
  }

  /** The header words the split writes for the free rest. */
  lemma RestWords(asize: nat, c: nat)
    requires asize % 8 == 0 && c % 8 == 0 && c >= asize
    ensures Pack(c - asize, 2) == HdrWord(Blk(c - asize, false, true)) && GetSize(Pack(c - asize, 2)) == c - asize
    ensures Pack(c - asize, 0) == c - asize
  {
    Mod8(c, asize);
    PackFields(c - asize, false, true);
  }

  /** The block remove_free_block took out of a right list is outside every list, and the rest of them are right. */
  lemma UnlistOutside(v: View, a: nat)
    requires Listed(v) && a in v.blocks && !v.blocks[a].alloc
    ensures Outside(Unlist(v, a), {a})
  {
    UnlistExcept(v, {}, a);
    assert {} + {a} == {a};
    ExceptOutside(Unlist(v, a), {a});
  }

  /** The bounds of the words the split writes. */
  lemma SplitBounds(mem: seq<nat>, v: View, u: View, a: nat, asize: nat)
    requires SplitReady(mem, v, u, a, asize)
    ensures var c := v.blocks[a].size; var q := a + asize;
      0 <= Hdr(a) < Hdr(q) < Ftr(q, c - asize) < |mem| && Ftr(q, c - asize) == Ftr(a, c)
    ensures a % 8 == 0 && v.blocks[a].size % 8 == 0 && Ftr(a, v.blocks[a].size) < |mem|
  {
    var c := v.blocks[a].size;
    assert BlockRep(mem, a, u.blocks[a]);
    SplitArith(a, asize, c, |mem|);
  }

  /**
   * The split's three writes: a's header with its new size, then the header and footer of the
   * rest q, found by NEXT_BLKP on the new header.  The words then hold the split view.
   */
  lemma SplitRepStep(mem: seq<nat>, w: seq<nat>, v: View, u: View, a: nat, asize: nat, c: nat)
    requires SplitReady(mem, v, u, a, asize) && c == v.blocks[a].size
    requires SplitWritten(mem, w, a, asize, c, v.blocks[a].prevAlloc)
    ensures Rep(w, SplitView(v, a, asize))
  {
    UnlistOutside(v, a);
    SplitRep(mem, w, u, a, asize);
    assert SplitView(v, a, asize) == u.(blocks := SplitMap(u.blocks, a, asize));
  }

  /** After the split the rest is a free block on no list, and listing it gives place's view. */
  lemma SplitViewFacts(v: View, a: nat, asize: nat, q: nat)
    requires Tiled(v) && Listed(v) && a in v.blocks && !v.blocks[a].alloc
    requires asize % 8 == 0 && asize >= 2 * DSIZE && v.blocks[a].size >= asize + 2 * DSIZE && q == a + asize
    ensures Tiled(SplitView(v, a, asize)) && ListsIn(SplitView(v, a, asize))
    ensures q in SplitView(v, a, asize).blocks && !SplitView(v, a, asize).blocks[q].alloc
    ensures q !in SplitView(v, a, asize).lists[Bucket(SplitView(v, a, asize).blocks[q].size)]
    ensures Push(SplitView(v, a, asize), q) == PlaceView(v, a, asize)
  {
    var u := Unlist(v, a);
    SplitTiles(v.blocks, v.end, a, asize);
    Inside(v.blocks, v.end, a, q);
    UnlistExcept(v, {}, a);
    assert {} + {a} == {a};
    WidenExcept(u, {a}, q);
    SplitExcept(u, {a, q}, a, asize);
    var s := SplitView(v, a, asize);
    ExceptOutside(s, {a, q});
    assert forall j | 0 <= j < |s.lists[Bucket(s.blocks[q].size)]| :: s.lists[Bucket(s.blocks[q].size)][j] != q;
  }

  /** place's use of the whole free block a of v, already unlisted into u. */
  predicate TakeReady(mem: seq<nat>, v: View, u: View, a: nat, asize: nat)
  {
    Tiled(v) && Listed(v) && a in v.blocks && !v.blocks[a].alloc &&
    asize % 8 == 0 && asize >= 2 * DSIZE && asize <= v.blocks[a].size < asize + 2 * DSIZE &&
    u == Unlist(v, a) && u.blocks == v.blocks && Rep(mem, u) && Tiled(u)
  }

  /** The header words of a flip's block and of what follows it, and where they lie. */
  lemma FlipBounds(mem: seq<nat>, u: View, a: nat)
    requires Rep(mem, u) && Tiled(u) && a in u.blocks
    ensures var c := u.blocks[a].size; var n := a + c;
      n == NextBlock(u.blocks, a) && 0 <= Hdr(a) <= Ftr(a, c) < Hdr(n) < |mem| &&
      mem[Hdr(n)] == (if n in u.blocks then HdrWord(u.blocks[n]) else HdrWord(Blk(0, true, u.epiPrevAlloc))) &&
      (n in u.blocks ==> u.blocks[n].size % 8 == 0)
  {
    var n := NextBlock(u.blocks, a);
    assert n == u.end || n in u.blocks;
    assert BlockRep(mem, a, u.blocks[a]);
    FlipArith(a, u.blocks[a].size, |mem|);
  }

  /** Setting or clearing the prev-allocated bit of a header word gives the next word of a flip. */
  lemma NextWordBits(m: map<nat, Blk>, n: nat, epi: bool, w: nat)
    requires n in m ==> w == HdrWord(m[n]) && m[n].size % 8 == 0
    requires n !in m ==> w == HdrWord(Blk(0, true, epi))
    ensures SetPrevBit(w) == NextWord(m, n, true) && ClearPrevBit(w) == NextWord(m, n, false)
  {
    if n in m {
      PrevBitFields(m[n].size, m[n].alloc, m[n].prevAlloc);
    } else {
      PrevBitFields(0, true, epi);
    }
  }

  /** The words of a flip after block a: where they lie, and the next header with its prev-allocated bit set or cleared. */
  lemma TakeWords(mem: seq<nat>, u: View, a: nat, c: nat, n: nat)
    requires Rep(mem, u) && Tiled(u) && a in u.blocks && c == u.blocks[a].size && n == NextBlock(u.blocks, a)
    ensures n == a + c && 0 <= Hdr(a) <= Ftr(a, c) < Hdr(n) < |mem| && c % 8 == 0
    ensures SetPrevBit(mem[Hdr(n)]) == NextWord(u.blocks, n, true) && ClearPrevBit(mem[Hdr(n)]) == NextWord(u.blocks, n, false)
  {
    FlipBounds(mem, u, a);
    NextWordBits(u.blocks, n, u.epiPrevAlloc, mem[Hdr(n)]);
  }

  /** FlipWritten depends only on the values of its arguments. */
  lemma FlipWrittenEq(mem: seq<nat>, w2: seq<nat>, a: nat, s: nat, s2: nat, n: nat, n2: nat, aw: nat, aw2: nat, nw: nat, nw2: nat)
    requires FlipWritten(mem, w2, a, s, n, true, aw, nw) && s == s2 && n == n2 && aw == aw2 && nw == nw2
    ensures FlipWritten(mem, w2, a, s2, n2, true, aw2, nw2)
  {
  }

  /**
   * place without a split: a's header marks it allocated, and the header after it (NEXT_BLKP
   * on the new header) gets its prev-allocated bit set.  The words then hold place's view.
   */
  lemma TakeRepStep(mem: seq<nat>, w2: seq<nat>, v: View, u: View, a: nat, asize: nat, c: nat, blk: Blk, n: nat)
    requires TakeReady(mem, v, u, a, asize) && c == u.blocks[a].size && blk == u.blocks[a] && n == NextBlock(u.blocks, a)
    requires FlipWritten(mem, w2, a, c, n, true, HdrWord(blk.(alloc := true)), SetPrevBit(mem[Hdr(n)]))
    ensures Rep(w2, PlaceView(v, a, asize))
  {
    var m := u.blocks;
    TakeWords(mem, u, a, c, n);
    FlipWrittenEq(mem, w2, a, c, m[a].size, n, NextBlock(m, a), HdrWord(blk.(alloc := true)),
                  HdrWord(m[a].(alloc := true)), SetPrevBit(mem[Hdr(n)]), NextWord(m, NextBlock(m, a), true));
    UnlistOutside(v, a);
    FlipRep(mem, w2, u, a, true);
    assert PlaceView(v, a, asize) == u.(blocks := FlipMap(u.blocks, a, true), epiPrevAlloc := FlipEpi(u.blocks, u.end, u.epiPrevAlloc, a, true));
  }

  /**
   * place's writes when it takes the whole block: the header marks the block allocated, and
   * the header NEXT_BLKP finds from it gets its prev-allocated bit set.
   */
  method WriteTake(mem: seq<nat>, ptr: nat, csize: nat, prevAlloc: nat, ghost blk: Blk, ghost n: nat) returns (words: seq<nat>)
    requires csize == blk.size && csize % 8 == 0 && prevAlloc == PrevBits(blk.prevAlloc) && n == ptr + csize
    requires 0 <= Hdr(ptr) <= Ftr(ptr, csize) < Hdr(n) < |mem|
    ensures FlipWritten(mem, words, ptr, csize, n, true, HdrWord(blk.(alloc := true)), SetPrevBit(mem[Hdr(n)]))
    ensures |words| == |mem|
  {
    AllocWord(csize, blk.prevAlloc);
    words := mem[Hdr(ptr) := Pack(csize, prevAlloc + 1)];
    var next := ptr + GetSize(words[Hdr(ptr)]);
    words := words[Hdr(next) := SetPrevBit(words[Hdr(next)])];
  }

  /**
   * place's writes when it splits: the header takes asize bytes, and NEXT_BLKP on it finds the
   * rest, whose header and footer (FTRP on the new header) say it is free.
   */
  method WriteSplit(mem: seq<nat>, ptr: nat, asize: nat, csize: nat, prevAlloc: nat, ghost pa: bool) returns (words: seq<nat>)
    requires ptr % 8 == 0 && asize % 8 == 0 && csize % 8 == 0 && asize >= 2 * DSIZE && csize >= asize + 2 * DSIZE
    requires prevAlloc == PrevBits(pa) && 0 <= Hdr(ptr) && Ftr(ptr, csize) < |mem|
    ensures SplitWritten(mem, words, ptr, asize, csize, pa) && |words| == |mem|
  {
    SplitArith(ptr, asize, csize, |mem|);
    AllocWord(asize, pa);
    RestWords(asize, csize);
    words := mem[Hdr(ptr) := Pack(asize, prevAlloc + 1)];
    var q := ptr + GetSize(words[Hdr(ptr)]);
    words := words[Hdr(q) := Pack(csize - asize, 2)];
    words := words[Ftr(q, GetSize(words[Hdr(q)])) := Pack(csize - asize, 0)];
  }

  /** place keeps the blocks tiling the heap and the lists naming free blocks. */
  lemma PlaceIn(v: View, a: nat, asize: nat)
    requires Tiled(v) && Listed(v) && a in v.blocks && !v.blocks[a].alloc
    requires asize % 8 == 0 && asize >= 2 * DSIZE && v.blocks[a].size >= asize
    ensures Tiled(PlaceView(v, a, asize)) && ListsIn(PlaceView(v, a, asize))
  {
    PlaceTiled(v, a, asize);
    PlaceListed(v, a, asize);
    ExceptIn(PlaceView(v, a, asize), {});
  }

  // ---------------------------------------------------------------------------
  // free's writes

  /** The view after free's writes: block a free, and the prev-allocated bit after it cleared. */
  function Cleared(u: View, a: nat): View
    requires a in u.blocks
  {
    u.(blocks := FlipMap(u.blocks, a, false), epiPrevAlloc := FlipEpi(u.blocks, u.end, u.epiPrevAlloc, a, false))
  }

  /**
   * free's writes: the header keeps the size and the prev-allocated bit and marks the block
   * free, the footer FTRP finds from it repeats the size, and the header NEXT_BLKP finds gets
   * its prev-allocated bit cleared.
   */
  method WriteFree(mem: seq<nat>, ptr: nat, size: nat, ghost blk: Blk, ghost n: nat) returns (words: seq<nat>)
    requires size == blk.size && size % 8 == 0 && size >= 2 * DSIZE && n == ptr + size
    requires 0 <= Hdr(ptr) <= Ftr(ptr, size) < Hdr(n) < |mem| && mem[Hdr(ptr)] == HdrWord(blk)
    ensures FlipWritten(mem, words, ptr, size, n, false, HdrWord(blk.(alloc := false)), ClearPrevBit(mem[Hdr(n)]))
  {
    PackFields(size, blk.alloc, blk.prevAlloc);
    PackFields(size, false, blk.prevAlloc);
    words := mem[Hdr(ptr) := Pack(size, GetPrevAlloc(mem[Hdr(ptr)]))];
    words := words[Ftr(ptr, GetSize(words[Hdr(ptr)])) := Pack(size, 0)];
    var next := ptr + GetSize(words[Hdr(ptr)]);
    words := words[Hdr(next) := ClearPrevBit(words[Hdr(next)])];
  }

  /** After free's writes the words hold the view with block a free. */
  lemma FreeRepStep(mem: seq<nat>, w2: seq<nat>, u: View, a: nat, blk: Blk, n: nat)
    requires Rep(mem, u) && Tiled(u) && ListsIn(u) && a in u.blocks && u.blocks[a].alloc
    requires blk == u.blocks[a] && n == NextBlock(u.blocks, a)
    requires FlipWritten(mem, w2, a, blk.size, n, false, HdrWord(blk.(alloc := false)), ClearPrevBit(mem[Hdr(n)]))
    ensures Rep(w2, Cleared(u, a))
  {
    TakeWords(mem, u, a, blk.size, n);
    assert Outside(u, {a});
    FlipRep(mem, w2, u, a, false);
  }

  /** The cleared view still tiles the heap and its lists still name free blocks; a is free and on no list. */
  lemma ClearedIn(u: View, a: nat)
    requires Tiled(u) && ListsIn(u) && a in u.blocks && u.blocks[a].alloc
    ensures Tiled(Cleared(u, a)) && ListsIn(Cleared(u, a))
    ensures a in Cleared(u, a).blocks && !Cleared(u, a).blocks[a].alloc
    ensures a !in Cleared(u, a).lists[Bucket(Cleared(u, a).blocks[a].size)]
  {
    FlipTiles(u.blocks, u.end, a, false);
    assert forall j | 0 <= j < |u.lists[Bucket(u.blocks[a].size)]| :: u.lists[Bucket(u.blocks[a].size)][j] != a;
  }
}
