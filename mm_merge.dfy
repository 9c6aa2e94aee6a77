/**
 * The three merging cases of coalesce in malloclab/mm.c on the heap words: what coalesce reads
 * of a block's neighbours, the words each case writes, and the view those words then hold.
 * The methods of MmHeap make the same reads and writes, in the same order.
 */
module MmMerge {
  import opened MmLayout
  import opened MmWord
  import opened MmView
  import opened MmRep
  import opened MmSteps

  // ---------------------------------------------------------------------------
  // Reads

  /** GET_ALLOC on the header after block a, given what that header word holds. */
  lemma NextAllocWord(m: map<nat, Blk>, a: nat, epi: bool, n: nat, w: nat)
    requires a in m && n == NextBlock(m, a)
    requires n in m ==> w == HdrWord(m[n]) && m[n].size % 8 == 0
    requires n !in m ==> w == HdrWord(Blk(0, true, epi))
    ensures (GetAlloc(w) == 1) == NextAlloc(m, a)
  {
    if n in m {
      PackFields(m[n].size, m[n].alloc, m[n].prevAlloc);
    } else {
      PackFields(0, true, epi);
    }
  }

  /** The header after block a lies in the heap and is allocated exactly when NextAlloc says so. */
  lemma NextHeader(mem: seq<nat>, u: View, a: nat, n: nat)
    requires Rep(mem, u) && Tiled(u) && a in u.blocks && n == NextBlock(u.blocks, a)
    ensures 0 <= Hdr(n) < |mem| && (GetAlloc(mem[Hdr(n)]) == 1) == NextAlloc(u.blocks, a)
  {
    FlipBounds(mem, u, a);
    NextAllocWord(u.blocks, a, u.epiPrevAlloc, n, mem[Hdr(n)]);
  }

  /**
   * NEXT_BLKP and GET_ALLOC on a block: its size, then the header after it, which is the next
   * block's or the epilogue's, allocated exactly when NextAlloc says so.
   */
  lemma NextReads(mem: seq<nat>, u: View, a: nat, size: nat, n: nat)
    requires Rep(mem, u) && Tiled(u) && a in u.blocks && 0 <= Hdr(a) < |mem| && size == GetSize(mem[Hdr(a)]) && n == a + size
    ensures size == u.blocks[a].size && n == NextBlock(u.blocks, a) && 0 <= Hdr(n) < |mem|
    ensures (GetAlloc(mem[Hdr(n)]) == 1) == NextAlloc(u.blocks, a)
  {
    assert BlockRep(mem, a, u.blocks[a]);
    PackFields(u.blocks[a].size, u.blocks[a].alloc, u.blocks[a].prevAlloc);
    assert n == NextBlock(u.blocks, a);
    NextHeader(mem, u, a, n);
  }

  /** The word before the header of a block whose predecessor is free is that block's footer. */
  lemma PrevFooter(mem: seq<nat>, u: View, v: View, a: nat)
    requires Rep(mem, u) && u.blocks == v.blocks && u.end == v.end && Tiled(v) && Tagged(v)
    requires a in v.blocks && !v.blocks[a].prevAlloc
    ensures a != FIRST_BLOCK && 0 <= Hdr(a) - 1 < |mem|
    ensures GetSize(mem[Hdr(a) - 1]) == v.blocks[Prev(v, a)].size && GetSize(mem[Hdr(a) - 1]) <= a
    ensures !v.blocks[Prev(v, a)].alloc
  {
    var m := v.blocks;
    assert a != FIRST_BLOCK;
    var p := Prev(v, a);
    assert NextBlock(m, p) == a;
    assert BlockRep(mem, p, m[p]);
    assert Ftr(p, m[p].size) == Hdr(a) - 1;
  }

  /** PREV_BLKP: a minus the size in that footer is the block before a. */
  lemma PrevIs(mem: seq<nat>, u: View, v: View, a: nat, psize: nat, p: nat)
    requires Rep(mem, u) && u.blocks == v.blocks && u.end == v.end && Tiled(v) && Tagged(v)
    requires a in v.blocks && !v.blocks[a].prevAlloc
    requires 0 <= Hdr(a) - 1 < |mem| && psize == GetSize(mem[Hdr(a) - 1]) && psize == v.blocks[Prev(v, a)].size && p == a - psize
    ensures p == Prev(v, a) && p == CoalesceAddr(v, a)
    ensures p in v.blocks && !v.blocks[p].alloc && v.blocks[p].size == psize && NextBlock(v.blocks, p) == a && p < a
  {
    var q := Prev(v, a);
    assert q + v.blocks[q].size == a;
    assert Tags(v.blocks, v.end, v.epiPrevAlloc);
    assert NextBlock(v.blocks, q) == a;
  }

  // ---------------------------------------------------------------------------
  // The views between the writes and add_free_block

  /** After remove_free_block on a, a free block other than a is still listed. */
  lemma StillListed(v: View, x: set<nat>, a: nat, b: nat)
    requires ListedExcept(v, x) && a in v.blocks && !v.blocks[a].alloc && a !in x
    requires b in v.blocks && !v.blocks[b].alloc && b != a && b !in x
    ensures b in Unlist(v, a).blocks && b in Unlist(v, a).lists[Bucket(Unlist(v, a).blocks[b].size)]
    ensures ListedExcept(Unlist(v, a), x + {a})
  {
    UnlistExcept(v, x, a);
  }

  /** The merged block is listed nowhere, and every other list entry is as before. */
  lemma NotListed(s: View, x: set<nat>, c: nat)
    requires ListedExcept(s, x) && c in x && c in s.blocks
    ensures Outside(s, x) && ListsIn(s) && c !in s.lists[Bucket(s.blocks[c].size)]
  {
    ExceptOutside(s, x);
    assert forall j | 0 <= j < |s.lists[Bucket(s.blocks[c].size)]| :: s.lists[Bucket(s.blocks[c].size)][j] != c;
  }

  /** Absorb as the merge writes it: the next block goes, and a holds both sizes. */
  lemma AbsorbIs(m: map<nat, Blk>, a: nat, n: nat, size: nat, nsize: nat)
    requires a in m && n == NextBlock(m, a) && n in m && size == m[a].size && nsize == m[n].size
    ensures Absorb(m, a) == (m - {n})[a := Blk(size + nsize, false, m[a].prevAlloc)]
  {
  }

  /** Both absorptions of coalesce's third case as one merge: a and n go, and p holds all three sizes. */
  lemma AbsorbBothIs(m: map<nat, Blk>, a: nat, p: nat, n: nat, size: nat, nsize: nat, psize: nat)
    requires a in m && n == NextBlock(m, a) && n in m && p in m && NextBlock(m, p) == a && p < a < n
    requires size == m[a].size && nsize == m[n].size && psize == m[p].size
    ensures Absorb(m, a)[p] == m[p]
    ensures Absorb(Absorb(m, a), p) == (m - {a, n})[p := Blk(size + (nsize + psize), false, m[p].prevAlloc)]
  {
    var k := Absorb(m, a);
    AbsorbIs(m, a, n, size, nsize);
    assert k[p] == m[p];
    AbsorbIs(k, p, a, psize, size + nsize);
    assert (k - {a}) == m - {a, n};
  }

  /**
   * coalesce with a free successor only: with a and n off their lists, n is listed nowhere
   * else, and the merged block is ready for add_free_block, which completes coalesce.
   */
  lemma NextMergedFacts(v: View, a: nat, n: nat, size: nat, nsize: nat)
    requires Coalescible(v, a) && v.blocks[a].prevAlloc && !NextAlloc(v.blocks, a) && n == NextBlock(v.blocks, a)
    requires size == v.blocks[a].size && nsize == v.blocks[n].size
    ensures n in Unlist(v, a).lists[Bucket(Unlist(v, a).blocks[n].size)]
    ensures var u := Unlist(Unlist(v, a), n); var s := MergedAt(u, a, {n}, size + nsize);
      Outside(u, {n} + {a}) && Tiled(s) && ListsIn(s) && a in s.blocks && !s.blocks[a].alloc &&
      a !in s.lists[Bucket(s.blocks[a].size)] && Push(s, a) == CoalesceView(v, a)
  {
    AbsorbTiles(v.blocks, v.end, a);
    StillListed(v, {}, a, n);
    var u1 := Unlist(v, a);
    UnlistExcept(u1, {} + {a}, n);
    var u := Unlist(u1, n);
    var x := {} + {a} + {n};
    assert x == {n} + {a};
    ExceptOutside(u, x);
    var s := MergedAt(u, a, {n}, size + nsize);
    AbsorbIs(v.blocks, a, n, size, nsize);
    assert s == u.(blocks := Absorb(v.blocks, a));
    ReblockExcept(u, x, Absorb(v.blocks, a));
    NotListed(s, x, a);
  }

  /** coalesce with a free predecessor only. */
  lemma PrevMergedFacts(v: View, a: nat, p: nat, size: nat, psize: nat)
    requires Coalescible(v, a) && !v.blocks[a].prevAlloc && NextAlloc(v.blocks, a) && p == CoalesceAddr(v, a)
    requires size == v.blocks[a].size && psize == v.blocks[p].size
    ensures p in Unlist(v, a).lists[Bucket(Unlist(v, a).blocks[p].size)]
    ensures var u := Unlist(Unlist(v, a), p); var s := MergedAt(u, p, {a}, size + psize);
      Outside(u, {a} + {p}) && Tiled(s) && ListsIn(s) && p in s.blocks && !s.blocks[p].alloc &&
      p !in s.lists[Bucket(s.blocks[p].size)] && Push(s, p) == CoalesceView(v, a)
  {
    assert Tags(v.blocks, v.end, v.epiPrevAlloc);
    assert !v.blocks[p].alloc;
    AbsorbTiles(v.blocks, v.end, p);
    StillListed(v, {}, a, p);
    var u1 := Unlist(v, a);
    UnlistExcept(u1, {} + {a}, p);
    var u := Unlist(u1, p);
    var x := {} + {a} + {p};
    assert x == {a} + {p};
    ExceptOutside(u, x);
    var s := MergedAt(u, p, {a}, size + psize);
    AbsorbIs(v.blocks, p, a, psize, size);
    assert s == u.(blocks := Absorb(v.blocks, p));
    ReblockExcept(u, x, Absorb(v.blocks, p));
    NotListed(s, x, p);
  }

  /** coalesce with both neighbours free. */
  lemma BothMergedFacts(v: View, a: nat, p: nat, n: nat, size: nat, nsize: nat, psize: nat)
    requires Coalescible(v, a) && !v.blocks[a].prevAlloc && !NextAlloc(v.blocks, a)
    requires p == CoalesceAddr(v, a) && n == NextBlock(v.blocks, a)
    requires size == v.blocks[a].size && nsize == v.blocks[n].size && psize == v.blocks[p].size
    ensures p < a < n
    ensures p in Unlist(v, a).lists[Bucket(Unlist(v, a).blocks[p].size)]
    ensures n in Unlist(Unlist(v, a), p).lists[Bucket(Unlist(Unlist(v, a), p).blocks[n].size)]
    ensures var u := Unlist(Unlist(Unlist(v, a), p), n); var s := MergedAt(u, p, {a, n}, size + (nsize + psize));
      Outside(u, {a, n} + {p}) && Tiled(s) && ListsIn(s) && p in s.blocks && !s.blocks[p].alloc &&
      p !in s.lists[Bucket(s.blocks[p].size)] && Push(s, p) == CoalesceView(v, a)
  {
    var m := v.blocks;
    assert Tags(m, v.end, v.epiPrevAlloc);
    assert !m[p].alloc;
    AbsorbBothIs(m, a, p, n, size, nsize, psize);
    AbsorbTiles(m, v.end, a);
    AbsorbTiles(Absorb(m, a), v.end, p);
    StillListed(v, {}, a, p);
    StillListed(Unlist(v, a), {} + {a}, p, n);
    UnlistExcept(Unlist(Unlist(v, a), p), {} + {a} + {p}, n);
    var u := Unlist(Unlist(Unlist(v, a), p), n);
    assert {a, p, n} == {} + {a} + {p} + {n};
    var k := Absorb(Absorb(m, a), p);
    assert {a, p, n} == {a, n} + {p};
    ExceptOutside(u, {a, p, n});
    ReblockExcept(u, {a, p, n}, k);
    var s := MergedAt(u, p, {a, n}, size + (nsize + psize));
    assert s == u.(blocks := k);
    NotListed(s, {a, p, n}, p);
  }

  // ---------------------------------------------------------------------------
  // The writes

  /** Block p of u, after the merge's two writes: it has absorbed the blocks of D and holds total bytes. */
  function MergedAt(u: View, p: nat, D: set<nat>, total: nat): View
    requires p in u.blocks
  {
    u.(blocks := (u.blocks - D)[p := Blk(total, false, u.blocks[p].prevAlloc)])
  }

  /** Where the merge with a free successor writes, and the sizes it reads. */
  lemma NextBounds(mem: seq<nat>, u: View, a: nat, n: nat, size: nat, nsize: nat)
    requires Rep(mem, u) && Tiled(u) && a in u.blocks && n in u.blocks && n == NextBlock(u.blocks, a)
    requires size == u.blocks[a].size && nsize == u.blocks[n].size
    ensures 0 <= Hdr(a) < Hdr(n) < |mem| && n == a + size && (size + nsize) % 8 == 0
    ensures GetSize(mem[Hdr(a)]) == size && GetSize(mem[Hdr(n)]) == nsize
    ensures Hdr(a) <= Ftr(a, size + nsize) < |mem|
  {
    assert BlockRep(mem, a, u.blocks[a]);
    PackFields(u.blocks[a].size, u.blocks[a].alloc, u.blocks[a].prevAlloc);
    assert BlockRep(mem, n, u.blocks[n]);
    PackFields(u.blocks[n].size, u.blocks[n].alloc, u.blocks[n].prevAlloc);
    Mod8(size, nsize);
  }

  /**
   * The merge with a free successor: ptr's header takes the total size, read through
   * NEXT_BLKP, with the prev-allocated bit set, and the footer FTRP finds from that header
   * repeats the size.
   */
  method WriteNextMerge(mem: seq<nat>, ptr: nat, size: nat, ghost next: nat, ghost nsize: nat) returns (words: seq<nat>)
    requires 0 <= Hdr(ptr) && Hdr(next) < |mem| && next == ptr + size && (size + nsize) % 8 == 0
    requires GetSize(mem[Hdr(ptr)]) == size && GetSize(mem[Hdr(next)]) == nsize
    requires Hdr(ptr) <= Ftr(ptr, size + nsize) < |mem|
    ensures MergeWritten(mem, words, ptr, size + nsize, true)
  {
    var total := size + GetSize(mem[Hdr(ptr + GetSize(mem[Hdr(ptr)]))]);
    PackFields(total, false, true);
    words := mem[Hdr(ptr) := Pack(total, 2)];
    words := words[Ftr(ptr, GetSize(words[Hdr(ptr)])) := Pack(total, 0)];
  }

  /** After the merge with a free successor the words hold block a grown over n. */
  lemma NextRepStep(mem: seq<nat>, w: seq<nat>, u: View, a: nat, n: nat, size: nat, nsize: nat)
    requires Rep(mem, u) && Tiled(u) && a in u.blocks && n in u.blocks && n == NextBlock(u.blocks, a)
    requires size == u.blocks[a].size && nsize == u.blocks[n].size && u.blocks[a].prevAlloc
    requires Outside(u, {n} + {a}) && MergeWritten(mem, w, a, size + nsize, true)
    ensures Rep(w, MergedAt(u, a, {n}, size + nsize))
  {
    assert InBlock(u.blocks, n, Ftr(a, size + nsize));
    MergeRep(mem, w, u, a, size + nsize, {n}, n);
  }

  /** Where the merge with a free predecessor writes, and the sizes and bits it reads. */
  lemma PrevBounds(mem: seq<nat>, u: View, a: nat, p: nat, size: nat, psize: nat, pa: bool)
    requires Rep(mem, u) && Tiled(u) && a in u.blocks && p in u.blocks && NextBlock(u.blocks, p) == a
    requires size == u.blocks[a].size && psize == u.blocks[p].size && pa == u.blocks[p].prevAlloc
    ensures 0 <= Hdr(p) < Hdr(a) <= Ftr(a, size) < |mem| && p + psize == a && (size + psize) % 8 == 0
    ensures GetSize(mem[Hdr(a)]) == size && GetSize(mem[Hdr(p)]) == psize && GetPrevAlloc(mem[Hdr(p)]) == PrevBits(pa)
  {
    assert BlockRep(mem, a, u.blocks[a]);
    PackFields(u.blocks[a].size, u.blocks[a].alloc, u.blocks[a].prevAlloc);
    assert BlockRep(mem, p, u.blocks[p]);
    PackFields(u.blocks[p].size, u.blocks[p].alloc, u.blocks[p].prevAlloc);
    Mod8(size, psize);
  }

  /**
   * The merge with a free predecessor: the footer FTRP finds from ptr's header takes the total
   * size, read from the header of PREV_BLKP, then that header takes it too, keeping its
   * prev-allocated bit.
   */
  method WritePrevMerge(mem: seq<nat>, ptr: nat, size: nat, prev: nat, ghost psize: nat, ghost pa: bool) returns (words: seq<nat>)
    requires 0 <= Hdr(prev) < Hdr(ptr) <= Ftr(ptr, size) < |mem| && prev + psize == ptr && (size + psize) % 8 == 0
    requires GetSize(mem[Hdr(ptr)]) == size && GetSize(mem[Hdr(prev)]) == psize && GetPrevAlloc(mem[Hdr(prev)]) == PrevBits(pa)
    ensures MergeWritten(mem, words, prev, size + psize, pa)
  {
    var total := size + GetSize(mem[Hdr(prev)]);
    PackFields(total, false, pa);
    words := mem[Ftr(ptr, GetSize(mem[Hdr(ptr)])) := Pack(total, 0)];
    words := words[Hdr(prev) := Pack(total, GetPrevAlloc(words[Hdr(prev)]))];
  }

  /** After the merge with a free predecessor the words hold block p grown over a. */
  lemma PrevRepStep(mem: seq<nat>, w: seq<nat>, u: View, a: nat, p: nat, size: nat, psize: nat)
    requires Rep(mem, u) && Tiled(u) && a in u.blocks && p in u.blocks && NextBlock(u.blocks, p) == a
    requires size == u.blocks[a].size && psize == u.blocks[p].size
    requires Outside(u, {a} + {p}) && MergeWritten(mem, w, p, size + psize, u.blocks[p].prevAlloc)
    ensures Rep(w, MergedAt(u, p, {a}, size + psize))
  {
    assert InBlock(u.blocks, a, Ftr(p, size + psize));
    MergeRep(mem, w, u, p, size + psize, {a}, a);
  }

  /** Where the merge with both neighbours writes, and the sizes and bits it reads. */
  lemma BothBounds(mem: seq<nat>, u: View, a: nat, p: nat, n: nat, size: nat, nsize: nat, psize: nat, pa: bool)
    requires Rep(mem, u) && Tiled(u) && a in u.blocks && p in u.blocks && n in u.blocks
    requires NextBlock(u.blocks, p) == a && n == NextBlock(u.blocks, a)
    requires size == u.blocks[a].size && nsize == u.blocks[n].size && psize == u.blocks[p].size && pa == u.blocks[p].prevAlloc
    ensures 0 <= Hdr(p) < Hdr(a) < Hdr(n) <= Ftr(n, nsize) < |mem| && p + psize == a && n == a + size
    ensures (size + (nsize + psize)) % 8 == 0
    ensures GetSize(mem[Hdr(a)]) == size && GetSize(mem[Hdr(n)]) == nsize
    ensures GetSize(mem[Hdr(p)]) == psize && GetPrevAlloc(mem[Hdr(p)]) == PrevBits(pa)
  {
    assert BlockRep(mem, a, u.blocks[a]);
    PackFields(u.blocks[a].size, u.blocks[a].alloc, u.blocks[a].prevAlloc);
    assert BlockRep(mem, n, u.blocks[n]);
    PackFields(u.blocks[n].size, u.blocks[n].alloc, u.blocks[n].prevAlloc);
    assert BlockRep(mem, p, u.blocks[p]);
    PackFields(u.blocks[p].size, u.blocks[p].alloc, u.blocks[p].prevAlloc);
    Mod8(nsize, psize);
    Mod8(size, nsize + psize);
  }

  /**
   * The merge with both neighbours: the header of PREV_BLKP takes the total size, read from
   * both neighbours' headers, keeping its prev-allocated bit; then the footer of NEXT_BLKP,
   * found from ptr's and the next block's headers, takes it too.
   */
  method WriteBothMerge(mem: seq<nat>, ptr: nat, size: nat, prev: nat, ghost n: nat, ghost nsize: nat, ghost psize: nat, ghost pa: bool)
    returns (words: seq<nat>)
    requires 0 <= Hdr(prev) < Hdr(ptr) < Hdr(n) <= Ftr(n, nsize) < |mem| && prev + psize == ptr && n == ptr + size
    requires (size + (nsize + psize)) % 8 == 0
    requires GetSize(mem[Hdr(ptr)]) == size && GetSize(mem[Hdr(n)]) == nsize
    requires GetSize(mem[Hdr(prev)]) == psize && GetPrevAlloc(mem[Hdr(prev)]) == PrevBits(pa)
    ensures MergeWritten(mem, words, prev, size + (nsize + psize), pa)
  {
    var total := size + (GetSize(mem[Hdr(ptr + GetSize(mem[Hdr(ptr)]))]) + GetSize(mem[Hdr(prev)]));
    PackFields(total, false, pa);
    words := mem[Hdr(prev) := Pack(total, GetPrevAlloc(mem[Hdr(prev)]))];
    var next := ptr + GetSize(words[Hdr(ptr)]);
    words := words[Ftr(next, GetSize(words[Hdr(next)])) := Pack(total, 0)];
  }

  /** After the merge with both neighbours the words hold block p grown over a and n. */
  lemma BothRepStep(mem: seq<nat>, w: seq<nat>, u: View, a: nat, p: nat, n: nat, size: nat, nsize: nat, psize: nat)
    requires Rep(mem, u) && Tiled(u) && a in u.blocks && p in u.blocks && n in u.blocks
    requires NextBlock(u.blocks, p) == a && n == NextBlock(u.blocks, a)
    requires size == u.blocks[a].size && nsize == u.blocks[n].size && psize == u.blocks[p].size
    requires Outside(u, {a, n} + {p}) && MergeWritten(mem, w, p, size + (nsize + psize), u.blocks[p].prevAlloc)
    ensures Rep(w, MergedAt(u, p, {a, n}, size + (nsize + psize)))
  {
    assert InBlock(u.blocks, n, Ftr(p, size + (nsize + psize)));
    MergeRep(mem, w, u, p, size + (nsize + psize), {a, n}, n);
  }
}
