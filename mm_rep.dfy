/**
 * How the heap words of malloclab/mm.c hold the view of MmView: the 14 list slots at the
 * start, the prologue, every block's header (and a free block's footer and links), and the
 * epilogue header in the last word.  Word k holds the bytes at offset 4k.
 *
 * Each lemma here takes the words before and after the writes one step of mm.c makes
 * (add_free_block, remove_free_block, the header writes of place, coalesce, free and
 * extend_heap) and shows the words still hold the view that step produces.
 */
module MmRep {
  import opened MmLayout
  import opened MmWord
  import opened MmView

  /** Words of list slots: slot i is words 2i (the first block) and 2i+1 (zero). */
  const SLOTS: nat := 2 * SEG_NUM
  /** The padding word, the prologue's header and its footer. */
  const PAD: nat := 28
  const PRO_HDR: nat := 29
  const PRO_FTR: nat := 30

  /** The word holding the byte at offset a. */
  function W(a: nat): nat
  {
    a / 4
  }

  /** HDRP: the word before the payload. */
  function Hdr(b: nat): int
  {
    b / 4 - 1
  }

  /** FTRP: the last word of the block. */
  function Ftr(b: nat, size: nat): int
  {
    (b + size) / 4 - 2
  }

  /** The header word of a block. */
  function HdrWord(blk: Blk): nat
  {
    Pack(blk.size, Bits(blk.alloc, blk.prevAlloc))
  }

  /** Each list slot holds the list's first block, or 0 for an empty list. */
  predicate SlotsRep(mem: seq<nat>, lists: seq<seq<nat>>)
  {
    |lists| == SEG_NUM && SLOTS <= |mem| &&
    forall i | 0 <= i < SEG_NUM :: mem[2 * i] == First(lists[i]) && mem[2 * i + 1] == 0
  }

  /** The padding word and the allocated 8-byte prologue. */
  predicate PrologueRep(mem: seq<nat>)
  {
    PRO_FTR < |mem| && mem[PAD] == 0 && mem[PRO_HDR] == Pack(DSIZE, 1) && mem[PRO_FTR] == Pack(DSIZE, 1)
  }

  /** Block b has its header; a free block also has its footer, which holds its size. */
  predicate BlockRep(mem: seq<nat>, b: nat, blk: Blk)
  {
    0 <= Hdr(b) < Ftr(b, blk.size) < |mem| && mem[Hdr(b)] == HdrWord(blk) &&
    (!blk.alloc ==> mem[Ftr(b, blk.size)] == blk.size)
  }

  predicate BlocksRep(mem: seq<nat>, m: map<nat, Blk>)
  {
    forall b | b in m :: BlockRep(mem, b, m[b])
  }

  /** Every block of the list has its prev and next links, the offsets of its neighbours or 0, in its first two payload words. */
  predicate ListRep(mem: seq<nat>, l: seq<nat>)
  {
    forall j {:trigger W(l[j])} | 0 <= j < |l| ::
      W(l[j]) + 1 < |mem| && mem[W(l[j])] == PrevIn(l, j) && mem[W(l[j]) + 1] == NextIn(l, j)
  }

  predicate LinksRep(mem: seq<nat>, lists: seq<seq<nat>>)
  {
    forall i | 0 <= i < |lists| :: ListRep(mem, lists[i])
  }

  /** The last word is the epilogue header: size 0, allocated, with the last block's status. */
  predicate EpiRep(mem: seq<nat>, end: nat, epi: bool)
  {
    4 * |mem| == end && 0 < |mem| && mem[|mem| - 1] == HdrWord(Blk(0, true, epi))
  }

  /** The heap words hold the view. */
  predicate Rep(mem: seq<nat>, v: View)
  {
    SlotsRep(mem, v.lists) && PrologueRep(mem) && BlocksRep(mem, v.blocks) &&
    LinksRep(mem, v.lists) && EpiRep(mem, v.end, v.epiPrevAlloc)
  }

  /**
   * What the list code needs to hold in every intermediate state: listed blocks are free
   * blocks of the heap, in the list of their size, and no list repeats a block.
   */
  predicate ListsIn(v: View)
  {
    |v.lists| == SEG_NUM &&
    (forall i, j | 0 <= i < SEG_NUM && 0 <= j < |v.lists[i]| ::
       v.lists[i][j] in v.blocks && !v.blocks[v.lists[i][j]].alloc && Bucket(v.blocks[v.lists[i][j]].size) == i) &&
    (forall i | 0 <= i < SEG_NUM :: Distinct(v.lists[i]))
  }

  lemma ExceptIn(v: View, x: set<nat>)
    requires ListedExcept(v, x)
    ensures ListsIn(v)
  {
  }

  // ---------------------------------------------------------------------------
  // Where the words of different blocks lie

  /**
   * A block's two link words are neither a header nor a footer of any block, not the link
   * words of another block, and lie between the list slots and the epilogue.
   */
  lemma LinkApart(m: map<nat, Blk>, end: nat, a: nat, b: nat)
    requires Tiles(m, end) && a in m && b in m
    ensures PRO_FTR < W(a) && W(a) + 1 < end / 4 - 1
    ensures W(a) != Hdr(b) && W(a) != Ftr(b, m[b].size) && W(a) + 1 != Hdr(b) && W(a) + 1 != Ftr(b, m[b].size)
    ensures a != b ==> W(a) != W(b) && W(a) != W(b) + 1 && W(a) + 1 != W(b)
  {
    Order(m, end, a, b);
  }

  /** A block's header and footer are not words of another block's header or footer, and lie before the epilogue. */
  lemma TagApart(m: map<nat, Blk>, end: nat, a: nat, b: nat)
    requires Tiles(m, end) && a in m && b in m
    ensures PRO_FTR <= Hdr(a) && Hdr(a) < Ftr(a, m[a].size) < end / 4 - 1
    ensures a != b ==> Hdr(a) != Hdr(b) && Hdr(a) != Ftr(b, m[b].size) &&
                       Ftr(a, m[a].size) != Hdr(b) && Ftr(a, m[a].size) != Ftr(b, m[b].size)
  {
    Order(m, end, a, b);
  }

  /** The link words of the list's blocks other than x lie apart from x's link words. */
  predicate LinksClear(l: seq<nat>, x: nat)
  {
    forall j {:trigger W(l[j])} | 0 <= j < |l| && l[j] != x :: W(l[j]) + 1 < W(x) || W(x) + 1 < W(l[j])
  }

  /** The link words of the list's blocks lie past the slots and the prologue. */
  predicate PastSlots(l: seq<nat>)
  {
    forall j {:trigger W(l[j])} | 0 <= j < |l| :: PRO_FTR < W(l[j])
  }

  /** Where the blocks tile the heap, the link words of a list of its blocks lie apart. */
  lemma ClearOf(m: map<nat, Blk>, end: nat, l: seq<nat>, x: nat)
    requires Tiles(m, end) && x in m && forall j | 0 <= j < |l| :: l[j] in m
    ensures LinksClear(l, x) && PastSlots(l)
  {
    forall j | 0 <= j < |l|
      ensures PRO_FTR < W(l[j]) && (l[j] != x ==> W(l[j]) + 1 < W(x) || W(x) + 1 < W(l[j]))
    {
      LinkApart(m, end, l[j], x);
    }
  }

  /** The link words of the blocks lie past the slots. */
  lemma PastSlotsOf(m: map<nat, Blk>, end: nat, l: seq<nat>)
    requires Tiles(m, end) && forall j | 0 <= j < |l| :: l[j] in m
    ensures PastSlots(l)
  {
    forall j | 0 <= j < |l|
      ensures PRO_FTR < W(l[j])
    {
      LinkApart(m, end, l[j], l[j]);
    }
  }

  // ---------------------------------------------------------------------------
  // Words that do not change

  /** The words agree outside the set ws. */
  predicate Agree(mem: seq<nat>, mem2: seq<nat>, ws: set<int>)
  {
    |mem2| == |mem| && forall k | 0 <= k < |mem| && k !in ws :: mem2[k] == mem[k]
  }

  /** Writes that miss every header and footer keep the blocks. */
  lemma AgreeBlocks(mem: seq<nat>, mem2: seq<nat>, m: map<nat, Blk>, ws: set<int>)
    requires BlocksRep(mem, m) && Agree(mem, mem2, ws)
    requires forall b | b in m :: Hdr(b) !in ws && Ftr(b, m[b].size) !in ws
    ensures BlocksRep(mem2, m)
  {
  }

  /** Writes that miss a list's link words keep the list. */
  lemma AgreeList(mem: seq<nat>, mem2: seq<nat>, l: seq<nat>, ws: set<int>)
    requires ListRep(mem, l) && Agree(mem, mem2, ws)
    requires forall j {:trigger W(l[j])} | 0 <= j < |l| :: W(l[j]) !in ws && W(l[j]) + 1 !in ws
    ensures ListRep(mem2, l)
  {
  }

  /** Writes between the prologue and the epilogue keep both. */
  lemma AgreeEnds(mem: seq<nat>, mem2: seq<nat>, end: nat, epi: bool, ws: set<int>)
    requires PrologueRep(mem) && EpiRep(mem, end, epi) && Agree(mem, mem2, ws)
    requires forall k | k in ws :: k < SLOTS || PRO_FTR < k < |mem| - 1
    ensures PrologueRep(mem2) && EpiRep(mem2, end, epi)
  {
  }

  /** Writes past the list slots keep them. */
  lemma AgreeSlots(mem: seq<nat>, mem2: seq<nat>, lists: seq<seq<nat>>, ws: set<int>)
    requires SlotsRep(mem, lists) && Agree(mem, mem2, ws)
    requires forall k | k in ws :: PRO_FTR < k
    ensures SlotsRep(mem2, lists)
  {
  }

  /** The slot of list i names the first block of its new list l2; the other slots are as they were. */
  lemma NewSlot(mem: seq<nat>, mem2: seq<nat>, lists: seq<seq<nat>>, i: nat, l2: seq<nat>, ws: set<int>)
    requires SlotsRep(mem, lists) && i < SEG_NUM && Agree(mem, mem2, ws)
    requires mem2[2 * i] == First(l2) && mem2[2 * i + 1] == 0
    requires forall k | k in ws :: k == 2 * i || k == 2 * i + 1 || PRO_FTR < k
    ensures SlotsRep(mem2, lists[i := l2])
  {
  }

  // ---------------------------------------------------------------------------
  // add_free_block

  /**
   * The words add_free_block leaves when block a goes on top of list i, whose first block is
   * f (0 for an empty list): the slot names a, a's links are 0 and f, and f's prev link is a.
   */
  function PushMem(mem: seq<nat>, i: nat, f: nat, a: nat): seq<nat>
    requires i < SEG_NUM && SLOTS <= |mem| && W(a) + 1 < |mem| && W(f) < |mem|
  {
    if f == 0 then mem[2 * i := a][2 * i + 1 := 0][W(a) := 0][W(a) + 1 := 0]
    else mem[W(a) := 0][W(a) + 1 := f][2 * i := a][2 * i + 1 := 0][W(f) := a]
  }

  /** The words add_free_block writes. */
  function PushSet(i: nat, f: nat, a: nat): set<int>
  {
    {2 * i, 2 * i + 1, W(a), W(a) + 1} + (if f == 0 then {} else {W(f)})
  }

  lemma PushWords(mem: seq<nat>, i: nat, f: nat, a: nat)
    requires i < SEG_NUM && SLOTS <= |mem| && PRO_FTR < W(a) && W(a) + 1 < |mem| - 1
    requires f != 0 ==> PRO_FTR < W(f) < |mem| - 1 && W(f) != W(a) && W(f) != W(a) + 1
    ensures var mem2 := PushMem(mem, i, f, a);
      Agree(mem, mem2, PushSet(i, f, a)) &&
      mem2[2 * i] == a && mem2[2 * i + 1] == 0 && mem2[W(a)] == 0 && mem2[W(a) + 1] == f &&
      (f != 0 ==> mem2[W(f)] == a) &&
      (forall k | k in PushSet(i, f, a) :: k == 2 * i || k == 2 * i + 1 || PRO_FTR < k < |mem| - 1)
  {
  }

  /** The block goes in front of the list's blocks, whose links are unchanged past the old first one. */
  lemma PushOwnList(mem: seq<nat>, mem2: seq<nat>, l: seq<nat>, a: nat)
    requires ListRep(mem, l) && |mem2| == |mem| && W(a) + 1 < |mem2|
    requires mem2[W(a)] == 0 && mem2[W(a) + 1] == First(l)
    requires l != [] ==> mem2[W(l[0])] == a && mem2[W(l[0]) + 1] == mem[W(l[0]) + 1]
    requires forall j {:trigger W(l[j])} | 1 <= j < |l| :: mem2[W(l[j])] == mem[W(l[j])] && mem2[W(l[j]) + 1] == mem[W(l[j]) + 1]
    ensures ListRep(mem2, [a] + l)
  {
    var l2 := [a] + l;
    forall j | 0 <= j < |l2|
      ensures W(l2[j]) + 1 < |mem2| && mem2[W(l2[j])] == PrevIn(l2, j) && mem2[W(l2[j]) + 1] == NextIn(l2, j)
    {
      if j > 0 {
        assert l2[j] == l[j - 1];
      }
    }
  }

  /** A list whose link words add_free_block does not write keeps its links. */
  lemma PushOtherList(mem: seq<nat>, mem2: seq<nat>, l: seq<nat>, i: nat, f: nat, a: nat)
    requires ListRep(mem, l) && i < SEG_NUM && PastSlots(l) && LinksClear(l, a) && (f != 0 ==> LinksClear(l, f))
    requires forall j | 0 <= j < |l| :: l[j] != a && (f != 0 ==> l[j] != f)
    requires Agree(mem, mem2, PushSet(i, f, a))
    ensures ListRep(mem2, l)
  {
    AgreeList(mem, mem2, l, PushSet(i, f, a));
  }

  /** add_free_block leaves the links of the rest of a's new list alone. */
  lemma PushKept(mem: seq<nat>, mem2: seq<nat>, l: seq<nat>, i: nat, a: nat)
    requires i < SEG_NUM && Distinct(l) && PastSlots(l) && LinksClear(l, a)
    requires l != [] ==> LinksClear(l, l[0])
    requires forall j | 0 <= j < |l| :: l[j] != a
    requires Agree(mem, mem2, PushSet(i, First(l), a))
    ensures l != [] ==> W(l[0]) + 1 < |mem| ==> mem2[W(l[0]) + 1] == mem[W(l[0]) + 1]
    ensures forall j {:trigger W(l[j])} | 1 <= j < |l| && W(l[j]) + 1 < |mem| ::
      mem2[W(l[j])] == mem[W(l[j])] && mem2[W(l[j]) + 1] == mem[W(l[j]) + 1]
  {
    if l != [] {
      assert W(l[0]) + 1 < W(a) || W(a) + 1 < W(l[0]);
    }
    forall j | 1 <= j < |l| && W(l[j]) + 1 < |mem|
      ensures mem2[W(l[j])] == mem[W(l[j])] && mem2[W(l[j]) + 1] == mem[W(l[j]) + 1]
    {
      assert l[j] != l[0];
    }
  }

  /** The list block a goes on: a in front, the old first block linked back to it. */
  lemma PushSameList(mem: seq<nat>, mem2: seq<nat>, l: seq<nat>, i: nat, a: nat)
    requires ListRep(mem, l) && i < SEG_NUM && Distinct(l) && PastSlots(l) && LinksClear(l, a)
    requires l != [] ==> LinksClear(l, l[0])
    requires forall j | 0 <= j < |l| :: l[j] != a
    requires Agree(mem, mem2, PushSet(i, First(l), a)) && W(a) + 1 < |mem|
    requires mem2[W(a)] == 0 && mem2[W(a) + 1] == First(l) && (l != [] ==> mem2[W(l[0])] == a)
    ensures ListRep(mem2, [a] + l)
  {
    PushKept(mem, mem2, l, i, a);
    PushOwnList(mem, mem2, l, a);
  }

  /** The links of every list after add_free_block. */
  lemma PushLinks(mem: seq<nat>, mem2: seq<nat>, lists: seq<seq<nat>>, m: map<nat, Blk>, end: nat, i: nat, a: nat)
    requires LinksRep(mem, lists) && Tiles(m, end) && |lists| == SEG_NUM && i < SEG_NUM && a in m
    requires forall k, j | 0 <= k < SEG_NUM && 0 <= j < |lists[k]| :: lists[k][j] in m && lists[k][j] != a
    requires Distinct(lists[i])
    requires forall k, j | 0 <= k < SEG_NUM && k != i && 0 <= j < |lists[k]| :: lists[i] != [] ==> lists[k][j] != lists[i][0]
    requires var l := lists[i];
      Agree(mem, mem2, PushSet(i, First(l), a)) && W(a) + 1 < |mem| &&
      mem2[W(a)] == 0 && mem2[W(a) + 1] == First(l) && (l != [] ==> mem2[W(l[0])] == a)
    ensures LinksRep(mem2, lists[i := [a] + lists[i]])
  {
    var l := lists[i];
    var lists2 := lists[i := [a] + l];
    if l != [] {
      assert l[0] in m;
    }
    forall k | 0 <= k < SEG_NUM
      ensures ListRep(mem2, lists2[k])
    {
      ClearOf(m, end, lists[k], a);
      if l != [] {
        ClearOf(m, end, lists[k], l[0]);
      }
      if k != i {
        PushOtherList(mem, mem2, lists[k], i, First(l), a);
      } else {
        PushSameList(mem, mem2, l, i, a);
      }
    }
  }

  /** add_free_block writes no header or footer. */
  lemma PushBlocks(mem: seq<nat>, mem2: seq<nat>, m: map<nat, Blk>, end: nat, i: nat, f: nat, a: nat)
    requires BlocksRep(mem, m) && Tiles(m, end) && i < SEG_NUM && a in m && (f != 0 ==> f in m)
    requires Agree(mem, mem2, PushSet(i, f, a))
    ensures BlocksRep(mem2, m)
  {
    forall b | b in m
      ensures Hdr(b) !in PushSet(i, f, a) && Ftr(b, m[b].size) !in PushSet(i, f, a)
    {
      TagApart(m, end, b, b);
      LinkApart(m, end, a, b);
      if f != 0 {
        LinkApart(m, end, f, b);
      }
    }
    AgreeBlocks(mem, mem2, m, PushSet(i, f, a));
  }

  /** add_free_block's writes make the words hold the pushed view. */
  lemma PushRep(mem: seq<nat>, v: View, a: nat)
    requires Rep(mem, v) && Tiled(v) && ListsIn(v)
    requires a in v.blocks && !v.blocks[a].alloc && a !in v.lists[Bucket(v.blocks[a].size)]
    ensures var i := Bucket(v.blocks[a].size); var f := First(v.lists[i]);
      W(a) + 1 < |mem| && W(f) < |mem| && Rep(PushMem(mem, i, f, a), Push(v, a))
  {
    var m := v.blocks;
    var i := Bucket(m[a].size);
    var l := v.lists[i];
    var f := First(l);
    LinkApart(m, v.end, a, a);
    if l != [] {
      assert l[0] in m;
      LinkApart(m, v.end, l[0], a);
    }
    PushWords(mem, i, f, a);
    var mem2 := PushMem(mem, i, f, a);
    var ws := PushSet(i, f, a);
    NewSlot(mem, mem2, v.lists, i, [a] + l, ws);
    AgreeEnds(mem, mem2, v.end, v.epiPrevAlloc, ws);
    PushBlocks(mem, mem2, m, v.end, i, f, a);
    forall k, j | 0 <= k < SEG_NUM && 0 <= j < |v.lists[k]|
      ensures v.lists[k][j] != a && (k != i && l != [] ==> v.lists[k][j] != l[0])
    {
    }
    PushLinks(mem, mem2, v.lists, m, v.end, i, a);
  }

  /** Pushing keeps the lists holding free blocks of the heap in the right list, once. */
  lemma PushIn(v: View, a: nat)
    requires ListsIn(v) && a in v.blocks && !v.blocks[a].alloc && a !in v.lists[Bucket(v.blocks[a].size)]
    ensures ListsIn(Push(v, a))
  {
    var i := Bucket(v.blocks[a].size);
    var l := v.lists[i];
    var w := Push(v, a);
    assert w.lists[i] == [a] + l;
    forall k, j | 0 <= k < SEG_NUM && 0 <= j < |w.lists[k]|
      ensures w.lists[k][j] in w.blocks && !w.blocks[w.lists[k][j]].alloc && Bucket(w.blocks[w.lists[k][j]].size) == k
    {
      if k == i && j > 0 {
        assert w.lists[k][j] == l[j - 1];
      }
    }
    forall k | 0 <= k < SEG_NUM
      ensures Distinct(w.lists[k])
    {
      if k == i {
        forall j, j2 | 0 <= j < j2 < |w.lists[k]|
          ensures w.lists[k][j] != w.lists[k][j2]
        {
          assert w.lists[k][j2] == l[j2 - 1];
          if j > 0 {
            assert w.lists[k][j] == l[j - 1];
          }
        }
      }
    }
  }


  // ---------------------------------------------------------------------------
  // remove_free_block

  /**
   * The words remove_free_block leaves for a block of list i with list neighbours prev and
   * next (0 for none): the block before it, or the slot, now names next, and next's prev link
   * names prev.
   */
  function UnlistMem(mem: seq<nat>, i: nat, prev: nat, next: nat): seq<nat>
    requires i < SEG_NUM && SLOTS <= |mem| && W(prev) + 1 < |mem| && W(next) < |mem|
  {
    if prev == 0 then
      if next == 0 then mem[2 * i := 0][2 * i + 1 := 0] else mem[2 * i := next][2 * i + 1 := 0][W(next) := 0]
    else
      if next == 0 then mem[W(prev) + 1 := 0] else mem[W(next) := prev][W(prev) + 1 := next]
  }

  /** remove_free_block's four cases of writes, one by one. */
  lemma UnlistMemCases(mem: seq<nat>, i: nat, prev: nat, next: nat)
    requires i < SEG_NUM && SLOTS <= |mem| && W(prev) + 1 < |mem| && W(next) < |mem|
    ensures prev == 0 && next == 0 ==> UnlistMem(mem, i, prev, next) == mem[2 * i := 0][2 * i + 1 := 0]
    ensures prev == 0 && next != 0 ==> UnlistMem(mem, i, prev, next) == mem[2 * i := next][2 * i + 1 := 0][W(next) := 0]
    ensures prev != 0 && next == 0 ==> UnlistMem(mem, i, prev, next) == mem[W(prev) + 1 := 0]
    ensures prev != 0 && next != 0 ==> UnlistMem(mem, i, prev, next) == mem[W(next) := prev][W(prev) + 1 := next]
  {
  }

  /** The words remove_free_block writes. */
  function UnlistSet(i: nat, prev: nat, next: nat): set<int>
  {
    (if prev == 0 then {2 * i, 2 * i + 1} else {W(prev) + 1}) + (if next == 0 then {} else {W(next)})
  }

  /** The words after remove_free_block's writes for a block of list i with list neighbours prev and next. */
  predicate Unlisted(mem: seq<nat>, mem2: seq<nat>, i: nat, prev: nat, next: nat)
    requires i < SEG_NUM
  {
    Agree(mem, mem2, UnlistSet(i, prev, next)) &&
    (forall k | k in UnlistSet(i, prev, next) :: k == 2 * i || k == 2 * i + 1 || PRO_FTR < k < |mem| - 1) &&
    SLOTS <= |mem| && W(prev) + 1 < |mem| && W(next) < |mem| &&
    (prev != 0 ==> PRO_FTR < W(prev)) && (next != 0 ==> PRO_FTR < W(next)) &&
    (prev == 0 ==> mem2[2 * i] == next && mem2[2 * i + 1] == 0) &&
    (prev != 0 ==> mem2[W(prev) + 1] == next) &&
    (next != 0 ==> mem2[W(next)] == prev)
  }

  lemma UnlistWords(mem: seq<nat>, i: nat, prev: nat, next: nat)
    requires i < SEG_NUM && SLOTS <= |mem|
    requires prev != 0 ==> PRO_FTR < W(prev) && W(prev) + 1 < |mem| - 1
    requires next != 0 ==> PRO_FTR < W(next) < |mem| - 1 && W(next) != W(prev) + 1
    ensures W(prev) + 1 < |mem| && W(next) < |mem| && Unlisted(mem, UnlistMem(mem, i, prev, next), i, prev, next)
  {
  }

  /** The block at j leaves the list l, which becomes l2: its neighbours now link to each other. */
  lemma UnlistOwnList(mem: seq<nat>, mem2: seq<nat>, l: seq<nat>, l2: seq<nat>, j: nat)
    requires ListRep(mem, l) && j < |l| && |mem2| == |mem|
    requires |l2| == |l| - 1 && forall k {:trigger l2[k]} | 0 <= k < |l2| :: l2[k] == if k < j then l[k] else l[k + 1]
    requires j > 0 ==> mem2[W(l[j - 1])] == mem[W(l[j - 1])] && mem2[W(l[j - 1]) + 1] == NextIn(l, j)
    requires j < |l| - 1 ==> mem2[W(l[j + 1])] == PrevIn(l, j) && mem2[W(l[j + 1]) + 1] == mem[W(l[j + 1]) + 1]
    requires forall t {:trigger W(l[t])} | 0 <= t < |l| && t != j - 1 && t != j && t != j + 1 ::
      mem2[W(l[t])] == mem[W(l[t])] && mem2[W(l[t]) + 1] == mem[W(l[t]) + 1]
    ensures ListRep(mem2, l2)
  {
    forall t | 0 <= t < |l2|
      ensures W(l2[t]) + 1 < |mem2| && mem2[W(l2[t])] == PrevIn(l2, t) && mem2[W(l2[t]) + 1] == NextIn(l2, t)
    {
      var t0 := if t < j then t else t + 1;
      assert l2[t] == l[t0];
      if t < |l2| - 1 {
        assert l2[t + 1] == if t + 1 < j then l[t + 1] else l[t + 2];
      }
      if t > 0 {
        assert l2[t - 1] == if t - 1 < j then l[t - 1] else l[t];
      }
    }
  }

  /** A list whose link words remove_free_block does not write keeps its links. */
  lemma UnlistOtherList(mem: seq<nat>, mem2: seq<nat>, l: seq<nat>, i: nat, prev: nat, next: nat)
    requires ListRep(mem, l) && i < SEG_NUM && PastSlots(l)
    requires prev != 0 ==> LinksClear(l, prev)
    requires next != 0 ==> LinksClear(l, next)
    requires forall j | 0 <= j < |l| :: (prev != 0 ==> l[j] != prev) && (next != 0 ==> l[j] != next)
    requires Agree(mem, mem2, UnlistSet(i, prev, next))
    ensures ListRep(mem2, l)
  {
    AgreeList(mem, mem2, l, UnlistSet(i, prev, next));
  }

  /** remove_free_block leaves alone the links of the blocks of the list not next to the one at j. */
  lemma UnlistKept(mem: seq<nat>, mem2: seq<nat>, l: seq<nat>, i: nat, j: nat)
    requires i < SEG_NUM && j < |l| && Distinct(l) && PastSlots(l)
    requires j > 0 ==> LinksClear(l, l[j - 1])
    requires j < |l| - 1 ==> LinksClear(l, l[j + 1])
    requires Agree(mem, mem2, UnlistSet(i, PrevIn(l, j), NextIn(l, j)))
    ensures j > 0 ==> W(l[j - 1]) < |mem| ==> mem2[W(l[j - 1])] == mem[W(l[j - 1])]
    ensures j < |l| - 1 ==> W(l[j + 1]) + 1 < |mem| ==> mem2[W(l[j + 1]) + 1] == mem[W(l[j + 1]) + 1]
    ensures forall t {:trigger W(l[t])} | 0 <= t < |l| && t != j - 1 && t != j && t != j + 1 && W(l[t]) + 1 < |mem| ::
      mem2[W(l[t])] == mem[W(l[t])] && mem2[W(l[t]) + 1] == mem[W(l[t]) + 1]
  {
    if j > 0 && j < |l| - 1 {
      assert l[j + 1] != l[j - 1];
      assert W(l[j + 1]) + 1 < W(l[j - 1]) || W(l[j - 1]) + 1 < W(l[j + 1]);
    }
    forall t | 0 <= t < |l| && t != j - 1 && t != j && t != j + 1 && W(l[t]) + 1 < |mem|
      ensures mem2[W(l[t])] == mem[W(l[t])] && mem2[W(l[t]) + 1] == mem[W(l[t]) + 1]
    {
      assert j > 0 ==> l[t] != l[j - 1];
      assert j < |l| - 1 ==> l[t] != l[j + 1];
    }
  }

  /** The list the block at j leaves. */
  lemma UnlistSameList(mem: seq<nat>, mem2: seq<nat>, l: seq<nat>, i: nat, j: nat)
    requires ListRep(mem, l) && i < SEG_NUM && j < |l| && Distinct(l) && PastSlots(l)
    requires j > 0 ==> LinksClear(l, l[j - 1])
    requires j < |l| - 1 ==> LinksClear(l, l[j + 1])
    requires var prev := PrevIn(l, j); var next := NextIn(l, j);
      Agree(mem, mem2, UnlistSet(i, prev, next)) &&
      (prev != 0 ==> mem2[W(prev) + 1] == next) && (next != 0 ==> mem2[W(next)] == prev)
    ensures ListRep(mem2, l[..j] + l[j + 1..])
  {
    UnlistKept(mem, mem2, l, i, j);
    var l2 := l[..j] + l[j + 1..];
    forall k | 0 <= k < |l2|
      ensures l2[k] == if k < j then l[k] else l[k + 1]
    {
    }
    UnlistOwnList(mem, mem2, l, l2, j);
  }

  /** The links of every list after remove_free_block. */
  lemma UnlistLinks(mem: seq<nat>, mem2: seq<nat>, v: View, i: nat, j: nat)
    requires LinksRep(mem, v.lists) && Tiled(v) && ListsIn(v) && i < SEG_NUM && j < |v.lists[i]|
    requires Unlisted(mem, mem2, i, PrevIn(v.lists[i], j), NextIn(v.lists[i], j))
    ensures LinksRep(mem2, v.lists[i := v.lists[i][..j] + v.lists[i][j + 1..]])
  {
    var lists := v.lists;
    var m := v.blocks;
    var end := v.end;
    ListsApart(v, i);
    var l := lists[i];
    var prev := PrevIn(l, j);
    var next := NextIn(l, j);
    var lists2 := lists[i := l[..j] + l[j + 1..]];
    if j > 0 {
      assert l[j - 1] in m;
    }
    if j < |l| - 1 {
      assert l[j + 1] in m;
    }
    forall k | 0 <= k < SEG_NUM
      ensures ListRep(mem2, lists2[k])
    {
      PastSlotsOf(m, end, lists[k]);
      if j > 0 {
        ClearOf(m, end, lists[k], l[j - 1]);
      }
      if j < |l| - 1 {
        ClearOf(m, end, lists[k], l[j + 1]);
      }
      if k != i {
        UnlistOtherList(mem, mem2, lists[k], i, prev, next);
      } else {
        UnlistSameList(mem, mem2, l, i, j);
      }
    }
  }

  /** remove_free_block writes no header or footer. */
  lemma UnlistBlocks(mem: seq<nat>, mem2: seq<nat>, m: map<nat, Blk>, end: nat, i: nat, prev: nat, next: nat)
    requires BlocksRep(mem, m) && Tiles(m, end) && i < SEG_NUM && (prev != 0 ==> prev in m) && (next != 0 ==> next in m)
    requires Agree(mem, mem2, UnlistSet(i, prev, next))
    ensures BlocksRep(mem2, m)
  {
    forall b | b in m
      ensures Hdr(b) !in UnlistSet(i, prev, next) && Ftr(b, m[b].size) !in UnlistSet(i, prev, next)
    {
      TagApart(m, end, b, b);
      if prev != 0 {
        LinkApart(m, end, prev, b);
      }
      if next != 0 {
        LinkApart(m, end, next, b);
      }
    }
    AgreeBlocks(mem, mem2, m, UnlistSet(i, prev, next));
  }

  /** Blocks of one list are in no other list. */
  lemma ListsApart(v: View, i: nat)
    requires ListsIn(v) && i < SEG_NUM
    ensures forall k, t | 0 <= k < SEG_NUM && k != i && 0 <= t < |v.lists[k]| :: v.lists[k][t] !in v.lists[i]
  {
  }

  /** The slot of list i after remove_free_block names the list's new first block. */
  lemma UnlistSlot(mem: seq<nat>, mem2: seq<nat>, lists: seq<seq<nat>>, i: nat, j: nat)
    requires SlotsRep(mem, lists) && i < SEG_NUM && j < |lists[i]| && PastSlots(lists[i])
    requires Unlisted(mem, mem2, i, PrevIn(lists[i], j), NextIn(lists[i], j))
    ensures SlotsRep(mem2, lists[i := lists[i][..j] + lists[i][j + 1..]])
  {
    var l := lists[i];
    var l2 := l[..j] + l[j + 1..];
    if j == 0 {
      assert First(l2) == NextIn(l, j);
    } else {
      assert PRO_FTR < W(l[j - 1]);
      assert First(l2) == l[0] == mem[2 * i] == mem2[2 * i];
    }
    NewSlot(mem, mem2, lists, i, l2, UnlistSet(i, PrevIn(l, j), NextIn(l, j)));
  }

  /** Words holding a view, after remove_free_block's writes for the block at position j of list i. */
  lemma UnlistRepAt(mem: seq<nat>, mem2: seq<nat>, v: View, i: nat, j: nat)
    requires Rep(mem, v) && Tiled(v) && ListsIn(v) && i < SEG_NUM && j < |v.lists[i]|
    requires Unlisted(mem, mem2, i, PrevIn(v.lists[i], j), NextIn(v.lists[i], j))
    ensures Rep(mem2, v.(lists := v.lists[i := v.lists[i][..j] + v.lists[i][j + 1..]]))
  {
    var m := v.blocks;
    var l := v.lists[i];
    var prev := PrevIn(l, j);
    var next := NextIn(l, j);
    if j > 0 {
      assert l[j - 1] in m;
    }
    if j < |l| - 1 {
      assert l[j + 1] in m;
    }
    var ws := UnlistSet(i, prev, next);
    PastSlotsOf(m, v.end, l);
    UnlistSlot(mem, mem2, v.lists, i, j);
    AgreeEnds(mem, mem2, v.end, v.epiPrevAlloc, ws);
    UnlistBlocks(mem, mem2, m, v.end, i, prev, next);
    UnlistLinks(mem, mem2, v, i, j);
  }

  /** remove_free_block's writes make the words hold the unlisted view. */
  lemma UnlistRep(mem: seq<nat>, v: View, a: nat, j: nat)
    requires Rep(mem, v) && Tiled(v) && ListsIn(v) && a in v.blocks
    requires j < |v.lists[Bucket(v.blocks[a].size)]| && v.lists[Bucket(v.blocks[a].size)][j] == a
    ensures var i := Bucket(v.blocks[a].size); var l := v.lists[i];
      var prev := PrevIn(l, j); var next := NextIn(l, j);
      W(prev) + 1 < |mem| && W(next) < |mem| && Rep(UnlistMem(mem, i, prev, next), Unlist(v, a))
  {
    var m := v.blocks;
    var i := Bucket(m[a].size);
    var l := v.lists[i];
    var prev := PrevIn(l, j);
    var next := NextIn(l, j);
    if j > 0 {
      assert l[j - 1] in m;
      LinkApart(m, v.end, l[j - 1], l[j - 1]);
    }
    if j < |l| - 1 {
      assert l[j + 1] in m;
      LinkApart(m, v.end, l[j + 1], l[j + 1]);
      if j > 0 {
        LinkApart(m, v.end, l[j + 1], l[j - 1]);
      }
    }
    UnlistWords(mem, i, prev, next);
    UnlistRepAt(mem, UnlistMem(mem, i, prev, next), v, i, j);
    RemoveAt(l, j);
    assert Unlist(v, a) == v.(lists := v.lists[i := l[..j] + l[j + 1..]]);
  }

  /** Unlisting keeps the lists holding free blocks of the heap in the right list, once. */
  lemma UnlistIn(v: View, a: nat)
    requires ListsIn(v) && a in v.blocks
    ensures ListsIn(Unlist(v, a))
    ensures a !in Unlist(v, a).lists[Bucket(v.blocks[a].size)]
  {
    var i := Bucket(v.blocks[a].size);
    var w := Unlist(v, a);
    RemoveMembers(v.lists[i], a, a);
    forall k, j | 0 <= k < SEG_NUM && 0 <= j < |w.lists[k]|
      ensures w.lists[k][j] in w.blocks && !w.blocks[w.lists[k][j]].alloc && Bucket(w.blocks[w.lists[k][j]].size) == k
    {
      if k == i {
        RemoveMembers(v.lists[i], a, w.lists[k][j]);
      }
    }
  }

  /** The list with the block at j taken out, position by position. */
  lemma RemovedAt(l: seq<nat>, j: nat)
    requires Distinct(l) && j < |l|
    ensures |Remove(l, l[j])| == |l| - 1
    ensures forall k | 0 <= k < |l| - 1 :: Remove(l, l[j])[k] == if k < j then l[k] else l[k + 1]
  {
    RemoveAt(l, j);
  }

  // ---------------------------------------------------------------------------
  // Header and footer writes

  /** Word w is one of block x's words, from its header to its last word. */
  predicate InBlock(m: map<nat, Blk>, x: nat, w: int)
  {
    x in m && Hdr(x) <= w <= Ftr(x, m[x].size)
  }

  /**
   * Every written word is the epilogue header (the word `last`), a word of a block of X, or the
   * header of a block of H.
   */
  predicate Covered(m: map<nat, Blk>, X: set<nat>, H: set<nat>, ws: set<int>, last: int)
  {
    forall w | w in ws ::
      w == last || (exists x | x in X :: InBlock(m, x, w)) || (exists x | x in H :: x in m && w == Hdr(x))
  }

  /** A word of one block is no link word, header or footer of another, and lies between the slots and the epilogue. */
  lemma InsideApart(m: map<nat, Blk>, end: nat, x: nat, b: nat, w: int)
    requires Tiles(m, end) && InBlock(m, x, w) && b in m
    ensures PRO_FTR < w < end / 4 - 1
    ensures x != b ==> w != W(b) && w != W(b) + 1 && w != Hdr(b) && w != Ftr(b, m[b].size)
  {
    Order(m, end, x, b);
  }

  /** Covered writes miss every word of the blocks outside X and H. */
  lemma CoveredMiss(m: map<nat, Blk>, end: nat, X: set<nat>, H: set<nat>, ws: set<int>, last: int, b: nat)
    requires Tiles(m, end) && Covered(m, X, H, ws, last) && last == end / 4 - 1 && b in m
    ensures forall w | w in ws :: PRO_FTR < w <= last
    ensures b !in X ==> W(b) !in ws && W(b) + 1 !in ws
    ensures b !in X && b !in H ==> Hdr(b) !in ws && Ftr(b, m[b].size) !in ws
  {
    LinkApart(m, end, b, b);
    TagApart(m, end, b, b);
    forall w | w in ws
      ensures PRO_FTR < w <= last
      ensures b !in X ==> w != W(b) && w != W(b) + 1
      ensures b !in X && b !in H ==> w != Hdr(b) && w != Ftr(b, m[b].size)
    {
      if w != last {
        if exists x | x in X :: InBlock(m, x, w) {
          var x :| x in X && InBlock(m, x, w);
          InsideApart(m, end, x, b, w);
        } else {
          var x :| x in H && x in m && w == Hdr(x);
          TagApart(m, end, x, x);
          LinkApart(m, end, b, x);
          TagApart(m, end, x, b);
        }
      }
    }
  }

  /** Covered writes keep every list whose blocks are outside X. */
  lemma CoveredLinks(mem: seq<nat>, mem2: seq<nat>, lists: seq<seq<nat>>, m: map<nat, Blk>, end: nat, X: set<nat>, H: set<nat>, ws: set<int>)
    requires LinksRep(mem, lists) && Tiles(m, end) && 4 * |mem| == end && Agree(mem, mem2, ws)
    requires Covered(m, X, H, ws, |mem| - 1)
    requires forall k, j | 0 <= k < |lists| && 0 <= j < |lists[k]| :: lists[k][j] in m && lists[k][j] !in X
    ensures LinksRep(mem2, lists)
  {
    forall k | 0 <= k < |lists|
      ensures ListRep(mem2, lists[k])
    {
      forall j | 0 <= j < |lists[k]|
        ensures W(lists[k][j]) !in ws && W(lists[k][j]) + 1 !in ws
      {
        CoveredMiss(m, end, X, H, ws, |mem| - 1, lists[k][j]);
      }
      AgreeList(mem, mem2, lists[k], ws);
    }
  }

  /** Covered writes keep the header and footer of every block outside X and H. */
  lemma CoveredBlocks(mem: seq<nat>, mem2: seq<nat>, m: map<nat, Blk>, end: nat, X: set<nat>, H: set<nat>, ws: set<int>)
    requires BlocksRep(mem, m) && Tiles(m, end) && 4 * |mem| == end && Agree(mem, mem2, ws)
    requires Covered(m, X, H, ws, |mem| - 1)
    ensures forall b | b in m && b !in X && b !in H :: BlockRep(mem2, b, m[b])
  {
    forall b | b in m && b !in X && b !in H
      ensures BlockRep(mem2, b, m[b])
    {
      CoveredMiss(m, end, X, H, ws, |mem| - 1, b);
    }
  }

  /** Covered writes keep the slots and the prologue, and the epilogue unless they write it. */
  lemma CoveredEnds(mem: seq<nat>, mem2: seq<nat>, lists: seq<seq<nat>>, m: map<nat, Blk>, end: nat, epi: bool, X: set<nat>, H: set<nat>, ws: set<int>)
    requires SlotsRep(mem, lists) && PrologueRep(mem) && EpiRep(mem, end, epi) && Tiles(m, end) && Agree(mem, mem2, ws)
    requires Covered(m, X, H, ws, |mem| - 1)
    ensures SlotsRep(mem2, lists) && PrologueRep(mem2)
    ensures |mem| - 1 !in ws ==> EpiRep(mem2, end, epi)
  {
    forall w | w in ws
      ensures PRO_FTR < w
    {
      if w != |mem| - 1 {
        if exists x | x in X :: InBlock(m, x, w) {
          var x :| x in X && InBlock(m, x, w);
          InsideApart(m, end, x, x, w);
        } else {
          var x :| x in H && x in m && w == Hdr(x);
          TagApart(m, end, x, x);
        }
      }
    }
    AgreeSlots(mem, mem2, lists, ws);
  }

  lemma BlocksPut(mem: seq<nat>, m: map<nat, Blk>, b: nat, blk: Blk)
    requires BlocksRep(mem, m) && BlockRep(mem, b, blk)
    ensures BlocksRep(mem, m[b := blk])
  {
  }

  /** The blocks of m outside X are where the words say. */
  predicate KeptBlocks(mem: seq<nat>, m: map<nat, Blk>, X: set<nat>)
  {
    forall b | b in m && b !in X :: BlockRep(mem, b, m[b])
  }

  /** Covered writes keep every part of the words the view's unchanged blocks depend on. */
  lemma CoveredRep(mem: seq<nat>, mem2: seq<nat>, v: View, X: set<nat>, H: set<nat>, ws: set<int>)
    requires Rep(mem, v) && Tiled(v) && Agree(mem, mem2, ws) && Covered(v.blocks, X, H, ws, |mem| - 1)
    requires Outside(v, X)
    ensures |mem2| == |mem| && SlotsRep(mem2, v.lists) && PrologueRep(mem2) && LinksRep(mem2, v.lists)
    ensures KeptBlocks(mem2, v.blocks, X + H)
    ensures |mem| - 1 !in ws ==> EpiRep(mem2, v.end, v.epiPrevAlloc)
  {
    CoveredLinks(mem, mem2, v.lists, v.blocks, v.end, X, H, ws);
    CoveredBlocks(mem, mem2, v.blocks, v.end, X, H, ws);
    CoveredEnds(mem, mem2, v.lists, v.blocks, v.end, v.epiPrevAlloc, X, H, ws);
  }

  /** No listed block is one of X. */
  predicate Unlinked(lists: seq<seq<nat>>, X: set<nat>)
  {
    forall k, j | 0 <= k < |lists| && 0 <= j < |lists[k]| :: lists[k][j] !in X
  }

  /** The listed blocks are blocks of the heap outside X. */
  predicate Outside(v: View, X: set<nat>)
  {
    forall k, j | 0 <= k < |v.lists| && 0 <= j < |v.lists[k]| :: v.lists[k][j] in v.blocks && v.lists[k][j] !in X
  }

  lemma UnlinkedIn(v: View, X: set<nat>)
    requires ListsIn(v) && Unlinked(v.lists, X)
    ensures Outside(v, X)
  {
  }

  // place's split

  /** The words place writes when it splits block a of c bytes: a's header, and q's header and footer. */
  function SplitSet(a: nat, asize: nat, c: nat): set<int>
  {
    {Hdr(a), Hdr(a + asize), Ftr(a, c)}
  }

  /** mem2 is mem after the split's writes, with a's prev-allocated bit pa. */
  predicate SplitWritten(mem: seq<nat>, mem2: seq<nat>, a: nat, asize: nat, c: nat, pa: bool)
  {
    c >= asize && Agree(mem, mem2, SplitSet(a, asize, c)) && 0 <= Hdr(a) <= Hdr(a + asize) <= Ftr(a, c) < |mem| &&
    mem2[Hdr(a)] == HdrWord(Blk(asize, true, pa)) &&
    mem2[Hdr(a + asize)] == HdrWord(Blk(c - asize, false, true)) && mem2[Ftr(a, c)] == c - asize
  }

  /** The split's writes fall inside block a, before the epilogue. */
  lemma SplitCovered(m: map<nat, Blk>, end: nat, a: nat, asize: nat, last: int)
    requires Tiles(m, end) && a in m && asize % 8 == 0 && asize >= 2 * DSIZE && m[a].size >= asize + 2 * DSIZE
    requires last == end / 4 - 1
    ensures Covered(m, {a}, {}, SplitSet(a, asize, m[a].size), last) && last !in SplitSet(a, asize, m[a].size)
    ensures a + asize !in m
  {
    TagApart(m, end, a, a);
    Inside(m, end, a, a + asize);
    var c := m[a].size;
    assert InBlock(m, a, Hdr(a)) && InBlock(m, a, Hdr(a + asize)) && InBlock(m, a, Ftr(a, c));
  }

  /** The two blocks the split leaves are where the words say. */
  lemma SplitNew(mem: seq<nat>, mem2: seq<nat>, a: nat, asize: nat, c: nat, pa: bool)
    requires a % 8 == 0 && asize % 8 == 0 && asize >= 2 * DSIZE && c % 8 == 0 && c >= asize + 2 * DSIZE
    requires SplitWritten(mem, mem2, a, asize, c, pa)
    ensures BlockRep(mem2, a, Blk(asize, true, pa)) && BlockRep(mem2, a + asize, Blk(c - asize, false, true))
  {
  }

  lemma SplitBlocks(mem2: seq<nat>, m: map<nat, Blk>, a: nat, asize: nat)
    requires a in m && m[a].size >= asize + 2 * DSIZE && a + asize !in m
    requires KeptBlocks(mem2, m, {a} + {})
    requires BlockRep(mem2, a, Blk(asize, true, m[a].prevAlloc)) && BlockRep(mem2, a + asize, Blk(m[a].size - asize, false, true))
    ensures BlocksRep(mem2, SplitMap(m, a, asize))
  {
  }

  /** place's split turns block a into an allocated front of asize bytes and a free rest. */
  lemma SplitRep(mem: seq<nat>, mem2: seq<nat>, u: View, a: nat, asize: nat)
    requires Rep(mem, u) && Tiled(u) && a in u.blocks && Outside(u, {a})
    requires asize % 8 == 0 && asize >= 2 * DSIZE && u.blocks[a].size >= asize + 2 * DSIZE
    requires SplitWritten(mem, mem2, a, asize, u.blocks[a].size, u.blocks[a].prevAlloc)
    ensures Rep(mem2, u.(blocks := SplitMap(u.blocks, a, asize)))
  {
    var m := u.blocks;
    SplitCovered(m, u.end, a, asize, |mem| - 1);
    CoveredRep(mem, mem2, u, {a}, {}, SplitSet(a, asize, m[a].size));
    SplitNew(mem, mem2, a, asize, m[a].size, m[a].prevAlloc);
    SplitBlocks(mem2, m, a, asize);
  }

  // Setting and clearing a block's allocated bit

  /** The words written when block a of s bytes changes its allocated bit: its header, the next header, and when freed its footer. */
  function FlipSet(a: nat, s: nat, n: nat, bit: bool): set<int>
  {
    {Hdr(a), Hdr(n)} + (if bit then {} else {Ftr(a, s)})
  }

  /** mem2 is mem after those writes, with the header words aw and nw. */
  predicate FlipWritten(mem: seq<nat>, mem2: seq<nat>, a: nat, s: nat, n: nat, bit: bool, aw: nat, nw: nat)
  {
    Agree(mem, mem2, FlipSet(a, s, n, bit)) && 0 <= Hdr(a) <= Ftr(a, s) < Hdr(n) < |mem| &&
    mem2[Hdr(a)] == aw && (!bit ==> mem2[Ftr(a, s)] == s) && mem2[Hdr(n)] == nw
  }

  /** The next header word after the flip: the next block's, or the epilogue's. */
  function NextWord(m: map<nat, Blk>, n: nat, bit: bool): nat
  {
    if n in m then HdrWord(m[n].(prevAlloc := bit)) else HdrWord(Blk(0, true, bit))
  }

  lemma FlipCovered(m: map<nat, Blk>, end: nat, a: nat, bit: bool, last: int)
    requires Tiles(m, end) && a in m && last == end / 4 - 1
    ensures var n := NextBlock(m, a);
      Covered(m, {a}, {n}, FlipSet(a, m[a].size, n, bit), last) &&
      (last in FlipSet(a, m[a].size, n, bit) ==> n == end)
  {
    var n := NextBlock(m, a);
    TagApart(m, end, a, a);
    assert InBlock(m, a, Hdr(a)) && InBlock(m, a, Ftr(a, m[a].size));
    if n in m {
      TagApart(m, end, n, n);
    } else {
      assert n == end;
    }
  }

  /** The next block keeps its footer and gets its new header. */
  lemma FlipNext(mem: seq<nat>, mem2: seq<nat>, m: map<nat, Blk>, end: nat, a: nat, bit: bool)
    requires Tiles(m, end) && a in m && NextBlock(m, a) in m && BlockRep(mem, NextBlock(m, a), m[NextBlock(m, a)])
    requires FlipWritten(mem, mem2, a, m[a].size, NextBlock(m, a), bit, HdrWord(m[a].(alloc := bit)), NextWord(m, NextBlock(m, a), bit))
    ensures BlockRep(mem2, NextBlock(m, a), m[NextBlock(m, a)].(prevAlloc := bit))
  {
    var n := NextBlock(m, a);
    TagApart(m, end, n, n);
    TagApart(m, end, n, a);
  }

  lemma FlipBlocks(mem2: seq<nat>, m: map<nat, Blk>, a: nat, bit: bool)
    requires a in m
    requires KeptBlocks(mem2, m, {a} + {NextBlock(m, a)})
    requires BlockRep(mem2, a, m[a].(alloc := bit))
    requires NextBlock(m, a) in m ==> BlockRep(mem2, NextBlock(m, a), m[NextBlock(m, a)].(prevAlloc := bit))
    ensures BlocksRep(mem2, FlipMap(m, a, bit))
  {
  }

  /**
   * Setting block a's allocated bit to bit, and the prev-allocated bit of the block after it or
   * of the epilogue with it; freeing also writes a's footer.
   */
  lemma FlipRep(mem: seq<nat>, mem2: seq<nat>, u: View, a: nat, bit: bool)
    requires Rep(mem, u) && Tiled(u) && a in u.blocks && Outside(u, {a})
    requires FlipWritten(mem, mem2, a, u.blocks[a].size, NextBlock(u.blocks, a), bit,
                         HdrWord(u.blocks[a].(alloc := bit)), NextWord(u.blocks, NextBlock(u.blocks, a), bit))
    ensures Rep(mem2, u.(blocks := FlipMap(u.blocks, a, bit), epiPrevAlloc := FlipEpi(u.blocks, u.end, u.epiPrevAlloc, a, bit)))
  {
    var m := u.blocks;
    var n := NextBlock(m, a);
    FlipCovered(m, u.end, a, bit, |mem| - 1);
    CoveredRep(mem, mem2, u, {a}, {n}, FlipSet(a, m[a].size, n, bit));
    if n in m {
      FlipNext(mem, mem2, m, u.end, a, bit);
    }
    FlipBlocks(mem2, m, a, bit);
  }

  // coalesce's merges

  /** mem2 is mem after block p's new header and a footer at the end of total bytes. */
  predicate MergeWritten(mem: seq<nat>, mem2: seq<nat>, p: nat, total: nat, pa: bool)
  {
    Agree(mem, mem2, {Hdr(p), Ftr(p, total)}) && 0 <= Hdr(p) <= Ftr(p, total) < |mem| &&
    mem2[Hdr(p)] == HdrWord(Blk(total, false, pa)) && mem2[Ftr(p, total)] == total
  }

  lemma MergeCovered(m: map<nat, Blk>, end: nat, p: nat, total: nat, D: set<nat>, x: nat, last: int)
    requires Tiles(m, end) && p in m && p + total <= end && 4 * (last + 1) == end
    requires x in D && InBlock(m, x, Ftr(p, total))
    ensures Covered(m, D + {p}, {}, {Hdr(p), Ftr(p, total)}, last) && last !in {Hdr(p), Ftr(p, total)}
  {
    ModUnique(end, 4, last + 1, 0);
    assert x in D + {p};
    TagApart(m, end, p, p);
    assert InBlock(m, p, Hdr(p));
  }

  lemma MergeBlocks(mem2: seq<nat>, m: map<nat, Blk>, p: nat, D: set<nat>, blk: Blk)
    requires KeptBlocks(mem2, m, D + {p} + {})
    requires BlockRep(mem2, p, blk)
    ensures BlocksRep(mem2, (m - D)[p := blk])
  {
  }

  /**
   * coalesce's writes: block p takes in the blocks of D after it, total bytes in all, with a
   * new header and a footer in the last word, which lies in one of those blocks.
   */
  lemma MergeRep(mem: seq<nat>, mem2: seq<nat>, u: View, p: nat, total: nat, D: set<nat>, x: nat)
    requires Rep(mem, u) && Tiled(u) && p in u.blocks && Outside(u, D + {p})
    requires p + total <= u.end && total >= u.blocks[p].size
    requires MergeWritten(mem, mem2, p, total, u.blocks[p].prevAlloc)
    requires x in D && InBlock(u.blocks, x, Ftr(p, total))
    ensures Rep(mem2, u.(blocks := (u.blocks - D)[p := Blk(total, false, u.blocks[p].prevAlloc)]))
  {
    var m := u.blocks;
    MergeCovered(m, u.end, p, total, D, x, |mem| - 1);
    CoveredRep(mem, mem2, u, D + {p}, {}, {Hdr(p), Ftr(p, total)});
    MergeFinish(mem2, u, p, total, D);
  }

  /** What coalesce's writes leave: every part of the words but the merged block's, and its two tags. */
  predicate MergeReady(mem2: seq<nat>, u: View, p: nat, total: nat, D: set<nat>)
  {
    Tiles(u.blocks, u.end) && p in u.blocks && total >= u.blocks[p].size &&
    SlotsRep(mem2, u.lists) && PrologueRep(mem2) && LinksRep(mem2, u.lists) &&
    EpiRep(mem2, u.end, u.epiPrevAlloc) && KeptBlocks(mem2, u.blocks, D + {p} + {}) &&
    0 <= Hdr(p) <= Ftr(p, total) < |mem2| &&
    mem2[Hdr(p)] == HdrWord(Blk(total, false, u.blocks[p].prevAlloc)) && mem2[Ftr(p, total)] == total
  }

  /** The merged block's tags and the blocks left alone give the words of the merged view. */
  lemma MergeFinish(mem2: seq<nat>, u: View, p: nat, total: nat, D: set<nat>)
    requires MergeReady(mem2, u, p, total, D)
    ensures Rep(mem2, u.(blocks := (u.blocks - D)[p := Blk(total, false, u.blocks[p].prevAlloc)]))
  {
    var m := u.blocks;
    TagApart(m, u.end, p, p);
    DivMono(p + m[p].size, p + total, 4);
    var blk := Blk(total, false, m[p].prevAlloc);
    assert BlockRep(mem2, p, blk);
    MergeBlocks(mem2, m, p, D, blk);
    var w := View((m - D)[p := blk], u.end, u.epiPrevAlloc, u.lists);
    RepParts(mem2, w);
    assert w == u.(blocks := (m - D)[p := blk]);
  }

  lemma RepParts(mem: seq<nat>, v: View)
    requires SlotsRep(mem, v.lists) && PrologueRep(mem) && BlocksRep(mem, v.blocks)
    requires LinksRep(mem, v.lists) && EpiRep(mem, v.end, v.epiPrevAlloc)
    ensures Rep(mem, v)
  {
  }

  /** Division by a positive constant keeps order. */
  lemma DivMono(x: nat, y: nat, d: nat)
    requires x <= y && 0 < d
    ensures x / d <= y / d
  {
    MulGap(d, y / d, x / d);
  }

  /** Words that agree below the epilogue keep a list. */
  lemma PrefixList(mem: seq<nat>, mem2: seq<nat>, l: seq<nat>, m: map<nat, Blk>, end: nat)
    requires ListRep(mem, l) && Tiles(m, end) && 4 * |mem| == end && |mem| <= |mem2|
    requires forall k | 0 <= k < |mem| - 1 :: mem2[k] == mem[k]
    requires forall j | 0 <= j < |l| :: l[j] in m
    ensures ListRep(mem2, l)
  {
    forall j | 0 <= j < |l|
      ensures W(l[j]) + 1 < |mem| - 1
    {
      LinkApart(m, end, l[j], l[j]);
    }
  }

  /** Words that agree below the epilogue keep the blocks. */
  lemma PrefixBlocks(mem: seq<nat>, mem2: seq<nat>, m: map<nat, Blk>, end: nat)
    requires BlocksRep(mem, m) && Tiles(m, end) && 4 * |mem| == end && |mem| <= |mem2|
    requires forall k | 0 <= k < |mem| - 1 :: mem2[k] == mem[k]
    ensures BlocksRep(mem2, m)
  {
    forall b | b in m
      ensures BlockRep(mem2, b, m[b])
    {
      TagApart(m, end, b, b);
    }
  }

  /** The words of extend_heap after the heap grows by size bytes: the free block at the old end and the new epilogue. */
  predicate GrowWritten(mem: seq<nat>, mem2: seq<nat>, size: nat, epi: bool)
  {
    0 < |mem| && |mem2| == |mem| + size / WSIZE && size >= 2 * DSIZE &&
    (forall k | 0 <= k < |mem| - 1 :: mem2[k] == mem[k]) &&
    mem2[|mem| - 1] == HdrWord(Blk(size, false, epi)) &&
    mem2[|mem2| - 2] == size && mem2[|mem2| - 1] == HdrWord(Blk(0, true, false))
  }

  lemma PrefixLinks(mem: seq<nat>, mem2: seq<nat>, v: View)
    requires LinksRep(mem, v.lists) && Tiled(v) && Outside(v, {}) && 4 * |mem| == v.end && |mem| <= |mem2|
    requires forall k | 0 <= k < |mem| - 1 :: mem2[k] == mem[k]
    ensures LinksRep(mem2, v.lists)
  {
    forall k | 0 <= k < |v.lists|
      ensures ListRep(mem2, v.lists[k])
    {
      PrefixList(mem, mem2, v.lists[k], v.blocks, v.end);
    }
  }

  /** The block at the old end is where the new words say. */
  lemma GrowNew(mem: seq<nat>, mem2: seq<nat>, end: nat, size: nat, epi: bool)
    requires GrowWritten(mem, mem2, size, epi) && 4 * |mem| == end && size % 8 == 0
    ensures BlockRep(mem2, end, Blk(size, false, epi)) && EpiRep(mem2, end + size, false)
  {
  }

  /**
   * extend_heap's writes after the heap has grown by size bytes: the old epilogue word becomes
   * the header of a free block of that size, which gets its footer, and the last word is the
   * new epilogue.
   */
  lemma GrowRep(mem: seq<nat>, mem2: seq<nat>, v: View, size: nat)
    requires Rep(mem, v) && Tiled(v) && Outside(v, {}) && size % 8 == 0
    requires GrowWritten(mem, mem2, size, v.epiPrevAlloc)
    ensures Rep(mem2, v.(blocks := v.blocks[v.end := Blk(size, false, v.epiPrevAlloc)], end := v.end + size, epiPrevAlloc := false))
  {
    PrefixLinks(mem, mem2, v);
    PrefixBlocks(mem, mem2, v.blocks, v.end);
    GrowNew(mem, mem2, v.end, size, v.epiPrevAlloc);
    BlocksPut(mem2, v.blocks, v.end, Blk(size, false, v.epiPrevAlloc));
  }

  /** The words mm_init lays out: zeroed slots, the padding word, the prologue and the epilogue. */
  lemma InitRep(mem: seq<nat>)
    requires |mem| == SLOTS + 4 && forall k | 0 <= k <= PAD :: mem[k] == 0
    requires mem[PRO_HDR] == Pack(DSIZE, 1) && mem[PRO_FTR] == Pack(DSIZE, 1) && mem[PRO_FTR + 1] == Pack(0, 3)
    ensures Rep(mem, EmptyView())
  {
  }

  // ---------------------------------------------------------------------------
  // Reading the words

  /** GET_SIZE, GET_ALLOC and GET_PREV_ALLOC on a block's header read the view's fields. */
  lemma ReadHeader(mem: seq<nat>, v: View, b: nat)
    requires Rep(mem, v) && Tiled(v) && b in v.blocks
    ensures 0 <= Hdr(b) < |mem| && Hdr(b) == W(b) - 1
    ensures GetSize(mem[Hdr(b)]) == v.blocks[b].size
    ensures (GetAlloc(mem[Hdr(b)]) == 1) == v.blocks[b].alloc
    ensures GetPrevAlloc(mem[Hdr(b)]) == if v.blocks[b].prevAlloc then 2 else 0
  {
    PackFields(v.blocks[b].size, v.blocks[b].alloc, v.blocks[b].prevAlloc);
  }

  /** The link words of the block at position j of list i. */
  lemma ReadLinks(mem: seq<nat>, v: View, i: nat, j: nat)
    requires Rep(mem, v) && Tiled(v) && ListsIn(v) && i < SEG_NUM && j < |v.lists[i]|
    ensures W(v.lists[i][j]) + 1 < |mem|
    ensures mem[W(v.lists[i][j])] == PrevIn(v.lists[i], j) && mem[W(v.lists[i][j]) + 1] == NextIn(v.lists[i], j)
    ensures v.lists[i][j] in v.blocks && v.lists[i][j] >= FIRST_BLOCK
    ensures j + 1 < |v.lists[i]| ==> v.lists[i][j + 1] >= FIRST_BLOCK
  {
    assert W(v.lists[i][j]) + 1 < |mem|;
    if j + 1 < |v.lists[i]| {
      assert v.lists[i][j + 1] in v.blocks;
    }
  }

  /** The slot of list i names its first block. */
  lemma ReadSlot(mem: seq<nat>, v: View, i: nat)
    requires Rep(mem, v) && Tiled(v) && ListsIn(v) && i < SEG_NUM
    ensures 2 * i + 1 < |mem| && mem[2 * i] == First(v.lists[i])
    ensures v.lists[i] != [] ==> v.lists[i][0] in v.blocks && v.lists[i][0] >= FIRST_BLOCK
  {
    if v.lists[i] != [] {
      assert v.lists[i][0] in v.blocks;
    }
  }

  /** Equal words hold the same view. */
  lemma RepEq(mem: seq<nat>, mem2: seq<nat>, v: View)
    requires Rep(mem, v) && mem == mem2
    ensures Rep(mem2, v)
  {
  }

  /** Everything remove_free_block needs of the words it reads and leaves. */
  lemma UnlistStep(mem: seq<nat>, v: View, a: nat)
    requires Rep(mem, v) && Tiled(v) && ListsIn(v) && a in v.blocks && a in v.lists[Bucket(v.blocks[a].size)]
    ensures 0 <= Hdr(a) < |mem| && SegIndex(GetSize(mem[Hdr(a)])) == Bucket(v.blocks[a].size)
    ensures W(a) + 1 < |mem| && SLOTS <= |mem|
    ensures var i := Bucket(v.blocks[a].size); var prev := mem[W(a)]; var next := mem[W(a) + 1];
      W(prev) + 1 < |mem| && W(next) < |mem| && Rep(UnlistMem(mem, i, prev, next), Unlist(v, a))
  {
    ReadHeader(mem, v, a);
    SegIndexIsBucket(v.blocks[a].size);
    var j := LinksOf(mem, v, a);
    UnlistRep(mem, v, a, j);
  }

  /** The position of a listed block in its list, and the links its payload holds. */
  lemma LinksOf(mem: seq<nat>, v: View, a: nat) returns (j: nat)
    requires Rep(mem, v) && Tiled(v) && ListsIn(v) && a in v.blocks && a in v.lists[Bucket(v.blocks[a].size)]
    ensures var l := v.lists[Bucket(v.blocks[a].size)];
      j < |l| && l[j] == a && W(a) + 1 < |mem| &&
      mem[W(a)] == PrevIn(l, j) && mem[W(a) + 1] == NextIn(l, j)
  {
    var i := Bucket(v.blocks[a].size);
    var l := v.lists[i];
    j :| 0 <= j < |l| && l[j] == a;
    ReadLinks(mem, v, i, j);
  }

  /** Everything add_free_block needs of the words it reads and leaves. */
  lemma PushStep(mem: seq<nat>, v: View, a: nat)
    requires Rep(mem, v) && Tiled(v) && ListsIn(v) && a in v.blocks && !v.blocks[a].alloc
    requires a !in v.lists[Bucket(v.blocks[a].size)]
    ensures 0 <= Hdr(a) < |mem| && SegIndex(GetSize(mem[Hdr(a)])) == Bucket(v.blocks[a].size)
    ensures var i := Bucket(v.blocks[a].size);
      2 * i + 1 < |mem| && mem[2 * i] == First(v.lists[i]) &&
      W(a) + 1 < |mem| && W(mem[2 * i]) < |mem| &&
      Rep(PushMem(mem, i, mem[2 * i], a), Push(v, a)) && Tiled(Push(v, a)) && ListsIn(Push(v, a))
  {
    ReadHeader(mem, v, a);
    var i := Bucket(v.blocks[a].size);
    SegIndexIsBucket(v.blocks[a].size);
    ReadSlot(mem, v, i);
    PushRep(mem, v, a);
    PushIn(v, a);
  }
}
