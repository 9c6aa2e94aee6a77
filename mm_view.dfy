/**
 * The allocator's heap as its consistency check (mm_checkheap, check_list, check_block in
 * malloclab/mm.c) describes it: blocks that tile the heap, boundary tags that agree,
 * no two free neighbours, and free lists that hold exactly the free blocks, each in
 * the list of its size class.  The operations of mm.c are given here as functions on
 * this view; the class in mm_heap.dfy carries them out on the heap words and is
 * proved to keep the words and the view in step.
 */
module MmView {
  import opened MmLayout
  import opened MmWord

  /**
   * The payload offset of the first block: after the 14 two-word list slots, one word
   * of padding, the prologue's header and footer, and the block's own header.
   */
  const FIRST_BLOCK: nat := 128

  /** A block as its header describes it. */
  datatype Blk = Blk(size: nat, alloc: bool, prevAlloc: bool)

  /**
   * The heap: the blocks by payload offset, the offset just past the last block
   * (the epilogue header is the word before it), the epilogue's prev-allocated bit,
   * and the 14 free lists, each from its first block to its last.
   */
  datatype View = View(blocks: map<nat, Blk>, end: nat, epiPrevAlloc: bool, lists: seq<seq<nat>>)

  predicate Distinct(s: seq<nat>)
  {
    forall j, k | 0 <= j < k < |s| :: s[j] != s[k]
  }

  /** NEXT_BLKP: where the block after block a starts. */
  function NextBlock(m: map<nat, Blk>, a: nat): nat
    requires a in m
  {
    a + m[a].size
  }

  /**
   * The blocks tile [FIRST_BLOCK, end): aligned, at least 16 bytes, touching, not overlapping.
   * The facts about a block's successor are triggered by NextBlock, so they are used only for
   * the blocks a proof mentions the successor of.
   */
  predicate Tiles(m: map<nat, Blk>, end: nat)
  {
    FIRST_BLOCK <= end && end % 8 == 0 &&
    (end > FIRST_BLOCK ==> FIRST_BLOCK in m) &&
    (forall a | a in m ::
       FIRST_BLOCK <= a && a % 8 == 0 && m[a].size % 8 == 0 && m[a].size >= 16 && a + m[a].size <= end) &&
    (forall a {:trigger NextBlock(m, a)} | a in m :: NextBlock(m, a) == end || NextBlock(m, a) in m) &&
    (forall a, b {:trigger Apart(m, a, b)} | a in m && b in m && a < b :: Apart(m, a, b))
  }

  /** Block a ends at or before offset b; in a tiling this holds of every later block b. */
  predicate Apart(m: map<nat, Blk>, a: nat, b: nat)
    requires a in m
  {
    a + m[a].size <= b
  }

  /** Of two blocks of a tiling, the earlier one ends at or before the later one starts. */
  lemma Order(m: map<nat, Blk>, end: nat, a: nat, b: nat)
    requires Tiles(m, end) && a in m && b in m
    ensures a < b ==> a + m[a].size <= b
    ensures b < a ==> b + m[b].size <= a
  {
    assert a < b ==> Apart(m, a, b);
    assert b < a ==> Apart(m, b, a);
  }

  /** No block of a tiling starts inside another. */
  lemma Inside(m: map<nat, Blk>, end: nat, a: nat, x: nat)
    requires Tiles(m, end) && a in m && a < x < a + m[a].size
    ensures x !in m
  {
    assert x in m ==> Apart(m, a, x);
  }

  /** Each prev-allocated bit is the allocated bit of the block before; the prologue counts as allocated. */
  predicate Tags(m: map<nat, Blk>, end: nat, epiPrevAlloc: bool)
  {
    (FIRST_BLOCK in m ==> m[FIRST_BLOCK].prevAlloc) &&
    (end == FIRST_BLOCK ==> epiPrevAlloc) &&
    (forall a {:trigger NextBlock(m, a)} | a in m && NextBlock(m, a) in m ::
       m[NextBlock(m, a)].prevAlloc == m[a].alloc) &&
    (forall a {:trigger NextBlock(m, a)} | a in m && NextBlock(m, a) == end :: epiPrevAlloc == m[a].alloc)
  }

  /** No two neighbouring blocks are both free, except possibly where block x is involved. */
  predicate NoFreePairBut(m: map<nat, Blk>, x: nat)
  {
    forall a {:trigger NextBlock(m, a)} | a in m && !m[a].alloc && NextBlock(m, a) in m && !m[NextBlock(m, a)].alloc ::
      a == x || NextBlock(m, a) == x
  }

  /** No two neighbouring blocks are both free. */
  predicate NoFreePair(m: map<nat, Blk>)
  {
    forall a {:trigger NextBlock(m, a)} | a in m && !m[a].alloc && NextBlock(m, a) in m :: m[NextBlock(m, a)].alloc
  }

  predicate Tiled(v: View)
  {
    Tiles(v.blocks, v.end)
  }

  predicate Tagged(v: View)
  {
    Tags(v.blocks, v.end, v.epiPrevAlloc)
  }

  predicate CoalescedBut(v: View, x: nat)
  {
    NoFreePairBut(v.blocks, x)
  }

  predicate Coalesced(v: View)
  {
    NoFreePair(v.blocks)
  }

  /**
   * Every listed block is free, outside x, and in the list of its size class, once; every
   * free block outside x is listed.  The blocks in x are those an operation is working on.
   */
  predicate ListedExcept(v: View, x: set<nat>)
  {
    |v.lists| == SEG_NUM &&
    (forall i, j | 0 <= i < SEG_NUM && 0 <= j < |v.lists[i]| ::
       v.lists[i][j] in v.blocks && !v.blocks[v.lists[i][j]].alloc &&
       Bucket(v.blocks[v.lists[i][j]].size) == i && v.lists[i][j] !in x) &&
    (forall i | 0 <= i < SEG_NUM :: Distinct(v.lists[i])) &&
    (forall a | a in v.blocks && !v.blocks[a].alloc && a !in x :: a in v.lists[Bucket(v.blocks[a].size)])
  }

  /** The lists hold exactly the free blocks, each in the list of its size class, once. */
  predicate Listed(v: View)
  {
    ListedExcept(v, {})
  }

  /** The invariants mm_checkheap checks. */
  predicate WF(v: View)
  {
    Tiled(v) && Tagged(v) && Coalesced(v) && Listed(v)
  }

  // ---------------------------------------------------------------------------
  // Lists

  /** The value of a list's slot: its first block, or 0 for an empty list. */
  function First(l: seq<nat>): nat
  {
    if l == [] then 0 else l[0]
  }

  /** A block's prev link in a list: the block before it, or 0. */
  function PrevIn(l: seq<nat>, j: nat): nat
    requires j < |l|
  {
    if j == 0 then 0 else l[j - 1]
  }

  /** A block's next link in a list: the block after it, or 0. */
  function NextIn(l: seq<nat>, j: nat): nat
    requires j < |l|
  {
    if j == |l| - 1 then 0 else l[j + 1]
  }

  /** The list with its first occurrence of a taken out. */
  function Remove(l: seq<nat>, a: nat): seq<nat>
    decreases |l|
  {
    if l == [] then [] else if l[0] == a then l[1..] else [l[0]] + Remove(l[1..], a)
  }

  /** In a list without repeats, taking out the block at j leaves the blocks around it in order. */
  lemma {:induction false} RemoveAt(l: seq<nat>, j: nat)
    requires Distinct(l) && j < |l|
    ensures Remove(l, l[j]) == l[..j] + l[j + 1..]
    decreases |l|
  {
    if j > 0 {
      var t := l[1..];
      DistinctTail(l);
      assert t[j - 1] == l[j] && l[0] != l[j];
      RemoveAt(t, j - 1);
      ConsSplit(l, j);
    }
  }

  /** Putting the head back in front of the tail cut at j - 1 is the list cut at j. */
  lemma ConsSplit(l: seq<nat>, j: nat)
    requires 0 < j < |l|
    ensures [l[0]] + (l[1..][..j - 1] + l[1..][j..]) == l[..j] + l[j + 1..]
  {
    assert l[1..][..j - 1] == l[1..j] && l[1..][j..] == l[j + 1..];
    assert l[..j] == [l[0]] + l[1..j];
  }

  lemma RemoveAbsent(l: seq<nat>, a: nat)
    requires a !in l
    ensures Remove(l, a) == l
    decreases |l|
  {
    if l != [] {
      RemoveAbsent(l[1..], a);
    }
  }

  /** Pushing and then taking out the same block restores a list it was not in. */
  lemma RemovePushed(l: seq<nat>, a: nat)
    ensures Remove([a] + l, a) == l
  {
    assert ([a] + l)[1..] == l;
  }

  lemma {:induction false} RemoveMembers(l: seq<nat>, a: nat, x: nat)
    requires Distinct(l)
    ensures x in Remove(l, a) <==> x in l && x != a
    ensures Distinct(Remove(l, a))
    ensures |Remove(l, a)| == |l| - (if a in l then 1 else 0)
    decreases |l|
  {
    if l != [] {
      var t := l[1..];
      DistinctTail(l);
      assert l == [l[0]] + t;
      if l[0] != a {
        RemoveMembers(t, a, x);
        RemoveMembers(t, a, l[0]);
        DistinctCons(l[0], Remove(t, a));
      }
    }
  }

  /** The tail of a list without repeats has none, and does not hold the head. */
  lemma DistinctTail(l: seq<nat>)
    requires Distinct(l) && l != []
    ensures Distinct(l[1..]) && l[0] !in l[1..]
  {
    var t := l[1..];
    forall j, k | 0 <= j < k < |t|
      ensures t[j] != t[k]
    {
      assert t[j] == l[j + 1] && t[k] == l[k + 1];
    }
    forall k | 0 <= k < |t|
      ensures t[k] != l[0]
    {
      assert t[k] == l[k + 1];
    }
  }

  /** A new head keeps a list without repeats. */
  lemma DistinctCons(h: nat, r: seq<nat>)
    requires Distinct(r) && h !in r
    ensures Distinct([h] + r)
  {
    var s := [h] + r;
    forall j, k | 0 <= j < k < |s|
      ensures s[j] != s[k]
    {
      assert s[k] == r[k - 1];
      if j > 0 {
        assert s[j] == r[j - 1];
      }
    }
  }

  /** add_free_block's view: the block goes on top of the list of its current size. */
  function Push(v: View, a: nat): (r: View)
    requires a in v.blocks && |v.lists| == SEG_NUM
    ensures r.blocks == v.blocks && r.end == v.end && r.epiPrevAlloc == v.epiPrevAlloc && |r.lists| == SEG_NUM
  {
    var i := Bucket(v.blocks[a].size);
    BucketSpec(v.blocks[a].size, 0);
    v.(lists := v.lists[i := [a] + v.lists[i]])
  }

  /** remove_free_block's view: the block leaves the list of its current size. */
  function Unlist(v: View, a: nat): (r: View)
    requires a in v.blocks && |v.lists| == SEG_NUM
    ensures r.blocks == v.blocks && r.end == v.end && r.epiPrevAlloc == v.epiPrevAlloc && |r.lists| == SEG_NUM
  {
    var i := Bucket(v.blocks[a].size);
    BucketSpec(v.blocks[a].size, 0);
    v.(lists := v.lists[i := Remove(v.lists[i], a)])
  }

  /** add_free_block then remove_free_block on an unlisted block leaves the lists as they were. */
  lemma UnlistPush(v: View, a: nat)
    requires a in v.blocks && |v.lists| == SEG_NUM
    ensures Unlist(Push(v, a), a) == v
  {
    var i := Bucket(v.blocks[a].size);
    BucketSpec(v.blocks[a].size, 0);
    RemovePushed(v.lists[i], a);
    assert Push(v, a).lists[i := v.lists[i]] == v.lists;
  }

  /** The status bits of the block at n with its prev-allocated bit set to bit, if there is a block there. */
  function MarkMap(m: map<nat, Blk>, n: nat, bit: bool): map<nat, Blk>
  {
    if n in m then m[n := m[n].(prevAlloc := bit)] else m
  }

  /** The block that ends where block a starts, which Tiled guarantees for all but the first. */
  lemma {:induction false} PredFrom(v: View, x: nat, a: nat)
    requires Tiled(v) && x in v.blocks && x < a && (a in v.blocks || a == v.end)
    ensures exists p :: p in v.blocks && p + v.blocks[p].size == a
    decreases a - x
  {
    var n := NextBlock(v.blocks, x);
    if a in v.blocks {
      Order(v.blocks, v.end, x, a);
    }
    if n != a {
      PredFrom(v, n, a);
    }
  }

  /** PREV_BLKP: the block that ends where block a (or the epilogue, at the end) starts. */
  ghost function Prev(v: View, a: nat): (p: nat)
    requires Tiled(v) && (a in v.blocks || a == v.end) && a != FIRST_BLOCK
    ensures p in v.blocks && p + v.blocks[p].size == a
  {
    PredFrom(v, FIRST_BLOCK, a);
    var p :| p in v.blocks && p + v.blocks[p].size == a; p
  }

  /** Only one block ends where a given one starts. */
  lemma PrevUnique(v: View, a: nat, q: nat)
    requires Tiled(v) && (a in v.blocks || a == v.end) && a != FIRST_BLOCK
    requires q in v.blocks && q + v.blocks[q].size == a
    ensures q == Prev(v, a)
  {
    var p := Prev(v, a);
    Order(v.blocks, v.end, p, q);
  }

  // ---------------------------------------------------------------------------
  // The list invariant through add_free_block, remove_free_block and header changes

  /** remove_free_block on a listed block: the block joins those being worked on. */
  lemma UnlistExcept(v: View, x: set<nat>, a: nat)
    requires ListedExcept(v, x) && a in v.blocks && !v.blocks[a].alloc && a !in x
    ensures ListedExcept(Unlist(v, a), x + {a})
  {
    var i := Bucket(v.blocks[a].size);
    BucketSpec(v.blocks[a].size, 0);
    var u := Unlist(v, a);
    forall y {:trigger y in u.lists[i]} | y in v.lists[i] || y in u.lists[i]
      ensures y in u.lists[i] <==> y in v.lists[i] && y != a
    {
      RemoveMembers(v.lists[i], a, y);
    }
    RemoveMembers(v.lists[i], a, a);
    forall k, j | 0 <= k < SEG_NUM && 0 <= j < |u.lists[k]|
      ensures u.lists[k][j] in v.blocks && !v.blocks[u.lists[k][j]].alloc &&
              Bucket(v.blocks[u.lists[k][j]].size) == k && u.lists[k][j] !in x + {a}
    {
      if k == i {
        assert u.lists[k][j] in u.lists[i];
        var m :| 0 <= m < |v.lists[i]| && v.lists[i][m] == u.lists[k][j];
      } else {
        assert forall m | 0 <= m < |v.lists[k]| :: v.lists[k][m] != a;
      }
    }
  }

  /** add_free_block on a free block being worked on: the block is listed again. */
  lemma PushExcept(v: View, x: set<nat>, a: nat)
    requires ListedExcept(v, x) && a in v.blocks && !v.blocks[a].alloc && a in x
    ensures ListedExcept(Push(v, a), x - {a})
  {
    var i := Bucket(v.blocks[a].size);
    BucketSpec(v.blocks[a].size, 0);
    var l := [a] + v.lists[i];
    assert forall j | 0 < j < |l| :: l[j] == v.lists[i][j - 1];
  }

  /** Changing blocks being worked on, and the prev-allocated bits of any, keeps the lists right. */
  lemma ReblockExcept(v: View, x: set<nat>, b: map<nat, Blk>)
    requires ListedExcept(v, x)
    requires forall c | c !in x :: (c in b <==> c in v.blocks)
    requires forall c | c !in x && c in b :: b[c].alloc == v.blocks[c].alloc && b[c].size == v.blocks[c].size
    ensures ListedExcept(v.(blocks := b), x)
  {
  }

  /** A place that holds no free block can be counted among those being worked on. */
  lemma WidenExcept(v: View, x: set<nat>, y: nat)
    requires ListedExcept(v, x) && (y in v.blocks ==> v.blocks[y].alloc)
    ensures ListedExcept(v, x + {y})
  {
  }

  /** A block being worked on that is allocated, or gone, needs no list. */
  lemma DropExcept(v: View, x: set<nat>, y: nat)
    requires ListedExcept(v, x) && y in x && (y in v.blocks ==> v.blocks[y].alloc)
    ensures ListedExcept(v, x - {y})
  {
  }

  // ---------------------------------------------------------------------------
  // Header changes, as maps of blocks

  /**
   * A block's allocated bit set to bit, and the prev-allocated bit of the block after it with
   * it (place, which sets both, and free, which clears both).
   */
  function FlipMap(m: map<nat, Blk>, a: nat, bit: bool): map<nat, Blk>
    requires a in m
  {
    MarkMap(m[a := m[a].(alloc := bit)], NextBlock(m, a), bit)
  }

  /** The epilogue's prev-allocated bit after FlipMap: it changes when the block is the last. */
  function FlipEpi(m: map<nat, Blk>, end: nat, epi: bool, a: nat, bit: bool): bool
    requires a in m
  {
    if NextBlock(m, a) == end then bit else epi
  }

  /** place's split: the front asize bytes allocated, the rest a free block whose predecessor is allocated. */
  function SplitMap(m: map<nat, Blk>, a: nat, asize: nat): map<nat, Blk>
    requires a in m && m[a].size >= asize
  {
    m[a := Blk(asize, true, m[a].prevAlloc)][a + asize := Blk(m[a].size - asize, false, true)]
  }

  /** Changing status bits and no sizes keeps the tiling. */
  lemma RetagTiles(m: map<nat, Blk>, m2: map<nat, Blk>, end: nat)
    requires Tiles(m, end) && m2.Keys == m.Keys
    requires forall c | c in m :: m2[c].size == m[c].size
    ensures Tiles(m2, end)
  {
    forall c | c in m2
      ensures NextBlock(m2, c) == end || NextBlock(m2, c) in m2
    {
      assert NextBlock(m2, c) == NextBlock(m, c);
    }
    forall c, d | c in m2 && d in m2 && c < d
      ensures Apart(m2, c, d)
    {
      Order(m, end, c, d);
    }
  }

  /** Two blocks do not end at the same place. */
  lemma NextDiffers(m: map<nat, Blk>, end: nat, c: nat, a: nat)
    requires Tiles(m, end) && c in m && a in m && c != a
    ensures NextBlock(m, c) != NextBlock(m, a)
  {
    Order(m, end, c, a);
  }

  lemma FlipTiles(m: map<nat, Blk>, end: nat, a: nat, bit: bool)
    requires Tiles(m, end) && a in m
    ensures Tiles(FlipMap(m, a, bit), end)
  {
    RetagTiles(m, FlipMap(m, a, bit), end);
  }

  /** Flipping a block's bit together with its successor's keeps the tags in step. */
  lemma FlipTags(m: map<nat, Blk>, end: nat, epi: bool, a: nat, bit: bool)
    requires Tiles(m, end) && Tags(m, end, epi) && a in m
    ensures Tags(FlipMap(m, a, bit), end, FlipEpi(m, end, epi, a, bit))
  {
    var an := NextBlock(m, a);
    var n := FlipMap(m, a, bit);
    var e := FlipEpi(m, end, epi, a, bit);
    assert an == end || an in m;
    assert an != a;
    forall c | c in n && NextBlock(n, c) in n
      ensures n[NextBlock(n, c)].prevAlloc == n[c].alloc
    {
      var d := NextBlock(m, c);
      assert NextBlock(n, c) == d;
      if c != a {
        NextDiffers(m, end, c, a);
        assert n[d].prevAlloc == m[d].prevAlloc;
      }
    }
    forall c | c in n && NextBlock(n, c) == end
      ensures e == n[c].alloc
    {
      assert NextBlock(n, c) == NextBlock(m, c);
      if c != a {
        NextDiffers(m, end, c, a);
      }
    }
  }

  /** Allocating a block leaves no two free blocks touching. */
  lemma TakeNoFreePair(m: map<nat, Blk>, end: nat, a: nat)
    requires Tiles(m, end) && NoFreePair(m) && a in m
    ensures NoFreePair(FlipMap(m, a, true))
  {
    var n := FlipMap(m, a, true);
    forall c | c in n && !n[c].alloc && NextBlock(n, c) in n
      ensures n[NextBlock(n, c)].alloc
    {
      assert NextBlock(n, c) == NextBlock(m, c);
    }
  }

  /** Splitting a block in two keeps the tiling. */
  lemma SplitTiles(m: map<nat, Blk>, end: nat, a: nat, asize: nat)
    requires Tiles(m, end) && a in m && m[a].size >= asize + 16 && asize % 8 == 0 && asize >= 16
    ensures Tiles(SplitMap(m, a, asize), end)
  {
    var r := a + asize;
    var n := SplitMap(m, a, asize);
    Mod8(a, asize);
    Mod8(m[a].size, asize);
    Inside(m, end, a, r);
    forall c | c in n
      ensures FIRST_BLOCK <= c && c % 8 == 0 && n[c].size % 8 == 0 && n[c].size >= 16 && c + n[c].size <= end
      ensures NextBlock(n, c) == end || NextBlock(n, c) in n
    {
      if c != a && c != r {
        assert n[c] == m[c] && NextBlock(n, c) == NextBlock(m, c);
      } else if c == r {
        assert NextBlock(n, c) == NextBlock(m, a);
      }
    }
    forall c, d | c in n && d in n && c < d
      ensures Apart(n, c, d)
    {
      if c == a {
        if d != r {
          Order(m, end, a, d);
        }
      } else if c == r {
        Order(m, end, a, d);
      } else if d == r {
        Order(m, end, c, a);
      } else {
        Order(m, end, c, d);
      }
    }
  }

  /** The tags after a split: the rest's successor followed a free block before, as it does now. */
  lemma SplitTags(m: map<nat, Blk>, end: nat, epi: bool, a: nat, asize: nat)
    requires Tiles(m, end) && Tags(m, end, epi) && a in m && !m[a].alloc
    requires m[a].size >= asize + 16 && asize % 8 == 0 && asize >= 16
    ensures Tags(SplitMap(m, a, asize), end, epi)
  {
    var r := a + asize;
    var n := SplitMap(m, a, asize);
    Inside(m, end, a, r);
    var an := NextBlock(m, a);
    assert an == end || an in m;
    forall c | c in n && NextBlock(n, c) in n
      ensures n[NextBlock(n, c)].prevAlloc == n[c].alloc
    {
      if c == r {
        assert NextBlock(n, c) == an && an in m && n[an] == m[an];
      } else if c != a {
        assert NextBlock(n, c) == NextBlock(m, c) && n[c] == m[c];
        assert NextBlock(m, c) == end || NextBlock(m, c) in m;
      }
    }
    forall c | c in n && NextBlock(n, c) == end
      ensures epi == n[c].alloc
    {
      if c != a && c != r {
        assert NextBlock(n, c) == NextBlock(m, c) && n[c] == m[c];
      }
    }
  }

  /** After a split no two free blocks touch: the rest's successor was the free block's. */
  lemma SplitNoFreePair(m: map<nat, Blk>, end: nat, a: nat, asize: nat)
    requires Tiles(m, end) && NoFreePair(m) && a in m && !m[a].alloc
    requires m[a].size >= asize + 16 && asize % 8 == 0 && asize >= 16
    ensures NoFreePair(SplitMap(m, a, asize))
  {
    var r := a + asize;
    var n := SplitMap(m, a, asize);
    Inside(m, end, a, r);
    var an := NextBlock(m, a);
    forall c | c in n && !n[c].alloc && NextBlock(n, c) in n
      ensures n[NextBlock(n, c)].alloc
    {
      if c == r {
        assert NextBlock(n, c) == an && an in m && n[an] == m[an];
      } else if c != a {
        assert NextBlock(n, c) == NextBlock(m, c) && n[c] == m[c];
        assert NextBlock(m, c) == end || NextBlock(m, c) in m;
      }
    }
  }

  // ---------------------------------------------------------------------------
  // place

  /**
   * place's view: the block leaves its list and becomes allocated; when at least 16 bytes
   * would be left over, they become a new free block after it, at the top of its list;
   * otherwise the whole block is used and the next block's prev-allocated bit is set.
   */
  function PlaceView(v: View, a: nat, asize: nat): View
    requires |v.lists| == SEG_NUM && a in v.blocks && v.blocks[a].size >= asize
  {
    var u := Unlist(v, a);
    if v.blocks[a].size - asize >= 2 * DSIZE then
      Push(u.(blocks := SplitMap(v.blocks, a, asize)), a + asize)
    else
      u.(blocks := FlipMap(v.blocks, a, true), epiPrevAlloc := FlipEpi(v.blocks, v.end, v.epiPrevAlloc, a, true))
  }

  /** What place promises a caller that asks for asize bytes from a free block. */
  predicate Placed(v: View, w: View, a: nat, asize: nat)
    requires a in v.blocks
  {
    var c := v.blocks[a].size;
    a in w.blocks && w.blocks[a].alloc && w.blocks[a].prevAlloc == v.blocks[a].prevAlloc &&
    (if c - asize >= 2 * DSIZE then
       w.blocks[a].size == asize && a + asize in w.blocks &&
       w.blocks[a + asize] == Blk(c - asize, false, true) &&
       |w.lists| == SEG_NUM && a + asize in w.lists[Bucket(c - asize)]
     else
       w.blocks[a].size == c) &&
    w.end == v.end
  }

  /** Every block allocated in v other than x is allocated in w, with the same size. */
  predicate KeepsAllocated(v: View, w: View, x: nat)
  {
    forall b | b in v.blocks && v.blocks[b].alloc && b != x ::
      b in w.blocks && w.blocks[b].alloc && w.blocks[b].size == v.blocks[b].size
  }

  lemma PlaceTiled(v: View, a: nat, asize: nat)
    requires Tiled(v) && |v.lists| == SEG_NUM && a in v.blocks
    requires v.blocks[a].size >= asize && asize % 8 == 0 && asize >= 2 * DSIZE
    ensures Tiled(PlaceView(v, a, asize))
  {
    if v.blocks[a].size - asize >= 2 * DSIZE {
      SplitTiles(v.blocks, v.end, a, asize);
    } else {
      FlipTiles(v.blocks, v.end, a, true);
    }
  }

  lemma PlaceTagged(v: View, a: nat, asize: nat)
    requires Tiled(v) && Tagged(v) && |v.lists| == SEG_NUM && a in v.blocks && !v.blocks[a].alloc
    requires v.blocks[a].size >= asize && asize % 8 == 0 && asize >= 2 * DSIZE
    ensures Tagged(PlaceView(v, a, asize))
  {
    if v.blocks[a].size - asize >= 2 * DSIZE {
      SplitTags(v.blocks, v.end, v.epiPrevAlloc, a, asize);
    } else {
      FlipTags(v.blocks, v.end, v.epiPrevAlloc, a, true);
    }
  }

  lemma PlaceCoalesced(v: View, a: nat, asize: nat)
    requires Tiled(v) && Coalesced(v) && |v.lists| == SEG_NUM && a in v.blocks && !v.blocks[a].alloc
    requires v.blocks[a].size >= asize && asize % 8 == 0 && asize >= 2 * DSIZE
    ensures Coalesced(PlaceView(v, a, asize))
  {
    if v.blocks[a].size - asize >= 2 * DSIZE {
      SplitNoFreePair(v.blocks, v.end, a, asize);
    } else {
      TakeNoFreePair(v.blocks, v.end, a);
    }
  }

  /** Splitting a block that is being worked on, into two being worked on, keeps the lists right. */
  lemma SplitExcept(u: View, x: set<nat>, a: nat, asize: nat)
    requires ListedExcept(u, x) && a in u.blocks && u.blocks[a].size >= asize && a in x && a + asize in x
    ensures ListedExcept(u.(blocks := SplitMap(u.blocks, a, asize)), x)
  {
    ReblockExcept(u, x, SplitMap(u.blocks, a, asize));
  }

  /** Flipping the bits of a block being worked on keeps the lists right. */
  lemma FlipExcept(u: View, x: set<nat>, a: nat, bit: bool, epi: bool)
    requires ListedExcept(u, x) && a in u.blocks && a in x
    ensures ListedExcept(u.(blocks := FlipMap(u.blocks, a, bit), epiPrevAlloc := epi), x)
  {
    ReblockExcept(u, x, FlipMap(u.blocks, a, bit));
  }

  lemma PlaceListedSplit(v: View, a: nat, asize: nat)
    requires Tiled(v) && Listed(v) && a in v.blocks && !v.blocks[a].alloc
    requires v.blocks[a].size - asize >= 2 * DSIZE && asize >= 2 * DSIZE
    ensures Listed(Push(Unlist(v, a).(blocks := SplitMap(v.blocks, a, asize)), a + asize))
  {
    UnlistExcept(v, {}, a);
    var u := Unlist(v, a);
    var r := a + asize;
    Inside(v.blocks, v.end, a, r);
    WidenExcept(u, {a}, r);
    SplitExcept(u, {a, r}, a, asize);
    var w := u.(blocks := SplitMap(v.blocks, a, asize));
    PushExcept(w, {a, r}, r);
    assert {a, r} - {r} == {a};
    DropExcept(Push(w, r), {a}, a);
    assert {a} - {a} == {};
  }

  lemma PlaceListed(v: View, a: nat, asize: nat)
    requires Tiled(v) && Listed(v) && a in v.blocks && !v.blocks[a].alloc
    requires v.blocks[a].size >= asize && asize % 8 == 0 && asize >= 2 * DSIZE
    ensures Listed(PlaceView(v, a, asize))
  {
    if v.blocks[a].size - asize >= 2 * DSIZE {
      PlaceListedSplit(v, a, asize);
    } else {
      UnlistExcept(v, {}, a);
      var u := Unlist(v, a);
      FlipExcept(u, {a}, a, true, FlipEpi(v.blocks, v.end, v.epiPrevAlloc, a, true));
      DropExcept(u.(blocks := FlipMap(v.blocks, a, true), epiPrevAlloc := FlipEpi(v.blocks, v.end, v.epiPrevAlloc, a, true)), {a}, a);
      assert {a} - {a} == {};
    }
  }

  /** place keeps the invariants mm_checkheap checks. */
  lemma PlaceWF(v: View, a: nat, asize: nat)
    requires WF(v) && a in v.blocks && !v.blocks[a].alloc
    requires v.blocks[a].size >= asize && asize % 8 == 0 && asize >= 2 * DSIZE
    ensures WF(PlaceView(v, a, asize))
  {
    PlaceTiled(v, a, asize);
    PlaceTagged(v, a, asize);
    PlaceCoalesced(v, a, asize);
    PlaceListed(v, a, asize);
  }

  /** place gives the caller an allocated block of at least asize bytes and keeps every other allocation. */
  lemma PlaceResult(v: View, a: nat, asize: nat)
    requires Tiled(v) && |v.lists| == SEG_NUM && a in v.blocks && !v.blocks[a].alloc
    requires v.blocks[a].size >= asize && asize % 8 == 0 && asize >= 2 * DSIZE
    ensures Placed(v, PlaceView(v, a, asize), a, asize)
    ensures KeepsAllocated(v, PlaceView(v, a, asize), a)
  {
    var c := v.blocks[a].size;
    if c - asize >= 2 * DSIZE {
      var r := a + asize;
      Inside(v.blocks, v.end, a, r);
      var w := Unlist(v, a).(blocks := SplitMap(v.blocks, a, asize));
      assert Bucket(w.blocks[r].size) == Bucket(c - asize);
      assert Push(w, r).lists[Bucket(c - asize)][0] == r;
    }
  }

  // ---------------------------------------------------------------------------
  // Merging neighbours, as maps of blocks

  /** A block and the block after it become one block blk at the first one's place. */
  function MergeMap(m: map<nat, Blk>, a: nat, blk: Blk): map<nat, Blk>
    requires a in m
  {
    (m - {NextBlock(m, a)})[a := blk]
  }

  lemma MergeTiles(m: map<nat, Blk>, end: nat, a: nat, blk: Blk)
    requires Tiles(m, end) && a in m && NextBlock(m, a) in m
    requires blk.size == m[a].size + m[NextBlock(m, a)].size
    ensures Tiles(MergeMap(m, a, blk), end)
  {
    var n := NextBlock(m, a);
    var k := MergeMap(m, a, blk);
    Mod8(m[a].size, m[n].size);
    assert NextBlock(k, a) == NextBlock(m, n);
    assert NextBlock(m, n) == end || NextBlock(m, n) in m;
    forall c | c in k
      ensures FIRST_BLOCK <= c && c % 8 == 0 && k[c].size % 8 == 0 && k[c].size >= 16 && c + k[c].size <= end
      ensures NextBlock(k, c) == end || NextBlock(k, c) in k
    {
      if c != a {
        assert k[c] == m[c] && NextBlock(k, c) == NextBlock(m, c);
        NextDiffers(m, end, c, a);
      }
    }
    forall c, d | c in k && d in k && c < d
      ensures Apart(k, c, d)
    {
      Order(m, end, c, d);
      if c == a {
        Order(m, end, n, d);
      }
    }
  }

  lemma MergeTags(m: map<nat, Blk>, end: nat, epi: bool, a: nat, blk: Blk)
    requires Tiles(m, end) && Tags(m, end, epi) && a in m && NextBlock(m, a) in m
    requires blk.size == m[a].size + m[NextBlock(m, a)].size
    requires blk.prevAlloc == m[a].prevAlloc && blk.alloc == m[NextBlock(m, a)].alloc
    ensures Tags(MergeMap(m, a, blk), end, epi)
  {
    var n := NextBlock(m, a);
    var k := MergeMap(m, a, blk);
    assert NextBlock(k, a) == NextBlock(m, n);
    assert NextBlock(m, n) == end || NextBlock(m, n) in m;
    forall c | c in k && NextBlock(k, c) in k
      ensures k[NextBlock(k, c)].prevAlloc == k[c].alloc
    {
      if c != a {
        assert k[c] == m[c] && NextBlock(k, c) == NextBlock(m, c);
        NextDiffers(m, end, c, a);
      }
    }
    forall c | c in k && NextBlock(k, c) == end
      ensures epi == k[c].alloc
    {
      if c != a {
        assert k[c] == m[c] && NextBlock(k, c) == NextBlock(m, c);
      }
    }
  }

  /** Merging block a with its successor leaves the free neighbours, if any, next to a. */
  lemma MergeBut(m: map<nat, Blk>, end: nat, a: nat, blk: Blk)
    requires Tiles(m, end) && NoFreePairBut(m, a) && a in m && NextBlock(m, a) in m
    requires blk.size == m[a].size + m[NextBlock(m, a)].size
    ensures NoFreePairBut(MergeMap(m, a, blk), a)
  {
    var k := MergeMap(m, a, blk);
    forall c | c in k && !k[c].alloc && NextBlock(k, c) in k && !k[NextBlock(k, c)].alloc
      ensures c == a || NextBlock(k, c) == a
    {
      if c != a {
        assert k[c] == m[c] && NextBlock(k, c) == NextBlock(m, c);
        NextDiffers(m, end, c, a);
      }
    }
  }

  /** When block a and its successor are not both free, a free pair next to a is one with a's predecessor p. */
  lemma ShiftBut(m: map<nat, Blk>, end: nat, a: nat, p: nat)
    requires Tiles(m, end) && NoFreePairBut(m, a) && a in m && p in m && NextBlock(m, p) == a
    requires NextBlock(m, a) in m ==> m[a].alloc || m[NextBlock(m, a)].alloc
    ensures NoFreePairBut(m, p)
  {
    forall c | c in m && !m[c].alloc && NextBlock(m, c) in m && !m[NextBlock(m, c)].alloc
      ensures c == p || NextBlock(m, c) == p
    {
      if c != p {
        NextDiffers(m, end, c, p);
      }
    }
  }

  // ---------------------------------------------------------------------------
  // coalesce

  /** Whether the block after a is allocated; the epilogue, after the last block, counts as allocated. */
  predicate NextAlloc(m: map<nat, Blk>, a: nat)
    requires a in m
  {
    NextBlock(m, a) !in m || m[NextBlock(m, a)].alloc
  }

  /** A block absorbs the block after it; the merged block is free and keeps the first one's prev-allocated bit. */
  function Absorb(m: map<nat, Blk>, a: nat): map<nat, Blk>
    requires a in m && NextBlock(m, a) in m
  {
    MergeMap(m, a, Blk(m[a].size + m[NextBlock(m, a)].size, false, m[a].prevAlloc))
  }

  /**
   * coalesce's blocks: with p the block before a (used only when that block is free), a
   * absorbs a free successor and is absorbed by a free predecessor.  With both neighbours free
   * a first absorbs the next block and is then absorbed by the previous one, as mm.c does.
   */
  function CoalesceMap(m: map<nat, Blk>, a: nat, p: nat): map<nat, Blk>
    requires a in m && (!m[a].prevAlloc ==> p in m && p < a && NextBlock(m, p) == a)
  {
    if m[a].prevAlloc && NextAlloc(m, a) then m
    else if m[a].prevAlloc then Absorb(m, a)
    else if NextAlloc(m, a) then Absorb(m, p)
    else Absorb(Absorb(m, a), p)
  }

  /** x's own neighbours are fine and the others are: no free blocks touch. */
  lemma CloseTagged(m: map<nat, Blk>, end: nat, epi: bool, x: nat)
    requires Tiles(m, end) && Tags(m, end, epi) && NoFreePairBut(m, x) && x in m && m[x].prevAlloc
    requires NextBlock(m, x) in m ==> m[NextBlock(m, x)].alloc
    ensures NoFreePair(m)
  {
    forall c | c in m && !m[c].alloc && NextBlock(m, c) in m
      ensures m[NextBlock(m, c)].alloc
    {
    }
  }

  lemma AbsorbTiles(m: map<nat, Blk>, end: nat, a: nat)
    requires Tiles(m, end) && a in m && NextBlock(m, a) in m
    ensures Tiles(Absorb(m, a), end)
  {
    MergeTiles(m, end, a, Blk(m[a].size + m[NextBlock(m, a)].size, false, m[a].prevAlloc));
  }

  lemma AbsorbTags(m: map<nat, Blk>, end: nat, epi: bool, a: nat)
    requires Tiles(m, end) && Tags(m, end, epi) && a in m && NextBlock(m, a) in m && !m[NextBlock(m, a)].alloc
    ensures Tags(Absorb(m, a), end, epi)
  {
    MergeTags(m, end, epi, a, Blk(m[a].size + m[NextBlock(m, a)].size, false, m[a].prevAlloc));
  }

  lemma AbsorbBut(m: map<nat, Blk>, end: nat, a: nat)
    requires Tiles(m, end) && NoFreePairBut(m, a) && a in m && NextBlock(m, a) in m
    ensures NoFreePairBut(Absorb(m, a), a)
  {
    MergeBut(m, end, a, Blk(m[a].size + m[NextBlock(m, a)].size, false, m[a].prevAlloc));
  }

  /** After a free block absorbs its free successor, the block after the merged one is allocated. */
  lemma AbsorbNextAlloc(m: map<nat, Blk>, end: nat, a: nat)
    requires Tiles(m, end) && NoFreePairBut(m, a) && a in m && !NextAlloc(m, a)
    ensures NextAlloc(Absorb(m, a), a)
    ensures forall c | c in m && c < a :: c in Absorb(m, a) && Absorb(m, a)[c] == m[c]
  {
    var n := NextBlock(m, a);
    var k := Absorb(m, a);
    var nn := NextBlock(m, n);
    assert NextBlock(k, a) == nn;
    if nn in m {
      assert m[nn].alloc;
      assert k[nn] == m[nn];
    }
  }

  /** After a block is absorbed by p, the block after p is the one that followed it. */
  lemma AbsorbPrevAlloc(m: map<nat, Blk>, end: nat, a: nat, p: nat)
    requires Tiles(m, end) && a in m && p in m && NextBlock(m, p) == a && NextAlloc(m, a)
    ensures NextAlloc(Absorb(m, p), p)
  {
    var n := NextBlock(m, a);
    var k := Absorb(m, p);
    assert NextBlock(k, p) == n;
    if n in k {
      assert k[n] == m[n];
    }
  }

  /** The blocks of a free block's neighbourhood after coalesce keep the invariants, with no free blocks touching. */
  lemma CoalesceMapWF(m: map<nat, Blk>, end: nat, epi: bool, a: nat, p: nat)
    requires Tiles(m, end) && Tags(m, end, epi) && NoFreePairBut(m, a) && a in m && !m[a].alloc
    requires !m[a].prevAlloc ==> p in m && p < a && NextBlock(m, p) == a && m[p].prevAlloc
    ensures var k := CoalesceMap(m, a, p); Tiles(k, end) && Tags(k, end, epi) && NoFreePair(k)
  {
    if m[a].prevAlloc && NextAlloc(m, a) {
      CloseTagged(m, end, epi, a);
    } else if m[a].prevAlloc {
      AbsorbTiles(m, end, a);
      AbsorbTags(m, end, epi, a);
      AbsorbBut(m, end, a);
      AbsorbNextAlloc(m, end, a);
      CloseTagged(Absorb(m, a), end, epi, a);
    } else if NextAlloc(m, a) {
      CoalescePrev(m, end, epi, a, p);
    } else {
      CoalesceBoth(m, end, epi, a, p);
    }
  }

  lemma CoalesceBoth(m: map<nat, Blk>, end: nat, epi: bool, a: nat, p: nat)
    requires Tiles(m, end) && Tags(m, end, epi) && NoFreePairBut(m, a) && a in m && !m[a].alloc
    requires p in m && p < a && NextBlock(m, p) == a && m[p].prevAlloc && !NextAlloc(m, a)
    ensures var k := Absorb(Absorb(m, a), p); Tiles(k, end) && Tags(k, end, epi) && NoFreePair(k)
  {
    AbsorbTiles(m, end, a);
    AbsorbTags(m, end, epi, a);
    AbsorbBut(m, end, a);
    AbsorbNextAlloc(m, end, a);
    CoalescePrev(Absorb(m, a), end, epi, a, p);
  }

  lemma CoalescePrev(m: map<nat, Blk>, end: nat, epi: bool, a: nat, p: nat)
    requires Tiles(m, end) && Tags(m, end, epi) && NoFreePairBut(m, a) && a in m && !m[a].alloc
    requires p in m && NextBlock(m, p) == a && m[p].prevAlloc && NextAlloc(m, a)
    ensures var k := Absorb(m, p); Tiles(k, end) && Tags(k, end, epi) && NoFreePair(k)
  {
    ShiftBut(m, end, a, p);
    AbsorbTiles(m, end, p);
    AbsorbTags(m, end, epi, p);
    AbsorbBut(m, end, p);
    AbsorbPrevAlloc(m, end, a, p);
    CloseTagged(Absorb(m, p), end, epi, p);
  }

  /** The block before a free block that follows a free block is fine on its other side. */
  lemma PrevFreeTagged(v: View, a: nat, p: nat)
    requires Tiled(v) && Tagged(v) && CoalescedBut(v, a) && a in v.blocks
    requires p in v.blocks && !v.blocks[p].alloc && NextBlock(v.blocks, p) == a
    ensures v.blocks[p].prevAlloc
  {
    if p != FIRST_BLOCK {
      var q := Prev(v, p);
      assert NextBlock(v.blocks, q) == p;
    }
  }

  /** The block coalesce returns: a itself, or the free block before it. */
  ghost function CoalesceAddr(v: View, a: nat): (p: nat)
    requires Tiled(v) && Tagged(v) && a in v.blocks
    ensures v.blocks[a].prevAlloc ==> p == a
    ensures !v.blocks[a].prevAlloc ==> p in v.blocks && p < a && NextBlock(v.blocks, p) == a
  {
    if v.blocks[a].prevAlloc then a else Prev(v, a)
  }

  /**
   * coalesce's view of a free, listed block: when a neighbour is free, the block and its free
   * neighbours leave their lists (the block itself first), become one free block, and that
   * block goes on top of its list.
   */
  ghost function CoalesceView(v: View, a: nat): View
    requires Tiled(v) && Tagged(v) && |v.lists| == SEG_NUM && a in v.blocks
  {
    var m := v.blocks;
    var n := NextBlock(m, a);
    var p := CoalesceAddr(v, a);
    if m[a].prevAlloc && NextAlloc(m, a) then v
    else if m[a].prevAlloc then Push(Unlist(Unlist(v, a), n).(blocks := Absorb(m, a)), a)
    else if NextAlloc(m, a) then Push(Unlist(Unlist(v, a), p).(blocks := Absorb(m, p)), p)
    else Push(Unlist(Unlist(Unlist(v, a), p), n).(blocks := Absorb(Absorb(m, a), p)), p)
  }

  /** The state coalesce is called in: all invariants hold except that block a may have free neighbours. */
  predicate Coalescible(v: View, a: nat)
  {
    Tiled(v) && Tagged(v) && CoalescedBut(v, a) && Listed(v) && a in v.blocks && !v.blocks[a].alloc
  }

  lemma ListedNextCase(v: View, a: nat)
    requires Tiled(v) && Listed(v) && a in v.blocks && !v.blocks[a].alloc && !NextAlloc(v.blocks, a)
    ensures Listed(Push(Unlist(Unlist(v, a), NextBlock(v.blocks, a)).(blocks := Absorb(v.blocks, a)), a))
  {
    var n := NextBlock(v.blocks, a);
    UnlistExcept(v, {}, a);
    var u1 := Unlist(v, a);
    UnlistExcept(u1, {a}, n);
    var u2 := Unlist(u1, n);
    ReblockExcept(u2, {a, n}, Absorb(v.blocks, a));
    var u3 := u2.(blocks := Absorb(v.blocks, a));
    PushExcept(u3, {a, n}, a);
    assert {a, n} - {a} == {n};
    DropExcept(Push(u3, a), {n}, n);
    assert {n} - {n} == {};
  }

  lemma ListedPrevCase(v: View, a: nat, p: nat)
    requires Tiled(v) && Listed(v) && a in v.blocks && !v.blocks[a].alloc
    requires p in v.blocks && !v.blocks[p].alloc && NextBlock(v.blocks, p) == a
    ensures Listed(Push(Unlist(Unlist(v, a), p).(blocks := Absorb(v.blocks, p)), p))
  {
    UnlistExcept(v, {}, a);
    var u1 := Unlist(v, a);
    UnlistExcept(u1, {a}, p);
    var u2 := Unlist(u1, p);
    ReblockExcept(u2, {a, p}, Absorb(v.blocks, p));
    var u3 := u2.(blocks := Absorb(v.blocks, p));
    PushExcept(u3, {a, p}, p);
    assert {a, p} - {p} == {a};
    DropExcept(Push(u3, p), {a}, a);
    assert {a} - {a} == {};
  }

  /** Merging two blocks that are being worked on keeps the lists right. */
  lemma AbsorbExcept(u: View, x: set<nat>, a: nat)
    requires ListedExcept(u, x) && a in u.blocks && NextBlock(u.blocks, a) in u.blocks
    requires a in x && NextBlock(u.blocks, a) in x
    ensures ListedExcept(u.(blocks := Absorb(u.blocks, a)), x)
  {
    ReblockExcept(u, x, Absorb(u.blocks, a));
  }

  /** remove_free_block on the block and both its neighbours. */
  lemma UnlistThree(v: View, a: nat, p: nat, n: nat)
    requires Listed(v) && a in v.blocks && p in v.blocks && n in v.blocks
    requires !v.blocks[a].alloc && !v.blocks[p].alloc && !v.blocks[n].alloc && p < a < n
    ensures ListedExcept(Unlist(Unlist(Unlist(v, a), p), n), {a, p, n})
  {
    UnlistExcept(v, {}, a);
    var u1 := Unlist(v, a);
    UnlistExcept(u1, {a}, p);
    var u2 := Unlist(u1, p);
    UnlistExcept(u2, {a, p}, n);
    assert {a, p} + {n} == {a, p, n};
  }

  lemma ListedBothCase(v: View, a: nat, p: nat)
    requires Tiled(v) && Listed(v) && a in v.blocks && !v.blocks[a].alloc && !NextAlloc(v.blocks, a)
    requires p in v.blocks && !v.blocks[p].alloc && p < a && NextBlock(v.blocks, p) == a
    ensures var n := NextBlock(v.blocks, a);
      Listed(Push(Unlist(Unlist(Unlist(v, a), p), n).(blocks := Absorb(Absorb(v.blocks, a), p)), p))
  {
    var n := NextBlock(v.blocks, a);
    UnlistThree(v, a, p, n);
    AbsorbBothExcept(Unlist(Unlist(Unlist(v, a), p), n), a, p);
  }

  /** The three blocks being worked on become one free block, which is listed again. */
  lemma AbsorbBothExcept(u: View, a: nat, p: nat)
    requires a in u.blocks && NextBlock(u.blocks, a) in u.blocks && p in u.blocks && p < a
    requires NextBlock(u.blocks, p) == a && a < NextBlock(u.blocks, a)
    requires ListedExcept(u, {a, p, NextBlock(u.blocks, a)})
    ensures Listed(Push(u.(blocks := Absorb(Absorb(u.blocks, a), p)), p))
  {
    var n := NextBlock(u.blocks, a);
    var k := Absorb(Absorb(u.blocks, a), p);
    AbsorbExcept(u, {a, p, n}, a);
    var ua := u.(blocks := Absorb(u.blocks, a));
    assert p in ua.blocks && NextBlock(ua.blocks, p) == a;
    AbsorbExcept(ua, {a, p, n}, p);
    var w := u.(blocks := k);
    assert ua.(blocks := k) == w;
    PushExcept(w, {a, p, n}, p);
    assert {a, p, n} - {p} == {a, n};
    DropExcept(Push(w, p), {a, n}, a);
    assert {a, n} - {a} == {n};
    DropExcept(Push(w, p), {n}, n);
    assert {n} - {n} == {};
  }

  /** coalesce keeps the lists right. */
  lemma CoalesceListed(v: View, a: nat)
    requires Tiled(v) && Tagged(v) && Listed(v) && a in v.blocks && !v.blocks[a].alloc
    ensures Listed(CoalesceView(v, a))
  {
    var m := v.blocks;
    var p := CoalesceAddr(v, a);
    if m[a].prevAlloc && NextAlloc(m, a) {
    } else if m[a].prevAlloc {
      ListedNextCase(v, a);
    } else if NextAlloc(m, a) {
      ListedPrevCase(v, a, p);
    } else {
      ListedBothCase(v, a, p);
    }
  }

  /** coalesce restores the invariants mm_checkheap checks. */
  lemma CoalesceWF(v: View, a: nat)
    requires Coalescible(v, a)
    ensures WF(CoalesceView(v, a))
  {
    var m := v.blocks;
    var p := CoalesceAddr(v, a);
    if !m[a].prevAlloc {
      PrevFreeTagged(v, a, p);
    }
    CoalesceMapWF(m, v.end, v.epiPrevAlloc, a, p);
    CoalesceListed(v, a);
    CoalesceFields(v, a);
  }

  /** coalesce changes only the blocks and the lists. */
  lemma CoalesceFields(v: View, a: nat)
    requires Tiled(v) && Tagged(v) && |v.lists| == SEG_NUM && a in v.blocks
    ensures var w := CoalesceView(v, a);
      w.blocks == CoalesceMap(v.blocks, a, CoalesceAddr(v, a)) && w.end == v.end && w.epiPrevAlloc == v.epiPrevAlloc
  {
  }

  /** Absorbing the block after a leaves every other block as it was. */
  lemma AbsorbKeeps(m: map<nat, Blk>, a: nat)
    requires a in m && NextBlock(m, a) in m
    ensures forall b | b in m && b != a && b != NextBlock(m, a) :: b in Absorb(m, a) && Absorb(m, a)[b] == m[b]
    ensures a in Absorb(m, a)
  {
  }

  /**
   * What coalesce promises: block c, a itself or the free block before it, is free and reaches
   * to the end of a, or of a's successor when that was free; it is listed.
   */
  predicate Merged(v: View, w: View, a: nat, c: nat)
    requires a in v.blocks
  {
    var m := v.blocks;
    var n := NextBlock(m, a);
    var last := if NextAlloc(m, a) then n else NextBlock(m, n);
    c in w.blocks && !w.blocks[c].alloc && c <= a && c + w.blocks[c].size == last &&
    (c < a ==> c in m && !m[c].alloc && NextBlock(m, c) == a) &&
    |w.lists| == SEG_NUM && c in w.lists[Bucket(w.blocks[c].size)] && w.end == v.end
  }

  lemma CoalesceResult(v: View, a: nat)
    requires Coalescible(v, a)
    ensures Merged(v, CoalesceView(v, a), a, CoalesceAddr(v, a))
    ensures KeepsAllocated(v, CoalesceView(v, a), a)
  {
    var m := v.blocks;
    var p := CoalesceAddr(v, a);
    if m[a].prevAlloc && NextAlloc(m, a) {
      assert a in v.lists[Bucket(m[a].size)];
    } else if m[a].prevAlloc {
      MergedNext(v, a);
    } else if NextAlloc(m, a) {
      MergedPrev(v, a, p);
    } else {
      MergedBoth(v, a, p);
    }
  }

  lemma MergedNext(v: View, a: nat)
    requires Tiled(v) && |v.lists| == SEG_NUM && a in v.blocks && !v.blocks[a].alloc && !NextAlloc(v.blocks, a)
    ensures var w := Push(Unlist(Unlist(v, a), NextBlock(v.blocks, a)).(blocks := Absorb(v.blocks, a)), a);
      Merged(v, w, a, a) && KeepsAllocated(v, w, a)
  {
    AbsorbKeeps(v.blocks, a);
    PushTop(Unlist(Unlist(v, a), NextBlock(v.blocks, a)).(blocks := Absorb(v.blocks, a)), a);
  }

  lemma MergedPrev(v: View, a: nat, p: nat)
    requires Tiled(v) && |v.lists| == SEG_NUM && a in v.blocks && !v.blocks[a].alloc && NextAlloc(v.blocks, a)
    requires p in v.blocks && !v.blocks[p].alloc && p < a && NextBlock(v.blocks, p) == a
    ensures var w := Push(Unlist(Unlist(v, a), p).(blocks := Absorb(v.blocks, p)), p);
      Merged(v, w, a, p) && KeepsAllocated(v, w, a)
  {
    AbsorbKeeps(v.blocks, p);
    PushTop(Unlist(Unlist(v, a), p).(blocks := Absorb(v.blocks, p)), p);
  }

  lemma MergedBoth(v: View, a: nat, p: nat)
    requires Tiled(v) && |v.lists| == SEG_NUM && a in v.blocks && !v.blocks[a].alloc && !NextAlloc(v.blocks, a)
    requires p in v.blocks && !v.blocks[p].alloc && p < a && NextBlock(v.blocks, p) == a
    ensures var w := Push(Unlist(Unlist(Unlist(v, a), p), NextBlock(v.blocks, a)).(blocks := Absorb(Absorb(v.blocks, a), p)), p);
      Merged(v, w, a, p) && KeepsAllocated(v, w, a)
  {
    var m := v.blocks;
    var n := NextBlock(m, a);
    AbsorbKeeps(m, a);
    assert Absorb(m, a)[p] == m[p];
    AbsorbKeeps(Absorb(m, a), p);
    PushTop(Unlist(Unlist(Unlist(v, a), p), n).(blocks := Absorb(Absorb(m, a), p)), p);
  }

  /** add_free_block puts the block on top of the list of its size. */
  lemma PushTop(u: View, c: nat)
    requires c in u.blocks && |u.lists| == SEG_NUM
    ensures Push(u, c).lists[Bucket(u.blocks[c].size)][0] == c
  {
  }

  // ---------------------------------------------------------------------------
  // free

  /** Freeing a block can make free pairs only next to it. */
  lemma FreeBut(m: map<nat, Blk>, end: nat, a: nat)
    requires Tiles(m, end) && NoFreePair(m) && a in m
    ensures NoFreePairBut(FlipMap(m, a, false), a)
  {
    var n := FlipMap(m, a, false);
    forall c | c in n && !n[c].alloc && NextBlock(n, c) in n && !n[NextBlock(n, c)].alloc
      ensures c == a || NextBlock(n, c) == a
    {
      assert NextBlock(n, c) == NextBlock(m, c);
    }
  }

  /** free before coalescing: the block and its successor's prev-allocated bit are cleared, and it is listed. */
  function Freed(v: View, a: nat): View
    requires |v.lists| == SEG_NUM && a in v.blocks
  {
    Push(v.(blocks := FlipMap(v.blocks, a, false), epiPrevAlloc := FlipEpi(v.blocks, v.end, v.epiPrevAlloc, a, false)), a)
  }

  /** free's view of an allocated block: it is freed and listed, then coalesced with its free neighbours. */
  ghost function FreeView(v: View, a: nat): View
    requires Tiled(v) && Tagged(v) && |v.lists| == SEG_NUM && a in v.blocks
  {
    FlipTiles(v.blocks, v.end, a, false);
    FlipTags(v.blocks, v.end, v.epiPrevAlloc, a, false);
    CoalesceView(Freed(v, a), a)
  }

  /** The block free leaves the freed bytes in. */
  ghost function FreeAddr(v: View, a: nat): nat
    requires Tiled(v) && Tagged(v) && |v.lists| == SEG_NUM && a in v.blocks
  {
    FlipTiles(v.blocks, v.end, a, false);
    FlipTags(v.blocks, v.end, v.epiPrevAlloc, a, false);
    CoalesceAddr(Freed(v, a), a)
  }

  /** The freed block is ready for coalesce. */
  lemma FreedCoalescible(v: View, a: nat)
    requires WF(v) && a in v.blocks && v.blocks[a].alloc
    ensures Coalescible(Freed(v, a), a)
  {
    var e := FlipEpi(v.blocks, v.end, v.epiPrevAlloc, a, false);
    FlipTiles(v.blocks, v.end, a, false);
    FlipTags(v.blocks, v.end, v.epiPrevAlloc, a, false);
    FreeBut(v.blocks, v.end, a);
    WidenExcept(v, {}, a);
    FlipExcept(v, {a}, a, false, e);
    PushExcept(v.(blocks := FlipMap(v.blocks, a, false), epiPrevAlloc := e), {a}, a);
    assert {a} - {a} == {};
  }

  /** free keeps the invariants mm_checkheap checks. */
  lemma FreeWF(v: View, a: nat)
    requires WF(v) && a in v.blocks && v.blocks[a].alloc
    ensures WF(FreeView(v, a))
  {
    FreedCoalescible(v, a);
    CoalesceWF(Freed(v, a), a);
  }

  /** What free promises: the block's bytes now lie inside free block c, and the heap keeps its end. */
  predicate Released(v: View, w: View, a: nat, c: nat)
    requires a in v.blocks
  {
    c in w.blocks && !w.blocks[c].alloc && c <= a && a + v.blocks[a].size <= c + w.blocks[c].size && w.end == v.end
  }

  /** free releases exactly the block it is given: every other allocated block stays allocated, with its size. */
  lemma FreeResult(v: View, a: nat)
    requires WF(v) && a in v.blocks && v.blocks[a].alloc
    ensures Released(v, FreeView(v, a), a, FreeAddr(v, a))
    ensures KeepsAllocated(v, FreeView(v, a), a)
  {
    var u := Freed(v, a);
    FreedCoalescible(v, a);
    CoalesceResult(u, a);
    FreedKeeps(v, a);
    KeepsTrans(v, u, CoalesceView(u, a), a);
    MergedReleased(u, CoalesceView(u, a), a, CoalesceAddr(u, a));
  }

  /** Before coalescing, free has changed only the block's own status. */
  lemma FreedKeeps(v: View, a: nat)
    requires |v.lists| == SEG_NUM && a in v.blocks
    ensures KeepsAllocated(v, Freed(v, a), a)
    ensures a in Freed(v, a).blocks && Freed(v, a).blocks[a].size == v.blocks[a].size && Freed(v, a).end == v.end
  {
  }

  lemma KeepsTrans(u: View, v: View, w: View, a: nat)
    requires KeepsAllocated(u, v, a) && KeepsAllocated(v, w, a)
    ensures KeepsAllocated(u, w, a)
  {
  }

  /** The merged block covers the block coalesce was given. */
  lemma MergedReleased(u: View, w: View, a: nat, c: nat)
    requires a in u.blocks && Merged(u, w, a, c)
    ensures Released(u, w, a, c)
  {
  }

  // ---------------------------------------------------------------------------
  // extend_heap and mm_init

  /** A block appended at the end keeps the tiling, with the end moved past it. */
  lemma AppendTiles(m: map<nat, Blk>, end: nat, blk: Blk)
    requires Tiles(m, end) && blk.size % 8 == 0 && blk.size >= 16
    ensures Tiles(m[end := blk], end + blk.size)
  {
    var k := m[end := blk];
    Mod8(end, blk.size);
    forall c | c in k
      ensures NextBlock(k, c) == end + blk.size || NextBlock(k, c) in k
    {
      if c != end {
        assert NextBlock(k, c) == NextBlock(m, c);
      }
    }
    forall c, d | c in k && d in k && c < d
      ensures Apart(k, c, d)
    {
      if d != end {
        Order(m, end, c, d);
      }
    }
  }

  /** The appended block takes over the old epilogue's prev-allocated bit. */
  lemma AppendTags(m: map<nat, Blk>, end: nat, epi: bool, blk: Blk)
    requires Tiles(m, end) && Tags(m, end, epi) && blk.size >= 16 && blk.prevAlloc == epi
    ensures Tags(m[end := blk], end + blk.size, blk.alloc)
  {
    var k := m[end := blk];
    forall c | c in k && NextBlock(k, c) in k
      ensures k[NextBlock(k, c)].prevAlloc == k[c].alloc
    {
      if c != end {
        assert NextBlock(k, c) == NextBlock(m, c);
      }
    }
    forall c | c in k && NextBlock(k, c) == end + blk.size
      ensures blk.alloc == k[c].alloc
    {
    }
  }

  /** An appended block can make a free pair only with the block before it. */
  lemma AppendBut(m: map<nat, Blk>, end: nat, blk: Blk)
    requires Tiles(m, end) && NoFreePair(m)
    ensures NoFreePairBut(m[end := blk], end)
  {
    var k := m[end := blk];
    forall c | c in k && !k[c].alloc && NextBlock(k, c) in k && !k[NextBlock(k, c)].alloc
      ensures c == end || NextBlock(k, c) == end
    {
      if c != end {
        assert NextBlock(k, c) == NextBlock(m, c);
      }
    }
  }

  /**
   * extend_heap before coalescing: the old epilogue header becomes the header of a free block of
   * size bytes, a new epilogue follows it, and the block is listed.
   */
  function Grown(v: View, size: nat): View
    requires |v.lists| == SEG_NUM
  {
    Push(v.(blocks := v.blocks[v.end := Blk(size, false, v.epiPrevAlloc)], end := v.end + size, epiPrevAlloc := false), v.end)
  }

  /** extend_heap's view: a free block of size bytes at the end, coalesced with a free last block. */
  ghost function ExtendView(v: View, size: nat): View
    requires Tiled(v) && Tagged(v) && |v.lists| == SEG_NUM && size % 8 == 0 && size >= 16
  {
    AppendTiles(v.blocks, v.end, Blk(size, false, v.epiPrevAlloc));
    AppendTags(v.blocks, v.end, v.epiPrevAlloc, Blk(size, false, v.epiPrevAlloc));
    CoalesceView(Grown(v, size), v.end)
  }

  /** The new block's heap keeps the tiling and the tags; free pairs can only involve it. */
  lemma GrownBlocks(v: View, size: nat)
    requires Tiled(v) && Tagged(v) && Coalesced(v) && |v.lists| == SEG_NUM && size % 8 == 0 && size >= 16
    ensures var g := Grown(v, size); Tiled(g) && Tagged(g) && CoalescedBut(g, v.end) && v.end in g.blocks
  {
    var blk := Blk(size, false, v.epiPrevAlloc);
    AppendTiles(v.blocks, v.end, blk);
    AppendTags(v.blocks, v.end, v.epiPrevAlloc, blk);
    AppendBut(v.blocks, v.end, blk);
  }

  /** The new block is listed, and the lists stay right. */
  lemma GrownListed(v: View, size: nat)
    requires Tiled(v) && Listed(v)
    ensures Listed(Grown(v, size))
  {
    var blk := Blk(size, false, v.epiPrevAlloc);
    var g := v.(blocks := v.blocks[v.end := blk], end := v.end + size, epiPrevAlloc := false);
    assert v.end !in v.blocks;
    WidenExcept(v, {}, v.end);
    ReblockExcept(v, {v.end}, g.blocks);
    assert ListedExcept(g, {v.end});
    PushExcept(g, {v.end}, v.end);
    assert {v.end} - {v.end} == {};
  }

  /** The free block extend_heap returns. */
  ghost function ExtendAddr(v: View, size: nat): nat
    requires Tiled(v) && Tagged(v) && |v.lists| == SEG_NUM && size % 8 == 0 && size >= 16
  {
    AppendTiles(v.blocks, v.end, Blk(size, false, v.epiPrevAlloc));
    AppendTags(v.blocks, v.end, v.epiPrevAlloc, Blk(size, false, v.epiPrevAlloc));
    CoalesceAddr(Grown(v, size), v.end)
  }

  /** The new block is ready for coalesce. */
  lemma GrownCoalescible(v: View, size: nat)
    requires WF(v) && size % 8 == 0 && size >= 16
    ensures Coalescible(Grown(v, size), v.end)
  {
    GrownBlocks(v, size);
    GrownListed(v, size);
  }

  /** extend_heap keeps the invariants mm_checkheap checks. */
  lemma ExtendWF(v: View, size: nat)
    requires WF(v) && size % 8 == 0 && size >= 16
    ensures WF(ExtendView(v, size))
  {
    GrownCoalescible(v, size);
    CoalesceWF(Grown(v, size), v.end);
  }

  /**
   * What extend_heap promises: the heap ends size bytes further on, and the free block it returns
   * ends there, starting at the old end or at a free last block before it.
   */
  predicate Grew(v: View, w: View, size: nat, c: nat)
  {
    c in w.blocks && !w.blocks[c].alloc && c <= v.end && c + w.blocks[c].size == v.end + size &&
    (c < v.end ==> c in v.blocks && !v.blocks[c].alloc && NextBlock(v.blocks, c) == v.end) &&
    w.end == v.end + size
  }

  lemma ExtendResult(v: View, size: nat)
    requires WF(v) && size % 8 == 0 && size >= 16
    ensures Grew(v, ExtendView(v, size), size, ExtendAddr(v, size))
    ensures KeepsAllocated(v, ExtendView(v, size), v.end)
  {
    var g := Grown(v, size);
    GrownCoalescible(v, size);
    CoalesceResult(g, v.end);
    assert !(NextBlock(g.blocks, v.end) in g.blocks);
  }

  /** The heap mm_init lays out before extending it: prologue, epilogue and empty lists. */
  function EmptyView(): View
  {
    View(map[], FIRST_BLOCK, true, seq(SEG_NUM, _ => []))
  }

  lemma EmptyWF()
    ensures WF(EmptyView())
  {
  }

  /** mm_init's heap: the empty heap extended by CHUNKSIZE bytes. */
  ghost function InitView(): View
  {
    EmptyWF();
    ExtendView(EmptyView(), CHUNKSIZE)
  }

  /** After mm_init the heap is one free block of CHUNKSIZE bytes, alone in its list. */
  lemma InitResult()
    ensures WF(InitView())
    ensures InitView().blocks == map[FIRST_BLOCK := Blk(CHUNKSIZE, false, true)]
    ensures InitView().end == FIRST_BLOCK + CHUNKSIZE
    ensures forall i | 0 <= i < SEG_NUM :: InitView().lists[i] == if i == Bucket(CHUNKSIZE) then [FIRST_BLOCK] else []
  {
    EmptyWF();
    ExtendWF(EmptyView(), CHUNKSIZE);
    var g := Grown(EmptyView(), CHUNKSIZE);
    assert g.blocks == map[FIRST_BLOCK := Blk(CHUNKSIZE, false, true)];
    assert InitView() == g;
  }
}
