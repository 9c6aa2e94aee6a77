/**
 * The placement policy of malloclab/mm.c (find_seg_fit and find_fit) as functions on the lists
 * of the heap view: first fit in a list for requests below 960 bytes, best fit above, trying the
 * request's own size class and then every larger one.
 */
module MmFit {
  import opened Opt
  import opened MmLayout
  import opened MmWord
  import opened MmView

  /** Every block named in the list is a block of the heap. */
  predicate InMap(m: map<nat, Blk>, l: seq<nat>)
  {
    forall j | 0 <= j < |l| :: l[j] in m
  }

  /** The first-fit pass over the first n blocks of a list: the position of the first block of at least asize bytes. */
  function FirstUpTo(m: map<nat, Blk>, l: seq<nat>, asize: nat, n: nat): (r: Option<nat>)
    requires InMap(m, l) && n <= |l|
    ensures r.Some? ==> r.value < n
  {
    if n == 0 then None
    else
      var r := FirstUpTo(m, l, asize, n - 1);
      if r.Some? then r else if asize <= m[l[n - 1]].size then Some(n - 1) else None
  }

  /**
   * The best-fit pass over the first n blocks of a list: a block of at least asize bytes replaces
   * the one found so far only when it is strictly smaller.
   */
  function BestUpTo(m: map<nat, Blk>, l: seq<nat>, asize: nat, n: nat): (r: Option<nat>)
    requires InMap(m, l) && n <= |l|
    ensures r.Some? ==> r.value < n
  {
    if n == 0 then None
    else
      var r := BestUpTo(m, l, asize, n - 1);
      var s := m[l[n - 1]].size;
      if asize <= s && (r.None? || s < m[l[r.value]].size) then Some(n - 1) else r
  }

  /** One more step of the best-fit pass. */
  lemma BestNext(m: map<nat, Blk>, l: seq<nat>, asize: nat, n: nat)
    requires InMap(m, l) && 0 < n <= |l|
    ensures var r := BestUpTo(m, l, asize, n - 1);
      BestUpTo(m, l, asize, n) ==
        if asize <= m[l[n - 1]].size && (r.None? || m[l[n - 1]].size < m[l[r.value]].size) then Some(n - 1) else r
  {
  }

  /** The first fitting block, and there is none before it. */
  lemma {:induction false} FirstUpToSpec(m: map<nat, Blk>, l: seq<nat>, asize: nat, n: nat)
    requires InMap(m, l) && n <= |l|
    ensures var r := FirstUpTo(m, l, asize, n);
      (r.None? <==> forall j | 0 <= j < n :: m[l[j]].size < asize) &&
      (r.Some? ==> r.value < n && asize <= m[l[r.value]].size &&
                   forall j | 0 <= j < r.value :: m[l[j]].size < asize)
  {
    if n > 0 {
      FirstUpToSpec(m, l, asize, n - 1);
    }
  }

  /**
   * The best fit is a fitting block of the least size among the fitting ones, and the earliest
   * of that size.
   */
  lemma {:induction false} BestUpToSpec(m: map<nat, Blk>, l: seq<nat>, asize: nat, n: nat)
    requires InMap(m, l) && n <= |l|
    ensures var r := BestUpTo(m, l, asize, n);
      (r.None? <==> forall j | 0 <= j < n :: m[l[j]].size < asize) &&
      (r.Some? ==> r.value < n && asize <= m[l[r.value]].size &&
                   (forall j | 0 <= j < n && asize <= m[l[j]].size :: m[l[r.value]].size <= m[l[j]].size) &&
                   (forall j | 0 <= j < r.value && asize <= m[l[j]].size :: m[l[r.value]].size < m[l[j]].size))
  {
    if n > 0 {
      BestUpToSpec(m, l, asize, n - 1);
    }
  }

  /** Once a first fit is found, later blocks do not change it. */
  lemma {:induction false} FirstStays(m: map<nat, Blk>, l: seq<nat>, asize: nat, n: nat, k: nat)
    requires InMap(m, l) && k <= n <= |l| && FirstUpTo(m, l, asize, k).Some?
    ensures FirstUpTo(m, l, asize, n) == FirstUpTo(m, l, asize, k)
    decreases n
  {
    if n > k {
      FirstStays(m, l, asize, n - 1, k);
    }
  }

  /** Once an exact fit is found no later block replaces it, so find_seg_fit may return it at once. */
  lemma {:induction false} BestExactStays(m: map<nat, Blk>, l: seq<nat>, asize: nat, n: nat, k: nat)
    requires InMap(m, l) && k <= n <= |l|
    requires BestUpTo(m, l, asize, k).Some? && m[l[BestUpTo(m, l, asize, k).value]].size == asize
    ensures BestUpTo(m, l, asize, n) == BestUpTo(m, l, asize, k)
    decreases n
  {
    if n > k {
      BestExactStays(m, l, asize, n - 1, k);
    }
  }

  /** find_seg_fit on a whole list: the position of the block it returns. */
  function SegFit(m: map<nat, Blk>, l: seq<nat>, asize: nat): (r: Option<nat>)
    requires InMap(m, l)
    ensures r.Some? ==> r.value < |l|
  {
    if asize < SEG_LOW[7] then FirstUpTo(m, l, asize, |l|) else BestUpTo(m, l, asize, |l|)
  }

  /** Whatever the pass, find_seg_fit finds a block exactly when some block of the list is large enough. */
  lemma SegFitSpec(m: map<nat, Blk>, l: seq<nat>, asize: nat)
    requires InMap(m, l)
    ensures var r := SegFit(m, l, asize);
      (r.None? <==> forall j | 0 <= j < |l| :: m[l[j]].size < asize) &&
      (r.Some? ==> r.value < |l| && asize <= m[l[r.value]].size)
  {
    FirstUpToSpec(m, l, asize, |l|);
    BestUpToSpec(m, l, asize, |l|);
  }

  /** The lists name blocks of the heap. */
  predicate ListsInMap(v: View)
  {
    |v.lists| == SEG_NUM && forall i | 0 <= i < SEG_NUM :: InMap(v.blocks, v.lists[i])
  }

  /** find_fit from list i on: the first list with a fit gives the block. */
  function FitFrom(v: View, asize: nat, i: nat): Option<nat>
    requires ListsInMap(v) && i < SEG_NUM
    decreases SEG_NUM - i
  {
    var r := SegFit(v.blocks, v.lists[i], asize);
    if r.Some? then Some(v.lists[i][r.value])
    else if i == SEG_NUM - 1 then None
    else FitFrom(v, asize, i + 1)
  }

  /** find_fit: the search starts at the request's own size class. */
  function Fit(v: View, asize: nat): Option<nat>
    requires ListsInMap(v)
  {
    FitFrom(v, asize, Bucket(asize))
  }

  lemma ListedInMap(v: View)
    requires Listed(v)
    ensures ListsInMap(v)
  {
  }

  /** Each list's sizes lie below the lower bound of every later list. */
  lemma SegLowMonotone(i: nat, k: nat)
    requires i <= k < SEG_NUM
    ensures SEG_LOW[i] <= SEG_LOW[k]
  {
  }

  /** From list i on, a block is found exactly when one of those lists holds a large enough block. */
  lemma {:induction false} FitFromSpec(v: View, asize: nat, i: nat)
    requires ListsInMap(v) && i < SEG_NUM
    ensures var r := FitFrom(v, asize, i);
      (r.None? <==> forall k, j | i <= k < SEG_NUM && 0 <= j < |v.lists[k]| :: v.blocks[v.lists[k][j]].size < asize) &&
      (r.Some? ==> exists k | i <= k < SEG_NUM :: r.value in v.lists[k] && asize <= v.blocks[r.value].size)
    decreases SEG_NUM - i
  {
    SegFitSpec(v.blocks, v.lists[i], asize);
    var r := SegFit(v.blocks, v.lists[i], asize);
    if r.None? && i < SEG_NUM - 1 {
      FitFromSpec(v, asize, i + 1);
    }
  }

  /**
   * find_fit is complete: with the lists right it returns a free block of at least asize bytes,
   * and it returns nothing only when no free block in the heap is that large.
   */
  lemma FitSpec(v: View, asize: nat)
    requires Listed(v)
    ensures ListsInMap(v)
    ensures Fit(v, asize).Some? ==>
      Fit(v, asize).value in v.blocks && !v.blocks[Fit(v, asize).value].alloc && asize <= v.blocks[Fit(v, asize).value].size
    ensures Fit(v, asize).None? <==> forall b | b in v.blocks && !v.blocks[b].alloc :: v.blocks[b].size < asize
  {
    ListedInMap(v);
    var i := Bucket(asize);
    FitFromSpec(v, asize, i);
    BucketSpec(asize, i);
    if Fit(v, asize).None? {
      forall b | b in v.blocks && !v.blocks[b].alloc
        ensures v.blocks[b].size < asize
      {
        var k := Bucket(v.blocks[b].size);
        assert b in v.lists[k];
        var j :| 0 <= j < |v.lists[k]| && v.lists[k][j] == b;
        if k < i {
          BucketSpec(v.blocks[b].size, k);
          SegLowMonotone(k + 1, i);
        }
      }
    } else {
      var k :| i <= k < SEG_NUM && Fit(v, asize).value in v.lists[k] && asize <= v.blocks[Fit(v, asize).value].size;
    }
  }
}
