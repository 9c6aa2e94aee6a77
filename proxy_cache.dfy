/**
 * The proxy's web-object cache: a doubly linked list of blocks, newest first, with a
 * running total of the cached bytes.  Insertion evicts least-recently-used blocks
 * until the new object fits in MAX_CACHE_SIZE.
 *
 * The list operations are specified against the sequence of entries the list holds
 * (Cache.contents), and the eviction policy by pure functions on such sequences.
 */
module ProxyCache {
  import opened Opt

  const MAX_CACHE_SIZE: int := 1049000
  const MAX_OBJECT_SIZE: int := 102400

  type Byte = b: int | 0 <= b < 256

  /** What one block holds: its key, its bytes, its last-use time and its size. */
  datatype Entry = Entry(uri: string, content: seq<Byte>, age: int, size: int)

  // ---------------------------------------------------------------------------
  // The eviction policy on sequences of entries, head first

  function Total(es: seq<Entry>): int
  {
    if es == [] then 0 else es[0].size + Total(es[1..])
  }

  lemma {:induction false} TotalAppend(a: seq<Entry>, b: seq<Entry>)
    ensures Total(a + b) == Total(a) + Total(b)
    decreases |a|
  {
    if a == [] {
      assert a + b == b;
    } else {
      assert (a + b)[1..] == a[1..] + b;
      TotalAppend(a[1..], b);
    }
  }

  /**
   * The block evict picks: scanning from the head, a block replaces the candidate
   * only when its age is strictly smaller.
   */
  function OldestIndex(es: seq<Entry>): (j: nat)
    requires |es| > 0
    ensures j < |es|
    decreases |es|
  {
    if |es| == 1 then 0
    else
      var j := OldestIndex(es[..|es| - 1]);
      if es[|es| - 1].age < es[j].age then |es| - 1 else j
  }

  /** The chosen block has the smallest age, and every block before it is strictly younger. */
  lemma {:induction false} OldestIndexIsOldest(es: seq<Entry>)
    requires |es| > 0
    ensures forall k :: 0 <= k < |es| ==> es[OldestIndex(es)].age <= es[k].age
    ensures forall k :: 0 <= k < OldestIndex(es) ==> es[k].age > es[OldestIndex(es)].age
    decreases |es|
  {
    if |es| > 1 {
      var init := es[..|es| - 1];
      OldestIndexIsOldest(init);
      assert forall k :: 0 <= k < |init| ==> init[k] == es[k];
    }
  }

  /** Those two facts pin the index down. */
  lemma OldestIndexUnique(es: seq<Entry>, j: nat)
    requires j < |es|
    requires forall k :: 0 <= k < |es| ==> es[j].age <= es[k].age
    requires forall k :: 0 <= k < j ==> es[k].age > es[j].age
    ensures OldestIndex(es) == j
  {
    OldestIndexIsOldest(es);
  }

  function RemoveAt(es: seq<Entry>, j: nat): (r: seq<Entry>)
    requires j < |es|
    ensures |r| == |es| - 1
  {
    es[..j] + es[j + 1..]
  }

  lemma RemoveAtTotal(es: seq<Entry>, j: nat)
    requires j < |es|
    ensures Total(RemoveAt(es, j)) == Total(es) - es[j].size
  {
    TotalAppend(es[..j], es[j + 1..]);
    TotalAppend(es[..j], es[j..]);
    assert es[..j] + es[j..] == es;
    assert es[j..] == [es[j]] + es[j + 1..];
    TotalAppend([es[j]], es[j + 1..]);
  }

  /** The entries after evict: the oldest one removed, the others in their order. */
  function RemoveOldest(es: seq<Entry>): (r: seq<Entry>)
    ensures es != [] ==> |r| == |es| - 1
  {
    if es == [] then [] else RemoveAt(es, OldestIndex(es))
  }

  lemma RemoveOldestTotal(es: seq<Entry>)
    requires es != []
    ensures Total(RemoveOldest(es)) == Total(es) - es[OldestIndex(es)].size
  {
    RemoveAtTotal(es, OldestIndex(es));
  }

  /** The entries cache_insert keeps: evict until `need` more bytes fit. */
  function Trimmed(es: seq<Entry>, need: int): seq<Entry>
    decreases |es|
  {
    if es != [] && Total(es) + need > MAX_CACHE_SIZE then Trimmed(RemoveOldest(es), need)
    else es
  }

  /** After trimming, the kept entries and the new object fit the budget. */
  lemma {:induction false} TrimmedFits(es: seq<Entry>, need: int)
    requires need <= MAX_CACHE_SIZE
    ensures Total(Trimmed(es, need)) + need <= MAX_CACHE_SIZE
    decreases |es|
  {
    if es != [] && Total(es) + need > MAX_CACHE_SIZE {
      TrimmedFits(RemoveOldest(es), need);
    }
  }

  /** a is b with some elements left out, the rest in their order. */
  predicate IsSubseq(a: seq<Entry>, b: seq<Entry>)
    decreases |b|
  {
    if a == [] then true
    else if b == [] then false
    else (a[0] == b[0] && IsSubseq(a[1..], b[1..])) || IsSubseq(a, b[1..])
  }

  lemma {:induction false} IsSubseqRefl(a: seq<Entry>)
    ensures IsSubseq(a, a)
    decreases |a|
  {
    if a != [] {
      IsSubseqRefl(a[1..]);
    }
  }

  lemma {:induction false} IsSubseqTrans(a: seq<Entry>, b: seq<Entry>, c: seq<Entry>)
    requires IsSubseq(a, b) && IsSubseq(b, c)
    ensures IsSubseq(a, c)
    decreases |c|
  {
    if a != [] {
      assert b != [] && c != [];
      if b[0] == c[0] && IsSubseq(b[1..], c[1..]) {
        if a[0] == b[0] && IsSubseq(a[1..], b[1..]) {
          IsSubseqTrans(a[1..], b[1..], c[1..]);
        } else {
          IsSubseqTrans(a, b[1..], c[1..]);
        }
      } else {
        IsSubseqTrans(a, b, c[1..]);
      }
    }
  }

  lemma {:induction false} RemoveAtIsSubseq(es: seq<Entry>, j: nat)
    requires j < |es|
    ensures IsSubseq(RemoveAt(es, j), es)
    decreases |es|
  {
    if j == 0 {
      assert RemoveAt(es, 0) == es[1..];
      IsSubseqRefl(es[1..]);
    } else {
      var r := RemoveAt(es, j);
      assert r[0] == es[0];
      assert r[1..] == RemoveAt(es[1..], j - 1);
      RemoveAtIsSubseq(es[1..], j - 1);
    }
  }

  /** Eviction only removes entries; the survivors keep their order. */
  lemma {:induction false} TrimmedIsSubseq(es: seq<Entry>, need: int)
    ensures IsSubseq(Trimmed(es, need), es)
    decreases |es|
  {
    if es != [] && Total(es) + need > MAX_CACHE_SIZE {
      TrimmedIsSubseq(RemoveOldest(es), need);
      RemoveAtIsSubseq(es, OldestIndex(es));
      IsSubseqTrans(Trimmed(es, need), RemoveOldest(es), es);
    } else {
      IsSubseqRefl(es);
    }
  }

  /** Nothing is evicted when the object already fits. */
  lemma TrimmedNoEviction(es: seq<Entry>, need: int)
    requires Total(es) + need <= MAX_CACHE_SIZE
    ensures Trimmed(es, need) == es
  {
  }

  /** The first entry with the given uri, as find_cache walks from the head. */
  function FindIndex(es: seq<Entry>, uri: string): (r: Option<nat>)
    ensures r.Some? ==> r.value < |es| && es[r.value].uri == uri
    decreases |es|
  {
    if es == [] then None
    else if es[0].uri == uri then Some(0)
    else match FindIndex(es[1..], uri)
      case None => None
      case Some(i) => Some(i + 1)
  }

  lemma {:induction false} FindIndexIsFirst(es: seq<Entry>, uri: string)
    ensures FindIndex(es, uri).None? <==> forall k :: 0 <= k < |es| ==> es[k].uri != uri
    ensures FindIndex(es, uri).Some? ==>
              forall k :: 0 <= k < FindIndex(es, uri).value ==> es[k].uri != uri
    decreases |es|
  {
    if es != [] && es[0].uri != uri {
      FindIndexIsFirst(es[1..], uri);
      assert forall k :: 1 <= k < |es| ==> es[k] == es[1..][k - 1];
    }
  }

  /** find_cache's result, characterised: the first index holding the uri. */
  lemma {:induction false} FindIndexAt(es: seq<Entry>, uri: string, i: nat)
    requires i < |es| && es[i].uri == uri
    requires forall k :: 0 <= k < i ==> es[k].uri != uri
    ensures FindIndex(es, uri) == Some(i)
    decreases i
  {
    if i > 0 {
      assert forall k :: 0 <= k < i - 1 ==> es[1..][k] == es[k + 1];
      FindIndexAt(es[1..], uri, i - 1);
    }
  }

  /** Restamping an entry's age does not change the total. */
  lemma {:induction false} TotalUpdate(es: seq<Entry>, i: nat, e: Entry)
    requires i < |es| && e.size == es[i].size
    ensures Total(es[i := e]) == Total(es)
    decreases |es|
  {
    if i > 0 {
      assert es[i := e][1..] == es[1..][i - 1 := e];
      TotalUpdate(es[1..], i - 1, e);
    }
  }


  // ---------------------------------------------------------------------------
  // evict as written, on an index model of the list (Null for NULL)

  datatype Ptr = Null | Node(i: nat)

  /** The pointer fields of a list of n blocks, block k holding age ages[k]. */
  datatype ListView = ListView(head: Ptr, next: seq<Ptr>, prev: seq<Ptr>, ages: seq<int>, size: int)

  /** A well-linked list: head is block 0 and block k is followed by block k + 1. */
  function Chain(ages: seq<int>, size: int): (v: ListView)
    ensures |v.next| == |v.prev| == |v.ages| == |ages|
  {
    ListView(if ages == [] then Null else Node(0),
             seq(|ages|, (k: nat) => if k + 1 < |ages| then Node(k + 1) else Null),
             seq(|ages|, (k: nat) => if k == 0 then Null else Node(k - 1)),
             ages, size)
  }

  /** The selection loop of evict: the block kept, and the cursor when the loop stops. */
  function Walk(v: ListView, cur: Ptr, pick: Ptr, oldest: int, fuel: nat): (Ptr, Ptr)
    requires |v.next| == |v.ages|
    decreases fuel
  {
    if fuel == 0 || cur == Null || cur.i >= |v.next| then (pick, cur)
    else if pick == Null || v.ages[cur.i] < oldest then
      Walk(v, v.next[cur.i], cur, v.ages[cur.i], fuel - 1)
    else Walk(v, v.next[cur.i], pick, oldest, fuel - 1)
  }

  /** What evict does, line by line: the list it leaves and the block it frees. */
  datatype Evicted = Evicted(after: ListView, freed: Ptr)

  function EvictAsWritten(v: ListView): (r: Evicted)
    requires |v.next| == |v.prev| == |v.ages|
    ensures v.head == Null ==> r == Evicted(v, Null)
  {
    if v.head == Null then Evicted(v, Null)
    else
      var (victim, cur) := Walk(v, v.head, Null, 0, |v.next|);
      if victim == Null || victim.i >= |v.next| then Evicted(v, cur)
      else
        var prev := v.prev[victim.i];
        var next := v.next[victim.i];
        var after :=
          if prev != Null && prev.i < |v.next| then v.(next := v.next[prev.i := next])
          else if prev == Null && next != Null && next.i < |v.prev| then v.(prev := v.prev[next.i := prev])
          else if prev == Null && next == Null then v.(head := Null)
          else v;
        Evicted(after, cur)
  }

  /** On a well-linked list the selection loop runs off the end: its cursor is NULL. */
  lemma {:induction false} WalkEndsAtNull(ages: seq<int>, k: nat, pick: Ptr, oldest: int)
    requires k < |ages|
    ensures Walk(Chain(ages, 0), Node(k), pick, oldest, |ages| - k).1 == Null
    decreases |ages| - k
  {
    var v := Chain(ages, 0);
    var nxt := v.next[k];
    if k + 1 < |ages| {
      assert nxt == Node(k + 1);
      if pick == Null || ages[k] < oldest {
        WalkEndsAtNull(ages, k + 1, Node(k), ages[k]);
      } else {
        WalkEndsAtNull(ages, k + 1, pick, oldest);
      }
    } else {
      assert nxt == Null;
    }
  }

  /** The walk depends on the pointer fields only, not on the size. */
  lemma {:induction false} WalkIgnoresSize(ages: seq<int>, size: int, cur: Ptr, pick: Ptr, oldest: int, fuel: nat)
    ensures Walk(Chain(ages, size), cur, pick, oldest, fuel) == Walk(Chain(ages, 0), cur, pick, oldest, fuel)
    decreases fuel
  {
    var v := Chain(ages, size);
    var w := Chain(ages, 0);
    if fuel > 0 && cur != Null && cur.i < |ages| {
      assert v.next[cur.i] == w.next[cur.i];
      WalkIgnoresSize(ages, size, v.next[cur.i], cur, ages[cur.i], fuel - 1);
      WalkIgnoresSize(ages, size, v.next[cur.i], pick, oldest, fuel - 1);
    }
  }

  /**
   * The defect: on every non-empty cache, evict reads cur->uri for Free after the
   * selection loop, and cur is NULL there, so the first eviction dereferences NULL.
   * Nor does evict lower the cached size, so even without the crash the eviction loop of
   * cache_insert could not make room.
   */
  lemma EvictAsWrittenFreesNull(ages: seq<int>, size: int)
    requires ages != []
    ensures EvictAsWritten(Chain(ages, size)).freed == Null
    ensures EvictAsWritten(Chain(ages, size)).after.size == size
  {
    WalkEndsAtNull(ages, 0, Null, 0);
    WalkIgnoresSize(ages, size, Node(0), Null, 0, |ages|);
  }

  /** When the oldest block is the head and has a successor, head still points at it. */
  lemma EvictAsWrittenKeepsHead()
    ensures EvictAsWritten(Chain([1, 2], 10)).after.head == Node(0)
    ensures EvictAsWritten(Chain([1, 2], 10)).after.prev[1] == Null
  {
    var v := Chain([1, 2], 10);
    assert v.next[0] == Node(1) && v.next[1] == Null;
    assert Walk(v, Node(0), Null, 0, 2) == (Node(0), Null);
  }

  /** When the victim has a predecessor, its successor's prev still names the victim. */
  lemma EvictAsWrittenKeepsPrev()
    ensures EvictAsWritten(Chain([2, 1, 3], 10)).after.next[0] == Node(2)
    ensures EvictAsWritten(Chain([2, 1, 3], 10)).after.prev[2] == Node(1)
  {
    var v := Chain([2, 1, 3], 10);
    assert v.next[0] == Node(1) && v.next[1] == Node(2) && v.next[2] == Null;
    assert v.prev[1] == Node(0);
    assert Walk(v, Node(0), Null, 0, 3) == (Node(1), Null);
  }

  // ---------------------------------------------------------------------------
  // The linked list

  /** No block occurs twice. */
  ghost predicate Distinct(ns: seq<Block>)
  {
    forall i, k :: 0 <= i < k < |ns| ==> ns[i] != ns[k]
  }

  lemma DistinctCons(b: Block, ns: seq<Block>)
    requires Distinct(ns) && b !in ns
    ensures Distinct([b] + ns)
  {
    var r := [b] + ns;
    assert forall i :: 1 <= i < |r| ==> r[i] == ns[i - 1];
  }

  lemma DistinctTail(ns: seq<Block>)
    requires ns != [] && Distinct(ns)
    ensures Distinct(ns[1..]) && ns[0] !in ns[1..]
  {
  }

  lemma DistinctRemoveAt(ns: seq<Block>, j: nat)
    requires j < |ns| && Distinct(ns)
    ensures Distinct(ns[..j] + ns[j + 1..])
    ensures ns[j] !in ns[..j] + ns[j + 1..]
  {
    var r := ns[..j] + ns[j + 1..];
    assert forall i :: 0 <= i < |r| ==> r[i] == (if i < j then ns[i] else ns[i + 1]);
  }

  class Block {
    var next: Block?
    var prev: Block?
    var uri: string
    var content: seq<Byte>
    var age: int
    var size: int

    constructor (uri: string, content: seq<Byte>, age: int, size: int)
      ensures this.uri == uri && this.content == content && this.age == age && this.size == size
      ensures next == null && prev == null
    {
      this.uri := uri;
      this.content := content;
      this.age := age;
      this.size := size;
      next := null;
      prev := null;
    }
  }

  /** The entry a block holds. */
  ghost function EntryOf(b: Block): Entry
    reads b
  {
    Entry(b.uri, b.content, b.age, b.size)
  }

  class Cache {
    var head: Block?
    var size: int
    /** The blocks from the head along next, the entries they hold, and every object of the structure. */
    ghost var nodes: seq<Block>
    ghost var contents: seq<Entry>
    ghost var Repr: set<object>

    /**
     * head, next and prev agree with nodes, which lists distinct blocks of Repr, and
     * contents[i] is what nodes[i] holds.
     */
    ghost predicate Linked()
      reads this, Repr
    {
      this in Repr && (forall i :: 0 <= i < |nodes| ==> nodes[i] in Repr) &&
      Distinct(nodes) &&
      head == (if nodes == [] then null else nodes[0]) &&
      (forall i {:trigger nodes[i].next} :: 0 <= i < |nodes| ==>
        nodes[i].next == (if i + 1 < |nodes| then nodes[i + 1] else null)) &&
      (forall i {:trigger nodes[i].prev} :: 0 <= i < |nodes| ==>
        nodes[i].prev == (if i == 0 then null else nodes[i - 1])) &&
      |contents| == |nodes| &&
      (forall i {:trigger contents[i]} :: 0 <= i < |nodes| ==> EntryOf(nodes[i]) == contents[i])
    }

    /** The list is well linked and size is the total of the cached sizes. */
    ghost predicate Valid()
      reads this, Repr
    {
      Linked() && size == Total(contents)
    }

    /** cache_init: an empty list with size 0. */
    constructor ()
      ensures Valid() && fresh(Repr)
      ensures head == null && size == 0 && contents == []
    {
      head := null;
      size := 0;
      nodes := [];
      contents := [];
      Repr := {this};
    }

    /**
     * find_cache: walk from the head to the first block with the given uri; stamp it
     * with the time `now` and return it, or return null.  Nothing else changes.
     */
    method Find(uri: string, now: int) returns (b: Block?)
      requires Valid()
      modifies Repr
      ensures Valid() && nodes == old(nodes) && Repr == old(Repr)
      ensures FindIndex(old(contents), uri).None? ==> b == null && contents == old(contents)
      ensures FindIndex(old(contents), uri).Some? ==>
                var i := FindIndex(old(contents), uri).value;
                b == nodes[i] && contents == old(contents)[i := old(contents)[i].(age := now)]
    {
      FindIndexIsFirst(contents, uri);
      var node := head;
      ghost var i := 0;
      while node != null
        invariant 0 <= i <= |nodes|
        invariant node == (if i < |nodes| then nodes[i] else null)
        invariant forall k :: 0 <= k < i ==> contents[k].uri != uri
        decreases |nodes| - i
      {
        assert contents[i] == EntryOf(nodes[i]);
        if node.uri == uri {
          break;
        }
        node := node.next;
        i := i + 1;
      }
      if node == null {
        return null;
      }
      FindIndexAt(contents, uri, i);
      Stamp(node, i, now);
      b := node;
    }

    /** Set the age of nodes[i]; only that entry changes. */
    method Stamp(node: Block, ghost i: nat, now: int)
      requires Valid() && i < |nodes| && node == nodes[i]
      modifies this, node
      ensures Valid() && nodes == old(nodes) && Repr == old(Repr) && head == old(head)
      ensures contents == old(contents)[i := old(contents)[i].(age := now)]
    {
      ghost var es := contents;
      node.age := now;
      contents := es[i := es[i].(age := now)];
      forall k | 0 <= k < |nodes|
        ensures EntryOf(nodes[k]) == contents[k]
      {
        if k != i {
          assert nodes[k] != node;
        }
      }
      TotalUpdate(es, i, es[i].(age := now));
    }

    /** The loop of evict: the block OldestIndex picks, walking from the head. */
    method SelectOldest() returns (victim: Block, ghost j: nat)
      requires Valid() && nodes != []
      ensures j < |nodes| && victim == nodes[j] && j == OldestIndex(contents)
    {
      ghost var es := contents;
      var pick: Block? := null;
      var oldest := 0;
      var cur := head;
      ghost var i := 0;
      j := 0;
      while cur != null
        invariant 0 <= i <= |nodes|
        invariant cur == (if i < |nodes| then nodes[i] else null)
        invariant pick == null <==> i == 0
        invariant i > 0 ==> j < i && j == OldestIndex(es[..i]) && pick == nodes[j] && oldest == es[j].age
        decreases |nodes| - i
      {
        assert es[..i + 1][..i] == es[..i];
        assert es[i] == EntryOf(cur);
        if pick == null {
          pick := cur;
          oldest := cur.age;
          j := i;
        } else if cur.age < oldest {
          pick := cur;
          oldest := cur.age;
          j := i;
        }
        cur := cur.next;
        i := i + 1;
      }
      assert es[..|nodes|] == es;
      victim := pick;
    }

    /**
     * evict, as documented: remove the least recently used block (the one
     * OldestIndex picks) from the list and give its bytes back to the budget.
     * An empty cache is left as it is.
     */
    method Evict()
      requires Valid()
      modifies Repr
      ensures Valid() && Repr <= old(Repr)
      ensures |nodes| == |old(nodes)| - (if old(nodes) == [] then 0 else 1)
      ensures contents == RemoveOldest(old(contents))
    {
      if head == null {
        return;
      }
      var victim, j := SelectOldest();
      Unlink(victim, j);
    }

    /** Splice nodes[j] out of the list and give its bytes back to the budget. */
    method Unlink(victim: Block, ghost j: nat)
      requires Valid() && j < |nodes| && victim == nodes[j]
      modifies Repr
      ensures Valid() && Repr == old(Repr) - {victim}
      ensures nodes == old(nodes)[..j] + old(nodes)[j + 1..]
      ensures contents == RemoveAt(old(contents), j)
    {
      ghost var es := contents;
      assert victim.size == es[j].size;
      Splice(victim, j);
      size := size - victim.size;
      RemoveAtTotal(es, j);
    }

    /** The pointer updates of Unlink: the neighbours of nodes[j] are linked to each other. */
    method Splice(victim: Block, ghost j: nat)
      requires Linked() && j < |nodes| && victim == nodes[j]
      modifies Repr
      ensures Linked() && Repr == old(Repr) - {victim} && size == old(size)
      ensures nodes == old(nodes)[..j] + old(nodes)[j + 1..]
      ensures contents == RemoveAt(old(contents), j)
      ensures victim.size == old(victim.size)
    {
      if victim.prev != null && victim.next != null {
        SpliceMiddle(victim, j);
      } else if victim.prev != null {
        SpliceLast(victim, j);
      } else {
        assert j == 0;
        ghost var ns, es := nodes, contents;
        SpliceHead(victim);
        assert ns[..0] + ns[1..] == ns[1..];
        assert RemoveAt(es, 0) == es[1..];
      }
    }

    /** Splice out a block between two others: each neighbour skips it. */
    method SpliceMiddle(victim: Block, ghost j: nat)
      requires Linked() && j < |nodes| && victim == nodes[j]
      requires victim.prev != null && victim.next != null
      modifies Repr
      ensures Linked() && Repr == old(Repr) - {victim} && size == old(size)
      ensures nodes == old(nodes)[..j] + old(nodes)[j + 1..]
      ensures contents == RemoveAt(old(contents), j)
      ensures victim.size == old(victim.size)
    {
      ghost var es := contents;
      ghost var ns := nodes;
      var prev := victim.prev;
      var next := victim.next;
      assert 0 < j < |ns| - 1 && prev == ns[j - 1] && next == ns[j + 1];
      prev.next := next;
      next.prev := prev;
      nodes := ns[..j] + ns[j + 1..];
      contents := RemoveAt(es, j);
      Repr := Repr - {victim};
      DistinctRemoveAt(ns, j);
      forall i | 0 <= i < |nodes|
        ensures nodes[i] == (if i < j then ns[i] else ns[i + 1])
        ensures contents[i] == (if i < j then es[i] else es[i + 1])
        ensures nodes[i] in Repr
        ensures nodes[i].next == (if i + 1 < |nodes| then nodes[i + 1] else null)
        ensures nodes[i].prev == (if i == 0 then null else nodes[i - 1])
        ensures EntryOf(nodes[i]) == contents[i]
      {
        var k := if i < j then i else i + 1;
        assert nodes[i] == ns[k];
        if k != j - 1 {
          assert ns[k].next == old(ns[k].next);
        }
        if k != j + 1 {
          assert ns[k].prev == old(ns[k].prev);
        }
      }
    }

    /** Splice out the last block of a list of two or more: its predecessor becomes last. */
    method SpliceLast(victim: Block, ghost j: nat)
      requires Linked() && j < |nodes| && victim == nodes[j]
      requires victim.prev != null && victim.next == null
      modifies Repr
      ensures Linked() && Repr == old(Repr) - {victim} && size == old(size)
      ensures nodes == old(nodes)[..j] + old(nodes)[j + 1..]
      ensures contents == RemoveAt(old(contents), j)
      ensures victim.size == old(victim.size)
    {
      ghost var es := contents;
      ghost var ns := nodes;
      var prev := victim.prev;
      assert j == |ns| - 1 && j > 0 && prev == ns[j - 1];
      prev.next := null;
      nodes := ns[..j];
      contents := es[..j];
      Repr := Repr - {victim};
      DistinctRemoveAt(ns, j);
      assert ns[..j] + ns[j + 1..] == ns[..j];
      assert es[..j] + es[j + 1..] == es[..j];
      forall i | 0 <= i < |nodes|
        ensures nodes[i] == ns[i] && contents[i] == es[i]
        ensures nodes[i] in Repr
        ensures nodes[i].next == (if i + 1 < |nodes| then nodes[i + 1] else null)
        ensures nodes[i].prev == (if i == 0 then null else nodes[i - 1])
        ensures EntryOf(nodes[i]) == contents[i]
      {
        if i != j - 1 {
          assert ns[i].next == old(ns[i].next);
        }
        assert ns[i].prev == old(ns[i].prev);
      }
    }

    /** Splice out the head block: head moves to its successor. */
    method SpliceHead(victim: Block)
      requires Linked() && nodes != [] && victim == nodes[0]
      modifies Repr
      ensures Linked() && Repr == old(Repr) - {victim} && size == old(size)
      ensures nodes == old(nodes)[1..] && contents == old(contents)[1..]
      ensures victim.size == old(victim.size)
    {
      ghost var es := contents;
      ghost var ns := nodes;
      var next := victim.next;
      head := next;
      if next != null {
        next.prev := null;
      }
      nodes := ns[1..];
      contents := es[1..];
      Repr := Repr - {victim};
      DistinctTail(ns);
      forall i | 0 <= i < |nodes|
        ensures nodes[i] == ns[i + 1] && contents[i] == es[i + 1]
        ensures nodes[i] in Repr
        ensures nodes[i].next == (if i + 1 < |nodes| then nodes[i + 1] else null)
        ensures nodes[i].prev == (if i == 0 then null else nodes[i - 1])
        ensures EntryOf(nodes[i]) == contents[i]
      {
        assert ns[i + 1].next == old(ns[i + 1].next);
        if i > 0 {
          assert ns[i + 1].prev == old(ns[i + 1].prev);
        }
      }
    }

    /**
     * The eviction loop of cache_insert: evict until `need` more bytes fit.  The
     * source demands need <= MAX_CACHE_SIZE, or the loop empties the cache and
     * then never ends.
     */
    method MakeRoom(need: int)
      requires Valid() && need <= MAX_CACHE_SIZE
      modifies Repr
      ensures Valid() && Repr <= old(Repr)
      ensures contents == Trimmed(old(contents), need)
      ensures size + need <= MAX_CACHE_SIZE
    {
      ghost var es0 := contents;
      var total := size + need;
      while total > MAX_CACHE_SIZE
        invariant Valid() && Repr <= old(Repr)
        invariant total == size + need
        invariant Trimmed(contents, need) == Trimmed(es0, need)
        decreases |nodes|
      {
        assert contents != [];
        Evict();
        total := size + need;
      }
    }

    /** Link a new block at the head, the old list following it, and count its bytes. */
    method PushFront(node: Block)
      requires Valid() && node !in Repr && node.prev == null
      modifies this, node, head
      ensures Valid() && Repr == old(Repr) + {node}
      ensures contents == [old(EntryOf(node))] + old(contents)
    {
      ghost var es := contents;
      LinkFront(node);
      size := size + node.size;
      TotalAppend([EntryOf(node)], es);
    }

    /** The pointer updates of PushFront. */
    method LinkFront(node: Block)
      requires Linked() && node !in Repr && node.prev == null
      modifies this, node, head
      ensures Linked() && Repr == old(Repr) + {node}
      ensures contents == [old(EntryOf(node))] + old(contents)
      ensures size == old(size) && node.size == old(node.size)
    {
      ghost var es := contents;
      ghost var ns := nodes;
      node.next := head;
      if head != null {
        head.prev := node;
      }
      head := node;
      nodes := [node] + ns;
      contents := [EntryOf(node)] + es;
      Repr := Repr + {node};
      DistinctCons(node, ns);
      forall i | 0 <= i < |nodes|
        ensures nodes[i] == (if i == 0 then node else ns[i - 1])
        ensures contents[i] == (if i == 0 then EntryOf(node) else es[i - 1])
        ensures nodes[i] in Repr
        ensures nodes[i].next == (if i + 1 < |nodes| then nodes[i + 1] else null)
        ensures nodes[i].prev == (if i == 0 then null else nodes[i - 1])
        ensures EntryOf(nodes[i]) == contents[i]
      {
        if i > 0 {
          assert nodes[i] == ns[i - 1];
          assert ns[i - 1].next == old(ns[i - 1].next);
          if i > 1 {
            assert ns[i - 1].prev == old(ns[i - 1].prev);
          }
        }
      }
    }

    /**
     * cache_insert: make room, then link a new block holding a copy of the uri and
     * of the first sz bytes of the content, stamped with the time `now`, at the head.
     */
    method Insert(uri: string, content: seq<Byte>, sz: int, now: int)
      requires Valid() && 0 <= sz <= MAX_CACHE_SIZE && sz <= |content|
      modifies Repr
      ensures Valid() && fresh(Repr - old(Repr))
      ensures contents == [Entry(uri, content[..sz], now, sz)] + Trimmed(old(contents), sz)
      ensures size <= MAX_CACHE_SIZE
    {
      MakeRoom(sz);
      var node := new Block(uri, content[..sz], now, sz);
      PushFront(node);
    }
  }
}
