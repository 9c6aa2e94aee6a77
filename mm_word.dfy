/**
 * The header and footer words of malloclab/mm.c.  The bit operations of the C
 * macros are written as arithmetic: with the size a multiple of 8, `size | bits`
 * is `size + bits`, `w & ~0x7` is `w - w % 8`, `w & 0x1` is `w % 2` and
 * `w & 0x2` is 2 when `w % 4 >= 2` and 0 otherwise.
 */
module MmWord {
  /** PACK(size, alloc). */
  function Pack(size: nat, bits: nat): nat
  {
    size + bits
  }

  /** GET_SIZE on a header or footer word. */
  function GetSize(w: nat): nat
  {
    w - w % 8
  }

  /** GET_ALLOC: 1 when the block is allocated. */
  function GetAlloc(w: nat): nat
  {
    w % 2
  }

  /** GET_PREV_ALLOC: 2 when the block before is allocated, else 0. */
  function GetPrevAlloc(w: nat): nat
  {
    if w % 4 >= 2 then 2 else 0
  }

  /** The status bits of a header: bit 0 for this block, bit 1 for the one before. */
  function Bits(alloc: bool, prevAlloc: bool): nat
  {
    (if alloc then 1 else 0) + (if prevAlloc then 2 else 0)
  }

  /** The fields of a packed header come back out unchanged. */
  lemma PackFields(size: nat, alloc: bool, prevAlloc: bool)
    requires size % 8 == 0
    ensures GetSize(Pack(size, Bits(alloc, prevAlloc))) == size
    ensures (GetAlloc(Pack(size, Bits(alloc, prevAlloc))) == 1) == alloc
    ensures (GetPrevAlloc(Pack(size, Bits(alloc, prevAlloc))) == 2) == prevAlloc
    ensures GetPrevAlloc(Pack(size, Bits(alloc, prevAlloc))) == if prevAlloc then 2 else 0
  {
    PackMod(size, Bits(alloc, prevAlloc));
  }

  /** Status bits below 4 added to a multiple of 8 are its remainders. */
  lemma PackMod(size: nat, b: nat)
    requires size % 8 == 0 && b < 4
    ensures (size + b) % 8 == b && (size + b) % 4 == b && (size + b) % 2 == b % 2
  {
    var k := size / 8;
    ModUnique(size + b, 8, k, b);
    ModUnique(size + b, 4, 2 * k, b);
    ModUnique(size + b, 2, 4 * k + b / 2, b % 2);
  }

  /** The quotient and remainder are the q and r of any x == d * q + r with 0 <= r < d. */
  lemma ModUnique(x: nat, d: nat, q: nat, r: nat)
    requires 0 < d && x == d * q + r && r < d
    ensures x / d == q && x % d == r
  {
    var q2, r2 := x / d, x % d;
    assert d * q + r == d * q2 + r2;
    MulGap(d, q, q2);
    MulGap(d, q2, q);
  }

  /** Multiples of d that differ differ by at least d. */
  lemma {:induction false} MulGap(d: nat, a: nat, b: nat)
    ensures a < b ==> d * a + d <= d * b
    decreases b
  {
    if a + 1 < b {
      MulGap(d, a, b - 1);
      assert d * b == d * (b - 1) + d;
    }
  }

  /** `w | 0x2`: the prev-allocated bit set. */
  function SetPrevBit(w: nat): nat
  {
    if w % 4 >= 2 then w else w + 2
  }

  /** `w & ~0x2`: the prev-allocated bit cleared. */
  function ClearPrevBit(w: nat): nat
  {
    if w % 4 >= 2 then w - 2 else w
  }

  /** Setting or clearing bit 1 of a header changes its prev-allocated field and nothing else. */
  lemma PrevBitFields(size: nat, alloc: bool, prevAlloc: bool)
    requires size % 8 == 0
    ensures SetPrevBit(Pack(size, Bits(alloc, prevAlloc))) == Pack(size, Bits(alloc, true))
    ensures ClearPrevBit(Pack(size, Bits(alloc, prevAlloc))) == Pack(size, Bits(alloc, false))
  {
    PackMod(size, Bits(alloc, prevAlloc));
    PackMod(size, Bits(alloc, true));
    PackMod(size, Bits(alloc, false));
  }

  /** A header word is determined by its fields. */
  lemma PackInjective(s1: nat, a1: bool, p1: bool, s2: nat, a2: bool, p2: bool)
    requires s1 % 8 == 0 && s2 % 8 == 0
    requires Pack(s1, Bits(a1, p1)) == Pack(s2, Bits(a2, p2))
    ensures s1 == s2 && a1 == a2 && p1 == p2
  {
    PackFields(s1, a1, p1);
    PackFields(s2, a2, p2);
  }

  /** Sums and differences of multiples of 8 are multiples of 8. */
  lemma Mod8(x: nat, y: nat)
    requires x % 8 == 0 && y % 8 == 0
    ensures (x + y) % 8 == 0 && (x >= y ==> (x - y) % 8 == 0)
  {
    var p, q := x / 8, y / 8;
    ModUnique(x + y, 8, p + q, 0);
    if x >= y {
      ModUnique(x - y, 8, p - q, 0);
    }
  }
}
