/** Sizes, buddies and the byte geometry of the blocks that the buddy allocator hands out. */
module Blocks {
  import opened Bits

  const MAX_ORDER: nat := 12
  const PAGE_SIZE: nat := 4096

  /** `size_for_order`: `(1 << order) * PAGE_SIZE`. */
  function Size(order: nat): (r: nat)
    ensures r > 0
  {
    Shl(1, order) * PAGE_SIZE
  }

  /** `order_for_size`: round up to a power of two, count pages, take the logarithm. */
  function OrderForSize(size: nat): nat {
    var atLeastPage := if size < PAGE_SIZE then PAGE_SIZE else size;
    var pages := NextPowerOfTwo(atLeastPage) / PAGE_SIZE;
    TrailingZeros(pages)
  }

  /** Doubling from `2^i` stops at the first power of two that is at least `a`. */
  lemma {:induction false} NextIsPow2(a: nat, i: nat) returns (j: nat)
    ensures i <= j && NextPowerOfTwo(a, Pow2(i)) == Pow2(j) && a <= Pow2(j)
    ensures i < j ==> Pow2(j - 1) < a
    decreases a - Pow2(i)
  {
    if a <= Pow2(i) {
      j := i;
    } else {
      assert Pow2(i + 1) == 2 * Pow2(i);
      j := NextIsPow2(a, i + 1);
    }
  }

  lemma {:induction false} TrailingZerosOfPow2(m: nat)
    ensures TrailingZeros(Pow2(m)) == m
  {
    if m > 0 { TrailingZerosOfPow2(m - 1); }
  }

  lemma {:induction false} SizeIsPow2(o: nat)
    ensures Size(o) == Pow2(o + 12)
    ensures Size(o + 1) == 2 * Size(o)
  {
    Pow2Sum(o, 12);
    assert Pow2(12) == 4096;
    assert Pow2(o + 1) == 2 * Pow2(o);
  }

  lemma {:induction false} SizeMonotone(a: nat, b: nat)
    requires a <= b
    ensures PAGE_SIZE <= Size(a) <= Size(b)
  {
    Pow2Monotone(0, a);
    Pow2Monotone(a, b);
  }

  lemma {:induction false} TopSize(m: nat)
    requires m < MAX_ORDER
    ensures Size(m) <= 0x80_0000
  {
    SizeMonotone(m, 11);
    assert Size(11) == 0x80_0000;
  }

  /** Every request gets the least order whose block is large enough, and no request gets
      a smaller one: the two directions of `order_for_size(s) <= o iff s <= size_for_order(o)`. */
  lemma {:induction false} OrderForSizeIsLeast(size: nat, o: nat)
    ensures OrderForSize(size) <= o <==> size <= Size(o)
  {
    var s := if size < PAGE_SIZE then PAGE_SIZE else size;
    var j := NextIsPow2(s, 0);
    assert Pow2(12) == 4096;
    if j < 12 { Pow2Monotone(j, 11); }
    Pow2Sum(j - 12, 12);
    assert Pow2(j) / PAGE_SIZE == Pow2(j - 12);
    TrailingZerosOfPow2(j - 12);
    assert OrderForSize(size) == j - 12;
    SizeIsPow2(o);
    SizeMonotone(0, o);
    if j - 12 <= o {
      Pow2Monotone(j, o + 12);
    } else {
      Pow2Monotone(o + 12, j - 1);
    }
  }

  /** `align_up` to the page size. */
  lemma {:induction false} AlignUpPage(addr: nat)
    requires addr + PAGE_SIZE <= WORD
    ensures addr <= AlignUp(addr, PAGE_SIZE) < addr + PAGE_SIZE && AlignUp(addr, PAGE_SIZE) % PAGE_SIZE == 0
  {
    hide AlignUp;
    assert Pow2(12) == PAGE_SIZE;
    AlignUpIsLeast(addr, 12);
  }

  // ----- Buddies -----

  /** The address computed by `buddy_of`; the source turns a zero into `NullPointer`. */
  function BuddyOf(addr: nat, order: nat): nat {
    Xor(addr, Size(order))
  }

  predicate IsAligned(addr: nat, order: nat) {
    addr % Size(order) == 0
  }

  lemma {:induction false} MultipleOf(q: nat, s: nat)
    requires s > 0
    ensures (q * s) % s == 0 && (q * s) / s == q
  {
    DivModUnique(q * s, s, q, 0);
  }

  lemma {:induction false} MultipleParity(q: nat, s: nat)
    requires s > 0
    ensures (q * s) % (2 * s) == if q % 2 == 0 then 0 else s
  {
    var h := q / 2;
    if q % 2 == 0 {
      assert q * s == (2 * h) * s == h * (2 * s) + 0;
      DivModUnique(q * s, 2 * s, h, 0);
    } else {
      assert q * s == (2 * h + 1) * s == h * (2 * s) + s;
      DivModUnique(q * s, 2 * s, h, s);
    }
  }

  /** For a naturally aligned block the XOR is the other half of the enclosing block: the
      upper half when the address is aligned one order up, the lower half otherwise. */
  lemma {:induction false} BuddyIsOtherHalf(addr: nat, order: nat)
    requires IsAligned(addr, order)
    ensures IsAligned(addr, order + 1) ==> BuddyOf(addr, order) == addr + Size(order)
    ensures !IsAligned(addr, order + 1) ==>
              addr >= Size(order) && BuddyOf(addr, order) == addr - Size(order)
              && IsAligned(addr - Size(order), order + 1)
  {
    var s := Size(order);
    SizeIsPow2(order);
    var q := addr / s;
    assert addr == q * s;
    MultipleParity(q, s);
    if q % 2 == 1 {
      assert addr - s == (q - 1) * s;
      MultipleParity(q - 1, s);
    }
    BitIsQuotientParity(addr, order + 12);
    XorBit(addr, order + 12);
  }

  /** Splitting one order down: both halves are aligned and are each other's buddies. */
  lemma {:induction false} HalvesAligned(addr: nat, order: nat)
    requires IsAligned(addr, order + 1)
    ensures IsAligned(addr, order) && IsAligned(addr + Size(order), order)
    ensures BuddyOf(addr, order) == addr + Size(order)
    ensures BuddyOf(addr + Size(order), order) == addr
  {
    hide BuddyOf, Size;
    var s := Size(order);
    SizeIsPow2(order);
    var q := addr / (2 * s);
    assert addr == q * (2 * s) == (2 * q) * s;
    MultipleOf(2 * q, s);
    assert addr + s == (2 * q + 1) * s;
    MultipleOf(2 * q + 1, s);
    MultipleParity(2 * q + 1, s);
    BuddyIsOtherHalf(addr, order);
    BuddyIsOtherHalf(addr + s, order);
  }

  /** `buddy_of` is an involution on aligned blocks, never the block itself, and the lower
      of the two starts the aligned block that contains both. */
  lemma {:induction false} BuddyPair(addr: nat, order: nat)
    requires IsAligned(addr, order)
    ensures var b := BuddyOf(addr, order);
            && b != addr && IsAligned(b, order) && BuddyOf(b, order) == addr
            && IsAligned(if b < addr then b else addr, order + 1)
            && (b == addr + Size(order) || addr == b + Size(order))
  {
    BuddyIsOtherHalf(addr, order);
    if IsAligned(addr, order + 1) {
      HalvesAligned(addr, order);
    } else {
      HalvesAligned(addr - Size(order), order);
    }
  }

  /** `buddy_of` is null for exactly one address of each order. */
  lemma {:induction false} NullBuddy(addr: nat, order: nat)
    ensures BuddyOf(addr, order) == 0 <==> addr == Size(order)
  {
    SizeIsPow2(order);
    XorBit(addr, order + 12);
    BitIsQuotientParity(addr, order + 12);
    if addr == Size(order) { MultipleOf(1, Size(order)); }
  }

  lemma {:induction false} BitClear(addr: nat, order: nat)
    ensures addr <= BuddyOf(addr, order) <==> (addr / Size(order)) % 2 == 0
    ensures addr <= BuddyOf(addr, order) ==>
              BuddyOf(addr, order) == addr + Size(order) && addr % Size(order + 1) == addr % Size(order)
  {
    hide Xor, Bit, Pow2, Size;
    SizeIsPow2(order);
    XorBit(addr, order + 12);
    BitIsQuotientParity(addr, order + 12);
    EvenQuotient(addr, Size(order));
  }

  lemma {:induction false} EvenQuotient(a: nat, s: nat)
    requires s > 0
    ensures (a / s) % 2 == 0 ==> a % (2 * s) == a % s
  {
    var h, r := a / s / 2, a % s;
    if (a / s) % 2 == 0 {
      assert a == (2 * h) * s + r == h * (2 * s) + r;
      DivModUnique(a, 2 * s, h, r);
    }
  }

  lemma {:induction false} ModOfMultiple(a: nat, m: nat, d: nat, n: nat)
    requires d > 0 && n > 0 && m == n * d && a % m < d
    ensures a % d == a % m
  {
    var q, r := a / m, a % m;
    assert a == q * (n * d) + r == (q * n) * d + r;
    DivModUnique(a, d, q * n, r);
  }

  lemma {:induction false} SizeMultiple(i: nat, j: nat)
    requires i <= j
    ensures Size(j) == Pow2(j - i) * Size(i)
  {
    Pow2Sum(j - i, i);
  }

  /** If the bits from `order` up to `k` are clear, each buddy in between lies above... */
  lemma {:induction false} ClearBits(a: nat, order: nat, j: nat, k: nat)
    requires order <= j < k && a % Size(k) < Size(order)
    ensures BuddyOf(a, j) == a + Size(j)
  {
    hide BuddyOf, Size;
    var r := a % Size(k);
    SizeMonotone(order, j);
    SizeIsPow2(j);
    SizeMultiple(j, k);
    SizeMultiple(j + 1, k);
    ModOfMultiple(a, Size(k), Size(j + 1), Pow2(k - j - 1));
    EvenBelow(a, Size(j));
    BitClear(a, j);
  }

  lemma {:induction false} EvenBelow(a: nat, s: nat)
    requires s > 0 && a % (2 * s) < s
    ensures a / s % 2 == 0
  {
    var q, r := a / (2 * s), a % (2 * s);
    assert a == q * (2 * s) + r == (2 * q) * s + r;
    DivModUnique(a, s, 2 * q, r);
  }

  /** ...and if one is set, some buddy lies below. */
  lemma {:induction false} SetBit(a: nat, order: nat, k: nat) returns (j: nat)
    requires order <= k && a % Size(k) >= Size(order)
    ensures order <= j < k && Size(j) <= a && BuddyOf(a, j) == a - Size(j)
  {
    hide BuddyOf, Size;
    assert order < k;
    j := k - 1;
    BitClear(a, j);
    if a <= BuddyOf(a, j) {
      j := SetBit(a, order, k - 1);
    } else {
      BuddyBelow(a, j);
    }
  }

  lemma {:induction false} BuddyBelow(a: nat, j: nat)
    requires BuddyOf(a, j) < a
    ensures Size(j) <= a && BuddyOf(a, j) == a - Size(j)
  {
    SizeIsPow2(j);
    XorBit(a, j + 12);
  }

  /** The start of the block of `order` that contains `addr`. */
  function BlockStart(addr: nat, order: nat): nat {
    Floor(addr, Size(order))
  }

  function Floor(a: nat, m: nat): nat
    requires m > 0
  {
    a / m * m
  }

  lemma {:induction false} BlockStartNests(addr: nat, i: nat, j: nat)
    requires i <= j
    ensures BlockStart(BlockStart(addr, i), j) == BlockStart(addr, j)
  {
    hide Size;
    SizeMultiple(i, j);
    FloorNests(addr, Size(i), Size(j), Pow2(j - i));
  }

  lemma {:induction false} FloorNests(a: nat, d: nat, m: nat, n: nat)
    requires d > 0 && m == n * d && m > 0
    ensures a / d * d / m == a / m
  {
    var q, r := a / m, a % m;
    var t := r / d;
    assert a == q * m + r && r == t * d + r % d;
    assert (q * n + t) * d == q * m + t * d by { assert q * (n * d) == (q * n) * d; }
    DivModUnique(a, d, q * n + t, r % d);
    DivModUnique(q * m + t * d, m, q, t * d);
  }

  lemma {:induction false} AddMultiple(a: nat, m: nat, q: nat)
    requires m > 0
    ensures (a + q * m) % m == a % m
  {
    assert a + q * m == (a / m + q) * m + a % m;
    DivModUnique(a + q * m, m, a / m + q, a % m);
  }

  // ----- Bytes -----

  datatype Block = Block(addr: nat, order: nat) {
    function End(): nat { addr + Size(order) }
    ghost predicate Covers(p: int) { addr <= p < End() }
  }

  ghost predicate Disjoint(x: Block, y: Block) {
    x.End() <= y.addr || y.End() <= x.addr
  }

  ghost predicate PairwiseDisjoint(s: set<Block>) {
    forall x, y :: x in s && y in s && x != y ==> Disjoint(x, y)
  }

  ghost function Interval(lo: int, hi: int): (r: set<int>)
    ensures forall p :: p in r <==> lo <= p < hi
    ensures lo <= hi ==> |r| == hi - lo
    decreases hi - lo
  {
    if hi <= lo then {} else Interval(lo, hi - 1) + {hi - 1}
  }

  lemma {:induction false} IntervalSplit(lo: int, mid: int, hi: int)
    requires lo <= mid <= hi
    ensures Interval(lo, hi) == Interval(lo, mid) + Interval(mid, hi)
  {
  }

  /** The bytes of one block. */
  ghost function BytesOf(b: Block): set<int> {
    Interval(b.addr, b.End())
  }

  /** The bytes covered by a set of blocks. */
  ghost function Bytes(s: set<Block>): (r: set<int>)
    ensures forall p :: p in r <==> exists b :: b in s && b.Covers(p)
  {
    if s == {} then {} else
      var b :| b in s;
      assert s == (s - {b}) + {b};
      BytesOf(b) + Bytes(s - {b})
  }

  lemma {:induction false} SubsetSize<T>(a: set<T>, b: set<T>)
    requires a <= b
    ensures |a| <= |b|
  {
    assert b == a + (b - a);
  }

  lemma {:induction false} BytesUnion(s: set<Block>, t: set<Block>)
    ensures Bytes(s + t) == Bytes(s) + Bytes(t)
  {
    forall p ensures p in Bytes(s + t) <==> p in Bytes(s) + Bytes(t) {
      if b :| b in s && b.Covers(p) { assert b in s + t; }
      if b :| b in t && b.Covers(p) { assert b in s + t; }
    }
  }

  lemma {:induction false} BytesSingle(b: Block)
    ensures Bytes({b}) == BytesOf(b)
  {
    forall p ensures p in Bytes({b}) <==> b.Covers(p) {
      if b.Covers(p) { assert b in {b}; }
    }
  }

  lemma {:induction false} BytesApart(s: set<Block>, b: Block)
    requires forall x :: x in s ==> Disjoint(x, b)
    ensures Bytes(s) !! BytesOf(b)
  {
    forall p | p in Bytes(s) ensures p !in BytesOf(b) {
      var x :| x in s && x.Covers(p);
    }
  }

  lemma {:induction false} UnionSize<T>(a: set<T>, b: set<T>)
    requires a !! b
    ensures |a + b| == |a| + |b| && (a + b) - b == a
  {
  }

  /** Adding a disjoint block adds exactly its bytes. */
  lemma {:induction false} BytesAdd(s: set<Block>, b: Block)
    requires forall x :: x in s ==> Disjoint(x, b)
    ensures Bytes(s + {b}) == Bytes(s) + BytesOf(b)
    ensures Bytes(s) !! BytesOf(b)
    ensures |Bytes(s + {b})| == |Bytes(s)| + Size(b.order)
  {
    assert Bytes(s + {b}) == Bytes(s) + BytesOf(b) by {
      BytesUnion(s, {b});
      BytesSingle(b);
    }
    BytesApart(s, b);
    UnionSize(Bytes(s), BytesOf(b));
  }

  lemma {:induction false} BytesRemove(s: set<Block>, b: Block)
    requires b in s && PairwiseDisjoint(s)
    ensures Bytes(s - {b}) == Bytes(s) - BytesOf(b)
    ensures |Bytes(s - {b})| == |Bytes(s)| - Size(b.order)
  {
    assert s - {b} + {b} == s;
    BytesAdd(s - {b}, b);
    UnionSize(Bytes(s - {b}), BytesOf(b));
  }

  /** A block covers the bytes of its two halves, no more and no fewer. */
  lemma {:induction false} HalvesOf(addr: nat, order: nat)
    ensures BytesOf(Block(addr, order + 1))
            == BytesOf(Block(addr, order)) + BytesOf(Block(addr + Size(order), order))
  {
    SizeIsPow2(order);
    IntervalSplit(addr, addr + Size(order), addr + Size(order + 1));
  }

  lemma {:induction false} BytesPair(l: Block, h: Block)
    ensures Bytes({l, h}) == BytesOf(l) + BytesOf(h)
  {
    assert {l} + {h} == {l, h};
    BytesUnion({l}, {h});
    BytesSingle(l);
    BytesSingle(h);
  }

  lemma {:induction false} HalvesBytes(s: set<Block>, addr: nat, order: nat)
    ensures Bytes(s + {Block(addr, order), Block(addr + Size(order), order)})
            == Bytes(s + {Block(addr, order + 1)})
  {
    HalvesOf(addr, order);
    BytesPair(Block(addr, order), Block(addr + Size(order), order));
    BytesSingle(Block(addr, order + 1));
    BytesUnion(s, {Block(addr, order + 1)});
    BytesUnion(s, {Block(addr, order), Block(addr + Size(order), order)});
  }

  /** A tiling stays one when a block is replaced by its two halves... */
  lemma {:induction false} SplitKeepsDisjoint(s: set<Block>, addr: nat, order: nat)
    requires PairwiseDisjoint(s + {Block(addr, order + 1)}) && Block(addr, order + 1) !in s
    ensures PairwiseDisjoint(s + {Block(addr, order), Block(addr + Size(order), order)})
    ensures Block(addr, order) !in s && Block(addr + Size(order), order) !in s
  {
    SizeIsPow2(order);
    var w, l, h := Block(addr, order + 1), Block(addr, order), Block(addr + Size(order), order);
    forall x | x in s ensures Disjoint(x, l) && Disjoint(x, h) && x != l && x != h {
      assert x in s + {w} && w in s + {w};
      assert Disjoint(x, w);
    }
  }

  /** ...and when two halves are replaced by the block that they form. */
  lemma {:induction false} MergeKeepsDisjoint(s: set<Block>, addr: nat, order: nat)
    requires PairwiseDisjoint(s + {Block(addr, order), Block(addr + Size(order), order)})
    requires Block(addr, order) !in s && Block(addr + Size(order), order) !in s
    ensures PairwiseDisjoint(s + {Block(addr, order + 1)}) && Block(addr, order + 1) !in s
  {
    SizeIsPow2(order);
    var w, l, h := Block(addr, order + 1), Block(addr, order), Block(addr + Size(order), order);
    forall x | x in s ensures Disjoint(x, w) && x != w {
      assert x in s + {l, h} && l in s + {l, h} && h in s + {l, h};
      assert Disjoint(x, l) && Disjoint(x, h);
    }
  }
}
