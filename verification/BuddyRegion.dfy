/** `add_region`: which blocks it carves a region into, that they tile it, and exactly when
    they are naturally aligned. */
module BuddyRegion {
  import opened Bits
  import opened Blocks
  import opened BuddySpec

  /** The loop of `add_single_region`. It moves to the next order while the next size fits and
      the XOR with that next size stays inside the range, so it tests the bits of the start
      address one position too high. */
  function RegionOrder(start: nat, end: nat, order: nat): (r: Result<nat>)
    requires order < MAX_ORDER
    decreases MAX_ORDER - order
  {
    if order >= MAX_ORDER - 1 || start + Size(order + 1) > end then Ok(order)
    else
      var buddy := BuddyOf(start, order + 1);
      if buddy == 0 then Err(NullPointer)
      else if start <= buddy <= end then RegionOrder(start, end, order + 1)
      else Ok(order)
  }

  /** Push one new block and count it. */
  function AddBlock(s: State, order: nat, addr: nat): State
    requires order < MAX_ORDER
  {
    Push(s, order, addr).(free := s.free + Size(order), total := s.total + Size(order))
  }

  /** The chosen block fits, and the only error is the null buddy. */
  lemma {:induction false} RegionOrderFits(start: nat, end: nat, order: nat)
    requires order < MAX_ORDER && start + Size(order) <= end
    ensures var r := RegionOrder(start, end, order);
            match r
            case Ok(o) => order <= o < MAX_ORDER && start + Size(o) <= end
            case Err(e) => e == NullPointer && start <= 0x80_0000
    decreases MAX_ORDER - order
  {
    hide BuddyOf, Size;
    if order < MAX_ORDER - 1 && start + Size(order + 1) <= end {
      var buddy := BuddyOf(start, order + 1);
      if buddy == 0 {
        NullBuddy(start, order + 1);
        TopSize(order + 1);
      } else if start <= buddy <= end {
        RegionOrderFits(start, end, order + 1);
      }
    }
  }

  /** The loop of `add_region`. */
  function AddFrom(s: State, start: nat, end: nat, total: nat): (State, Result<nat>)
    decreases end - start
  {
    if end < start + PAGE_SIZE then (s, Ok(total))
    else
      RegionOrderFits(start, end, 0);
      match RegionOrder(start, end, 0)
      case Err(e) => (s, Err(e))
      case Ok(o) => AddFrom(AddBlock(s, o, start), start + Size(o), end, total + Size(o))
  }

  function AddRegion(s: State, start: nat, end: nat): (State, Result<nat>)
    requires start + PAGE_SIZE <= WORD
  {
    var first := AlignUp(start, PAGE_SIZE);
    if end < first + PAGE_SIZE then (s, Err(RegionTooSmall)) else AddFrom(s, first, end, 0)
  }

  // ----- Tiling -----

  /** Adding a block of fresh bytes extends the tiling by those bytes. */
  lemma {:induction false} AddBlockKeeps(s: State, live: set<Block>, region: set<int>, b: Block)
    requires b.order < MAX_ORDER && 0 < b.addr && b.End() <= WORD
    requires Tiles(s, live, region) && BytesOf(b) !! region
    ensures Tiles(AddBlock(s, b.order, b.addr), live, region + BytesOf(b))
    ensures FreeSet(AddBlock(s, b.order, b.addr).lists) == FreeSet(s.lists) + {b}
  {
    hide Bytes, Partition, ListsOk, FreeSet, Size;
    FreshBlockApart(FreeSet(s.lists), live, region, b);
    FreeSetPush(s.lists, b);
    UnionSize(region, BytesOf(b));
  }

  lemma {:induction false} FreshBlockApart(free: set<Block>, live: set<Block>, region: set<int>, b: Block)
    requires Partition(free, live, region) && BytesOf(b) !! region
    ensures b !in free && Partition(free + {b}, live, region + BytesOf(b))
    ensures |Bytes(free + {b})| == |Bytes(free)| + Size(b.order)
  {
    hide Size, BytesOf, Bytes, Disjoint;
    forall x | x in free + live ensures x != b && Disjoint(x, b) && Disjoint(b, x) {
      FreshDisjoint(free + live, x, b);
    }
    assert PairwiseDisjoint((free + live) + {b});
    assert (free + {b}) + live == (free + live) + {b};
    assert |Bytes(free + {b})| == |Bytes(free)| + Size(b.order) by { BytesAdd(free, b); }
    assert Bytes((free + live) + {b}) == region + BytesOf(b) by { BytesAdd(free + live, b); }
  }

  lemma {:induction false} FreshDisjoint(all: set<Block>, x: Block, b: Block)
    requires x in all && BytesOf(b) !! Bytes(all)
    ensures x != b && Disjoint(x, b) && Disjoint(b, x)
  {
    hide Size, Interval, Bytes;
    var p := if x.addr < b.addr then b.addr else x.addr;
    assert p in BytesOf(b) <==> p < b.End();
    assert x.Covers(p) <==> p < x.End();
  }

  /** The bytes of the whole pages between `start` and `end`. */
  function WholePages(start: nat, end: nat): nat {
    if end < start then 0 else (end - start) / PAGE_SIZE * PAGE_SIZE
  }

  /** Success: the whole pages of the range were added, no more and no fewer. The one error
      leaves a tiling of the part that was already added, and needs a range that starts at or
      below 8 MiB. */
  ghost predicate Added(s: State, r: Result<nat>, live: set<Block>, region: set<int>,
                        start: nat, end: nat, total: nat) {
    match r
    case Ok(t) =>
      && t == total + WholePages(start, end)
      && Tiles(s, live, region + Interval(start, start + WholePages(start, end)))
    case Err(e) =>
      && e == NullPointer && start <= 0x80_0000
      && exists mid :: start <= mid <= end && Tiles(s, live, region + Interval(start, mid))
  }

  /** `add_region` pushes blocks that tile exactly the whole pages of the range. */
  lemma {:induction false} AddFromKeeps(
      s: State, live: set<Block>, region: set<int>, start: nat, end: nat, total: nat)
    requires Tiles(s, live, region) && Interval(start, end) !! region
    requires 0 < start && end < WORD
    ensures var (s', r) := AddFrom(s, start, end, total);
            Added(s', r, live, region, start, end, total)
    decreases end - start
  {
    hide Tiles, Size, RegionOrder, AddBlock, Added, WholePages, AddFrom, Interval, BytesOf;
    AddFromUnfolds(s, start, end, total);
    if end < start + PAGE_SIZE {
      AddedNothing(s, live, region, start, end, total);
    } else {
      match RegionOrder(start, end, 0) {
        case Err(_) =>
          AddedBeforeError(s, live, region, start, end, total);
        case Ok(o) =>
          var b := Block(start, o);
          RestApart(region, b, end);
          AddBlockKeeps(s, live, region, b);
          AddFromKeeps(AddBlock(s, o, start), live, region + BytesOf(b), b.End(), end, total + Size(o));
          var (s', r) := AddFrom(s, start, end, total);
          AddedJoin(s', r, live, region, b, end, total);
      }
    }
  }

  lemma {:induction false} AddFromUnfolds(s: State, start: nat, end: nat, total: nat)
    ensures end < start + PAGE_SIZE ==> AddFrom(s, start, end, total) == (s, Ok(total))
    ensures start + PAGE_SIZE <= end ==>
              match RegionOrder(start, end, 0)
              case Err(e) => AddFrom(s, start, end, total) == (s, Err(e)) && e == NullPointer && start <= 0x80_0000
              case Ok(o) =>
                && o < MAX_ORDER && start + Size(o) <= end
                && AddFrom(s, start, end, total)
                   == AddFrom(AddBlock(s, o, start), start + Size(o), end, total + Size(o))
  {
    hide Size, RegionOrder, AddBlock;
    if start + PAGE_SIZE <= end {
      SmallSizes();
      RegionOrderFits(start, end, 0);
    }
  }

  lemma {:induction false} AddedNothing(
      s: State, live: set<Block>, region: set<int>, start: nat, end: nat, total: nat)
    requires Tiles(s, live, region) && end < start + PAGE_SIZE
    ensures Added(s, Ok(total), live, region, start, end, total)
  {
    hide Tiles;
    assert region + Interval(start, start) == region;
  }

  lemma {:induction false} AddedBeforeError(
      s: State, live: set<Block>, region: set<int>, start: nat, end: nat, total: nat)
    requires Tiles(s, live, region) && start <= 0x80_0000 && start <= end
    ensures Added(s, Err(NullPointer), live, region, start, end, total)
  {
    hide Tiles;
    assert region + Interval(start, start) == region;
  }

  lemma {:induction false} AddedJoin(
      s: State, r: Result<nat>, live: set<Block>, region: set<int>, b: Block, end: nat, total: nat)
    requires b.End() <= end
    requires Added(s, r, live, region + BytesOf(b), b.End(), end, total + Size(b.order))
    ensures Added(s, r, live, region, b.addr, end, total)
  {
    hide Tiles, Size, Interval;
    PagesAfter(b.addr, end, b.order);
    Joined(region, b.addr, b.End());
  }

  lemma {:induction false} Joined(region: set<int>, lo: int, mid: int)
    requires lo <= mid
    ensures forall hi :: mid <= hi ==>
              region + Interval(lo, mid) + Interval(mid, hi) == region + Interval(lo, hi)
  {
    forall hi | mid <= hi
      ensures region + Interval(lo, mid) + Interval(mid, hi) == region + Interval(lo, hi)
    {
      IntervalSplit(lo, mid, hi);
    }
  }

  /** The rest of the range stays clear of the region once a block has been added. */
  lemma {:induction false} RestApart(region: set<int>, b: Block, end: nat)
    requires Interval(b.addr, end) !! region && b.End() <= end
    ensures BytesOf(b) !! region && Interval(b.End(), end) !! region + BytesOf(b)
  {
    hide Size;
  }

  lemma {:induction false} PagesAfter(start: nat, end: nat, o: nat)
    requires start + Size(o) <= end
    ensures (end - start) / PAGE_SIZE * PAGE_SIZE
         == Size(o) + (end - (start + Size(o))) / PAGE_SIZE * PAGE_SIZE
  {
    var n, x := Pow2(o), end - start;
    assert Size(o) == n * PAGE_SIZE;
    assert (x - n * PAGE_SIZE) / PAGE_SIZE == x / PAGE_SIZE - n;
  }

  // ----- Alignment -----

  /** Bit 12 of the start is never tested: the loop only establishes that the start is at most
      one page past a boundary of the next order. */
  lemma {:induction false} RegionOrderTests(start: nat, end: nat, order: nat)
    requires order < MAX_ORDER && start % PAGE_SIZE == 0
    requires start % Size(order + 1) == 0 || start % Size(order + 1) == PAGE_SIZE
    ensures var r := RegionOrder(start, end, order);
            r.Ok? ==> order <= r.value < MAX_ORDER
                      && (start % Size(r.value + 1) == 0 || start % Size(r.value + 1) == PAGE_SIZE)
    decreases MAX_ORDER - order
  {
    hide BuddyOf, Size;
    if order < MAX_ORDER - 1 && start + Size(order + 1) <= end {
      var buddy := BuddyOf(start, order + 1);
      if buddy != 0 && start <= buddy <= end {
        BitClear(start, order + 1);
        RegionOrderTests(start, end, order + 1);
      }
    }
  }

  /** Order `k` fits into the range and bit `k` of the start's page number is clear. */
  predicate Grows(start: nat, end: nat, k: nat) {
    start + Size(k) <= end && start / Size(k) % 2 == 0
  }

  /** The order chosen is the largest that can be reached by growing one order at a time. */
  lemma {:induction false} RegionOrderIsMaximal(start: nat, end: nat, order: nat)
    requires order < MAX_ORDER && RegionOrder(start, end, order).Ok?
    ensures var o := RegionOrder(start, end, order).value;
            && order <= o < MAX_ORDER
            && (forall k :: order < k <= o ==> Grows(start, end, k))
            && (o + 1 < MAX_ORDER ==> !Grows(start, end, o + 1))
    decreases MAX_ORDER - order
  {
    hide BuddyOf, Size;
    if order < MAX_ORDER - 1 && start + Size(order + 1) <= end {
      BitClear(start, order + 1);
      var buddy := BuddyOf(start, order + 1);
      if start <= buddy <= end {
        RegionOrderIsMaximal(start, end, order + 1);
      }
    }
  }

  // ----- The null buddy -----

  /** The start is the size of a larger order, and that order fits. */
  predicate StartsAtSize(start: nat, end: nat, k: int) {
    0 < k < MAX_ORDER && start == Size(k) && start + Size(k) <= end
  }

  lemma {:induction false} RegionOrderFails(start: nat, end: nat, order: nat)
    requires order < MAX_ORDER
    ensures RegionOrder(start, end, order).Err? <==> exists k :: k > order && StartsAtSize(start, end, k)
    decreases MAX_ORDER - order
  {
    hide BuddyOf, Size;
    forall k | k > order && StartsAtSize(start, end, k) ensures start + Size(order + 1) <= end {
      SizeMonotone(order + 1, k);
    }
    if order < MAX_ORDER - 1 && start + Size(order + 1) <= end {
      var buddy := BuddyOf(start, order + 1);
      NullBuddy(start, order + 1);
      if buddy == 0 {
        assert StartsAtSize(start, end, order + 1);
      } else if start <= buddy <= end {
        RegionOrderFails(start, end, order + 1);
      } else {
        forall k | k > order && StartsAtSize(start, end, k) ensures false {
          SizeHasClearBits(k, order + 1);
        }
      }
    }
  }

  lemma {:induction false} SizeHasClearBits(k: nat, order: nat)
    requires order <= k
    ensures order < k ==> BuddyOf(Size(k), order) == Size(k) + Size(order) <= Size(k) + Size(k)
  {
    hide Size, BuddyOf;
    if order < k {
      SizeMonotone(order, k);
      MultipleOf(1, Size(k));
      ClearBits(Size(k), order, order, k);
    }
  }

  /** Some order starts at its own size inside the range, and fits. */
  predicate HoldsSize(start: nat, end: nat, k: int) {
    0 < k < MAX_ORDER && start <= Size(k) && 2 * Size(k) <= end
  }

  ghost predicate HoldsSomeSize(start: nat, end: nat) {
    exists k :: HoldsSize(start, end, k)
  }

  ghost predicate MeetsNullBuddy(start: nat, end: nat) {
    start > PAGE_SIZE && HoldsSomeSize(start, end)
  }

  /** A block never straddles such a size, so the loop stops there. */
  lemma {:induction false} NoStraddling(start: nat, o: nat, k: nat)
    requires start > PAGE_SIZE && (start % Size(o + 1) == 0 || start % Size(o + 1) == PAGE_SIZE)
    requires start < Size(k)
    ensures start + Size(o) <= Size(k)
  {
    hide Size, Pow2;
    SizeIsPow2(o);
    SizeMonotone(0, o);
    SmallSizes();
    if k <= o {
      SizeMonotone(k, o);
      DivModUnique(start, Size(o + 1), 0, start);
    } else {
      SizeMultiple(o + 1, k);
      LowHalfBelow(start, Size(o), Pow2(k - o - 1));
    }
  }

  lemma {:induction false} LowHalfBelow(a: nat, half: nat, n: nat)
    requires half > 0 && a % (2 * half) <= half && a < n * (2 * half)
    ensures a + half <= n * (2 * half)
  {
    var m := 2 * half;
    assert a == a / m * m + a % m;
    LowHalfFits(a / m, a % m, half, n);
  }

  lemma {:induction false} LowHalfFits(c: nat, r: nat, half: nat, n: nat)
    requires r <= half && half > 0 && c * (2 * half) + r < n * (2 * half)
    ensures c * (2 * half) + r + half <= n * (2 * half)
  {
    MulAtLeast(n - c, 2 * half);
  }

  /** The loop of `add_region` fails exactly when it comes past such a size. */
  lemma {:induction false} AddFromFails(s: State, start: nat, end: nat, total: nat)
    requires start % PAGE_SIZE == 0 && start > PAGE_SIZE
    ensures AddFrom(s, start, end, total).1.Err? <==> HoldsSomeSize(start, end)
    decreases end - start
  {
    hide Size, RegionOrder, AddBlock, AddFrom;
    AddFromUnfolds(s, start, end, total);
    forall k | HoldsSize(start, end, k) ensures start + PAGE_SIZE <= end && (start == Size(k) ==> StartsAtSize(start, end, k)) {
      SizeMonotone(0, k);
    }
    forall k | StartsAtSize(start, end, k) ensures HoldsSize(start, end, k) {
    }
    if start + PAGE_SIZE <= end {
      SmallSizes();
      RegionOrderFails(start, end, 0);
      if RegionOrder(start, end, 0).Ok? {
        var o := RegionOrder(start, end, 0).value;
        PageMultiple(start, o);
        RegionOrderTests(start, end, 0);
        AddFromFails(AddBlock(s, o, start), start + Size(o), end, total + Size(o));
        NextHolds(start, end, o);
      }
    }
  }

  lemma {:induction false} NextHolds(start: nat, end: nat, o: nat)
    requires start > PAGE_SIZE && (start % Size(o + 1) == 0 || start % Size(o + 1) == PAGE_SIZE)
    requires forall k :: !StartsAtSize(start, end, k)
    ensures HoldsSomeSize(start, end) <==> HoldsSomeSize(start + Size(o), end)
  {
    hide Size;
    var next := start + Size(o);
    if k :| HoldsSize(start, end, k) {
      assert !StartsAtSize(start, end, k);
      NoStraddling(start, o, k);
      assert HoldsSize(next, end, k);
    }
    if k :| HoldsSize(next, end, k) {
      assert HoldsSize(start, end, k);
    }
  }

  lemma {:induction false} PageMultiple(start: nat, o: nat)
    requires start % PAGE_SIZE == 0
    ensures (start + Size(o)) % PAGE_SIZE == 0
  {
    AddMultiple(start, PAGE_SIZE, Pow2(o));
  }

  /** A region that starts at page 1 comes past no such size: its first block swallows them. */
  lemma {:induction false} PageOneSucceeds(s: State, end: nat)
    ensures AddFrom(s, PAGE_SIZE, end, 0).1.Ok?
  {
    hide Size, RegionOrder, AddBlock, AddFrom;
    AddFromUnfolds(s, PAGE_SIZE, end, 0);
    if 2 * PAGE_SIZE <= end {
      SmallSizes();
      RegionOrderFails(PAGE_SIZE, end, 0);
      forall k | StartsAtSize(PAGE_SIZE, end, k) ensures false { SizeMonotone(1, k); }
      var o := RegionOrder(PAGE_SIZE, end, 0).value;
      RegionOrderIsMaximal(PAGE_SIZE, end, 0);
      PageMultiple(PAGE_SIZE, o);
      var next := PAGE_SIZE + Size(o);
      AddFromFails(AddBlock(s, o, PAGE_SIZE), next, end, Size(o));
      forall k | HoldsSize(next, end, k) ensures false {
        if k <= o {
          SizeMonotone(k, o);
        } else {
          SizeMonotone(o + 1, k);
          SizeMonotone(1, o + 1);
          DivModUnique(PAGE_SIZE, Size(o + 1), 0, PAGE_SIZE);
        }
      }
    }
  }

  /** `add_region` fails with `NullPointer` exactly when its range, once aligned, starts above
      page 1 and holds a whole block that starts at its own size. */
  lemma {:induction false} AddRegionFailsExactly(s: State, start: nat, end: nat)
    requires 0 < start && start + PAGE_SIZE <= WORD
    ensures var first := AlignUp(start, PAGE_SIZE);
            var r := AddRegion(s, start, end).1;
            && (r == Err(RegionTooSmall) <==> end < first + PAGE_SIZE)
            && (r == Err(NullPointer) <==> MeetsNullBuddy(first, end))
            && (r.Err? ==> r.error == RegionTooSmall || r.error == NullPointer)
  {
    hide AlignUp, AddFrom, Size;
    AlignUpPage(start);
    var first := AlignUp(start, PAGE_SIZE);
    AddFromErrors(s, first, end, 0);
    if first > PAGE_SIZE {
      AddFromFails(s, first, end, 0);
      forall k | HoldsSize(first, end, k) ensures first + PAGE_SIZE <= end { SizeMonotone(0, k); }
    } else {
      PageOneSucceeds(s, end);
    }
  }

  lemma {:induction false} AddFromErrors(s: State, start: nat, end: nat, total: nat)
    ensures var r := AddFrom(s, start, end, total).1; r.Err? ==> r.error == NullPointer
    decreases end - start
  {
    hide AddFrom, AddBlock, RegionOrder, Size;
    AddFromUnfolds(s, start, end, total);
    if start + PAGE_SIZE <= end && RegionOrder(start, end, 0).Ok? {
      var o := RegionOrder(start, end, 0).value;
      AddFromErrors(AddBlock(s, o, start), start + Size(o), end, total + Size(o));
    }
  }

  // ----- Good starts -----

  /** The start is not one page past a 16 KiB boundary, or fewer than two pages remain. */
  predicate StartsWell(start: nat, end: nat) {
    start % 16384 != 4096 || end < start + 8192
  }

  lemma {:induction false} SmallSizes()
    ensures Size(0) == 4096 && Size(1) == 8192 && Size(2) == 16384
  {
  }

  /** The first two tests, spelled out. */
  lemma {:induction false} FirstOrders(start: nat, end: nat)
    requires start % PAGE_SIZE == 0 && start + PAGE_SIZE <= end
    requires RegionOrder(start, end, 0).Ok?
    ensures var o := RegionOrder(start, end, 0).value;
            (o == 0 <==> end < start + 8192 || start % 16384 >= 8192)
  {
    hide BuddyOf;
    SmallSizes();
    RegionOrderTests(start, end, 0);
    if start + 8192 <= end {
      BitClear(start, 1);
      assert (start / 8192) % 2 == 0 <==> start % 16384 < 8192;
      if start % 16384 < 8192 {
        assert RegionOrder(start, end, 0) == RegionOrder(start, end, 1);
        RegionOrderFits(start, end, 1);
      }
    }
  }

  lemma {:induction false} LargeSizesDivide(o: nat)
    requires 2 <= o
    ensures Size(o) % 16384 == 0
  {
    Pow2Sum(o - 2, 2);
    assert Size(o) == Pow2(o - 2) * 16384;
  }

  /** One iteration: the block is aligned if the start is good, and misaligned if it is not;
      a good start is followed by a good start. */
  lemma {:induction false} BlockAlignedIff(start: nat, end: nat)
    requires start % PAGE_SIZE == 0 && start + PAGE_SIZE <= end
    requires RegionOrder(start, end, 0).Ok?
    ensures var o := RegionOrder(start, end, 0).value;
            && (IsAligned(start, o) <==> StartsWell(start, end))
            && (start + Size(o)) % PAGE_SIZE == 0
            && (StartsWell(start, end) ==> StartsWell(start + Size(o), end))
  {
    hide RegionOrder;
    SmallSizes();
    RegionOrderTests(start, end, 0);
    FirstOrders(start, end);
    var o := RegionOrder(start, end, 0).value;
    hide Size, IsAligned;
    if o == 0 {
      PageStep(start, end);
    } else {
      AlignedOneUp(start, o);
      if o == 1 {
        PageStep(start, end);
      } else {
        LargeSizesDivide(o);
        LargeStep(start, Size(o));
        LowHalf(start);
      }
    }
  }

  lemma {:induction false} PageStep(start: nat, end: nat)
    requires start % PAGE_SIZE == 0
    ensures IsAligned(start, 0) && (start + 4096) % PAGE_SIZE == 0 && (start + 8192) % PAGE_SIZE == 0
    ensures start % 16384 >= 8192 ==> (start + 4096) % 16384 != 4096
    ensures start % 16384 == 0 ==> (start + 8192) % 16384 == 8192
    ensures start % 16384 == 0 || start % 16384 == 4096 || start % 16384 == 8192 || start % 16384 == 12288
  {
    SmallSizes();
  }

  lemma {:induction false} LargeStep(start: nat, size: nat)
    requires start % PAGE_SIZE == 0 && size % 16384 == 0
    ensures (start + size) % 16384 == start % 16384 && (start + size) % PAGE_SIZE == 0
  {
    var q := size / 16384;
    assert size == q * 16384 == (4 * q) * PAGE_SIZE;
    AddMultiple(start, 16384, q);
    AddMultiple(start, PAGE_SIZE, 4 * q);
  }

  lemma {:induction false} LowHalf(a: nat)
    ensures a % 16384 < 8192 ==> a % 16384 == a % 8192
  {
    DivModUnique(a, 8192, 2 * (a / 16384) + a % 16384 / 8192, a % 16384 % 8192);
  }

  lemma {:induction false} AlignedOneUp(start: nat, o: nat)
    requires o >= 1 && (start % Size(o + 1) == 0 || start % Size(o + 1) == PAGE_SIZE)
    ensures start % Size(o + 1) == 0 ==> IsAligned(start, o) && start % 8192 == 0
    ensures start % Size(o + 1) == PAGE_SIZE ==> !IsAligned(start, o) && start % 8192 == PAGE_SIZE
  {
    SizeIsPow2(o);
    SmallSizes();
    SizeMonotone(1, o);
    ModOfMultiple(start, Size(o + 1), Size(o), 2);
    Pow2Sum(o - 1, 1);
    assert Size(o + 1) == Pow2(o) * 8192;
    ModOfMultiple(start, Size(o + 1), 8192, Pow2(o));
  }

  /** `add_region` keeps every block naturally aligned exactly when the start is good. */
  lemma {:induction false} AddFromAlignedIff(
      s: State, live: set<Block>, region: set<int>, start: nat, end: nat, total: nat)
    requires Tiles(s, live, region) && Interval(start, end) !! region
    requires 0 < start && end < WORD && start % PAGE_SIZE == 0
    requires AddFrom(s, start, end, total).1.Ok?
    ensures AllAligned(AddFrom(s, start, end, total).0, live) <==>
              AllAligned(s, live) && (end < start + PAGE_SIZE || StartsWell(start, end))
    decreases end - start
  {
    hide Tiles, Size, RegionOrder, IsAligned, StartsWell, Interval, AddBlock, Aligned, FreeSet;
    if start + PAGE_SIZE <= end {
      SmallSizes();
      RegionOrderFits(start, end, 0);
      var o := RegionOrder(start, end, 0).value;
      var b := Block(start, o);
      var s1 := AddBlock(s, o, start);
      BlockAlignedIff(start, end);
      RestApart(region, b, end);
      AddBlockKeeps(s, live, region, b);
      AddFromAlignedIff(s1, live, region + BytesOf(b), b.End(), end, total + Size(o));
      AlignedWith(FreeSet(s.lists), b);
    }
  }

  /** The same for `add_region` as it is called: the first page of the region, once aligned up,
      must not be 1 modulo 4, unless it is the only whole page. */
  lemma {:induction false} AddRegionAlignedIff(s: State, live: set<Block>, region: set<int>, start: nat, end: nat)
    requires Tiles(s, live, region) && 0 < start && start + PAGE_SIZE <= WORD && end < WORD
    requires Interval(AlignUp(start, PAGE_SIZE), end) !! region
    requires AddRegion(s, start, end).1.Ok?
    ensures var page := AlignUp(start, PAGE_SIZE) / PAGE_SIZE;
            AllAligned(AddRegion(s, start, end).0, live) <==>
              AllAligned(s, live) && (page % 4 != 1 || end < page * PAGE_SIZE + 2 * PAGE_SIZE)
  {
    hide Tiles, AllAligned, AddFrom, AlignUp, Interval;
    AlignUpPage(start);
    var first := AlignUp(start, PAGE_SIZE);
    AddFromAlignedIff(s, live, region, first, end, 0);
    PageModFour(first, first / PAGE_SIZE);
  }

  lemma {:induction false} PageModFour(a: nat, p: nat)
    requires a == p * PAGE_SIZE
    ensures a % 16384 == 4096 <==> p % 4 == 1
  {
    DivModUnique(a, 16384, p / 4, p % 4 * 4096);
  }

  lemma {:induction false} AlignedWith(s: set<Block>, b: Block)
    ensures Aligned(s + {b}) <==> Aligned(s) && IsAligned(b.addr, b.order)
  {
    assert b in s + {b};
    assert forall x :: x in s ==> x in s + {b};
  }
}
