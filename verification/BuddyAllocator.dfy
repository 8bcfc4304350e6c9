/** The allocator object: list heads, the `next` pointers inside the managed memory, and the
    counters, updated in place. Every method is proved against the functions of `BuddyOps` and
    `BuddyRegion`. */
module BuddyAllocator {
  import opened Bits
  import opened Blocks
  import opened Wrappers
  import opened BuddySpec
  import opened FreeListMemory
  import Ops = BuddyOps
  import Region = BuddyRegion

  /** The cell that the walk of `order_remove` points at. */
  datatype Cell = Head | Next(node: nat)

  class Allocator {
    const orders: array<nat>
    var next: map<nat, nat>
    var free: usize
    var used: usize
    var total: usize

    ghost var lists: FreeLists
    ghost var live: set<Block>
    ghost var region: set<int>

    ghost function Abstract(): State
      reads this
    {
      State(lists, free, used, total)
    }

    /** The lists are threaded through memory. */
    ghost predicate Linked()
      reads this, orders
    {
      Threads(orders[..], next, lists)
    }

    ghost predicate Valid()
      reads this, orders
    {
      Linked() && Tiles(Abstract(), live, region)
    }

    constructor ()
      ensures Valid() && fresh(orders)
      ensures live == {} && region == {} && AllAligned(Abstract(), live)
      ensures Abstract() == State(seq(MAX_ORDER, (_: int) => []), 0, 0, 0)
    {
      orders := new nat[MAX_ORDER](_ => 0);
      next := map[];
      free, used, total := 0, 0, 0;
      lists := seq(MAX_ORDER, (_: int) => []);
      live, region := {}, {};
      new;
      assert FreeSet(lists) == {};
      assert Bytes({}) == {};
    }

    method OrderPush(order: nat, ptr: nat)
      requires Linked() && order < MAX_ORDER && ptr != 0 && Unlisted(lists, ptr)
      modifies this`next, this`lists, orders
      ensures Linked()
      ensures lists == old(lists)[order := [ptr] + old(lists)[order]]
    {
      ThreadsPush(orders[..], next, lists, order, ptr);
      var head := orders[order];
      next := next[ptr := head];
      orders[order] := ptr;
      lists := lists[order := [ptr] + lists[order]];
      assert orders[..] == old(orders[..])[order := ptr];
    }

    method OrderPop(order: nat) returns (r: Option<nat>)
      requires Linked() && order < MAX_ORDER
      modifies this`lists, orders
      ensures Linked()
      ensures r.None? <==> old(lists)[order] == []
      ensures r.None? ==> lists == old(lists)
      ensures r.Some? ==> r.value == old(lists)[order][0]
                          && lists == old(lists)[order := RemoveFirst(old(lists)[order], r.value)]
    {
      assert Chain(orders[..][order], next, lists[order]);
      var head := orders[order];
      if head == 0 {
        return None;
      }
      ThreadsUnlink(orders[..], next, lists, order, 0);
      orders[order] := next[head];
      lists := lists[order := RemoveFirst(lists[order], head)];
      assert orders[..] == old(orders[..])[order := next[head]];
      return Some(head);
    }

    /** `*cur = (*ptr).next`: the cell before position `i` skips the node there. */
    method Unlink(order: nat, cur: Cell, ptr: nat, ghost i: nat)
      requires Linked() && order < MAX_ORDER && i < |lists[order]| && ptr == lists[order][i]
      requires cur == if i == 0 then Head else Next(lists[order][i - 1])
      modifies this`next, this`lists, orders
      ensures Linked()
      ensures lists == old(lists)[order := RemoveFirst(old(lists)[order], ptr)]
    {
      hide Threads, RemoveFirst;
      HeadAt(orders[..], next, lists, order);
      ThreadsUnlink(orders[..], next, lists, order, i);
      var after := next[ptr];
      match cur {
        case Head => orders[order] := after;
        case Next(node) => next := next[node := after];
      }
      lists := lists[order := RemoveFirst(lists[order], ptr)];
      assert i == 0 ==> orders[..] == old(orders[..])[order := after];
    }

    method OrderRemove(order: nat, toRemove: nat) returns (found: bool)
      requires Linked()
      modifies this`next, this`lists, orders
      ensures Linked()
      ensures found <==> order < MAX_ORDER && toRemove in old(lists)[order]
      ensures !found ==> lists == old(lists)
      ensures found ==> lists == old(lists)[order := RemoveFirst(old(lists)[order], toRemove)]
    {
      if order >= MAX_ORDER {
        return false;
      }
      hide Threads, RemoveFirst;
      ghost var l, i := lists[order], 0;
      HeadAt(orders[..], next, lists, order);
      var cur := Head;
      var ptr := orders[order];
      while ptr != 0
        invariant Linked() && lists == old(lists) && orders[..] == old(orders[..])
        invariant 0 <= i <= |l|
        invariant cur == if i == 0 then Head else Next(l[i - 1])
        invariant ptr == At(l, i)
        invariant forall j :: 0 <= j < i ==> l[j] != toRemove
        decreases |l| - i
      {
        NodeAt(orders[..], next, lists, order, i);
        if ptr == toRemove {
          Unlink(order, cur, ptr, i);
          return true;
        }
        cur := Next(ptr);
        ptr := next[ptr];
        i := i + 1;
      }
      NodesNonNull(orders[..], next, lists, order);
      return false;
    }

    /** `alloc_stats`: neither subtraction nor addition leaves the machine word. */
    method CountAlloc(size: usize)
      requires size <= free && used + size < WORD
      modifies this`free, this`used
      ensures free == old(free) - size && used == old(used) + size
    {
      free := free - size;
      used := used + size;
    }

    method CountFree(size: usize)
      requires size <= used && free + size < WORD
      modifies this`free, this`used
      ensures free == old(free) + size && used == old(used) - size
    {
      free := free + size;
      used := used - size;
    }

    /** `allocate`, recursive as in the source. */
    method Allocate(order: nat) returns (r: Result<nat>)
      requires Valid() && Ops.SplitsInside(lists, order)
      modifies this, orders
      ensures Valid() && region == old(region)
      ensures (Abstract(), r) == Ops.Allocate(old(Abstract()), order)
      ensures r.Ok? ==> Block(r.value, order) !in old(live) && live == old(live) + {Block(r.value, order)}
      ensures r.Err? ==> live == old(live) || exists j :: LostBlock(old(live), live, order, j)
      ensures old(AllAligned(Abstract(), live)) ==>
                AllAligned(Abstract(), live) && (r.Err? ==> live == old(live) && Abstract() == old(Abstract()))
      decreases if order < MAX_ORDER then MAX_ORDER - order else 0
    {
      hide Tiles, AllAligned, Threads, Size, Ops.Allocate, Ops.SplitsInside, BuddyOf;
      ghost var s0 := Abstract();
      Ops.AllocateUnfolds(s0, order);
      if order >= MAX_ORDER {
        return Err(OrderTooLarge);
      }
      CountersAddUp(s0, live, region);
      AlignedOutcome(s0, live, region, order);
      Ops.AllocateKeeps(s0, live, region, order);
      var block := OrderPop(order);
      if block.Some? {
        FreeSize(s0, live, region, order, block.value);
        CountAlloc(Size(order));
        live := live + {Block(block.value, order)};
        return Ok(block.value);
      }
      Ops.SplitsInsideUp(s0.lists, order);
      r := Allocate(order + 1);
      if r.Err? {
        LostFurther(old(live), live, order);
        return Err(NoMemoryAvailable);
      }
      ghost var s1 := Abstract();
      Ops.BuddyAfterSplit(s0, order);
      var buddy := BuddyOf(r.value, order);
      if buddy == 0 {
        NullBuddy(r.value, order);
        assert LostBlock(old(live), live, order, order);
        return Err(NullPointer);
      }
      SplitFacts(s1, old(live), region, r.value, order);
      OrderPush(order, buddy);
      CountFree(Size(order));
      live := old(live) + {Block(r.value, order)};
    }

    /** `deallocate`, with the in-place merges of the source. */
    method Deallocate(block: nat, order: nat) returns (r: Result<()>)
      requires Valid() && AllAligned(Abstract(), live)
      requires order < MAX_ORDER && Block(block, order) in live
      modifies this, orders
      ensures Valid() && AllAligned(Abstract(), live)
      ensures (Abstract(), r) == Ops.Deallocate(old(Abstract()), block, order)
      ensures region == old(region)
      ensures r.Ok? ==> live == old(live) - {Block(block, order)}
      ensures r.Err? <==> Ops.MergesIntoNull(old(lists), block, order)
      ensures r.Err? ==> r.error == NullPointer
      ensures r.Err? ==>
                (exists m :: order <= m < MAX_ORDER
                             && Size(m) <= block && block + Size(order) <= 2 * Size(m)
                             && live == old(live) - {Block(block, order)} + {Block(Size(m), m)})
      decreases MAX_ORDER - order
    {
      hide Tiles, AllAligned, Threads, Size, BuddyOf, RemoveFirst, IsAligned, Ops.MergesIntoNull;
      ghost var s0, x := Abstract(), Block(block, order);
      Ops.LiveBuddy(s0, live, region, block, order);
      Ops.DeallocateFailsExactly(s0, block, order);
      var buddy := BuddyOf(block, order);
      if buddy == 0 {
        assert live - {x} + {Block(Size(order), order)} == live;
        return Err(NullPointer);
      }
      CountersAddUp(s0, live, region);
      TilesSeparate(s0, live, region);
      TopSize(order);
      var found := OrderRemove(order, buddy);
      if found {
        assert InLists(s0.lists, Block(buddy, order));
        CountAlloc(Size(order));
        var newBlock := if buddy < block then buddy else block;
        if order + 1 >= MAX_ORDER {
          Ops.TopStep(s0, live, region, block, order);
          TakeKeeps(s0, live, region, Block(buddy, order));
          TopUnlisted(Abstract(), live, region, buddy, block, order);
          OrderPush(order, buddy);
          OrderPush(order, block);
          CountFree(Size(order) * 2);
          live := live - {x};
          return Ok(());
        } else {
          Ops.MergeStep(s0, live, region, block, order);
          ghost var w := Block(newBlock, order + 1);
          live := live - {x} + {w};
          r := Deallocate(newBlock, order + 1);
          assert old(live) - {x} + {w} - {w} == old(live) - {x};
        }
      } else {
        PushKeeps(s0, live, region, x);
        OrderPush(order, block);
        CountFree(Size(order));
        live := live - {x};
        return Ok(());
      }
    }

    /** `add_region`: align the start, then carve blocks off until no page is left. */
    method AddRegion(start: nat, end: nat) returns (r: Result<nat>)
      requires Valid()
      requires 0 < start && start + PAGE_SIZE <= WORD && end < WORD
      requires Interval(AlignUp(start, PAGE_SIZE), end) !! region
      modifies this, orders
      ensures (Abstract(), r) == Region.AddRegion(old(Abstract()), start, end)
      ensures Valid() && live == old(live)
      ensures var first := AlignUp(start, PAGE_SIZE);
              match r
              case Ok(sum) => sum == Region.WholePages(first, end) && region == old(region) + Interval(first, first + sum)
              case Err(e) => e == RegionTooSmall || (e == NullPointer && first <= 0x80_0000)
      ensures r == Err(RegionTooSmall) <==> end < AlignUp(start, PAGE_SIZE) + PAGE_SIZE
      ensures r == Err(NullPointer) <==> Region.MeetsNullBuddy(AlignUp(start, PAGE_SIZE), end)
      ensures r == Err(RegionTooSmall) ==> region == old(region)
    {
      hide Tiles, Threads, Size, Region.RegionOrder, AlignUp, Interval, Region.AddFrom, Region.AddBlock;
      hide Region.WholePages, BytesOf, Region.MeetsNullBuddy;
      AlignUpPage(start);
      Region.AddRegionFailsExactly(Abstract(), start, end);
      var first := AlignUp(start, PAGE_SIZE);
      if end < first + PAGE_SIZE {
        return Err(RegionTooSmall);
      }
      RegionOutcome(Abstract(), live, region, first, end);
      var cur, sum := first, 0;
      NothingYet(region, first);
      while end >= cur + PAGE_SIZE
        invariant first <= cur == first + sum <= end
        invariant Valid() && live == old(live)
        invariant region == old(region) + Interval(first, cur)
        invariant Region.AddFrom(Abstract(), cur, end, sum) == Region.AddFrom(old(Abstract()), first, end, 0)
        decreases end - cur
      {
        Region.AddFromUnfolds(Abstract(), cur, end, sum);
        RestApart(old(region), first, cur, end);
        var order := AddSingleRegion(cur, end);
        if order.Err? {
          return Err(order.error);
        }
        Grown(old(region), first, Block(cur, order.value));
        cur := cur + Size(order.value);
        sum := sum + Size(order.value);
      }
      Region.AddFromUnfolds(Abstract(), cur, end, sum);
      return Ok(sum);
    }

    /** `add_single_region`: find the order, push the block, count it. */
    method AddSingleRegion(start: nat, end: nat) returns (r: Result<nat>)
      requires Valid() && 0 < start && start + PAGE_SIZE <= end < WORD
      requires Interval(start, end) !! region
      modifies this, orders
      ensures r == Region.RegionOrder(start, end, 0)
      ensures Valid() && live == old(live)
      ensures r.Err? ==> Abstract() == old(Abstract()) && region == old(region)
      ensures r.Ok? ==>
                && r.value < MAX_ORDER && start + Size(r.value) <= end
                && Abstract() == Region.AddBlock(old(Abstract()), r.value, start)
                && region == old(region) + BytesOf(Block(start, r.value))
    {
      hide Tiles, Threads, Size, Interval, BytesOf, Region.RegionOrder;
      r := FindOrder(start, end);
      if r.Err? {
        return;
      }
      var order := r.value;
      ghost var b := Block(start, order);
      FreshBlock(Abstract(), live, region, b, end);
      OrderPush(order, start);
      total := total + Size(order);
      free := free + Size(order);
      region := region + BytesOf(b);
    }
  }

  /** The search loop of `add_single_region`. */
  method FindOrder(start: nat, end: nat) returns (r: Result<nat>)
    requires 0 < start && start + PAGE_SIZE <= end < WORD
    ensures r == Region.RegionOrder(start, end, 0)
    ensures r.Ok? ==> r.value < MAX_ORDER && start + Size(r.value) <= end
  {
    hide Size, BuddyOf;
    Region.SmallSizes();
    var order := 0;
    while order < MAX_ORDER - 1
      invariant order < MAX_ORDER && start + Size(order) <= end
      invariant Region.RegionOrder(start, end, order) == Region.RegionOrder(start, end, 0)
      decreases MAX_ORDER - order
    {
      var size := Size(order + 1);
      if start + size > end {
        return Ok(order);
      }
      var buddy := BuddyOf(start, order + 1);
      if buddy == 0 {
        return Err(NullPointer);
      }
      if start <= buddy && buddy <= end {
        order := order + 1;
      } else {
        return Ok(order);
      }
    }
    return Ok(order);
  }

  // ----- Facts the methods need about values -----

  /** A failed allocation lost the block that it could not split further. */
  ghost predicate LostBlock(live: set<Block>, live': set<Block>, order: nat, j: int) {
    order <= j && live' == live + {Block(Size(j), j + 1)}
  }

  lemma {:induction false} LostFurther(live: set<Block>, live': set<Block>, order: nat)
    ensures var up := order + 1;
            (exists j :: LostBlock(live, live', up, j)) ==> exists j :: LostBlock(live, live', order, j)
  {
    var up := order + 1;
    if j :| LostBlock(live, live', up, j) { assert LostBlock(live, live', order, j); }
  }

  lemma {:induction false} AlignedOutcome(s: State, live: set<Block>, region: set<int>, order: nat)
    requires order < MAX_ORDER && Tiles(s, live, region)
    ensures AllAligned(s, live) && Ops.Allocate(s, order).1.Err? ==> Ops.Allocate(s, order) == (s, Err(NoMemoryAvailable))
  {
    hide Tiles, AllAligned, Ops.Allocate, Ops.Split;
    if AllAligned(s, live) { Ops.AlignedAllocates(s, live, region, order); }
  }

  lemma {:induction false} FreeSize(s: State, live: set<Block>, region: set<int>, order: nat, addr: nat)
    requires order < MAX_ORDER && Tiles(s, live, region) && addr in s.lists[order]
    ensures Size(order) <= s.free && s.used + Size(order) < WORD
  {
    hide Tiles, Size;
    CountersAddUp(s, live, region);
    assert InLists(s.lists, Block(addr, order));
  }

  /** After the recursive allocation: the upper half is on no list, and freeing it keeps the
      counters in range. */
  lemma {:induction false} SplitFacts(s: State, live: set<Block>, region: set<int>, addr: nat, order: nat)
    requires order + 1 < MAX_ORDER && Block(addr, order + 1) !in live
    requires Tiles(s, live + {Block(addr, order + 1)}, region)
    ensures Unlisted(s.lists, addr + Size(order))
    ensures Size(order) <= s.used && s.free + Size(order) < WORD
  {
    hide Tiles, AllAligned, Size;
    SplitLiveKeeps(s, live, region, addr, order);
    var h := Block(addr + Size(order), order);
    var live' := live + {Block(addr, order), h};
    TilesSeparate(s, live', region);
    assert h in live';
    CountersAddUp(s, live', region);
  }

  lemma {:induction false} TopUnlisted(s: State, live: set<Block>, region: set<int>, buddy: nat, block: nat, order: nat)
    requires order < MAX_ORDER && buddy != block
    requires Tiles(s, live + {Block(buddy, order)}, region) && Block(block, order) in live
    ensures Unlisted(s.lists, buddy) && Unlisted(s.lists, block) && 0 < buddy && 0 < block
    ensures Size(order) * 2 <= s.used && s.free + Size(order) * 2 < WORD
  {
    hide Tiles, Size;
    var live' := live + {Block(buddy, order)};
    TilesSeparate(s, live', region);
    assert Block(buddy, order) in live' && Block(block, order) in live';
    CountersAddUp(s, live', region);
    PushKeeps(s, live', region, Block(buddy, order));
    var s1 := BuddySpec.CountFree(Push(s, order, buddy), Size(order));
    CountersAddUp(s1, live' - {Block(buddy, order)}, region);
    assert Block(block, order) in live' - {Block(buddy, order)};
  }

  lemma {:induction false} FreshBlock(s: State, live: set<Block>, region: set<int>, b: Block, end: nat)
    requires b.order < MAX_ORDER && 0 < b.addr && b.End() <= end < WORD
    requires Tiles(s, live, region) && Interval(b.addr, end) !! region
    ensures Tiles(Region.AddBlock(s, b.order, b.addr), live, region + BytesOf(b))
    ensures Unlisted(s.lists, b.addr)
    ensures 0 <= s.total + Size(b.order) < WORD && 0 <= s.free + Size(b.order) < WORD
  {
    hide Tiles, Size, Interval, BytesOf;
    Region.RestApart(region, b, end);
    Region.AddBlockKeeps(s, live, region, b);
    FreshUnlisted(s, live, region, b);
    CountersAddUp(Region.AddBlock(s, b.order, b.addr), live, region + BytesOf(b));
  }

  lemma {:induction false} FreshUnlisted(s: State, live: set<Block>, region: set<int>, b: Block)
    requires Tiles(s, live, region) && BytesOf(b) !! region
    ensures Unlisted(s.lists, b.addr)
  {
    hide ListsOk, Size, PairwiseDisjoint;
    forall o | 0 <= o < MAX_ORDER ensures b.addr !in s.lists[o] {
      var x := Block(b.addr, o);
      assert x.Covers(b.addr) && b.addr in BytesOf(b);
      assert x in FreeSet(s.lists) + live <==> x in FreeSet(s.lists) || x in live;
    }
  }

  lemma {:induction false} RegionOutcome(s: State, live: set<Block>, region: set<int>, first: nat, end: nat)
    requires Tiles(s, live, region) && Interval(first, end) !! region && 0 < first && end < WORD
    ensures match Region.AddFrom(s, first, end, 0).1
            case Ok(sum) => sum == Region.WholePages(first, end)
            case Err(e) => e == NullPointer && first <= 0x80_0000
  {
    hide Tiles, Interval, Region.AddFrom, Region.WholePages;
    Region.AddFromKeeps(s, live, region, first, end, 0);
  }

  lemma {:induction false} NothingYet(region: set<int>, first: nat)
    ensures region + Interval(first, first) == region
  {
  }

  lemma {:induction false} Grown(region: set<int>, first: nat, b: Block)
    requires first <= b.addr
    ensures region + Interval(first, b.addr) + BytesOf(b) == region + Interval(first, b.End())
  {
    IntervalSplit(first, b.addr, b.End());
  }

  lemma {:induction false} RestApart(region: set<int>, first: nat, cur: nat, end: nat)
    requires Interval(first, end) !! region && first <= cur <= end
    ensures Interval(cur, end) !! region + Interval(first, cur)
  {
  }
}
