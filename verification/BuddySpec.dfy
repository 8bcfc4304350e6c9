/** The buddy allocator as a function of its twelve free lists and its byte counters, the
    invariant that ties both to the memory it was given, and the four elementary steps that
    every operation is made of. */
module BuddySpec {
  import opened Bits
  import opened Blocks

  datatype Error =
    | RegionTooSmall
    | InvalidRegion
    | OrderTooLarge
    | NoMemoryAvailable
    | NullPointer

  datatype Result<T> = Ok(value: T) | Err(error: Error)

  /** One list of block addresses per order. */
  type FreeLists = l: seq<seq<nat>> | |l| == MAX_ORDER witness seq(MAX_ORDER, (_: int) => [])

  /** The allocator's state: free lists and `AllocStats`. */
  datatype State = State(lists: FreeLists, free: int, used: int, total: int)

  // ----- Free lists as sets of blocks -----

  ghost predicate InLists(lists: FreeLists, b: Block) {
    b.order < MAX_ORDER && b.addr in lists[b.order]
  }

  ghost function BlocksOf(s: seq<nat>, order: nat): (r: set<Block>)
    ensures forall b :: b in r <==> b.order == order && b.addr in s
  {
    if s == [] then {} else BlocksOf(s[1..], order) + {Block(s[0], order)}
  }

  ghost function FreeBelow(lists: FreeLists, n: nat): (r: set<Block>)
    requires n <= MAX_ORDER
    ensures forall b :: b in r <==> b.order < n && InLists(lists, b)
  {
    if n == 0 then {} else FreeBelow(lists, n - 1) + BlocksOf(lists[n - 1], n - 1)
  }

  /** The free blocks. */
  ghost function FreeSet(lists: FreeLists): (r: set<Block>)
    ensures forall b :: b in r <==> InLists(lists, b)
  {
    FreeBelow(lists, MAX_ORDER)
  }

  predicate NoDuplicates(s: seq<nat>) {
    forall i, j :: 0 <= i < j < |s| ==> s[i] != s[j]
  }

  /** `s` without the first occurrence of `x`. */
  function RemoveFirst(s: seq<nat>, x: nat): (r: seq<nat>)
    ensures x !in s ==> r == s
    ensures |r| == if x in s then |s| - 1 else |s|
  {
    if s == [] then [] else if s[0] == x then s[1..] else [s[0]] + RemoveFirst(s[1..], x)
  }

  lemma {:induction false} RemoveFirstElements(s: seq<nat>, x: nat)
    requires NoDuplicates(s)
    ensures NoDuplicates(RemoveFirst(s, x))
    ensures forall y :: y in RemoveFirst(s, x) <==> y in s && y != x
  {
    if s != [] {
      assert forall i :: 0 <= i < |s[1..]| ==> s[1..][i] == s[i + 1];
      RemoveFirstElements(s[1..], x);
      assert forall y :: y in s <==> y == s[0] || y in s[1..];
      assert s[0] !in s[1..];
    }
  }

  ghost predicate ListsOk(lists: FreeLists) {
    forall o :: 0 <= o < MAX_ORDER ==> NoDuplicates(lists[o])
  }

  lemma {:induction false} FreeSetRemove(lists: FreeLists, b: Block)
    requires ListsOk(lists) && InLists(lists, b)
    ensures var lists' := lists[b.order := RemoveFirst(lists[b.order], b.addr)];
            ListsOk(lists') && FreeSet(lists') == FreeSet(lists) - {b}
  {
    RemoveFirstElements(lists[b.order], b.addr);
  }

  lemma {:induction false} FreeSetPush(lists: FreeLists, b: Block)
    requires ListsOk(lists) && b.order < MAX_ORDER && !InLists(lists, b)
    ensures var lists' := lists[b.order := [b.addr] + lists[b.order]];
            ListsOk(lists') && FreeSet(lists') == FreeSet(lists) + {b}
  {
  }

  // ----- The invariant -----

  /** `a` and `b` share no block, all their blocks are disjoint, and together they cover
      exactly `region`. */
  ghost predicate Partition(a: set<Block>, b: set<Block>, region: set<int>) {
    a !! b && PairwiseDisjoint(a + b) && Bytes(a + b) == region
  }

  /** Free and live blocks are pairwise disjoint and cover exactly the bytes that were added,
      and the counters are the byte counts of the three sets. */
  ghost predicate Tiles(s: State, live: set<Block>, region: set<int>) {
    && ListsOk(s.lists)
    && (forall b :: b in live ==> b.order < MAX_ORDER)
    && Partition(FreeSet(s.lists), live, region)
    && (forall p :: p in region ==> 0 < p < WORD)
    && s.free == |Bytes(FreeSet(s.lists))|
    && s.used == |Bytes(live)|
    && s.total == |region|
  }

  ghost predicate Aligned(s: set<Block>) {
    forall b :: b in s ==> IsAligned(b.addr, b.order)
  }

  ghost predicate AllAligned(s: State, live: set<Block>) {
    Aligned(FreeSet(s.lists)) && Aligned(live)
  }

  /** Nothing is lost: the free and the allocated bytes add up to the bytes added, which fit
      in a machine word. */
  lemma {:induction false} CountersAddUp(s: State, live: set<Block>, region: set<int>)
    requires Tiles(s, live, region)
    ensures s.total == s.free + s.used
    ensures 0 <= s.free && 0 <= s.used && s.total < WORD
    ensures forall b :: b in live ==> Size(b.order) <= s.used
    ensures forall b :: InLists(s.lists, b) ==> Size(b.order) <= s.free
  {
    hide Bytes, Interval, Disjoint, FreeSet, Size;
    var free := FreeSet(s.lists);
    PartitionApart(free, live, region);
    BytesUnion(free, live);
    UnionSize(Bytes(free), Bytes(live));
    assert region <= Interval(1, WORD);
    SubsetSize(region, Interval(1, WORD));
    forall b | b in live ensures Size(b.order) <= s.used {
      BytesRemove(live, b);
    }
    forall b | b in free ensures Size(b.order) <= s.free {
      BytesRemove(free, b);
    }
  }

  lemma {:induction false} LiveInRegion(s: State, live: set<Block>, region: set<int>, b: Block)
    requires Tiles(s, live, region) && b in live
    ensures b.addr in region
  {
    hide ListsOk, FreeSet, PairwiseDisjoint, Size;
    assert b in FreeSet(s.lists) + live && b.Covers(b.addr);
  }

  lemma {:induction false} FreeInRegion(s: State, live: set<Block>, region: set<int>, b: Block)
    requires Tiles(s, live, region) && InLists(s.lists, b)
    ensures b.addr in region
  {
    hide ListsOk, PairwiseDisjoint, Size;
    assert b in FreeSet(s.lists) + live && b.Covers(b.addr);
  }

  lemma {:induction false} RegionBound(s: State, live: set<Block>, region: set<int>, p: int)
    requires Tiles(s, live, region) && p in region
    ensures 0 < p < WORD
  {
    hide Partition, ListsOk, FreeSet, Bytes;
  }

  lemma {:induction false} PartitionApart(a: set<Block>, b: set<Block>, region: set<int>)
    requires Partition(a, b, region)
    ensures Bytes(a) !! Bytes(b)
  {
    hide Size;
    forall p | p in Bytes(a) ensures p !in Bytes(b) {
      var x :| x in a && x.Covers(p);
      assert forall y :: y in b ==> y in a + b && Disjoint(x, y);
    }
  }

  /** Two blocks of a tiling never start at the same address. */
  lemma {:induction false} SameAddressSameBlock(s: set<Block>, x: Block, y: Block)
    requires PairwiseDisjoint(s) && x in s && y in s && x.addr == y.addr
    ensures x == y
  {
    assert !Disjoint(x, y);
  }

  lemma {:induction false} PartitionMove(a: set<Block>, b: set<Block>, region: set<int>, x: Block)
    requires Partition(a, b, region) && x in a
    ensures x !in b && Partition(a - {x}, b + {x}, region)
    ensures |Bytes(a - {x})| == |Bytes(a)| - Size(x.order)
    ensures |Bytes(b + {x})| == |Bytes(b)| + Size(x.order)
  {
    hide Bytes, Disjoint;
    assert (a - {x}) + (b + {x}) == a + b;
    BytesRemove(a, x);
    BytesAdd(b, x);
  }

  lemma {:induction false} PartitionShares(a: set<Block>, b: set<Block>, region: set<int>, x: Block)
    requires Partition(a, b, region) && x in b
    ensures x !in a
  {
  }

  lemma {:induction false} PartitionSwap(a: set<Block>, b: set<Block>, region: set<int>)
    requires Partition(a, b, region)
    ensures Partition(b, a, region)
  {
    assert a + b == b + a;
  }

  lemma {:induction false} PartitionSplit(a: set<Block>, b: set<Block>, region: set<int>, addr: nat, order: nat)
    requires Block(addr, order + 1) !in b && Partition(a, b + {Block(addr, order + 1)}, region)
    ensures var both := {Block(addr, order), Block(addr + Size(order), order)};
            both !! b && both !! a && Partition(a, b + both, region)
  {
    hide Bytes, Disjoint;
    var w, both := Block(addr, order + 1), {Block(addr, order), Block(addr + Size(order), order)};
    assert a + (b + {w}) == (a + b) + {w};
    assert a + (b + both) == (a + b) + both;
    SplitKeepsDisjoint(a + b, addr, order);
    HalvesBytes(a + b, addr, order);
  }

  lemma {:induction false} PartitionMerge(a: set<Block>, b: set<Block>, region: set<int>, addr: nat, order: nat)
    requires var both := {Block(addr, order), Block(addr + Size(order), order)};
             both !! b && Partition(a, b + both, region)
    ensures Block(addr, order + 1) !in b && Partition(a, b + {Block(addr, order + 1)}, region)
  {
    hide Bytes, Disjoint;
    var w, both := Block(addr, order + 1), {Block(addr, order), Block(addr + Size(order), order)};
    assert a + (b + {w}) == (a + b) + {w};
    assert a + (b + both) == (a + b) + both;
    MergeKeepsDisjoint(a + b, addr, order);
    HalvesBytes(a + b, addr, order);
  }

  /** Freeing failed: the block merged into one that starts at its own size, which stays live. */
  ghost predicate MergedAway(live: set<Block>, live': set<Block>) {
    exists b: Block :: b.addr == Size(b.order) && live' == live + {b}
  }

  // ----- The four elementary steps -----

  /** `alloc_stats`. */
  function CountAlloc(s: State, size: nat): State {
    s.(free := s.free - size, used := s.used + size)
  }

  /** `dealloc_stats`. */
  function CountFree(s: State, size: nat): State {
    s.(free := s.free + size, used := s.used - size)
  }

  function Push(s: State, order: nat, addr: nat): State
    requires order < MAX_ORDER
  {
    s.(lists := s.lists[order := [addr] + s.lists[order]])
  }

  function Remove(s: State, order: nat, addr: nat): State
    requires order < MAX_ORDER
  {
    s.(lists := s.lists[order := RemoveFirst(s.lists[order], addr)])
  }

  /** A free block leaves its list and becomes live. */
  lemma {:induction false} TakeKeeps(s: State, live: set<Block>, region: set<int>, b: Block)
    requires Tiles(s, live, region) && InLists(s.lists, b)
    ensures var s' := CountAlloc(Remove(s, b.order, b.addr), Size(b.order));
            && Tiles(s', live + {b}, region)
            && (AllAligned(s, live) ==> AllAligned(s', live + {b}))
    ensures b !in live
  {
    hide Bytes, Partition, ListsOk, FreeSet;
    FreeSetRemove(s.lists, b);
    PartitionMove(FreeSet(s.lists), live, region, b);
  }

  /** A live block goes to the head of its list and becomes free. */
  lemma {:induction false} PushKeeps(s: State, live: set<Block>, region: set<int>, b: Block)
    requires Tiles(s, live, region) && b in live
    ensures var s' := CountFree(Push(s, b.order, b.addr), Size(b.order));
            && Tiles(s', live - {b}, region)
            && (AllAligned(s, live) ==> AllAligned(s', live - {b}))
  {
    hide Bytes, Partition, ListsOk, FreeSet;
    PartitionShares(FreeSet(s.lists), live, region, b);
    FreeSetPush(s.lists, b);
    PartitionSwap(FreeSet(s.lists), live, region);
    PartitionMove(live, FreeSet(s.lists), region, b);
    PartitionSwap(live - {b}, FreeSet(s.lists) + {b}, region);
  }

  /** A live block may be regarded as its two live halves... */
  lemma {:induction false} SplitLiveKeeps(s: State, live: set<Block>, region: set<int>, addr: nat, order: nat)
    requires order + 1 < MAX_ORDER && Block(addr, order + 1) !in live
    requires Tiles(s, live + {Block(addr, order + 1)}, region)
    ensures var both := {Block(addr, order), Block(addr + Size(order), order)};
            && both !! live
            && Tiles(s, live + both, region)
            && (AllAligned(s, live + {Block(addr, order + 1)}) ==> AllAligned(s, live + both))
  {
    hide Partition, Aligned, Bytes;
    PartitionSplit(FreeSet(s.lists), live, region, addr, order);
    HalvesBytes(live, addr, order);
    SplitAligned(live, addr, order);
  }

  /** The buddy of a live block's lower half is its upper half. */
  lemma {:induction false} Halved(s: State, live: set<Block>, addr: nat, order: nat)
    requires AllAligned(s, live) && Block(addr, order + 1) in live
    ensures BuddyOf(addr, order) == addr + Size(order)
  {
    hide Size, BuddyOf, IsAligned, FreeSet;
    assert IsAligned(addr, order + 1);
    HalvesAligned(addr, order);
  }

  lemma {:induction false} SplitAligned(live: set<Block>, addr: nat, order: nat)
    ensures Aligned(live + {Block(addr, order + 1)})
            ==> Aligned(live + {Block(addr, order), Block(addr + Size(order), order)})
  {
    var w := Block(addr, order + 1);
    assert w in live + {w};
    if Aligned(live + {w}) {
      assert IsAligned(w.addr, w.order);
      HalvesAligned(addr, order);
    }
  }

  /** ...and two live buddies as the live block that they form. */
  lemma {:induction false} MergeLiveKeeps(s: State, live: set<Block>, region: set<int>, addr: nat, order: nat)
    requires order + 1 < MAX_ORDER && IsAligned(addr, order + 1)
    requires var both := {Block(addr, order), Block(addr + Size(order), order)};
             both !! live && Tiles(s, live + both, region)
    ensures Block(addr, order + 1) !in live
    ensures Tiles(s, live + {Block(addr, order + 1)}, region)
    ensures AllAligned(s, live + {Block(addr, order), Block(addr + Size(order), order)})
            ==> AllAligned(s, live + {Block(addr, order + 1)})
  {
    hide Partition, Bytes;
    PartitionMerge(FreeSet(s.lists), live, region, addr, order);
    HalvesBytes(live, addr, order);
  }
}
