/** Whole runs of the allocator, from the empty allocator through any sequence of operations
    that respects the callers' contract. */
module BuddyRuns {
  import opened Bits
  import opened Blocks
  import opened BuddySpec
  import opened BuddyOps
  import opened BuddyRegion

  datatype Op =
    | Add(start: nat, end: nat)
    | Alloc(order: nat)
    | Free(addr: nat, order: nat)

  /** The allocator together with what its callers hold and what it was given. */
  datatype System = System(state: State, live: set<Block>, region: set<int>)

  const LOW: nat := 0x80_0000

  function Empty(): System {
    System(State(seq(MAX_ORDER, (_: int) => []), 0, 0, 0), {}, {})
  }

  /** Callers hand over fresh memory above 8 MiB whose first page is not 1 modulo 4, and free
      what they were given, once, at its own order. */
  ghost predicate Permitted(y: System, op: Op) {
    match op
    case Add(start, end) =>
      && LOW < start && start + PAGE_SIZE <= WORD && end < WORD
      && Interval(AlignUp(start, PAGE_SIZE), end) !! y.region
      && StartsWell(AlignUp(start, PAGE_SIZE), end)
    case Alloc(_) => true
    case Free(addr, order) => Block(addr, order) in y.live && order < MAX_ORDER
  }

  ghost function Step(y: System, op: Op): System
    requires Permitted(y, op)
  {
    match op
    case Add(start, end) =>
      var (s, r) := AddRegion(y.state, start, end);
      var first := AlignUp(start, PAGE_SIZE);
      System(s, y.live, if r.Ok? then y.region + Interval(first, first + r.value) else y.region)
    case Alloc(order) =>
      var (s, r) := Allocate(y.state, order);
      System(s, if r.Ok? then y.live + {Block(r.value, order)} else y.live, y.region)
    case Free(addr, order) =>
      var (s, _) := Deallocate(y.state, addr, order);
      System(s, y.live - {Block(addr, order)}, y.region)
  }

  ghost predicate Invariant(y: System) {
    && Tiles(y.state, y.live, y.region)
    && AllAligned(y.state, y.live)
    && forall p :: p in y.region ==> LOW < p
  }

  ghost predicate PermittedRun(y: System, ops: seq<Op>)
    decreases |ops|
  {
    ops == [] || (Permitted(y, ops[0]) && PermittedRun(Step(y, ops[0]), ops[1..]))
  }

  ghost function Run(y: System, ops: seq<Op>): System
    requires PermittedRun(y, ops)
    decreases |ops|
  {
    if ops == [] then y else Run(Step(y, ops[0]), ops[1..])
  }

  lemma {:induction false} EmptyInvariant()
    ensures Invariant(Empty())
  {
    assert FreeSet(Empty().state.lists) == {};
    assert Bytes({}) == {};
  }

  /** Above 8 MiB no merge meets the null buddy. */
  lemma {:induction false} FreeSucceeds(y: System, addr: nat, order: nat)
    requires Invariant(y) && order < MAX_ORDER && Block(addr, order) in y.live
    ensures Deallocate(y.state, addr, order).1.Ok?
  {
    hide Tiles, AllAligned, Deallocate, Size;
    DeallocateKeeps(y.state, y.live, y.region, addr, order);
    var (s', r) := Deallocate(y.state, addr, order);
    var rest := y.live - {Block(addr, order)};
    forall m | Leaks(s', rest, y.region, addr, order, m) ensures false {
      TopSize(m);
      LiveInRegion(s', rest + {Block(Size(m), m)}, y.region, Block(Size(m), m));
    }
  }

  lemma {:induction false} AddKeeps(y: System, start: nat, end: nat)
    requires Invariant(y) && Permitted(y, Add(start, end))
    ensures Invariant(Step(y, Add(start, end)))
  {
    hide Tiles, AllAligned, AddFrom, StartsWell, AlignUp, WholePages, Interval;
    var first := AlignUp(start, PAGE_SIZE);
    AlignUpPage(start);
    if first + PAGE_SIZE <= end {
      AddFromKeeps(y.state, y.live, y.region, first, end, 0);
      var (s', r) := AddFrom(y.state, first, end, 0);
      assert r.Ok? && Tiles(s', y.live, y.region + Interval(first, first + r.value));
      AddFromAlignedIff(y.state, y.live, y.region, first, end, 0);
      assert Step(y, Add(start, end)) == System(s', y.live, y.region + Interval(first, first + r.value));
    } else {
      assert Step(y, Add(start, end)) == y;
    }
  }

  lemma {:induction false} StepKeeps(y: System, op: Op)
    requires Invariant(y) && Permitted(y, op)
    ensures Invariant(Step(y, op))
  {
    hide Tiles, AllAligned, Deallocate, Allocate;
    match op
    case Add(start, end) =>
      AddKeeps(y, start, end);
    case Alloc(order) =>
      if order < MAX_ORDER { AlignedAllocates(y.state, y.live, y.region, order); }
      AllocateKeeps(y.state, y.live, y.region, order);
      var (s, r) := Allocate(y.state, order);
      assert Step(y, op).state == s && (r.Err? ==> s == y.state);
    case Free(addr, order) =>
      FreeSucceeds(y, addr, order);
      DeallocateKeeps(y.state, y.live, y.region, addr, order);
  }

  lemma {:induction false} RunKeeps(y: System, ops: seq<Op>)
    requires Invariant(y) && PermittedRun(y, ops)
    ensures Invariant(Run(y, ops))
    decreases |ops|
  {
    hide Invariant, Permitted, Step;
    if ops != [] {
      StepKeeps(y, ops[0]);
      RunKeeps(Step(y, ops[0]), ops[1..]);
    }
  }

  /** After every permitted run: free and live blocks are aligned, pairwise disjoint and cover
      exactly the bytes that were added; the three counters are the byte counts of the free, the
      live and all blocks, and add up within a machine word. */
  lemma {:induction false} EveryRunTiles(ops: seq<Op>)
    requires PermittedRun(Empty(), ops)
    ensures var y := Run(Empty(), ops);
            var free := FreeSet(y.state.lists);
            && Aligned(free) && Aligned(y.live)
            && free !! y.live && PairwiseDisjoint(free + y.live)
            && Bytes(free + y.live) == y.region
            && y.state.free == |Bytes(free)| && y.state.used == |Bytes(y.live)|
            && y.state.total == |y.region| == y.state.free + y.state.used < WORD
  {
    EmptyInvariant();
    RunKeeps(Empty(), ops);
    var y := Run(Empty(), ops);
    hide Run, PermittedRun, FreeSet, Bytes, Aligned, ListsOk;
    CountersAddUp(y.state, y.live, y.region);
  }

  // ----- Why the first page matters -----

  /** The state after a sequence of allocations. */
  function AllocateAll(s: State, orders: seq<nat>): State
    decreases |orders|
  {
    if orders == [] then s else AllocateAll(Allocate(s, orders[0]).0, orders[1..])
  }

  /** The number of free blocks below order `n`. */
  function Entries(lists: FreeLists, n: nat): nat
    requires n <= MAX_ORDER
  {
    if n == 0 then 0 else Entries(lists, n - 1) + |lists[n - 1]|
  }

  lemma {:induction false} EntriesShrink(l: FreeLists, l': FreeLists, n: nat, j: nat)
    requires j < n <= MAX_ORDER && |l'[j]| < |l[j]|
    requires forall i :: 0 <= i < MAX_ORDER && i != j ==> l'[i] == l[i]
    ensures Entries(l', n) < Entries(l, n)
  {
    if n - 1 > j {
      EntriesShrink(l, l', n - 1, j);
    } else {
      EntriesSame(l, l', n - 1);
    }
  }

  lemma {:induction false} EntriesSame(l: FreeLists, l': FreeLists, n: nat)
    requires n <= MAX_ORDER && forall i :: 0 <= i < n ==> l'[i] == l[i]
    ensures Entries(l', n) == Entries(l, n)
  {
    if n > 0 { EntriesSame(l, l', n - 1); }
  }

  /** A free block of order 1 or more that starts at an odd page is split sooner or later, and
      then the page in front of it is free. */
  lemma {:induction false} OddBlockEscapes(s: State, first: nat, k: nat) returns (orders: seq<nat>)
    requires 1 <= k < MAX_ORDER && first in s.lists[k] && first % 8192 == 4096 && first > PAGE_SIZE
    ensures first - PAGE_SIZE in AllocateAll(s, orders).lists[0]
    decreases Entries(s.lists, k + 1)
  {
    hide BuddyOf, Size, RemoveFirst, Split;
    var j := FirstNonEmpty(s.lists, 0);
    var a := s.lists[j][0];
    if j == k && a == first {
      SplitsOdd(s, first, k);
      orders := [0];
      assert AllocateAll(s, orders) == AllocateAll(Allocate(s, 0).0, orders[1..]);
    } else {
      var s1 := Allocate(s, j).0;
      assert s1.lists == s.lists[j := s.lists[j][1..]] by { PopsHead(s.lists[j]); }
      EntriesShrink(s.lists, s1.lists, k + 1, j);
      assert s.lists[j] == [a] + s.lists[j][1..];
      var rest := OddBlockEscapes(s1, first, k);
      orders := [j] + rest;
      assert orders[1..] == rest;
    }
  }

  lemma {:induction false} PopsHead(l: seq<nat>)
    requires l != []
    ensures RemoveFirst(l, l[0]) == l[1..]
  {
  }

  lemma {:induction false} SplitsOdd(s: State, first: nat, k: nat)
    requires 1 <= k < MAX_ORDER && k == FirstNonEmpty(s.lists, 0) && first == s.lists[k][0]
    requires first % 8192 == 4096 && first > PAGE_SIZE
    ensures Allocate(s, 0).1 == Ok(first) && Allocate(s, 0).0.lists[0] == [first - PAGE_SIZE]
  {
    hide Allocate, BuddyOf, Size;
    AllocateSplits(s, 0);
    forall j | NullAt(first, 0, k, j) ensures false {
      SmallSizes();
      if j > 0 { OddIsNoSize(first, j); }
    }
    OddBuddy(first);
  }

  lemma {:induction false} OddIsNoSize(first: nat, j: nat)
    requires first % 8192 == 4096 && j > 0
    ensures first != Size(j)
  {
    hide Size;
    SmallSizes();
    SizeMultiple(1, j);
    MultipleOf(Pow2(j - 1), 8192);
  }

  lemma {:induction false} OddBuddy(first: nat)
    requires first % 8192 == 4096
    ensures BuddyOf(first, 0) == first - PAGE_SIZE
  {
    hide BuddyOf, Size;
    SmallSizes();
    BuddyIsOtherHalf(first, 0);
  }

  lemma {:induction false} AddFromGrows(s: State, start: nat, end: nat, total: nat, x: nat, o: nat)
    requires o < MAX_ORDER && x in s.lists[o]
    ensures x in AddFrom(s, start, end, total).0.lists[o]
    decreases end - start
  {
    hide AddFrom, RegionOrder, Size;
    AddFromUnfolds(s, start, end, total);
    if start + PAGE_SIZE <= end && RegionOrder(start, end, 0).Ok? {
      var p := RegionOrder(start, end, 0).value;
      AddFromGrows(AddBlock(s, p, start), start + Size(p), end, total + Size(p), x, o);
    }
  }

  /** Whenever a region is added whose first page is 1 modulo 4, with two whole pages or more,
      some sequence of allocations puts the page in front of it on a free list, although it was
      never added; and from then on no choice of live blocks tiles memory without that page. */
  lemma {:induction false} MisalignedStartEscapes(s: State, start: nat, end: nat) returns (orders: seq<nat>)
    requires 0 < start && start + PAGE_SIZE <= WORD && AddRegion(s, start, end).1.Ok?
    requires var first := AlignUp(start, PAGE_SIZE); first > PAGE_SIZE && !StartsWell(first, end)
    ensures var page := AlignUp(start, PAGE_SIZE) - PAGE_SIZE;
            var s' := AllocateAll(AddRegion(s, start, end).0, orders);
            && page in s'.lists[0]
            && forall live, region :: page !in region ==> !Tiles(s', live, region)
  {
    hide AlignUp, AddFrom, RegionOrder, Tiles, Size, AllocateAll;
    var first := AlignUp(start, PAGE_SIZE);
    AlignUpPage(start);
    AddFromUnfolds(s, first, end, 0);
    FirstOrders(first, end);
    LowHalf(first);
    var o := RegionOrder(first, end, 0).value;
    var s1 := AddRegion(s, start, end).0;
    AddFromGrows(AddBlock(s, o, first), first + Size(o), end, Size(o), first, o);
    orders := OddBlockEscapes(s1, first, o);
    var s' := AllocateAll(s1, orders);
    forall live, region | Tiles(s', live, region) ensures first - PAGE_SIZE in region {
      FreeInRegion(s', live, region, Block(first - PAGE_SIZE, 0));
    }
  }
}
