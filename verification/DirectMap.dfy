/** The direct map that boot installs, and allocation by layout through it. */
module DirectMap {
  import opened Bits
  import opened Blocks
  import opened BuddySpec
  import opened BuddyAllocator
  import opened FreeListMemory
  import opened PageEntry
  import opened PageWalk
  import opened PageSpec
  import opened PageTables
  import opened PageBudget
  import BuddyOps
  import HardwareWalk

  /** `KERNEL_PHYS_MEM_BASE`. */
  const BASE: nat := 0x4A00_0000_0000

  const STEP: nat := 0x20_0000

  /** READ, WRITE, ACCESSED and DIRTY. */
  const RW: Flags := 0xC6

  /** `phys2virt` once the offset is set. */
  function PhysToVirt(paddr: nat): nat {
    paddr + BASE
  }

  /** The translation with `[start, end)` mapped at its offset from `BASE`. */
  function DirectAnswer(tables: Tables, root: nat, start: nat, end: nat, w: usize): Translation {
    var x := w % Span(Sv48);
    if BASE + start <= x < BASE + end then Mapped(x - BASE, Megapage, RW) else Translate(tables, root, Sv48, w)
  }

  ghost predicate DirectUpTo(tables: Tables, tables': Tables, root: nat, start: nat, end: nat) {
    forall w: usize :: Translate(tables', root, Sv48, w) == DirectAnswer(tables, root, start, end, w)
  }

  lemma {:induction false} OneMoreStep(t0: Tables, t1: Tables, t2: Tables, root: nat, start: nat, cur: usize)
    requires start <= cur && cur % STEP == 0
    requires DirectUpTo(t0, t1, root, start, cur)
    requires Updates(t1, t2, root, Sv48, cur, BASE + cur, Megapage, RW)
    ensures DirectUpTo(t0, t2, root, start, cur + STEP)
  {
    hide Translate;
    forall w: usize ensures Translate(t2, root, Sv48, w) == DirectAnswer(t0, root, start, cur + STEP, w) {
      if InPage(Sv48, w, BASE + cur, Megapage) {
        StepAnswer(cur, w);
      }
    }
  }

  lemma {:induction false} StepAnswer(cur: usize, w: usize)
    requires cur % STEP == 0 && InPage(Sv48, w, BASE + cur, Megapage)
    ensures Answer(cur, Megapage, RW, w) == Mapped(w % Span(Sv48) - BASE, Megapage, RW)
  {
    var x := w % Span(Sv48);
    var d := x - BASE - cur;
    assert Span(Sv48) == STEP * 0x800_0000;
    ModThroughMultiple(w, STEP, 0x800_0000);
    assert BASE == STEP * 0x250_0000;
    var q := cur / STEP;
    assert x == (0x250_0000 + q) * STEP + d;
    DivModUnique(x, STEP, 0x250_0000 + q, d);
    AnswerDoesNotWrap(cur, Megapage, w);
  }

  lemma {:induction false} ModThroughMultiple(a: nat, s: nat, m: nat)
    requires s > 0 && m > 0
    ensures a % (s * m) % s == a % s
  {
    var q := a / (s * m);
    var r := a % (s * m);
    assert a == q * (s * m) + r == (q * m) * s + r;
    assert a == (q * m + r / s) * s + r % s;
    DivModUnique(a, s, q * m + r / s, r % s);
  }

  lemma {:induction false} NothingYet(tables: Tables, root: nat, start: nat)
    ensures DirectUpTo(tables, tables, root, start, start)
  {
    hide Translate;
  }

  /** The page after one that was mapped is aligned and starts within the address space. */
  lemma {:induction false} NextAligned(page: nat)
    requires page % STEP == 0 && BASE + page < Sv48.MaxAddress()
    ensures (page + STEP) % STEP == 0 && BASE + page + STEP <= Span(Sv48)
  {
    var q := page / STEP;
    assert page == q * STEP;
    DivModUnique(page + STEP, STEP, q + 1, 0);
  }

  /** The direct-mapped address of every byte of the range translates back to that byte. */
  ghost predicate DirectlyMapped(tables: Tables, root: nat, start: nat, end: nat) {
    forall p: usize :: start <= p < end ==>
      PhysToVirt(p) < WORD && Translate(tables, root, Sv48, PhysToVirt(p)) == Mapped(p, Megapage, RW)
  }

  lemma {:induction false} DirectRoundTrip(t0: Tables, t1: Tables, root: nat, start: nat, top: nat)
    requires DirectUpTo(t0, t1, root, start, top) && (start < top ==> BASE + top <= Span(Sv48))
    ensures DirectlyMapped(t1, root, start, top)
  {
    hide Translate;
    forall p: usize | start <= p < top
      ensures PhysToVirt(p) < WORD && Translate(t1, root, Sv48, PhysToVirt(p)) == Mapped(p, Megapage, RW)
    {
      var w := PhysToVirt(p);
      DivModUnique(w, Span(Sv48), 0, w);
      assert Translate(t1, root, Sv48, w) == DirectAnswer(t0, root, start, top, w);
    }
  }

  /** What is left of the loop at `page` can be done. */
  ghost predicate RestFits(t0: Tables, root: nat, tree: Tree, free: int, page: nat, end: nat) {
    CanMap(t0, root, Sv48, Megapage, Shallow(tree, 2), free, BASE + page, BASE + end)
  }

  /** One iteration of the loop below. */
  method MapMegapage(pt: PageTable, page: usize, ghost t0: Tables, ghost start: nat, ghost end: nat) returns (ok: bool)
    requires pt.Valid() && pt.mode == Sv48 && BASE + page < WORD
    requires start <= page < end && DirectUpTo(t0, pt.tables, pt.root, start, page)
    modifies pt, pt.pmem, pt.pmem.orders
    ensures pt.Valid() && pt.OnlyTablesTaken()
    ensures ok ==> DirectUpTo(t0, pt.tables, pt.root, start, page + STEP)
    ensures ok ==> page % STEP == 0 && (page + STEP) % STEP == 0 && BASE + page + STEP <= Span(Sv48)
    ensures ok ==> (RestFits(t0, pt.root, old(pt.tree), old(pt.pmem.free), page, end)
                    <==> RestFits(t0, pt.root, pt.tree, pt.pmem.free, page + STEP, end))
    ensures !ok ==> page % STEP != 0 || !RestFits(t0, pt.root, old(pt.tree), old(pt.pmem.free), page, end)
    ensures pt.StaysConforming()
  {
    hide Tiles, AllAligned, Threads, IsTree, Updates, Translate, Owned, TablesTaken, DirectUpTo, Occupied, Span;
    hide HardwareWalk.ConformingTree, HardwareWalk.Accessible, Missing, TakePages, ExtendsTo, CanMap, Shallow;
    ghost var tables, tree, free := pt.tables, pt.tree, pt.pmem.free;
    StepDecided(t0, tables, pt.root, tree, start, page, end, free);
    var mapped := pt.Map(page, PhysToVirt(page), Megapage, RW);
    BaseAligned(page);
    if mapped.Refused? {
      return false;
    }
    OneMoreStep(t0, tables, pt.tables, pt.root, start, page);
    ShallowGrows(tree, pt.tree, Sv48, PhysToVirt(page), Megapage);
    NextAligned(page);
    RwAccessible(page);
    return true;
  }

  lemma {:induction false} RwAccessible(page: nat)
    requires BASE + page < Sv48.MaxAddress()
    ensures HardwareWalk.Accessible(page, RW)
  {
  }

  lemma {:induction false} BaseAligned(page: nat)
    ensures Megapage.IsAligned(BASE + page) <==> page % STEP == 0
  {
    AddMultiple(page, STEP, 0x250_0000);
  }

  /** The mapping loop of `_before_main`, 2 MiB at a time; `unwrap` panics on any error. When it
      returns, `phys2virt` of every byte of the region translates back to that byte, and no
      address outside the pages of the region is affected. */
  method MapPhysical(pt: PageTable, start: usize, end: usize) returns (ok: bool)
    requires pt.Valid() && pt.mode == Sv48
    modifies pt, pt.pmem, pt.pmem.orders
    ensures pt.Valid() && pt.OnlyTablesTaken()
    ensures ok ==> exists top :: end <= top && (top == start || top < end + STEP)
                                 && DirectUpTo(old(pt.tables), pt.tables, pt.root, start, top)
    ensures ok ==> DirectlyMapped(pt.tables, pt.root, start, end)
    ensures ok <==> DirectMapFits(old(pt.tables), pt.root, old(pt.tree), old(pt.pmem.free), start, end)
    ensures ok && old(pt.Conforming()) ==> pt.Conforming() && KernelReaches(pt.tables, pt.root, start, end)
  {
    hide Tiles, AllAligned, Threads, IsTree, Translate, Owned, TablesTaken, DirectUpTo, Span, RestFits, DirectMapFits, DirectlyMapped;
    hide HardwareWalk.ConformingTree, KernelReaches;
    TakenRefl(pt.pmem.live, pt.subtables);
    FreeIsNat(pt.pmem.Abstract(), pt.pmem.live, pt.pmem.region);
    FitsFromStart(pt.tables, pt.root, pt.tree, pt.pmem.free, start, end);
    var page: nat := start;
    NothingYet(pt.tables, pt.root, start);
    while page < end
      invariant start <= page && pt.Valid() && pt.OnlyTablesTaken()
      invariant page == start || (page < end + STEP && BASE + page <= Span(Sv48))
      invariant DirectUpTo(old(pt.tables), pt.tables, pt.root, start, page)
      invariant page != start ==> start % STEP == 0 && page % STEP == 0
      invariant pt.StaysConforming()
      invariant RestFits(old(pt.tables), pt.root, old(pt.tree), old(pt.pmem.free), start, end)
                <==> RestFits(old(pt.tables), pt.root, pt.tree, pt.pmem.free, page, end)
      decreases end + STEP - page
    {
      if BASE + page >= WORD {
        BeyondWord(old(pt.tables), pt.root, pt.tree, pt.pmem.free, page, end);
        return false;
      }
      ghost var live, subs := pt.pmem.live, pt.subtables;
      var mapped := MapMegapage(pt, page, old(pt.tables), start, end);
      TakenTrans(old(pt.pmem.live), live, pt.pmem.live, old(pt.subtables), subs, pt.subtables);
      if !mapped {
        return false;
      }
      page := page + STEP;
    }
    DirectRoundTrip(old(pt.tables), pt.tables, pt.root, start, page);
    DirectPart(pt.tables, pt.root, start, page, end);
    NothingToMap(old(pt.tables), pt.root, pt.tree, pt.pmem.free, page, end);
    if pt.Conforming() { DirectAccess(pt.tables, pt.root, pt.tree, start, end); }
    return true;
  }

  /** A load and a store of the kernel at the direct-mapped address reach the byte, as far as the
      processor takes such addresses: in the lower half of the address space. */
  ghost predicate KernelReaches(tables: Tables, root: nat, start: nat, end: nat) {
    forall p: usize, who: HardwareWalk.Context ::
      start <= p < end && PhysToVirt(p) < 0x8000_0000_0000 && !who.user ==> ReachedBy(tables, root, p, who)
  }

  predicate ReachedBy(tables: Tables, root: nat, p: nat, who: HardwareWalk.Context) {
    && PhysToVirt(p) < WORD
    && HardwareWalk.HwAccess(tables, root, Sv48, PhysToVirt(p), HardwareWalk.Load, who) == HardwareWalk.Reaches(p, RW)
    && HardwareWalk.HwAccess(tables, root, Sv48, PhysToVirt(p), HardwareWalk.Store, who) == HardwareWalk.Reaches(p, RW)
  }

  lemma {:induction false} DirectAccess(tables: Tables, root: nat, tree: Tree, start: nat, end: nat)
    requires IsTree(tables, root, tree, Sv48.Levels()) && HardwareWalk.ConformingTree(tables, tree, Sv48.Levels())
    requires DirectlyMapped(tables, root, start, end)
    ensures KernelReaches(tables, root, start, end)
  {
    hide IsTree, HardwareWalk.ConformingTree, Translate, HardwareWalk.HwAccess, DirectlyMapped, HardwareWalk.Allows;
    forall p: usize, who: HardwareWalk.Context
      | start <= p < end && PhysToVirt(p) < 0x8000_0000_0000 && !who.user
      ensures ReachedBy(tables, root, p, who)
    {
      DirectAt(tables, root, start, end, p);
      RwAllows(who);
      HardwareWalk.AccessAgrees(tables, root, tree, Sv48, PhysToVirt(p), HardwareWalk.Load, who);
      HardwareWalk.AccessAgrees(tables, root, tree, Sv48, PhysToVirt(p), HardwareWalk.Store, who);
    }
  }

  lemma {:induction false} RwAllows(who: HardwareWalk.Context)
    requires !who.user
    ensures HardwareWalk.Allows(RW, HardwareWalk.Load, who) && HardwareWalk.Allows(RW, HardwareWalk.Store, who)
  {
  }

  lemma {:induction false} BeyondWord(t0: Tables, root: nat, tree: Tree, free: int, page: nat, end: nat)
    requires BASE + page >= WORD && page < end
    ensures !RestFits(t0, root, tree, free, page, end)
  {
    hide Translate, CountMissing, PathSet, Shallow;
  }

  lemma {:induction false} FitsFromStart(tables: Tables, root: nat, tree: Tree, free: int, start: nat, end: nat)
    requires free >= 0
    ensures DirectMapFits(tables, root, tree, free, start, end)
            <==> start >= end || (start % STEP == 0 && RestFits(tables, root, tree, free, start, end))
  {
    hide RangeFree, Misses, CanMap, Shallow;
    CanMapIff(tables, root, Sv48, Megapage, Shallow(tree, 2), free, BASE + start, BASE + end);
  }

  lemma {:induction false} DirectPart(tables: Tables, root: nat, start: nat, top: nat, end: nat)
    requires DirectlyMapped(tables, root, start, top) && end <= top
    ensures DirectlyMapped(tables, root, start, end)
  {
    hide Translate;
  }

  /** When the loop of boot returns: the region starts at a 2 MiB boundary, its pages in the
      direct map lie in the address space and are free, and there is memory for the tables. */
  ghost predicate DirectMapFits(tables: Tables, root: nat, tree: Tree, free: int, start: nat, end: nat) {
    start < end ==>
      && start % STEP == 0
      && RangeFree(tables, root, Sv48, Megapage, BASE + start, BASE + end)
      && PAGE_SIZE * Sum(Misses(Shallow(tree, 2), Sv48, Megapage, BASE + start, BASE + end)) <= free
  }

  lemma {:induction false} NothingToMap(t0: Tables, root: nat, tree: Tree, free: int, page: nat, end: nat)
    requires page >= end
    ensures RestFits(t0, root, tree, free, page, end)
  {
  }

  /** What the next `map` of the loop answers, in terms of the tables before the loop. */
  lemma {:induction false} StepDecided(
      t0: Tables, tables: Tables, root: nat, tree: Tree, start: nat, page: nat, end: nat, free: int)
    requires IsTree(tables, root, tree, Sv48.Levels()) && DirectUpTo(t0, tables, root, start, page) && page < end
    requires BASE + page < WORD
    ensures var v := BASE + page;
            var n := CountMissing(Shallow(tree, 2), 4, v, 0, 2);
            CanMap(t0, root, Sv48, Megapage, Shallow(tree, 2), free, v, BASE + end) <==>
              && v < Sv48.MaxAddress() && !Occupied(tables, root, Sv48, v, Megapage)
              && PAGE_SIZE * Missing(tables, root, v, 3, 1) <= free
              && CanMap(t0, root, Sv48, Megapage, Shallow(tree, 2) + PathSet(4, v, 2),
                        free - PAGE_SIZE * Missing(tables, root, v, 3, 1), BASE + (page + STEP), BASE + end)
  {
    hide IsTree, Translate, Occupied, Missing, CountMissing, Shallow, PathSet;
    var v := BASE + page;
    if v < Sv48.MaxAddress() {
      MapDecided(tables, root, tree, Sv48, v, Megapage, free);
      DivModUnique(v, Span(Sv48), 0, v);
      assert Translate(tables, root, Sv48, v) == DirectAnswer(t0, root, start, page, v);
    }
  }

  // ----- Allocation by layout -----

  /** What `allocate` answers: no memory, a pointer, or a panic of `phys2virt`, whose addition must
      not leave the word. */
  datatype Granted = NoMemory | Pointer(ptr: usize) | AddressPanics

  /** `PhysicalAllocator::allocate`: a block of the least order that fits the layout, at its
      direct-mapped address. */
  method AllocateLayout(pmem: Allocator, size: nat, align: nat) returns (r: Granted)
    requires pmem.Valid() && AllAligned(pmem.Abstract(), pmem.live)
    modifies pmem, pmem.orders
    ensures pmem.Valid() && AllAligned(pmem.Abstract(), pmem.live) && pmem.region == old(pmem.region)
    ensures r.NoMemory? ==> pmem.live == old(pmem.live)
    ensures r.NoMemory? <==> align > PAGE_SIZE || OrderForSize(size) >= MAX_ORDER
                             || BuddyOps.FirstNonEmpty(old(pmem.lists), OrderForSize(size)) == MAX_ORDER
    ensures !r.NoMemory? ==>
              exists b: Block ::
                && b.order == OrderForSize(size) && size <= Size(b.order)
                && b !in old(pmem.live) && pmem.live == old(pmem.live) + {b}
                && r == if PhysToVirt(b.addr) < WORD then Pointer(PhysToVirt(b.addr)) else AddressPanics
  {
    hide Tiles, Threads, AllAligned, BuddyOps.Allocate, BuddyOps.SplitsInside, BuddyOps.Split, OrderForSize, Size;
    if align > PAGE_SIZE {
      return NoMemory;
    }
    var order := OrderForSize(size);
    OrderForSizeIsLeast(size, order);
    BuddyOps.AlignedSplitsInside(pmem.Abstract(), pmem.live, pmem.region, order);
    if order < MAX_ORDER {
      BuddyOps.AlignedAllocates(pmem.Abstract(), pmem.live, pmem.region, order);
    } else {
      BuddyOps.AllocateUnfolds(pmem.Abstract(), order);
    }
    var block := pmem.Allocate(order);
    if block.Err? {
      return NoMemory;
    }
    assert Block(block.value, order) !in old(pmem.live);
    if PhysToVirt(block.value) >= WORD {
      return AddressPanics;
    }
    return Pointer(PhysToVirt(block.value));
  }

  /** The address that `deallocate` hands to the buddy allocator: the translation of the
      pointer, or the pointer itself where there is none. */
  function Target(tables: Tables, root: nat, ptr: usize): nat {
    var t := Translate(tables, root, Sv48, ptr);
    if t.Mapped? then t.paddr else ptr
  }

  /** How `deallocate` ends: with the allocator's result, which is only logged, or in a look-up that
      meets a Terapage. */
  datatype Returned = Back(result: Result<()>) | LookupPanics

  /** `PhysicalAllocator::deallocate`: translate the pointer back, free at the order of the
      layout. Its callers must hold the block that this names, and it must be no page table. */
  method DeallocateLayout(pt: PageTable, ptr: usize, size: nat) returns (r: Returned)
    requires pt.Valid() && pt.mode == Sv48
    requires Translate(pt.tables, pt.root, Sv48, ptr) != Panics ==>
               var b := Block(Target(pt.tables, pt.root, ptr), OrderForSize(size));
               b in pt.pmem.live && b.order < MAX_ORDER && (b.order == 0 ==> b.addr !in pt.tables)
    modifies pt.pmem, pt.pmem.orders
    ensures pt.Valid() && pt.pmem.region == old(pt.pmem.region)
    ensures r == LookupPanics <==> Translate(pt.tables, pt.root, Sv48, ptr) == Panics
    ensures r == LookupPanics ==> pt.pmem.live == old(pt.pmem.live)
    ensures r.Back? ==>
              var b := Block(Target(pt.tables, pt.root, ptr), OrderForSize(size));
              && (r.result.Ok? ==> pt.pmem.live == old(pt.pmem.live) - {b})
              && (r.result.Err? ==> b.addr < 0x100_0000 && MergedAway(old(pt.pmem.live) - {b}, pt.pmem.live))
              && (r.result.Err? <==> BuddyOps.MergesIntoNull(old(pt.pmem.lists), b.addr, b.order))
  {
    hide Tiles, Threads, AllAligned, IsTree, Translate, BuddyOps.Deallocate, OrderForSize, Size, BuddyOps.MergesIntoNull;
    var order := OrderForSize(size);
    var t := pt.TranslateAddress(ptr);
    if t == Panics {
      return LookupPanics;
    }
    var block := if t.Mapped? then t.paddr else ptr;
    if block >= 0x100_0000 {
      BuddyOps.HighBlocksNeverLeak(pt.pmem.Abstract(), pt.pmem.live, pt.pmem.region, block, order);
    }
    var result := pt.pmem.Deallocate(block, order);
    return Back(result);
  }

  /** Exactly when the pointer of a physical address leads back to it: when it was mapped by the
      loop, or had been mapped to itself before. Everywhere else the buddy allocator is handed
      the virtual address, or what that translates to. */
  lemma {:induction false} LeadsBackIff(t0: Tables, t1: Tables, root: nat, start: nat, top: nat, p: usize)
    requires DirectUpTo(t0, t1, root, start, top) && PhysToVirt(p) < Span(Sv48)
    ensures Target(t1, root, PhysToVirt(p)) == p <==>
              start <= p < top || Target(t0, root, PhysToVirt(p)) == p
    ensures !(start <= p < top) && Translate(t0, root, Sv48, PhysToVirt(p)) == NotMapped ==>
              Target(t1, root, PhysToVirt(p)) == PhysToVirt(p) != p
  {
    hide Translate;
    var w := PhysToVirt(p);
    DivModUnique(w, Span(Sv48), 0, w);
    assert Translate(t1, root, Sv48, w) == DirectAnswer(t0, root, start, top, w);
  }

  /** Once the region that the allocator manages is mapped directly, freeing an allocation with
      the same layout gives back the very block that it took. */
  method AllocateThenDeallocateLayout(pt: PageTable, size: nat, align: nat, ghost start: nat, ghost end: nat)
      returns (granted: Granted, r: Result<()>)
    requires pt.Valid() && pt.mode == Sv48 && DirectlyMapped(pt.tables, pt.root, start, end)
    requires forall x :: x in pt.pmem.region ==> start <= x < end
    modifies pt.pmem, pt.pmem.orders
    ensures pt.Valid() && pt.pmem.region == old(pt.pmem.region) && !granted.AddressPanics?
    ensures granted.NoMemory? <==> align > PAGE_SIZE || OrderForSize(size) >= MAX_ORDER
                                   || BuddyOps.FirstNonEmpty(old(pt.pmem.lists), OrderForSize(size)) == MAX_ORDER
    ensures granted.NoMemory? ==> pt.pmem.live == old(pt.pmem.live)
    ensures r.Ok? ==> pt.pmem.live == old(pt.pmem.live)
    ensures granted.Pointer? ==> BASE <= granted.ptr && granted.ptr - BASE in pt.pmem.region
    ensures granted.Pointer? ==> Block(granted.ptr - BASE, OrderForSize(size)) !in old(pt.pmem.live)
    ensures granted.Pointer? ==> Target(pt.tables, pt.root, granted.ptr) == granted.ptr - BASE
    ensures r.Err? ==> granted.Pointer? && granted.ptr - BASE < 0x100_0000 && MergedAway(old(pt.pmem.live), pt.pmem.live)
  {
    hide Tiles, Threads, AllAligned, IsTree, Translate, OrderForSize, Size, Owned;
    granted := AllocateLayout(pt.pmem, size, align);
    NewBlockOwned(pt.tables, pt.root, pt.subtables, old(pt.pmem.live), pt.pmem.live, pt.pmem.region);
    if granted.NoMemory? {
      return NoMemory, Ok(());
    }
    ghost var b: Block :| b.order == OrderForSize(size) && b !in old(pt.pmem.live) && pt.pmem.live == old(pt.pmem.live) + {b}
                          && granted == if PhysToVirt(b.addr) < WORD then Pointer(PhysToVirt(b.addr)) else AddressPanics;
    LiveInRegion(pt.pmem.Abstract(), pt.pmem.live, pt.pmem.region, b);
    RegionBound(pt.pmem.Abstract(), pt.pmem.live, pt.pmem.region, b.addr);
    LiveOrder(pt.pmem.Abstract(), pt.pmem.live, pt.pmem.region, b);
    DirectAt(pt.tables, pt.root, start, end, b.addr);
    var back := DeallocateLayout(pt, granted.ptr, size);
    r := back.result;
    assert old(pt.pmem.live) + {b} - {b} == old(pt.pmem.live);
  }

  lemma {:induction false} DirectAt(tables: Tables, root: nat, start: nat, end: nat, p: usize)
    requires DirectlyMapped(tables, root, start, end) && start <= p < end
    ensures PhysToVirt(p) < WORD && Translate(tables, root, Sv48, PhysToVirt(p)) == Mapped(p, Megapage, RW)
  {
    hide Translate;
  }

  lemma {:induction false} LiveOrder(s: State, live: set<Block>, region: set<int>, b: Block)
    requires Tiles(s, live, region) && b in live
    ensures b.order < MAX_ORDER
  {
  }

  /** A block taken beside the tables is none of them. */
  lemma {:induction false} NewBlockOwned(
      tables: Tables, root: nat, subs: seq<nat>, live: set<Block>, live': set<Block>, region: set<int>)
    requires Owned(tables, root, subs, live, region) && live <= live'
    ensures Owned(tables, root, subs, live', region)
    ensures forall t :: t in tables ==> Block(t, 0) in live
  {
  }

  /** Boot, then an allocation and its return: only the tables of the direct map remain. */
  method BootThenRoundTrip(pt: PageTable, start: usize, end: usize, size: nat, align: nat)
      returns (mapped: bool, granted: Granted, r: Result<()>)
    requires pt.Valid() && pt.mode == Sv48
    requires forall x :: x in pt.pmem.region ==> start <= x < end
    modifies pt, pt.pmem, pt.pmem.orders
    ensures pt.Valid()
    ensures mapped <==> DirectMapFits(old(pt.tables), pt.root, old(pt.tree), old(pt.pmem.free), start, end)
    ensures !mapped ==> granted == NoMemory && r == Ok(())
    ensures mapped ==> !granted.AddressPanics?
    ensures mapped && r.Ok? ==> pt.OnlyTablesTaken()
    ensures mapped && granted.Pointer? ==> BASE <= granted.ptr && granted.ptr - BASE in pt.pmem.region
    ensures mapped && (forall x :: x in pt.pmem.region ==> x >= 0x100_0000) ==> r.Ok?
  {
    hide Tiles, Threads, AllAligned, IsTree, TablesTaken, DirectlyMapped, DirectUpTo, Owned, DirectMapFits;
    mapped := MapPhysical(pt, start, end);
    if !mapped {
      return false, NoMemory, Ok(());
    }
    granted, r := AllocateThenDeallocateLayout(pt, size, align, start, end);
  }
}
