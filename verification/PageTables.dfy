/** The page table object: the tables in memory and the list of subtables, updated in place,
    with table pages taken from the physical allocator. */
module PageTables {
  import opened Bits
  import opened Blocks
  import opened BuddySpec
  import opened BuddyAllocator
  import opened PageEntry
  import opened PageWalk
  import opened PageTree
  import opened PageSpec
  import opened HardwareWalk
  import opened PageBudget

  datatype MapError =
    | UnsupportedPageSize
    | InvalidAddress
    | UnalignedAddress
    | AlreadyMapped
    | Alloc(error: BuddySpec.Error)

  /** Where the descent of `map` ends: at the table to write in, or with an error. */
  datatype Descent = At(table: nat) | Stopped(error: MapError)

  datatype Unmapping = Cleared(was: bool) | UnmapPanics

  datatype Outcome = Done | Refused(error: MapError)

  const TABLE_LIMIT: nat := 0x100_0000_0000_0000

  /** No walk is different. */
  ghost predicate SameWalks(tables: Tables, tables': Tables, root: nat, top: nat) {
    forall w: nat :: Walk(tables', root, w, top) == Walk(tables, root, w, top)
  }

  /** A new zeroed table at `page` below the empty entry `p`, `i`. */
  ghost predicate Grew(tables: Tables, tree: Tree, tables': Tables, tree': Tree,
                       root: nat, levels: nat, p: seq<nat>, i: nat, page: nat) {
    && page < WORD && HangOk(tables, root, tree, levels, p, i, page) && BranchEntry(page) < WORD
    && tables' == Hang(tables, tree[p], i, page)
    && tree' == tree[p + [i] := page]
  }

  ghost predicate SameTranslations(tables: Tables, tables': Tables, root: nat, mode: Mode) {
    forall w: usize :: Translate(tables', root, mode, w) == Translate(tables, root, mode, w)
  }

  /** Exactly the page that held `vaddr` answers nothing now. */
  ghost predicate Unmaps(tables: Tables, tables': Tables, root: nat, mode: Mode, vaddr: nat, size: PageSize) {
    forall w: usize :: Translate(tables', root, mode, w)
                    == if InPage(mode, w, PageOf(mode, vaddr, size), size) then NotMapped
                       else Translate(tables, root, mode, w)
  }

  /** The walk of `vaddr` meets a leaf at the level of the page or above. */
  predicate Occupied(tables: Tables, root: nat, mode: Mode, vaddr: nat, size: PageSize) {
    var w := Walk(tables, root, vaddr, mode.Levels() - 1);
    w.Found? && w.level >= size.Level()
  }

  predicate BadAddress(mode: Mode, vaddr: usize) {
    vaddr >= mode.MaxAddress() || And(vaddr, Not(mode.MaxAddress())) != 0
  }

  /** Root and subtables are the tables in memory, each once, each a live page. */
  ghost predicate Owned(tables: Tables, root: nat, subtables: seq<nat>, live: set<Block>, region: set<int>) {
    && NoDuplicates(subtables) && root !in subtables
    && (forall t :: t in tables <==> t == root || t in subtables)
    && (forall t :: t in tables ==> Block(t, 0) in live)
    && (forall x :: x in region ==> x < TABLE_LIMIT)
  }

  /** The live blocks grew by the new subtables and by nothing else. */
  ghost predicate TablesTaken(live: set<Block>, live': set<Block>, subs: seq<nat>, subs': seq<nat>) {
    && live <= live'
    && (forall b :: b in live' && b !in live ==> b.order == 0 && b.addr in subs' && b.addr !in subs)
    && (forall t :: t in subs' && t !in subs ==> Block(t, 0) !in live)
    && (forall t :: t in subs ==> t in subs')
  }

  class PageTable {
    const mode: Mode
    const root: nat
    const pmem: Allocator
    var tables: Tables
    var subtables: seq<nat>
    ghost var tree: Tree

    ghost predicate Valid()
      reads this, pmem, pmem.orders
    {
      && pmem.Valid() && AllAligned(pmem.Abstract(), pmem.live)
      && IsTree(tables, root, tree, mode.Levels())
      && Owned(tables, root, subtables, pmem.live, pmem.region)
    }

    /** The processor reads every entry as the kernel does. */
    ghost predicate Conforming()
      reads this
    {
      ConformingTree(tables, tree, mode.Levels())
    }

    twostate predicate StaysConforming()
      reads this
    {
      old(Conforming()) ==> Conforming()
    }

    /** `new`: an empty root table in a live page. */
    constructor (mode: Mode, pmem: Allocator, root: nat)
      requires pmem.Valid() && AllAligned(pmem.Abstract(), pmem.live) && Block(root, 0) in pmem.live
      requires forall x :: x in pmem.region ==> x < TABLE_LIMIT
      ensures Valid() && this.mode == mode && this.pmem == pmem && this.root == root
      ensures tables == map[root := Zeros()] && subtables == [] && Conforming()
      ensures forall w: usize :: Translate(tables, root, mode, w) == NotMapped
    {
      hide Tiles, AllAligned, FreeListMemory.Threads, IsTree, Translate, Zeros, ConformingTree;
      EmptyTree(mode, root);
      EmptyTreeConforms(mode, root);
      this.mode, this.pmem, this.root := mode, pmem, root;
      tables, subtables, tree := map[root := Zeros()], [], map[[] := root];
    }

    twostate predicate OnlyTablesTaken()
      reads this, pmem
    {
      pmem.region == old(pmem.region) && TablesTaken(old(pmem.live), pmem.live, old(subtables), subtables)
    }

    /** The allocator has given `n` pages. */
    twostate predicate TookPages(n: nat)
      reads this, pmem
    {
      pmem.Abstract() == TakePages(old(pmem.Abstract()), n) && pmem.free == old(pmem.free) - PAGE_SIZE * n
    }

    /** A zeroed page from the allocator becomes a table below an empty entry. */
    method Grow(table: nat, i: nat, ghost p: seq<nat>) returns (r: Result<nat>)
      requires Valid() && p in tree && tree[p] == table && i < 512 && |p| + 1 < mode.Levels()
      requires table in tables && KindOf(tables[table][i]).Empty?
      modifies this`tables, this`subtables, this`tree, pmem, pmem.orders
      ensures Valid() && OnlyTablesTaken()
      ensures r.Err? ==> tables == old(tables) && subtables == old(subtables) && tree == old(tree)
                         && pmem.live == old(pmem.live)
      ensures r.Ok? ==> Grew(old(tables), old(tree), tables, tree, root, mode.Levels(), p, i, r.value)
      ensures StaysConforming()
      ensures r.Err? <==> old(pmem.free) == 0
      ensures r.Err? ==> r.error == NoMemoryAvailable
      ensures r.Ok? ==> TookPages(1)
    {
      hide ConformingTree, TakePages, Tiles, AllAligned, IsTree, FreeListMemory.Threads, KindOf, BranchEntry, Ops.Allocate, Ops.SplitsInside, Owned, TablesTaken, Hang;
      TakenRefl(pmem.live, subtables);
      Ops.AlignedSplitsInside(pmem.Abstract(), pmem.live, pmem.region, 0);
      OnePage(pmem.Abstract(), pmem.live, pmem.region);
      TakeFirst(pmem.Abstract());
      r := pmem.Allocate(0);
      if r.Err? {
        return;
      }
      var page := r.value;
      NewPageOwned(tables, root, subtables, old(pmem.live), pmem.region, page);
      NewPageFacts(pmem.Abstract(), pmem.live, pmem.region, page);
      HangKeepsTree(tables, root, tree, mode.Levels(), p, i, page);
      if Conforming() { HangConforms(tables, root, tree, mode.Levels(), p, i, page); }
      HangOwned(tables, root, subtables, pmem.live, pmem.region, table, i, page);
      tables := Hang(tables, table, i, page);
      subtables := subtables + [page];
      tree := tree[p + [i] := page];
    }

    /** One level down: through a branch, or through a table hung into an empty entry. No walk
        changes, and a leaf stops the descent before anything is written. */
    method StepDown(vaddr: usize, table: nat, level: nat, ghost target: nat) returns (r: Descent)
      requires Valid() && level > target && Reached(tables, root, tree, mode, vaddr, level, table)
      modifies this`tables, this`subtables, this`tree, pmem, pmem.orders
      ensures Valid() && OnlyTablesTaken()
      ensures SameWalks(old(tables), tables, root, mode.Levels() - 1)
      ensures r.At? ==> Reached(tables, root, tree, mode, vaddr, level - 1, r.table)
      ensures r.At? ==> (Untouched() && old(tables)[table] != Zeros()) || tables[r.table] == Zeros()
      ensures r.Stopped? ==> (r.error == AlreadyMapped && Untouched() && tables[table] != Zeros()) || r.error.Alloc?
      ensures r.Stopped? ==>
                var w := Walk(old(tables), root, vaddr, mode.Levels() - 1);
                if r.error == AlreadyMapped then w.Found? && w.level == level else w.Unmapped?
      ensures StaysConforming()
      ensures r.At? ==>
                var n: nat := if old(tree).Keys == tree.Keys then 0 else 1;
                TookPages(n) && Missing(old(tables), table, vaddr, level, target) == n + Missing(tables, r.table, vaddr, level - 1, target)
      ensures r.At? ==> tree.Keys == old(tree).Keys + {PathTo(mode.Levels(), vaddr, mode.Levels() - level)}
      ensures r.Stopped? && r.error != AlreadyMapped ==>
                r.error == Alloc(NoMemoryAvailable) && old(pmem.free) == 0 && Missing(old(tables), table, vaddr, level, target) > 0
      ensures r.Stopped? && r.error == AlreadyMapped ==> Missing(old(tables), table, vaddr, level, target) == 0
    {
      hide ConformingTree, TakePages, IsTree, KindOf, Walk, Vpn, PathTo, Tiles, AllAligned, FreeListMemory.Threads, SameWalks, Grew, Zeros, Owned, TablesTaken;
      TakenRefl(pmem.live, subtables);
      ghost var p := PathTo(mode.Levels(), vaddr, mode.Levels() - 1 - level);
      var i := Vpn(vaddr, level);
      ZeroEntry(tables, table, i);
      WalkStep(tables, root, tree, mode, vaddr, level, table);
      WalksRefl(tables, root, mode.Levels() - 1);
      match KindOf(tables[table][i]) {
        case Leaf =>
          return Stopped(AlreadyMapped);
        case Branch(next) =>
          PathStep(mode.Levels(), vaddr, mode.Levels() - 1 - level);
          TookNone(pmem.Abstract());
          return At(next);
        case Empty =>
          var page := Grow(table, i, p);
          if page.Err? {
            return Stopped(Alloc(page.error));
          }
          GrewFacts(old(tables), old(tree), tables, tree, root, mode, p, i, page.value, vaddr, level);
          GrewKeys(old(tables), old(tree), tables, tree, root, mode, p, i, page.value, vaddr, level);
          MissingBelowNew(tables, page.value, vaddr, level - 1, target);
          return At(page.value);
      }
    }

    /** The loop of `map`: down to the table of level `target`. */
    method Descend(vaddr: usize, target: nat) returns (r: Descent)
      requires Valid() && target < mode.Levels()
      modifies this`tables, this`subtables, this`tree, pmem, pmem.orders
      ensures Valid() && OnlyTablesTaken()
      ensures SameWalks(old(tables), tables, root, mode.Levels() - 1)
      ensures r.At? ==> Reached(tables, root, tree, mode, vaddr, target, r.table)
      ensures r.At? ==> Untouched() || tables[r.table] == Zeros()
      ensures r.Stopped? ==> (r.error == AlreadyMapped && Untouched()) || r.error.Alloc?
      ensures r.Stopped? ==>
                var w := Walk(old(tables), root, vaddr, mode.Levels() - 1);
                if r.error == AlreadyMapped then w.Found? && w.level > target else w.Unmapped?
      ensures StaysConforming()
      ensures var need := PAGE_SIZE * Missing(old(tables), root, vaddr, mode.Levels() - 1, target);
              && (r.At? ==> TookPages(Missing(old(tables), root, vaddr, mode.Levels() - 1, target)))
              && (r.Stopped? && r.error != AlreadyMapped ==> r.error == Alloc(NoMemoryAvailable))
              && (r.Stopped? && r.error != AlreadyMapped <==> old(pmem.free) < need)
      ensures r.At? ==> Extends(old(tree), tree, mode.Levels(), vaddr, mode.Levels() - 1 - target)
    {
      hide ConformingTree, TakePages, Missing, Extends, IsTree, Walk, PathTo, Tiles, AllAligned, FreeListMemory.Threads, SameWalks, Reached, Zeros, Owned, TablesTaken;
      TakenRefl(pmem.live, subtables);
      var level := mode.Levels() - 1;
      r := At(root);
      StartReached(tables, root, tree, mode, vaddr);
      ReachedTable(tables, root, tree, mode, vaddr, level, root);
      WalksRefl(tables, root, mode.Levels() - 1);
      ghost var taken: nat := 0;
      TookNone(pmem.Abstract());
      ExtendsRefl(tree, mode.Levels(), vaddr, tables, root);
      while level > target
        invariant target <= level < mode.Levels() && r.At? && r.table in tables
        invariant Valid() && OnlyTablesTaken()
        invariant SameWalks(old(tables), tables, root, mode.Levels() - 1)
        invariant Reached(tables, root, tree, mode, vaddr, level, r.table)
        invariant Untouched() || tables[r.table] == Zeros()
        invariant StaysConforming()
        invariant TookPages(taken) && Missing(old(tables), root, vaddr, mode.Levels() - 1, target)
                                     == taken + Missing(tables, r.table, vaddr, level, target)
        invariant Extends(old(tree), tree, mode.Levels(), vaddr, mode.Levels() - 1 - level)
      {
        ghost var tables0, subtables0, live0, tree0, s0 := tables, subtables, pmem.live, tree, pmem.Abstract();
        FreeIsNat(pmem.Abstract(), pmem.live, pmem.region);
        SameWalkOf(old(tables), tables, root, mode.Levels() - 1, vaddr);
        r := StepDown(vaddr, r.table, level, target);
        TakenTrans(old(pmem.live), live0, pmem.live, old(subtables), subtables0, subtables);
        WalksTrans(old(tables), tables0, tables, root, mode.Levels() - 1);
        if r.Stopped? {
          return;
        }
        ExtendsMore(old(tree), tree0, tree, mode.Levels(), vaddr, mode.Levels() - 1 - level);
        ghost var n: nat := if tree0.Keys == tree.Keys then 0 else 1;
        TakeMore(old(pmem.Abstract()), taken, n);
        taken := taken + n;
        level := level - 1;
        ReachedTable(tables, root, tree, mode, vaddr, level, r.table);
      }
      NoneMissing(tables, r.table, vaddr, target);
      FreeIsNat(pmem.Abstract(), pmem.live, pmem.region);
    }

    /** `map`. On success the page, and only the page, answers with the new mapping, even where
        a whole subtree was replaced, if and only if there is a flag; without one the tables are
        no tree any more. On every error no translation changes, and a page that is already
        mapped leaves the tables as they were. The processor goes on to read the tables as the
        kernel does if and only if the page is accessible to it. */
    method Map(paddr: usize, vaddr: usize, size: PageSize, flags: Flags) returns (r: Outcome)
      requires Valid()
      modifies this`tables, this`subtables, this`tree, pmem, pmem.orders
      ensures OnlyTablesTaken() && pmem.Valid() && AllAligned(pmem.Abstract(), pmem.live)
      ensures r.Refused? || flags != 0 ==> Valid()
      ensures r.Done? ==> (Updates(old(tables), tables, root, mode, paddr, vaddr, size, flags) <==> flags != 0)
      ensures r.Refused? ==> StaysConforming()
      ensures r.Done? && flags != 0 && old(Conforming()) ==> (Conforming() <==> Accessible(paddr, flags))
      ensures r.Done? && flags != 0 && old(Conforming()) ==>
                (SameReading(tables, root, mode.Levels() - 1) <==> Accessible(paddr, flags))
      ensures r.Refused? ==> SameTranslations(old(tables), tables, root, mode)
      ensures r == Refused(UnsupportedPageSize) <==> size.Level() >= mode.Levels()
      ensures r == Refused(InvalidAddress) <==> size.Level() < mode.Levels() && vaddr >= mode.MaxAddress()
      ensures r == Refused(UnalignedAddress) <==>
                size.Level() < mode.Levels() && vaddr < mode.MaxAddress() && !(size.IsAligned(paddr) && size.IsAligned(vaddr))
      ensures r == Refused(AlreadyMapped) ==> Untouched()
      ensures r == Refused(AlreadyMapped) <==>
                size.Level() < mode.Levels() && vaddr < mode.MaxAddress() && size.IsAligned(paddr) && size.IsAligned(vaddr)
                && Occupied(old(tables), root, mode, vaddr, size)
      ensures r.Refused? && r.error.Alloc? ==> r.error == Alloc(NoMemoryAvailable)
      ensures r == Refused(Alloc(NoMemoryAvailable)) <==>
                size.Level() < mode.Levels() && vaddr < mode.MaxAddress() && size.IsAligned(paddr) && size.IsAligned(vaddr)
                && old(pmem.free) < PAGE_SIZE * Missing(old(tables), root, vaddr, mode.Levels() - 1, size.Level())
      ensures r.Done? ==> TookPages(Missing(old(tables), root, vaddr, mode.Levels() - 1, size.Level()))
      ensures r.Done? ==> ExtendsTo(old(tree), tree, mode.Levels(), vaddr, mode.Levels() - 1 - size.Level())
    {
      hide IsTree, Walk, Tiles, AllAligned, FreeListMemory.Threads, Updates, Translate, And, BadAddress, Occupied;
      hide Owned, TablesTaken, ConformingTree, Accessible, SameReading, Missing, TakePages, ExtendsTo;
      TakenRefl(pmem.live, subtables);
      BadAddressMeans(mode, vaddr);
      if size.Level() >= mode.Levels() {
        return Refused(UnsupportedPageSize);
      }
      if BadAddress(mode, vaddr) {
        return Refused(InvalidAddress);
      }
      if !size.IsAligned(paddr) || !size.IsAligned(vaddr) {
        return Refused(UnalignedAddress);
      }
      r := Place(paddr, vaddr, size, flags);
    }

    /** `map` once its arguments have been checked. */
    method Place(paddr: usize, vaddr: usize, size: PageSize, flags: Flags) returns (r: Outcome)
      requires Valid() && size.Level() < mode.Levels() && vaddr < mode.MaxAddress()
      requires size.IsAligned(paddr) && size.IsAligned(vaddr)
      modifies this`tables, this`subtables, this`tree, pmem, pmem.orders
      ensures OnlyTablesTaken() && pmem.Valid() && AllAligned(pmem.Abstract(), pmem.live)
      ensures r.Refused? || flags != 0 ==> Valid()
      ensures r.Done? ==> (Updates(old(tables), tables, root, mode, paddr, vaddr, size, flags) <==> flags != 0)
      ensures r.Refused? ==> StaysConforming()
      ensures r.Done? && flags != 0 && old(Conforming()) ==> (Conforming() <==> Accessible(paddr, flags))
      ensures r.Done? && flags != 0 && old(Conforming()) ==>
                (SameReading(tables, root, mode.Levels() - 1) <==> Accessible(paddr, flags))
      ensures r.Refused? ==> SameTranslations(old(tables), tables, root, mode) && (r.error == AlreadyMapped || r.error.Alloc?)
      ensures r == Refused(AlreadyMapped) ==> Untouched()
      ensures r == Refused(AlreadyMapped) <==> Occupied(old(tables), root, mode, vaddr, size)
      ensures r.Refused? && r.error.Alloc? ==> r.error == Alloc(NoMemoryAvailable)
      ensures r == Refused(Alloc(NoMemoryAvailable)) <==>
                old(pmem.free) < PAGE_SIZE * Missing(old(tables), root, vaddr, mode.Levels() - 1, size.Level())
      ensures r.Done? ==> TookPages(Missing(old(tables), root, vaddr, mode.Levels() - 1, size.Level()))
      ensures r.Done? ==> ExtendsTo(old(tree), tree, mode.Levels(), vaddr, mode.Levels() - 1 - size.Level())
    {
      hide Missing, TakePages, Extends, ExtendsTo, IsTree, KindOf, Walk, Vpn, PathTo, Tiles, AllAligned, FreeListMemory.Threads, SameWalks;
      hide Updates, SameTranslations, Translate, LeafEntry, Owned, TablesTaken, Prune, Zeros, ConformingTree, Accessible, SameReading;
      var d := Descend(vaddr, size.Level());
      WalksGiveTranslations(old(tables), tables, root, mode);
      SameWalkOf(old(tables), tables, root, mode.Levels() - 1, vaddr);
      if d.Stopped? {
        return Refused(d.error);
      }
      var table, i := d.table, Vpn(vaddr, size.Level());
      ghost var p := PathTo(mode.Levels(), vaddr, mode.Levels() - 1 - size.Level());
      WalkStep(tables, root, tree, mode, vaddr, size.Level(), table);
      ZeroEntry(tables, table, i);
      if KindOf(tables[table][i]).Leaf? {
        return Refused(AlreadyMapped);
      }
      LeafStep(old(tables), tables, root, tree, mode, paddr, vaddr, size, flags);
      WriteOwned(tables, root, subtables, pmem.live, pmem.region, table, i, LeafEntry(paddr, flags));
      ExtendsPruned(old(tree), tree, mode.Levels(), vaddr, mode.Levels() - 1 - size.Level(), p, i);
      tables := Write(tables, table, i, LeafEntry(paddr, flags));
      tree := Prune(tree, p, i);
      return Done;
    }

    /** `traverse`: the walk, as a loop over table and level. */
    method Traverse(vaddr: usize) returns (r: Walked)
      requires Valid()
      ensures r == Walk(tables, root, vaddr, mode.Levels() - 1)
      ensures !r.Dangling?
      ensures r.Found? ==> LeafAt(tables, tree, mode.Levels(), vaddr, r)
    {
      hide IsTree, KindOf, Vpn, PathTo, Tiles, AllAligned, FreeListMemory.Threads;
      var table: nat, level: nat := root, mode.Levels() - 1;
      StartReached(tables, root, tree, mode, vaddr);
      StaysInTree(tables, root, tree, mode, vaddr);
      while true
        invariant level < mode.Levels()
        invariant Reached(tables, root, tree, mode, vaddr, level, table)
        decreases level
      {
        var index := Vpn(vaddr, level);
        var entry := tables[table][index];
        WalkStep(tables, root, tree, mode, vaddr, level, table);
        match KindOf(entry) {
          case Empty => return Unmapped;
          case Leaf => return Found(table, index, level, entry);
          case Branch(next) =>
            if level == 0 {
              return Unmapped;
            }
            table := next;
        }
        level := level - 1;
      }
    }

    /** `translate`. */
    method TranslateAddress(vaddr: usize) returns (r: Translation)
      requires Valid()
      ensures r == Translate(tables, root, mode, vaddr)
    {
      hide IsTree, KindOf, Vpn, PathTo, Tiles, AllAligned, FreeListMemory.Threads, Walk, LeafAt;
      var w := Traverse(vaddr);
      if !w.Found? {
        return NotMapped;
      }
      if w.level >= 3 {
        return Panics;
      }
      var size := SizeAt(w.level);
      return Translation.Mapped((AddrOf(w.entry) + Offset(vaddr, size)) % WORD, size, FlagsOf(w.entry));
    }

    /** `unmap`: exactly the page that contains the address becomes unmapped. */
    method Unmap(vaddr: usize) returns (r: Unmapping)
      requires Valid()
      modifies this`tables, this`tree
      ensures Valid()
      ensures r == Cleared(false) <==> Translate(old(tables), root, mode, vaddr) == NotMapped
      ensures r == UnmapPanics <==> Translate(old(tables), root, mode, vaddr) == Panics
      ensures r != Cleared(true) ==> tables == old(tables)
      ensures r == Cleared(true) ==> Unmaps(old(tables), tables, root, mode, vaddr, Translate(old(tables), root, mode, vaddr).size)
      ensures StaysConforming()
    {
      hide ConformingTree, IsTree, KindOf, Vpn, PathTo, Tiles, AllAligned, FreeListMemory.Threads, Walk, Unmaps, Owned, Prune;
      var w := Traverse(vaddr);
      if !w.Found? {
        return Cleared(false);
      }
      if w.level >= 3 {
        return UnmapPanics;
      }
      ClearStep(tables, root, tree, mode, vaddr, w);
      if Conforming() { ClearConforms(tables, root, tree, mode, vaddr, w); }
      WriteOwned(tables, root, subtables, pmem.live, pmem.region, w.table, w.index, 0);
      ghost var p := PathTo(mode.Levels(), vaddr, mode.Levels() - 1 - w.level);
      tables := Write(tables, w.table, w.index, 0);
      tree := Prune(tree, p, w.index);
      return Cleared(true);
    }

    /** `pmem::free` of one page, with its error ignored. */
    method GiveBack(page: nat)
      requires pmem.Valid() && AllAligned(pmem.Abstract(), pmem.live) && Block(page, 0) in pmem.live
      modifies pmem, pmem.orders
      ensures pmem.Valid() && AllAligned(pmem.Abstract(), pmem.live) && pmem.region == old(pmem.region)
      ensures pmem.live == old(pmem.live) - {Block(page, 0)}
              || (page < 0x100_0000 && MergedAway(old(pmem.live) - {Block(page, 0)}, pmem.live))
      ensures old(pmem.live) - {Block(page, 0)} <= pmem.live
    {
      hide Tiles, AllAligned, FreeListMemory.Threads, Ops.Deallocate, Ops.MergesIntoNull, Size;
      if page >= 0x100_0000 {
        Ops.HighBlocksNeverLeak(pmem.Abstract(), pmem.live, pmem.region, page, 0);
      }
      var ignored := pmem.Deallocate(page, 0);
    }

    /** `drop`: every subtable goes back to the allocator, once. An error is ignored; the block
        that it leaves behind starts at its own size, which is below 16 MiB. */
    method Drop()
      requires Valid()
      modifies this`subtables, pmem, pmem.orders
      ensures pmem.Valid() && AllAligned(pmem.Abstract(), pmem.live) && subtables == []
      ensures GivenBack(old(pmem.live), pmem.live, old(subtables))
      ensures AllHigh(old(subtables)) ==> pmem.live == old(pmem.live) - BlocksOf(old(subtables), 0)
    {
      hide IsTree, Tiles, AllAligned, FreeListMemory.Threads, BlocksOf, Owned, Dropping, GivenBack, MergedAway;
      ghost var all, freed := subtables, [];
      StartDropping(tables, root, subtables, pmem.live, pmem.region);
      while subtables != []
        invariant pmem.Valid() && AllAligned(pmem.Abstract(), pmem.live)
        invariant Dropping(old(pmem.live), pmem.live, all, freed, subtables)
        decreases |subtables|
      {
        var t := subtables[0];
        ghost var before := pmem.live;
        NextDropped(old(pmem.live), pmem.live, all, freed, subtables);
        GiveBack(t);
        DroppedOne(old(pmem.live), before, pmem.live, all, freed, subtables);
        freed := freed + [t];
        subtables := subtables[1..];
      }
      AllDropped(old(pmem.live), pmem.live, all, freed);
    }

    twostate predicate Untouched()
      reads this, pmem
    {
      tables == old(tables) && subtables == old(subtables) && pmem.live == old(pmem.live)
    }
  }

  /** `q` is the path of `vaddr` down to some depth of at most `depth`. */
  predicate OnPath(levels: nat, vaddr: nat, depth: nat, q: seq<nat>)
    requires depth <= levels
  {
    |q| <= depth && q == PathTo(levels, vaddr, |q|)
  }

  /** The tree gained the tables on the path of `vaddr`, and no others. */
  ghost predicate Extends(tree: Tree, tree': Tree, levels: nat, vaddr: nat, depth: nat)
    requires depth <= levels
  {
    forall q :: q in tree' <==> q in tree || OnPath(levels, vaddr, depth, q)
  }

  /** The same, as far as paths of at most that depth go: a leaf may have replaced a subtree. */
  ghost predicate ExtendsTo(tree: Tree, tree': Tree, levels: nat, vaddr: nat, depth: nat)
    requires depth <= levels
  {
    forall q :: |q| <= depth ==> (q in tree' <==> q in tree || OnPath(levels, vaddr, depth, q))
  }

  lemma {:induction false} ExtendsRefl(tree: Tree, levels: nat, vaddr: nat, tables: Tables, root: nat)
    requires IsTree(tables, root, tree, levels)
    ensures Extends(tree, tree, levels, vaddr, 0)
  {
    hide IsTree;
    RootFacts(tables, root, tree, levels);
    EmptyPath(levels, vaddr);
  }

  lemma {:induction false} ExtendsMore(a: Tree, b: Tree, c: Tree, levels: nat, vaddr: nat, depth: nat)
    requires depth < levels && Extends(a, b, levels, vaddr, depth)
    requires c.Keys == b.Keys + {PathTo(levels, vaddr, depth + 1)}
    ensures Extends(a, c, levels, vaddr, depth + 1)
  {
    hide PathTo;
    forall q ensures q in c <==> q in a || OnPath(levels, vaddr, depth + 1, q) {
      assert q in c <==> q in c.Keys;
      assert q in b <==> q in b.Keys;
      if q == PathTo(levels, vaddr, depth + 1) { assert |q| == depth + 1; }
    }
  }

  lemma {:induction false} ExtendsPruned(
      a: Tree, b: Tree, levels: nat, vaddr: nat, depth: nat, p: seq<nat>, i: nat)
    requires depth <= levels && Extends(a, b, levels, vaddr, depth) && |p| == depth
    ensures ExtendsTo(a, Prune(b, p, i), levels, vaddr, depth)
  {
    hide PathTo;
    assert forall q: seq<nat> :: |q| <= depth ==> !Below(p, i, q);
  }

  lemma {:induction false} OccupiedMeans(tables: Tables, root: nat, mode: Mode, vaddr: usize, size: PageSize)
    ensures Occupied(tables, root, mode, vaddr, size) <==> InTheWay(Translate(tables, root, mode, vaddr), size)
  {
    hide Walk, AddrOf, FlagsOf, Offset;
  }

  /** When `map` of a well-addressed page succeeds, in terms of the tree. */
  lemma {:induction false} MapDecided(tables: Tables, root: nat, tree: Tree, mode: Mode, vaddr: usize, size: PageSize, free: int)
    requires IsTree(tables, root, tree, mode.Levels()) && size.Level() < mode.Levels() && vaddr < mode.MaxAddress()
    ensures var paths := Shallow(tree, DepthOf(mode, size));
            var n := CountMissing(paths, mode.Levels(), vaddr, 0, DepthOf(mode, size));
            var m := Missing(tables, root, vaddr, mode.Levels() - 1, size.Level());
            && (!Occupied(tables, root, mode, vaddr, size) ==> m == n)
            && (!Occupied(tables, root, mode, vaddr, size) <==> PageFree(tables, root, mode, size, vaddr))
  {
    hide IsTree, Walk, PathTo, Missing, CountMissing, Translate;
    OccupiedMeans(tables, root, mode, vaddr, size);
    if !Occupied(tables, root, mode, vaddr, size) {
      RootFacts(tables, root, tree, mode.Levels());
      EmptyPath(mode.Levels(), vaddr);
      MissingIsCounted(tables, root, tree, mode.Levels(), vaddr, 0, DepthOf(mode, size));
      CountSame(tree.Keys, Shallow(tree, DepthOf(mode, size)), mode.Levels(), vaddr, 0, DepthOf(mode, size));
    }
  }

  lemma {:induction false} ShallowGrows(tree: Tree, tree': Tree, mode: Mode, vaddr: nat, size: PageSize)
    requires size.Level() < mode.Levels() && ExtendsTo(tree, tree', mode.Levels(), vaddr, DepthOf(mode, size))
    ensures Shallow(tree', DepthOf(mode, size))
         == Shallow(tree, DepthOf(mode, size)) + PathSet(mode.Levels(), vaddr, DepthOf(mode, size))
  {
    hide PathTo;
    var d := DepthOf(mode, size);
    forall q ensures q in Shallow(tree', d) <==> q in Shallow(tree, d) + PathSet(mode.Levels(), vaddr, d) {
      if q in PathSet(mode.Levels(), vaddr, d) {
        var k :| 0 <= k <= d && q == PathTo(mode.Levels(), vaddr, k);
        assert |q| == k;
      }
    }
  }

  lemma {:induction false} TakeFirst(s: State)
    ensures TakePages(s, 1) == Ops.Allocate(s, 0).0
  {
    hide Ops.Allocate;
    assert TakePages(Ops.Allocate(s, 0).0, 0) == Ops.Allocate(s, 0).0;
  }

  lemma {:induction false} TookNone(s: State)
    ensures TakePages(s, 0) == s
  {
  }

  lemma {:induction false} NoneMissing(tables: Tables, table: nat, vaddr: nat, level: nat)
    ensures Missing(tables, table, vaddr, level, level) == 0
  {
  }

  lemma {:induction false} FreeIsNat(s: State, live: set<Block>, region: set<int>)
    requires Tiles(s, live, region)
    ensures s.free >= 0
  {
    hide Partition, ListsOk, FreeSet;
  }

  lemma {:induction false} GrewKeys(
      tables: Tables, tree: Tree, tables': Tables, tree': Tree, root: nat, mode: Mode,
      p: seq<nat>, i: nat, page: nat, vaddr: nat, level: nat)
    requires 0 < level < mode.Levels() && p == PathTo(mode.Levels(), vaddr, mode.Levels() - 1 - level)
    requires i == Vpn(vaddr, level)
    requires Grew(tables, tree, tables', tree', root, mode.Levels(), p, i, page)
    ensures tree'.Keys == tree.Keys + {PathTo(mode.Levels(), vaddr, mode.Levels() - level)} && tree'.Keys != tree.Keys
    ensures page in tables'
  {
    hide IsTree, KindOf, Vpn, PathTo, BranchEntry;
    PathStep(mode.Levels(), vaddr, mode.Levels() - 1 - level);
    HangKeepsTree(tables, root, tree, mode.Levels(), p, i, page);
    assert p + [i] in tree'.Keys && p + [i] !in tree.Keys;
  }

  lemma {:induction false} TakenRefl(live: set<Block>, subs: seq<nat>)
    ensures TablesTaken(live, live, subs, subs)
  {
  }

  lemma {:induction false} TakenTrans(a: set<Block>, b: set<Block>, c: set<Block>, s: seq<nat>, t: seq<nat>, u: seq<nat>)
    requires TablesTaken(a, b, s, t) && TablesTaken(b, c, t, u)
    ensures TablesTaken(a, c, s, u)
  {
  }

  /** A page just taken is not a table yet. */
  lemma {:induction false} NewPageOwned(
      tables: Tables, root: nat, subtables: seq<nat>, live: set<Block>, region: set<int>, page: nat)
    requires Owned(tables, root, subtables, live, region) && Block(page, 0) !in live
    ensures page !in tables
    ensures Owned(tables, root, subtables, live + {Block(page, 0)}, region)
    ensures forall x :: x in region ==> x < TABLE_LIMIT
    ensures TablesTaken(live, live + {Block(page, 0)}, subtables, subtables + [page])
  {
  }

  lemma {:induction false} HangOwned(
      tables: Tables, root: nat, subtables: seq<nat>, live: set<Block>, region: set<int>, table: nat, i: nat, page: usize)
    requires Owned(tables, root, subtables, live, region) && page !in tables && Block(page, 0) in live
    requires table in tables && i < 512 && BranchEntry(page) < WORD
    ensures Owned(Hang(tables, table, i, page), root, subtables + [page], live, region)
  {
    hide BranchEntry;
  }

  lemma {:induction false} WriteOwned(
      tables: Tables, root: nat, subtables: seq<nat>, live: set<Block>, region: set<int>, table: nat, i: nat, e: usize)
    requires Owned(tables, root, subtables, live, region) && table in tables && i < 512
    ensures Owned(Write(tables, table, i, e), root, subtables, live, region)
  {
  }

  /** `table` is the tree's table of level `level` on the way to `vaddr`. */
  ghost predicate Reached(tables: Tables, root: nat, tree: Tree, mode: Mode, vaddr: nat, level: nat, table: nat) {
    && level < mode.Levels() && IsTree(tables, root, tree, mode.Levels())
    && PathTo(mode.Levels(), vaddr, mode.Levels() - 1 - level) in tree
    && tree[PathTo(mode.Levels(), vaddr, mode.Levels() - 1 - level)] == table && table in tables
    && Walk(tables, table, vaddr, level) == Walk(tables, root, vaddr, mode.Levels() - 1)
  }

  lemma {:induction false} ReachedTable(tables: Tables, root: nat, tree: Tree, mode: Mode, vaddr: nat, level: nat, table: nat)
    requires Reached(tables, root, tree, mode, vaddr, level, table)
    ensures table in tables
  {
  }

  lemma {:induction false} FreedOneMore(live: set<Block>, freed: seq<nat>, t: nat)
    ensures live - BlocksOf(freed + [t], 0) == live - BlocksOf(freed, 0) - {Block(t, 0)}
  {
    hide BlocksOf;
  }

  /** The pages are live no more, everything else still is, and what is live besides is a merged
      block without a buddy. */
  ghost predicate GivenBack(live: set<Block>, live': set<Block>, pages: seq<nat>) {
    && (forall b :: b in live && b !in BlocksOf(pages, 0) ==> b in live')
    && (forall b :: b in live' ==> (b in live && b !in BlocksOf(pages, 0)) || b.addr == Size(b.order))
  }

  lemma {:induction false} GaveBackOne(live0: set<Block>, live: set<Block>, live': set<Block>, freed: seq<nat>, t: nat)
    requires GivenBack(live0, live, freed)
    requires live' == live - {Block(t, 0)} || MergedAway(live - {Block(t, 0)}, live')
    ensures GivenBack(live0, live', freed + [t])
  {
    hide BlocksOf, Size;
  }

  ghost predicate AllHigh(pages: seq<nat>) {
    forall t :: t in pages ==> t >= 0x100_0000
  }

  /** Where `drop` stands: `freed` went back, `rest` is still live, each page once. */
  ghost predicate Dropping(live0: set<Block>, live: set<Block>, all: seq<nat>, freed: seq<nat>, rest: seq<nat>) {
    && all == freed + rest && NoDuplicates(all)
    && (forall i :: 0 <= i < |rest| ==> Block(rest[i], 0) in live)
    && GivenBack(live0, live, freed)
    && (AllHigh(all) ==> live == live0 - BlocksOf(freed, 0))
  }

  lemma {:induction false} StartDropping(tables: Tables, root: nat, subtables: seq<nat>, live: set<Block>, region: set<int>)
    requires Owned(tables, root, subtables, live, region)
    ensures Dropping(live, live, subtables, [], subtables)
  {
    assert forall i :: 0 <= i < |subtables| ==> subtables[i] in tables;
  }

  lemma {:induction false} NextDropped(live0: set<Block>, live: set<Block>, all: seq<nat>, freed: seq<nat>, rest: seq<nat>)
    requires Dropping(live0, live, all, freed, rest) && rest != []
    ensures Block(rest[0], 0) in live
  {
    hide GivenBack, BlocksOf;
  }

  lemma {:induction false} DroppedOne(
      live0: set<Block>, live: set<Block>, live': set<Block>, all: seq<nat>, freed: seq<nat>, rest: seq<nat>)
    requires Dropping(live0, live, all, freed, rest) && rest != []
    requires live' == live - {Block(rest[0], 0)} || (rest[0] < 0x100_0000 && MergedAway(live - {Block(rest[0], 0)}, live'))
    ensures Dropping(live0, live', all, freed + [rest[0]], rest[1..])
  {
    hide GivenBack, BlocksOf, Size, NoDuplicates;
    FirstOnly(all, freed, rest);
    assert rest[0] in all;
    GaveBackOne(live0, live, live', freed, rest[0]);
    FreedOneMore(live0, freed, rest[0]);
  }

  lemma {:induction false} AllDropped(live0: set<Block>, live: set<Block>, all: seq<nat>, freed: seq<nat>)
    requires Dropping(live0, live, all, freed, [])
    ensures GivenBack(live0, live, all)
    ensures AllHigh(all) ==> live == live0 - BlocksOf(all, 0)
  {
    hide GivenBack, BlocksOf, NoDuplicates;
    assert freed + [] == freed;
  }

  /** Taking the first of the remaining tables: it comes up once. */
  lemma {:induction false} FirstOnly(all: seq<nat>, freed: seq<nat>, rest: seq<nat>)
    requires all == freed + rest && rest != [] && NoDuplicates(all)
    ensures all == (freed + [rest[0]]) + rest[1..]
    ensures forall i :: 0 <= i < |rest[1..]| ==> rest[1..][i] == rest[i + 1] && rest[i + 1] != rest[0]
  {
    var n := |freed|;
    forall i | 0 <= i < |rest[1..]| ensures rest[1..][i] == rest[i + 1] && rest[i + 1] != rest[0] {
      assert all[n] == rest[0] && all[n + i + 1] == rest[i + 1];
    }
  }

  lemma {:induction false} StartReached(tables: Tables, root: nat, tree: Tree, mode: Mode, vaddr: nat)
    requires IsTree(tables, root, tree, mode.Levels())
    ensures Reached(tables, root, tree, mode, vaddr, mode.Levels() - 1, root)
  {
    hide IsTree, Walk;
    RootFacts(tables, root, tree, mode.Levels());
    EmptyPath(mode.Levels(), vaddr);
  }

  lemma {:induction false} WalksRefl(tables: Tables, root: nat, top: nat)
    ensures SameWalks(tables, tables, root, top)
  {
    hide Walk;
  }

  lemma {:induction false} SameWalkOf(tables: Tables, tables': Tables, root: nat, top: nat, w: nat)
    requires SameWalks(tables, tables', root, top)
    ensures Walk(tables', root, w, top) == Walk(tables, root, w, top)
  {
    hide Walk;
  }

  lemma {:induction false} WalksTrans(a: Tables, b: Tables, c: Tables, root: nat, top: nat)
    requires SameWalks(a, b, root, top) && SameWalks(b, c, root, top)
    ensures SameWalks(a, c, root, top)
  {
    hide Walk;
  }

  lemma {:induction false} ZeroEntry(tables: Tables, table: nat, i: nat)
    requires table in tables && i < 512
    ensures tables[table] == Zeros() ==> KindOf(tables[table][i]) == Empty
  {
    hide KindOf;
    ZeroIsEmpty();
  }

  /** One step of the descent: what the entry says about the walk, and where a branch leads. */
  lemma {:induction false} WalkStep(tables: Tables, root: nat, tree: Tree, mode: Mode, vaddr: nat, level: nat, table: nat)
    requires Reached(tables, root, tree, mode, vaddr, level, table)
    ensures var p := PathTo(mode.Levels(), vaddr, mode.Levels() - 1 - level);
            |p| == mode.Levels() - 1 - level
    ensures var w := Walk(tables, root, vaddr, mode.Levels() - 1);
            match KindOf(tables[table][Vpn(vaddr, level)])
            case Empty => w == Unmapped
            case Leaf => w.Found? && w.level == level
            case Branch(next) =>
              && (w.Found? ==> w.level < level)
              && (level > 0 ==> Reached(tables, root, tree, mode, vaddr, level - 1, next))
  {
    hide IsTree, KindOf, Vpn, PathTo;
    var levels, i := mode.Levels(), Vpn(vaddr, level);
    var p := PathTo(levels, vaddr, levels - 1 - level);
    BranchFacts(tables, root, tree, levels, p, i);
    PathStep(levels, vaddr, levels - 1 - level);
    var k := KindOf(tables[table][i]);
    if k.Branch? {
      NodeFacts(tables, root, tree, levels, p + [i]);
      LeafHasFlags(tables, k.next, vaddr, level - 1);
    }
  }

  lemma {:induction false} GrewFacts(
      tables: Tables, tree: Tree, tables': Tables, tree': Tree, root: nat, mode: Mode,
      p: seq<nat>, i: nat, page: nat, vaddr: nat, level: nat)
    requires 0 < level < mode.Levels() && p == PathTo(mode.Levels(), vaddr, mode.Levels() - 1 - level)
    requires i == Vpn(vaddr, level)
    requires Grew(tables, tree, tables', tree', root, mode.Levels(), p, i, page)
    ensures SameWalks(tables, tables', root, mode.Levels() - 1)
    ensures Reached(tables', root, tree', mode, vaddr, level - 1, page)
    ensures tables'[page] == Zeros()
  {
    hide IsTree, KindOf, Walk, Vpn, PathTo, BranchEntry;
    var levels, top := mode.Levels(), mode.Levels() - 1;
    assert tree[p] != page;
    HangKeepsTree(tables, root, tree, levels, p, i, page);
    forall w: nat ensures Walk(tables', root, w, top) == Walk(tables, root, w, top) {
      HangKeepsWalks(tables, root, tree, levels, p, i, page, w);
    }
    PathStep(levels, vaddr, levels - 1 - level);
    HangArrives(tables, root, tree, levels, p, i, page, vaddr, level);
  }

  /** Both the root and the new table lead to nothing for the address. */
  lemma {:induction false} HangArrives(
      tables: Tables, root: nat, tree: Tree, levels: nat, p: seq<nat>, i: nat, page: usize, vaddr: nat, level: nat)
    requires HangOk(tables, root, tree, levels, p, i, page) && BranchEntry(page) < WORD
    requires 0 < level < levels && p == PathTo(levels, vaddr, levels - 1 - level) && i == Vpn(vaddr, level)
    ensures var tables' := Hang(tables, tree[p], i, page);
            Walk(tables', page, vaddr, level - 1) == Unmapped && Walk(tables', root, vaddr, levels - 1) == Unmapped
  {
    hide IsTree, KindOf, Vpn, PathTo, BranchEntry, Through;
    var tables1 := tables[page := Zeros()];
    assert tree[p] != page;
    ZeroIsEmpty();
    UnreachableKeepsTree(tables, root, tree, levels, page);
    ThroughFacts(levels, vaddr, p, i);
    assert |p| == levels - 1 - level;
    RootFacts(tables, root, tree, levels);
    EmptyPath(levels, vaddr);
    WriteArrives(tables1, root, tree, levels, p, i, BranchEntry(page), vaddr, 0);
    HangUnmapped(tables, tree[p], i, page, vaddr, level);
    assert Hang(tables, tree[p], i, page)[page] == Zeros();
  }

  lemma {:induction false} WalksGiveTranslations(tables: Tables, tables': Tables, root: nat, mode: Mode)
    requires SameWalks(tables, tables', root, mode.Levels() - 1)
    ensures SameTranslations(tables, tables', root, mode)
  {
    hide Walk, Offset, AddrOf, FlagsOf;
  }

  lemma {:induction false} BadAddressMeans(mode: Mode, vaddr: usize)
    ensures BadAddress(mode, vaddr) <==> vaddr >= mode.MaxAddress()
  {
    hide And, Pow2;
    NineBits();
    Pow2Sum(9, 9);
    Pow2Sum(18, 9);
    Pow2Sum(12, 27);
    Pow2Sum(39, 9);
    var k := if mode.Sv39? then 39 else 48;
    AndHighMaskWord(vaddr, k);
    assert Pow2(k) == mode.MaxAddress() + 1;
    if vaddr < mode.MaxAddress() {
      DivModUnique(vaddr, Pow2(k), 0, vaddr);
    }
  }

  lemma {:induction false} StaysInTree(tables: Tables, root: nat, tree: Tree, mode: Mode, vaddr: nat)
    requires IsTree(tables, root, tree, mode.Levels())
    ensures var w := Walk(tables, root, vaddr, mode.Levels() - 1);
            w.Unmapped? || LeafAt(tables, tree, mode.Levels(), vaddr, w)
  {
    hide IsTree, Walk, PathTo;
    RootFacts(tables, root, tree, mode.Levels());
    EmptyPath(mode.Levels(), vaddr);
    WalkStays(tables, root, tree, mode.Levels(), vaddr, 0);
  }

  /** Writing the leaf, after a descent that changed no walk. */
  lemma {:induction false} LeafStep(
      before: Tables, tables: Tables, root: nat, tree: Tree, mode: Mode,
      paddr: usize, vaddr: usize, size: PageSize, flags: Flags)
    requires SameTranslations(before, tables, root, mode)
    requires Slot(tables, root, tree, mode, vaddr, size.Level())
    requires size.IsAligned(paddr) && size.IsAligned(vaddr) && vaddr < Span(mode)
    ensures LeafEntry(paddr, flags) < WORD
    ensures var p := PathTo(mode.Levels(), vaddr, mode.Levels() - 1 - size.Level());
            var tables' := Write(tables, tree[p], Vpn(vaddr, size.Level()), LeafEntry(paddr, flags));
            && (flags != 0 ==> IsTree(tables', root, Prune(tree, p, Vpn(vaddr, size.Level())), mode.Levels()))
            && (Updates(before, tables', root, mode, paddr, vaddr, size, flags) <==> flags != 0)
            && (flags != 0 && ConformingTree(tables, tree, mode.Levels()) ==>
                  (ConformingTree(tables', Prune(tree, p, Vpn(vaddr, size.Level())), mode.Levels()) <==> Accessible(paddr, flags))
                  && (SameReading(tables', root, mode.Levels() - 1) <==> Accessible(paddr, flags)))
  {
    hide IsTree, KindOf, Vpn, PathTo, Translate, LeafEntry, InPage, Answer, Prune, ConformingTree, Accessible, Updates, SameReading;
    LargerAlignment(size, paddr);
    LeafRoundTrip(paddr, flags);
    var p, e := PathTo(mode.Levels(), vaddr, mode.Levels() - 1 - size.Level()), LeafEntry(paddr, flags);
    var tables' := Write(tables, tree[p], Vpn(vaddr, size.Level()), e);
    MapsIffFlagged(tables, root, tree, mode, paddr, vaddr, size, flags);
    SameUpdates(before, tables, tables', root, mode, paddr, vaddr, size, flags);
    if flags != 0 {
      WriteKeepsTree(tables, root, tree, mode.Levels(), p, Vpn(vaddr, size.Level()), e);
      if ConformingTree(tables, tree, mode.Levels()) {
        LeafConforms(paddr, size, flags);
        WriteConforms(tables, root, tree, mode.Levels(), p, Vpn(vaddr, size.Level()), e);
        ReadAlikeIffAccessible(tables, root, tree, mode, paddr, vaddr, size, flags);
      }
    }
  }

  lemma {:induction false} SameUpdates(
      before: Tables, tables: Tables, tables': Tables, root: nat, mode: Mode,
      paddr: usize, vaddr: nat, size: PageSize, flags: Flags)
    requires SameTranslations(before, tables, root, mode)
    ensures Updates(before, tables', root, mode, paddr, vaddr, size, flags)
            <==> Updates(tables, tables', root, mode, paddr, vaddr, size, flags)
  {
    hide Translate, InPage, Answer;
  }

  lemma {:induction false} ClearStep(tables: Tables, root: nat, tree: Tree, mode: Mode, vaddr: nat, w: Walked)
    requires IsTree(tables, root, tree, mode.Levels()) && LeafAt(tables, tree, mode.Levels(), vaddr, w) && w.level < 3
    ensures var p := PathTo(mode.Levels(), vaddr, mode.Levels() - 1 - w.level);
            var tables' := Write(tables, w.table, w.index, 0);
            && IsTree(tables', root, Prune(tree, p, w.index), mode.Levels())
            && Unmaps(tables, tables', root, mode, vaddr, SizeAt(w.level))
  {
    hide IsTree, KindOf, Vpn, PathTo, Translate, InPage, PageOf;
    ZeroIsEmpty();
    var p := PathTo(mode.Levels(), vaddr, mode.Levels() - 1 - w.level);
    WriteKeepsTree(tables, root, tree, mode.Levels(), p, w.index, 0);
    var size := SizeAt(w.level);
    forall x: usize
      ensures Translate(Write(tables, w.table, w.index, 0), root, mode, x)
           == if InPage(mode, x, PageOf(mode, vaddr, size), size) then NotMapped else Translate(tables, root, mode, x)
    {
      ClearUpdatesTranslation(tables, root, tree, mode, vaddr, size, x);
    }
  }

  lemma {:induction false} ClearConforms(tables: Tables, root: nat, tree: Tree, mode: Mode, vaddr: nat, w: Walked)
    requires IsTree(tables, root, tree, mode.Levels()) && LeafAt(tables, tree, mode.Levels(), vaddr, w)
    requires ConformingTree(tables, tree, mode.Levels())
    ensures var p := PathTo(mode.Levels(), vaddr, mode.Levels() - 1 - w.level);
            ConformingTree(Write(tables, w.table, w.index, 0), Prune(tree, p, w.index), mode.Levels())
  {
    hide IsTree, KindOf, Vpn, PathTo, Prune, ConformingTree;
    EmptyConforms(w.level);
    WriteConforms(tables, root, tree, mode.Levels(), PathTo(mode.Levels(), vaddr, mode.Levels() - 1 - w.level), w.index, 0);
  }

  lemma {:induction false} EmptyTreeConforms(mode: Mode, root: nat)
    ensures ConformingTree(map[root := Zeros()], map[[] := root], mode.Levels())
  {
    hide Conforms;
    EmptyConforms(mode.Levels() - 1);
  }

  lemma {:induction false} EmptyTree(mode: Mode, root: nat)
    ensures IsTree(map[root := Zeros()], root, map[[] := root], mode.Levels())
    ensures forall w: usize :: Translate(map[root := Zeros()], root, mode, w) == NotMapped
  {
    hide KindOf, Vpn;
    ZeroIsEmpty();
  }

  lemma {:induction false} NewPageFacts(s: State, live: set<Block>, region: set<int>, page: nat)
    requires Tiles(s, live, region) && AllAligned(s, live) && Block(page, 0) in live
    requires forall x :: x in region ==> x < TABLE_LIMIT
    ensures page % 4096 == 0 && page < TABLE_LIMIT
  {
    hide Tiles, FreeSet;
    LiveInRegion(s, live, region, Block(page, 0));
    assert IsAligned(page, 0);
    Region.SmallSizes();
  }
}
