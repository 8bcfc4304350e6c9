/** How many pages `map` takes from the allocator, for one page and for a range of pages, and
    when there is enough memory for them. */
module PageBudget {
  import opened Bits
  import opened Blocks
  import opened BuddySpec
  import opened BuddyOps
  import opened PageEntry
  import opened PageWalk
  import opened PageTree
  import opened PageSpec

  // ----- Pages from the allocator -----

  /** The allocator after `n` allocations of one page. */
  function TakePages(s: State, n: nat): State
    decreases n
  {
    if n == 0 then s else TakePages(Allocate(s, 0).0, n - 1)
  }

  lemma {:induction false} TakeMore(s: State, m: nat, n: nat)
    ensures TakePages(TakePages(s, m), n) == TakePages(s, m + n)
    decreases m
  {
    hide Allocate;
    if m > 0 { TakeMore(Allocate(s, 0).0, m - 1, n); }
  }

  /** One page can be had exactly when a byte is free, and then 4096 fewer are. */
  lemma {:induction false} OnePage(s: State, live: set<Block>, region: set<int>)
    requires Tiles(s, live, region) && AllAligned(s, live)
    ensures Allocate(s, 0).1.Err? <==> s.free == 0
    ensures Allocate(s, 0).1.Err? ==> Allocate(s, 0) == (s, Err(NoMemoryAvailable))
    ensures Allocate(s, 0).1.Ok? ==> Allocate(s, 0).0.free == s.free - PAGE_SIZE >= 0
  {
    hide Tiles, AllAligned, Allocate, Size, Split, SplitsInside;
    AlignedAllocates(s, live, region, 0);
    var k := FirstNonEmpty(s.lists, 0);
    if k < MAX_ORDER {
      CountersAddUp(s, live, region);
      assert InLists(s.lists, Block(s.lists[k][0], k));
      SizeMonotone(0, k);
      SplitCounts(s, k);
    } else {
      NothingFree(s, live, region);
    }
  }

  lemma {:induction false} SplitCounts(s: State, k: nat)
    requires k < MAX_ORDER && s.lists[k] != []
    ensures Split(s, 0, k).free == s.free - PAGE_SIZE
  {
    assert Size(0) == PAGE_SIZE;
  }

  lemma {:induction false} NothingFree(s: State, live: set<Block>, region: set<int>)
    requires Tiles(s, live, region) && FirstNonEmpty(s.lists, 0) == MAX_ORDER
    ensures s.free == 0
  {
    hide Partition, ListsOk;
    assert forall b :: !InLists(s.lists, b);
    assert FreeSet(s.lists) == {};
  }

  // ----- Tables that one page needs -----

  /** The tables that `map` has yet to hang in on its way to level `target`. */
  function Missing(tables: Tables, table: nat, vaddr: nat, level: nat, target: nat): nat
    decreases level
  {
    if level <= target || table !in tables then 0
    else
      match KindOf(tables[table][Vpn(vaddr, level)])
      case Empty => level - target
      case Leaf => 0
      case Branch(next) => Missing(tables, next, vaddr, level - 1, target)
  }

  /** Below a table that was just hung in, everything is missing. */
  lemma {:induction false} MissingBelowNew(tables: Tables, page: nat, vaddr: nat, level: nat, target: nat)
    requires page in tables && tables[page] == Zeros() && target <= level
    ensures Missing(tables, page, vaddr, level, target) == level - target
  {
    hide KindOf, Vpn;
    ZeroIsEmpty();
  }

  // ----- The same, counted on the paths of the tree -----

  /** How many tables on the path of `vaddr` are missing between two depths. */
  function CountMissing(paths: set<seq<nat>>, levels: nat, vaddr: nat, from: nat, depth: nat): nat
    requires from <= depth <= levels
    decreases depth - from
  {
    if from == depth then 0
    else
      (if PathTo(levels, vaddr, from + 1) in paths then 0 else 1)
      + CountMissing(paths, levels, vaddr, from + 1, depth)
  }

  /** Under no leaf, what the walk misses is what the tree lacks. */
  lemma {:induction false} MissingIsCounted(
      tables: Tables, root: nat, tree: Tree, levels: nat, vaddr: nat, from: nat, depth: nat)
    requires IsTree(tables, root, tree, levels) && from <= depth < levels && PathTo(levels, vaddr, from) in tree
    requires var w := Walk(tables, tree[PathTo(levels, vaddr, from)], vaddr, levels - 1 - from);
             w.Found? ==> w.level <= levels - 1 - depth
    ensures Missing(tables, tree[PathTo(levels, vaddr, from)], vaddr, levels - 1 - from, levels - 1 - depth)
         == CountMissing(tree.Keys, levels, vaddr, from, depth)
    decreases depth - from
  {
    hide IsTree, KindOf, Vpn, PathTo;
    if from < depth {
      var p, i := PathTo(levels, vaddr, from), Vpn(vaddr, levels - 1 - from);
      BranchFacts(tables, root, tree, levels, p, i);
      PathStep(levels, vaddr, from);
      var k := KindOf(tables[tree[p]][i]);
      if k.Branch? {
        MissingIsCounted(tables, root, tree, levels, vaddr, from + 1, depth);
      } else {
        if p + [i] in tree { ParentFacts(tables, root, tree, levels, p + [i]); ParentOf(p, i); }
        NoneBelow(tables, root, tree, levels, vaddr, from + 1, depth);
      }
    }
  }

  lemma {:induction false} ParentOf(p: seq<nat>, i: nat)
    ensures (p + [i])[..|p + [i]| - 1] == p && (p + [i])[|p + [i]| - 1] == i
  {
  }

  lemma {:induction false} NoneBelow(
      tables: Tables, root: nat, tree: Tree, levels: nat, vaddr: nat, from: nat, depth: nat)
    requires IsTree(tables, root, tree, levels) && from <= depth < levels && PathTo(levels, vaddr, from) !in tree
    ensures CountMissing(tree.Keys, levels, vaddr, from, depth) == depth - from
    decreases depth - from
  {
    hide IsTree, KindOf, Vpn, PathTo;
    if from < depth {
      var q := PathTo(levels, vaddr, from + 1);
      PathStep(levels, vaddr, from);
      if q in tree { ParentFacts(tables, root, tree, levels, q); }
      NoneBelow(tables, root, tree, levels, vaddr, from + 1, depth);
    }
  }

  /** The paths that matter for a given depth. */
  ghost function Shallow(tree: Tree, depth: nat): set<seq<nat>> {
    set q | q in tree && |q| <= depth
  }

  ghost function PathSet(levels: nat, vaddr: nat, depth: nat): set<seq<nat>>
    requires depth <= levels
  {
    set d | 0 <= d <= depth :: PathTo(levels, vaddr, d)
  }

  lemma {:induction false} CountSame(
      a: set<seq<nat>>, b: set<seq<nat>>, levels: nat, vaddr: nat, from: nat, depth: nat)
    requires from <= depth <= levels && forall q :: |q| <= depth ==> (q in a <==> q in b)
    ensures CountMissing(a, levels, vaddr, from, depth) == CountMissing(b, levels, vaddr, from, depth)
    decreases depth - from
  {
    hide PathTo;
    if from < depth { CountSame(a, b, levels, vaddr, from + 1, depth); }
  }

  // ----- Ranges of pages -----

  /** A leaf of this size or larger is in the way of a page. */
  predicate InTheWay(t: Translation, size: PageSize) {
    t.Panics? || (t.Mapped? && t.size.Level() >= size.Level())
  }

  ghost predicate PageFree(tables: Tables, root: nat, mode: Mode, size: PageSize, page: nat) {
    page < mode.MaxAddress() && !InTheWay(Translate(tables, root, mode, page), size)
  }

  ghost predicate RangeFree(tables: Tables, root: nat, mode: Mode, size: PageSize, page: nat, end: nat)
    decreases end - page
  {
    page >= end || (PageFree(tables, root, mode, size, page) && RangeFree(tables, root, mode, size, page + size.Bytes(), end))
  }

  /** The depth of the tables that hold leaves of the given size. */
  function DepthOf(mode: Mode, size: PageSize): (d: nat)
    requires size.Level() < mode.Levels()
    ensures d < mode.Levels()
  {
    mode.Levels() - 1 - size.Level()
  }

  /** The tables that each page of the range needs, once the pages before it have theirs. */
  ghost function Misses(paths: set<seq<nat>>, mode: Mode, size: PageSize, page: nat, end: nat): seq<nat>
    requires size.Level() < mode.Levels()
    decreases end - page
  {
    if page >= end then []
    else
      var d := DepthOf(mode, size);
      [CountMissing(paths, mode.Levels(), page, 0, d)]
      + Misses(paths + PathSet(mode.Levels(), page, d), mode, size, page + size.Bytes(), end)
  }

  function Sum(ns: seq<nat>): nat {
    if ns == [] then 0 else ns[0] + Sum(ns[1..])
  }

  /** Page by page: the page is free, and there is memory for the tables it needs. */
  ghost predicate CanMap(tables: Tables, root: nat, mode: Mode, size: PageSize, paths: set<seq<nat>>, free: int, page: nat, end: nat)
    requires size.Level() < mode.Levels()
    decreases end - page
  {
    page >= end ||
    (var d := DepthOf(mode, size);
     var need := PAGE_SIZE * CountMissing(paths, mode.Levels(), page, 0, d);
     && PageFree(tables, root, mode, size, page) && need <= free
     && CanMap(tables, root, mode, size, paths + PathSet(mode.Levels(), page, d), free - need, page + size.Bytes(), end))
  }

  /** All in all: the range is free, and there is memory for all the tables. */
  lemma {:induction false} CanMapIff(
      tables: Tables, root: nat, mode: Mode, size: PageSize, paths: set<seq<nat>>, free: int, page: nat, end: nat)
    requires size.Level() < mode.Levels() && free >= 0
    ensures CanMap(tables, root, mode, size, paths, free, page, end)
            <==> RangeFree(tables, root, mode, size, page, end)
                 && PAGE_SIZE * Sum(Misses(paths, mode, size, page, end)) <= free
    decreases end - page
  {
    hide PageFree, CountMissing, PathSet;
    if page < end {
      var d := DepthOf(mode, size);
      var n := CountMissing(paths, mode.Levels(), page, 0, d);
      var rest := Misses(paths + PathSet(mode.Levels(), page, d), mode, size, page + size.Bytes(), end);
      assert Misses(paths, mode, size, page, end) == [n] + rest;
      SumCons(n, rest);
      if PAGE_SIZE * n <= free {
        CanMapIff(tables, root, mode, size, paths + PathSet(mode.Levels(), page, d), free - PAGE_SIZE * n, page + size.Bytes(), end);
      }
    }
  }

  lemma {:induction false} SumCons(n: nat, ns: seq<nat>)
    ensures Sum([n] + ns) == n + Sum(ns)
  {
    assert ([n] + ns)[1..] == ns;
  }

  // ----- Ranges of pages with a frame each -----

  /** A frame of `order` and then so many pages, again and again. */
  predicate Feasible(s: State, order: nat, misses: seq<nat>)
    decreases |misses|
  {
    misses == [] ||
    (var (s1, r) := Allocate(s, order);
     r.Ok? && PAGE_SIZE * misses[0] <= s1.free && Feasible(TakePages(s1, misses[0]), order, misses[1..]))
  }

  /** Page by page: the page is free, there is a frame, and then memory for the tables. */
  ghost predicate CanBack(
      tables: Tables, root: nat, mode: Mode, size: PageSize, order: nat, paths: set<seq<nat>>, s: State, page: nat, end: nat)
    requires size.Level() < mode.Levels()
    decreases end - page
  {
    page >= end ||
    (var d := DepthOf(mode, size);
     var n := CountMissing(paths, mode.Levels(), page, 0, d);
     var (s1, r) := Allocate(s, order);
     && PageFree(tables, root, mode, size, page) && r.Ok? && PAGE_SIZE * n <= s1.free
     && CanBack(tables, root, mode, size, order, paths + PathSet(mode.Levels(), page, d), TakePages(s1, n), page + size.Bytes(), end))
  }

  lemma {:induction false} CanBackIff(
      tables: Tables, root: nat, mode: Mode, size: PageSize, order: nat, paths: set<seq<nat>>, s: State, page: nat, end: nat)
    requires size.Level() < mode.Levels()
    ensures CanBack(tables, root, mode, size, order, paths, s, page, end)
            <==> RangeFree(tables, root, mode, size, page, end) && Feasible(s, order, Misses(paths, mode, size, page, end))
    decreases end - page
  {
    hide PageFree, CountMissing, PathSet, Allocate, TakePages;
    if page < end {
      var d := DepthOf(mode, size);
      var n := CountMissing(paths, mode.Levels(), page, 0, d);
      var rest := Misses(paths + PathSet(mode.Levels(), page, d), mode, size, page + size.Bytes(), end);
      var all := Misses(paths, mode, size, page, end);
      assert all == [n] + rest && all[0] == n && all[1..] == rest;
      CanBackIff(tables, root, mode, size, order, paths + PathSet(mode.Levels(), page, d), TakePages(Allocate(s, order).0, n), page + size.Bytes(), end);
    }
  }

  /** Allocating keeps the tiling, whatever becomes live. */
  lemma {:induction false} TakeKeepsTiling(s: State, live: set<Block>, region: set<int>, n: nat) returns (live': set<Block>)
    requires Tiles(s, live, region) && AllAligned(s, live) && PAGE_SIZE * n <= s.free
    ensures Tiles(TakePages(s, n), live', region) && AllAligned(TakePages(s, n), live')
    ensures TakePages(s, n).free == s.free - PAGE_SIZE * n
    decreases n
  {
    hide Tiles, AllAligned, Allocate, SplitsInside, LostOnSplit;
    live' := live;
    if n > 0 {
      OnePage(s, live, region);
      AlignedSplitsInside(s, live, region, 0);
      AllocateKeeps(s, live, region, 0);
      var (s1, r) := Allocate(s, 0);
      live' := TakeKeepsTiling(s1, live + {Block(r.value, 0)}, region, n - 1);
    }
  }

  /** With frames of one page, all that counts is the number of free bytes. */
  lemma {:induction false} PagesFeasibleIff(s: State, live: set<Block>, region: set<int>, misses: seq<nat>)
    requires Tiles(s, live, region) && AllAligned(s, live)
    ensures Feasible(s, 0, misses) <==> PAGE_SIZE * (|misses| + Sum(misses)) <= s.free
    decreases |misses|
  {
    hide Tiles, AllAligned, Allocate, SplitsInside, LostOnSplit, TakePages;
    CountersAddUp(s, live, region);
    if misses != [] {
      OnePage(s, live, region);
      AlignedSplitsInside(s, live, region, 0);
      AllocateKeeps(s, live, region, 0);
      var (s1, r) := Allocate(s, 0);
      if r.Ok? {
        var live1 := live + {Block(r.value, 0)};
        CountersAddUp(s1, live1, region);
        if PAGE_SIZE * misses[0] <= s1.free {
          var live2 := TakeKeepsTiling(s1, live1, region, misses[0]);
          PagesFeasibleIff(TakePages(s1, misses[0]), live2, region, misses[1..]);
        }
      }
    }
  }
}
