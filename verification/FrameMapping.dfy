/** `map_alloc` and `free`: virtual ranges backed by frames of the buddy allocator. */
module FrameMapping {
  import opened Bits
  import opened Blocks
  import opened Wrappers
  import opened BuddySpec
  import opened BuddyAllocator
  import opened PageEntry
  import opened PageWalk
  import opened PageSpec
  import opened PageTables
  import opened PageBudget
  import opened FreeListMemory
  import BuddyOps
  import HardwareWalk

  datatype Ending = Finished | Failed(error: MapError) | Panicked

  /** The order of the frame behind a page, where the source implements one. */
  predicate HasFrames(size: PageSize) {
    size.Kilopage? || size.Megapage?
  }

  function FrameOrder(size: PageSize): nat
    requires HasFrames(size)
  {
    if size.Kilopage? then 0 else 9
  }

  /** A frame is as large as its page, so a block of its order passes the alignment check. */
  lemma {:induction false} FrameFitsPage(size: PageSize)
    requires HasFrames(size)
    ensures Size(FrameOrder(size)) == size.Bytes() && FrameOrder(size) < MAX_ORDER
  {
    assert Pow2(9) == 512;
  }

  /** The address of page `k` of a range. */
  function PageAt(vaddr: nat, size: PageSize, k: nat): nat {
    vaddr + k * size.Bytes()
  }

  /** The translation once the pages from `vaddr` on are mapped to `frames`. */
  function RangeAnswer(tables: Tables, root: nat, mode: Mode, vaddr: nat, size: PageSize, flags: Flags,
                       frames: seq<usize>, w: usize): Translation {
    var x, s := w % Span(mode), size.Bytes();
    if vaddr <= x < vaddr + |frames| * s then
      PageIndex(x - vaddr, |frames|, s);
      Answer(frames[(x - vaddr) / s], size, flags, w)
    else Translate(tables, root, mode, w)
  }

  ghost predicate MapsRange(tables: Tables, tables': Tables, root: nat, mode: Mode, vaddr: nat, size: PageSize,
                            flags: Flags, frames: seq<usize>) {
    forall w: usize :: Translate(tables', root, mode, w) == RangeAnswer(tables, root, mode, vaddr, size, flags, frames, w)
  }

  ghost predicate UnmapsRange(tables: Tables, tables': Tables, root: nat, mode: Mode, vaddr: nat, size: PageSize, n: nat) {
    forall w: usize :: Translate(tables', root, mode, w)
                    == if vaddr <= w % Span(mode) < PageAt(vaddr, size, n) then NotMapped
                       else Translate(tables, root, mode, w)
  }

  lemma {:induction false} PageIndex(y: nat, n: nat, s: nat)
    requires s > 0
    ensures y < n * s ==> y / s < n
    ensures n * s <= y < n * s + s ==> y / s == n
  {
    if n * s <= y < n * s + s { DivModUnique(y, s, n, y - n * s); }
    assert (y / s) * s <= y;
    assert (y / s - n) * s == (y / s) * s - n * s;
    MulAtLeast(y / s - n, s);
  }

  lemma {:induction false} MapOneMore(
      t0: Tables, t1: Tables, t2: Tables, root: nat, mode: Mode, vaddr: nat, size: PageSize, flags: Flags,
      frames: seq<usize>, f: usize)
    requires MapsRange(t0, t1, root, mode, vaddr, size, flags, frames)
    requires Updates(t1, t2, root, mode, f, PageAt(vaddr, size, |frames|), size, flags)
    ensures MapsRange(t0, t2, root, mode, vaddr, size, flags, frames + [f])
  {
    hide Translate, Answer, Span, RangeAnswer, InPage;
    forall w: usize
      ensures Translate(t2, root, mode, w) == RangeAnswer(t0, root, mode, vaddr, size, flags, frames + [f], w)
    {
      RangeAnswerStep(t0, root, mode, vaddr, size, flags, frames, f, w);
    }
  }

  lemma {:induction false} RangeAnswerStep(
      t0: Tables, root: nat, mode: Mode, vaddr: nat, size: PageSize, flags: Flags, frames: seq<usize>, f: usize, w: usize)
    ensures RangeAnswer(t0, root, mode, vaddr, size, flags, frames + [f], w)
         == if InPage(mode, w, PageAt(vaddr, size, |frames|), size) then Answer(f, size, flags, w)
            else RangeAnswer(t0, root, mode, vaddr, size, flags, frames, w)
  {
    hide Translate, Answer, Span, PageSize.Bytes;
    var s, n, x := size.Bytes(), |frames|, w % Span(mode);
    assert (n + 1) * s == n * s + s;
    if vaddr <= x {
      var y := x - vaddr;
      PageIndex(y, n, s);
      if y < n * s {
        assert (frames + [f])[y / s] == frames[y / s];
      } else if y < n * s + s {
        assert (frames + [f])[n] == f;
      }
    }
  }

  lemma {:induction false} UnmapOneMore(
      t0: Tables, t1: Tables, t2: Tables, root: nat, mode: Mode, vaddr: nat, size: PageSize, n: nat)
    requires size.Level() < mode.Levels() && size.IsAligned(PageAt(vaddr, size, n)) && PageAt(vaddr, size, n) < Span(mode)
    requires UnmapsRange(t0, t1, root, mode, vaddr, size, n)
    requires Unmaps(t1, t2, root, mode, PageAt(vaddr, size, n), size)
    ensures UnmapsRange(t0, t2, root, mode, vaddr, size, n + 1)
  {
    hide Translate, Span, InPage, PageOf;
    forall w: usize
      ensures Translate(t2, root, mode, w)
           == if vaddr <= w % Span(mode) < PageAt(vaddr, size, n + 1) then NotMapped else Translate(t0, root, mode, w)
    {
      NextPage(mode, vaddr, size, n, w);
    }
  }

  /** The page after `n` pages, as a set of addresses. */
  lemma {:induction false} NextPage(mode: Mode, vaddr: nat, size: PageSize, n: nat, w: nat)
    requires size.IsAligned(PageAt(vaddr, size, n)) && PageAt(vaddr, size, n) < Span(mode)
    ensures InPage(mode, w, PageOf(mode, PageAt(vaddr, size, n), size), size) <==>
              PageAt(vaddr, size, n) <= w % Span(mode) < PageAt(vaddr, size, n + 1)
  {
    hide Span;
    var v := PageAt(vaddr, size, n);
    DivModUnique(v, Span(mode), 0, v);
    assert (n + 1) * size.Bytes() == n * size.Bytes() + size.Bytes();
  }

  // ----- Ownership -----

  /** The frames are distinct live blocks, and none of them is a page table. */
  ghost predicate FramesHeld(live: set<Block>, tables: Tables, order: nat, frames: seq<usize>) {
    && NoDuplicates(frames)
    && forall i :: 0 <= i < |frames| ==> Block(frames[i], order) in live && (order == 0 ==> frames[i] !in tables)
  }

  /** Frames of one allocation share no byte with each other or with any page table. */
  lemma {:induction false} FramesAreDisjoint(
      s: State, live: set<Block>, region: set<int>, tables: Tables, order: nat, frames: seq<usize>)
    requires Tiles(s, live, region) && FramesHeld(live, tables, order, frames)
    requires forall t :: t in tables ==> Block(t, 0) in live
    ensures forall i, j :: 0 <= i < j < |frames| ==> Disjoint(Block(frames[i], order), Block(frames[j], order))
    ensures forall i, t :: 0 <= i < |frames| && t in tables ==> Disjoint(Block(frames[i], order), Block(t, 0))
  {
    hide Bytes, ListsOk, FreeSet, Disjoint;
    assert forall b :: b in live ==> b in FreeSet(s.lists) + live;
    forall i, t | 0 <= i < |frames| && t in tables ensures Disjoint(Block(frames[i], order), Block(t, 0)) {
      assert Block(frames[i], order) != Block(t, 0);
    }
  }

  lemma {:induction false} FrameAligned(s: State, live: set<Block>, region: set<int>, size: PageSize, f: nat)
    requires HasFrames(size) && Tiles(s, live, region) && AllAligned(s, live) && Block(f, FrameOrder(size)) in live
    ensures size.IsAligned(f) && f < WORD
  {
    hide Tiles, FreeSet, Size;
    LiveInRegion(s, live, region, Block(f, FrameOrder(size)));
    RegionBound(s, live, region, f);
    assert IsAligned(f, FrameOrder(size));
    FrameFitsPage(size);
  }

  /** The live blocks grew by the frames and by the new subtables, which are no frames, and by
      nothing else. */
  ghost predicate Took(live: set<Block>, live': set<Block>, order: nat, frames: seq<usize>, subs: seq<nat>, subs': seq<nat>) {
    && live <= live'
    && (forall b :: b in live' && b !in live ==>
          (b.order == order && b.addr in frames) || (b.order == 0 && b.addr in subs' && b.addr !in subs))
    && (forall x :: x in frames ==> Block(x, order) in live' && Block(x, order) !in live)
    && (forall t :: t in subs' && t !in subs ==> Block(t, 0) !in live && (order == 0 ==> t !in frames))
    && (forall t :: t in subs ==> t in subs')
  }

  /** The same, but for at most one more frame. */
  ghost predicate TookOneMore(
      live: set<Block>, live': set<Block>, order: nat, frames: seq<usize>, subs: seq<nat>, subs': seq<nat>) {
    exists lost: seq<usize> :: |lost| <= 1 && Took(live, live', order, frames + lost, subs, subs')
  }

  lemma {:induction false} TookNothing(live: set<Block>, order: nat, subs: seq<nat>)
    ensures Took(live, live, order, [], subs, subs)
  {
  }

  lemma {:induction false} TookMore(
      a: set<Block>, b: set<Block>, c: set<Block>, order: nat, xs: seq<usize>, ys: seq<usize>, s: seq<nat>, t: seq<nat>, u: seq<nat>)
    requires Took(a, b, order, xs, s, t) && Took(b, c, order, ys, t, u)
    requires forall x :: x in t ==> Block(x, 0) in b
    ensures Took(a, c, order, xs + ys, s, u)
  {
  }

  lemma {:induction false} FrameThenTables(
      a: set<Block>, f: usize, c: set<Block>, order: nat, s: seq<nat>, u: seq<nat>)
    requires Block(f, order) !in a && TablesTaken(a + {Block(f, order)}, c, s, u)
    ensures Took(a, c, order, [f], s, u)
  {
  }

  lemma {:induction false} SubsLive(tables: Tables, root: nat, subs: seq<nat>, live: set<Block>, region: set<int>)
    requires Owned(tables, root, subs, live, region)
    ensures forall x :: x in subs ==> Block(x, 0) in live
    ensures forall x :: x in subs ==> x in tables
  {
  }

  /** The tables that a page still needs. */
  ghost function TablesFor(tree: Tree, mode: Mode, size: PageSize, page: nat): nat
    requires size.Level() < mode.Levels()
  {
    CountMissing(Shallow(tree, DepthOf(mode, size)), mode.Levels(), page, 0, DepthOf(mode, size))
  }

  /** What is wrong with a page, in the order in which the code finds out: no frame, an address
      outside of the space, one that is not aligned, a page in the way, no memory for tables. */
  ghost function PageError(
      t0: Tables, root: nat, mode: Mode, size: PageSize, paths: set<seq<nat>>, s: State, page: nat): Option<MapError>
    requires HasFrames(size)
  {
    var (s1, r) := BuddyOps.Allocate(s, FrameOrder(size));
    if r.Err? then Some(Alloc(NoMemoryAvailable))
    else if page >= mode.MaxAddress() then Some(InvalidAddress)
    else if !size.IsAligned(page) then Some(UnalignedAddress)
    else if InTheWay(Translate(t0, root, mode, page), size) then Some(AlreadyMapped)
    else if s1.free < PAGE_SIZE * CountMissing(paths, mode.Levels(), page, 0, DepthOf(mode, size)) then Some(Alloc(NoMemoryAvailable))
    else None
  }

  /** The error of the first page of the range that has one. */
  ghost function FirstError(
      t0: Tables, root: nat, mode: Mode, size: PageSize, paths: set<seq<nat>>, s: State, page: nat, end: nat): Option<MapError>
    requires HasFrames(size)
    decreases end - page
  {
    if page >= end then None
    else
      var e := PageError(t0, root, mode, size, paths, s, page);
      if e.Some? then e
      else
        var d := DepthOf(mode, size);
        var s1 := BuddyOps.Allocate(s, FrameOrder(size)).0;
        FirstError(t0, root, mode, size, paths + PathSet(mode.Levels(), page, d),
                   TakePages(s1, CountMissing(paths, mode.Levels(), page, 0, d)), page + size.Bytes(), end)
  }

  lemma {:induction false} PageDecided(
      tables: Tables, root: nat, tree: Tree, mode: Mode, size: PageSize, s: State, page: usize)
    requires IsTree(tables, root, tree, mode.Levels()) && HasFrames(size)
    ensures var (s1, r) := BuddyOps.Allocate(s, FrameOrder(size));
            var m := Missing(tables, root, page, mode.Levels() - 1, size.Level());
            PageError(tables, root, mode, size, Shallow(tree, DepthOf(mode, size)), s, page)
            == if r.Err? then Some(Alloc(NoMemoryAvailable))
               else if page >= mode.MaxAddress() then Some(InvalidAddress)
               else if !size.IsAligned(page) then Some(UnalignedAddress)
               else if Occupied(tables, root, mode, page, size) then Some(AlreadyMapped)
               else if s1.free < PAGE_SIZE * m then Some(Alloc(NoMemoryAvailable))
               else None
    ensures page < mode.MaxAddress() && !Occupied(tables, root, mode, page, size) ==>
              Missing(tables, root, page, mode.Levels() - 1, size.Level()) == TablesFor(tree, mode, size, page)
  {
    hide IsTree, Missing, CountMissing, Translate, BuddyOps.Allocate, Occupied, Shallow;
    if page < mode.MaxAddress() { MapDecided(tables, root, tree, mode, page, size, 0); }
  }

  /** One iteration of `map_alloc`: take a frame, map it. Frames held before stay held. A frame
      whose page is refused stays taken. */
  method MapFrame(pt: PageTable, page: usize, size: PageSize, flags: Flags, ghost frames: seq<usize>)
      returns (r: PageTables.Outcome, taken: seq<usize>)
    requires pt.Valid() && flags != 0 && HasFrames(size)
    requires FramesHeld(pt.pmem.live, pt.tables, FrameOrder(size), frames)
    modifies pt, pt.pmem, pt.pmem.orders
    ensures pt.Valid() && pt.pmem.region == old(pt.pmem.region)
    ensures |taken| <= 1 && (r.Done? ==> |taken| == 1)
    ensures Took(old(pt.pmem.live), pt.pmem.live, FrameOrder(size), taken, old(pt.subtables), pt.subtables)
    ensures FramesHeld(pt.pmem.live, pt.tables, FrameOrder(size), frames + taken)
    ensures r.Refused? ==> SameTranslations(old(pt.tables), pt.tables, pt.root, pt.mode)
    ensures r.Done? ==> Updates(old(pt.tables), pt.tables, pt.root, pt.mode, taken[0], page, size, flags)
    ensures r.Done? ==> size.IsAligned(page) && page < pt.mode.MaxAddress()
    ensures taken == [] <==> BuddyOps.Allocate(old(pt.pmem.Abstract()), FrameOrder(size)).1.Err?
    ensures PageError(old(pt.tables), pt.root, pt.mode, size, Shallow(old(pt.tree), DepthOf(pt.mode, size)), old(pt.pmem.Abstract()), page)
         == match r case Done => None case Refused(e) => Some(e)
    ensures r.Done? ==>
              var n := TablesFor(old(pt.tree), pt.mode, size, page);
              pt.pmem.Abstract() == TakePages(BuddyOps.Allocate(old(pt.pmem.Abstract()), FrameOrder(size)).0, n)
    ensures r.Done? ==> ExtendsTo(old(pt.tree), pt.tree, pt.mode.Levels(), page, DepthOf(pt.mode, size))
  {
    hide Tiles, AllAligned, Threads, IsTree, Translate, Span, Updates, BuddyOps.Allocate, BuddyOps.SplitsInside, Occupied, Size;
    hide Took, TablesTaken, HardwareWalk.ConformingTree, HardwareWalk.Accessible, FramesHeld, Owned;
    hide Missing, TakePages, ExtendsTo, PageError, TablesFor, BuddyOps.Split, Shallow;
    PageDecided(pt.tables, pt.root, pt.tree, pt.mode, size, pt.pmem.Abstract(), page);
    FrameFitsPage(size);
    BuddyOps.AlignedAllocates(pt.pmem.Abstract(), pt.pmem.live, pt.pmem.region, FrameOrder(size));
    BuddyOps.AlignedSplitsInside(pt.pmem.Abstract(), pt.pmem.live, pt.pmem.region, FrameOrder(size));
    var frame := pt.pmem.Allocate(FrameOrder(size));
    if frame.Err? {
      TookNothing(pt.pmem.live, FrameOrder(size), pt.subtables);
      assert frames + [] == frames;
      return Refused(Alloc(frame.error)), [];
    }
    FrameAligned(pt.pmem.Abstract(), pt.pmem.live, pt.pmem.region, size, frame.value);
    var f: usize := frame.value;
    HeldOneMore(old(pt.pmem.live), pt.tables, pt.root, pt.subtables, pt.pmem.region, FrameOrder(size), frames, f);
    ghost var live, tables := pt.pmem.live, pt.tables;
    r := pt.Map(f, page, size, flags);
    FrameThenTables(old(pt.pmem.live), f, pt.pmem.live, FrameOrder(size), old(pt.subtables), pt.subtables);
    StillHeld(live, tables, pt.pmem.live, pt.tables, pt.root, old(pt.subtables), pt.subtables, pt.pmem.region, FrameOrder(size), frames + [f]);
    return r, [f];
  }

  /** A frame just taken joins the frames held; the tables stay owned. */
  lemma {:induction false} HeldOneMore(
      live: set<Block>, tables: Tables, root: nat, subs: seq<nat>, region: set<int>, order: nat, frames: seq<usize>, f: usize)
    requires Block(f, order) !in live && FramesHeld(live, tables, order, frames) && Owned(tables, root, subs, live, region)
    ensures FramesHeld(live + {Block(f, order)}, tables, order, frames + [f])
    ensures Owned(tables, root, subs, live + {Block(f, order)}, region)
  {
    assert order == 0 ==> f !in tables;
  }

  /** New tables are not among the frames held. */
  lemma {:induction false} StillHeld(
      live: set<Block>, tables: Tables, live': set<Block>, tables': Tables, root: nat, subs: seq<nat>, subs': seq<nat>,
      region: set<int>, order: nat, frames: seq<usize>)
    requires FramesHeld(live, tables, order, frames) && TablesTaken(live, live', subs, subs')
    requires Owned(tables, root, subs, live, region) && Owned(tables', root, subs', live', region)
    ensures FramesHeld(live', tables', order, frames)
  {
  }

  lemma {:induction false} NothingMapped(tables: Tables, root: nat, mode: Mode, vaddr: nat, size: PageSize, flags: Flags)
    ensures MapsRange(tables, tables, root, mode, vaddr, size, flags, [])
  {
    hide Translate, Answer;
  }

  lemma {:induction false} SameKeepsRange(
      t0: Tables, t1: Tables, t2: Tables, root: nat, mode: Mode, vaddr: nat, size: PageSize, flags: Flags, frames: seq<usize>)
    requires MapsRange(t0, t1, root, mode, vaddr, size, flags, frames) && SameTranslations(t1, t2, root, mode)
    ensures MapsRange(t0, t2, root, mode, vaddr, size, flags, frames)
  {
    hide Translate, RangeAnswer;
  }

  lemma {:induction false} StepFits(vaddr: nat, s: nat, n: nat, count: nat)
    requires n < count && vaddr + s * count < WORD
    ensures vaddr + n * s < WORD
  {
    assert n * s <= count * s;
  }

  /** A page below the limit, aligned: the range still ends within the address space. */
  lemma {:induction false} PageEnds(mode: Mode, vaddr: nat, size: PageSize, n: nat)
    requires size.IsAligned(PageAt(vaddr, size, n)) && PageAt(vaddr, size, n) < mode.MaxAddress()
    requires size.Level() < mode.Levels()
    ensures PageAt(vaddr, size, n + 1) <= Span(mode) && size.IsAligned(vaddr)
  {
    var s, v := size.Bytes(), PageAt(vaddr, size, n);
    SizesAreProducts(mode, size);
    var q, m := v / s, Pow512(mode.Levels() - size.Level());
    assert v == q * s && Span(mode) == s * m;
    assert (n + 1) * s == n * s + s;
    WholePages(q, m, s);
    assert vaddr == (q - n) * s;
    if q < n { MulAtLeast(q - n, s); }
    MultipleOf(q - n, s);
  }

  lemma {:induction false} WholePages(q: nat, m: nat, s: nat)
    requires q * s < m * s && s > 0
    ensures q * s + s <= m * s
  {
    assert (q - m) * s == q * s - m * s;
    assert (q + 1) * s == q * s + s;
    MulAtLeast(q - m, s);
    assert (m - q - 1) * s == m * s - q * s - s;
  }

  /** `map_alloc`: a frame for every page. Whatever happens, the frames reported are distinct
      live blocks taken by this call, the pages they back are exactly the mapped ones, and the
      only other blocks taken are new tables and, after a failure, the frame of the page that
      was refused. */
  method MapAlloc(pt: PageTable, vaddr: usize, count: nat, size: PageSize, flags: Flags)
      returns (r: Ending, frames: seq<usize>)
    requires pt.Valid() && flags != 0
    modifies pt, pt.pmem, pt.pmem.orders
    ensures pt.Valid() && pt.pmem.region == old(pt.pmem.region)
    ensures r == Panicked <==> PageAt(vaddr, size, count) >= WORD || size.Gigapage? || size.Terapage?
    ensures r == Panicked ==> frames == [] && pt.tables == old(pt.tables) && pt.pmem.live == old(pt.pmem.live)
    ensures r == Finished ==> |frames| == count
    ensures MapsRange(old(pt.tables), pt.tables, pt.root, pt.mode, vaddr, size, flags, frames)
    ensures HasFrames(size) ==> FramesHeld(pt.pmem.live, pt.tables, FrameOrder(size), frames)
    ensures r == Finished ==>
              Took(old(pt.pmem.live), pt.pmem.live, FrameOrder(size), frames, old(pt.subtables), pt.subtables)
    ensures r.Failed? ==>
              TookOneMore(old(pt.pmem.live), pt.pmem.live, FrameOrder(size), frames, old(pt.subtables), pt.subtables)
    ensures HasFrames(size) && frames != [] ==>
              size.IsAligned(vaddr) && PageAt(vaddr, size, |frames|) <= Span(pt.mode)
    ensures r != Panicked ==>
              RangeError(old(pt.tables), pt.root, old(pt.tree), pt.mode, size, old(pt.pmem.Abstract()), vaddr, PageAt(vaddr, size, count))
              == if r.Failed? then Some(r.error) else None
    ensures r == Finished <==>
              && HasFrames(size) && PageAt(vaddr, size, count) < WORD
              && RangeFits(old(pt.tables), pt.root, old(pt.tree), pt.mode, size, old(pt.pmem.Abstract()), vaddr, PageAt(vaddr, size, count))
  {
    hide Tiles, AllAligned, Threads, IsTree, MapsRange, Updates, SameTranslations, Took, FramesHeld, Span, Owned;
    hide TablesFor, TakePages, ExtendsTo, BuddyOps.Allocate, RangeFits, RangeError, PageAt;
    frames := [];
    NothingMapped(pt.tables, pt.root, pt.mode, vaddr, size, flags);
    NothingHeld(pt.pmem.live, pt.tables, if HasFrames(size) then FrameOrder(size) else 0);
    if PageAt(vaddr, size, count) >= WORD || !HasFrames(size) {
      return Panicked, [];
    }
    TookNothing(pt.pmem.live, FrameOrder(size), pt.subtables);
    ghost var end := PageAt(vaddr, size, count);
    FitsIffNoError(pt.tables, pt.root, pt.tree, pt.mode, size, pt.pmem.Abstract(), vaddr, end);
    assert vaddr == PageAt(vaddr, size, 0) by { PageBefore(vaddr, size, 0, 1); }
    while |frames| < count
      invariant |frames| <= count
      invariant pt.Valid() && pt.pmem.region == old(pt.pmem.region)
      invariant MapsRange(old(pt.tables), pt.tables, pt.root, pt.mode, vaddr, size, flags, frames)
      invariant FramesHeld(pt.pmem.live, pt.tables, FrameOrder(size), frames)
      invariant Took(old(pt.pmem.live), pt.pmem.live, FrameOrder(size), frames, old(pt.subtables), pt.subtables)
      invariant frames != [] ==> size.IsAligned(vaddr) && PageAt(vaddr, size, |frames|) <= Span(pt.mode)
      invariant RangeError(old(pt.tables), pt.root, old(pt.tree), pt.mode, size, old(pt.pmem.Abstract()), vaddr, end)
             == RangeError(old(pt.tables), pt.root, pt.tree, pt.mode, size, pt.pmem.Abstract(), PageAt(vaddr, size, |frames|), end)
      decreases count - |frames|
    {
      PageBefore(vaddr, size, |frames|, count);
      ghost var live, subs := pt.pmem.live, pt.subtables;
      SubsLive(pt.tables, pt.root, pt.subtables, pt.pmem.live, pt.pmem.region);
      var mapped, taken := MapNext(pt, vaddr, size, flags, |frames|, frames, old(pt.tables), end);
      TookMore(old(pt.pmem.live), live, pt.pmem.live, FrameOrder(size), frames, taken, old(pt.subtables), subs, pt.subtables);
      if mapped.Refused? {
        HeldPrefix(pt.pmem.live, pt.tables, FrameOrder(size), frames, taken);
        return Failed(mapped.error), frames;
      }
      frames := frames + taken;
    }
    NoMoreErrors(old(pt.tables), pt.root, pt.tree, pt.mode, size, pt.pmem.Abstract(), end);
    return Finished, frames;
  }

  /** One iteration of that loop, behind `k` pages: what it maps, and what it leaves to do. */
  method MapNext(pt: PageTable, vaddr: usize, size: PageSize, flags: Flags, k: nat, ghost frames: seq<usize>, ghost t0: Tables, ghost end: nat)
      returns (r: PageTables.Outcome, taken: seq<usize>)
    requires pt.Valid() && flags != 0 && HasFrames(size) && k == |frames| && PageAt(vaddr, size, k) < end < WORD
    requires FramesHeld(pt.pmem.live, pt.tables, FrameOrder(size), frames)
    requires MapsRange(t0, pt.tables, pt.root, pt.mode, vaddr, size, flags, frames)
    modifies pt, pt.pmem, pt.pmem.orders
    ensures pt.Valid() && pt.pmem.region == old(pt.pmem.region) && |taken| <= 1
    ensures Took(old(pt.pmem.live), pt.pmem.live, FrameOrder(size), taken, old(pt.subtables), pt.subtables)
    ensures FramesHeld(pt.pmem.live, pt.tables, FrameOrder(size), frames + taken)
    ensures r.Refused? ==> MapsRange(t0, pt.tables, pt.root, pt.mode, vaddr, size, flags, frames)
    ensures RangeError(t0, pt.root, old(pt.tree), pt.mode, size, old(pt.pmem.Abstract()), PageAt(vaddr, size, k), end)
         == match r
            case Refused(e) => Some(e)
            case Done => RangeError(t0, pt.root, pt.tree, pt.mode, size, pt.pmem.Abstract(), PageAt(vaddr, size, k + 1), end)
    ensures r.Done? ==>
              && |taken| == 1 && MapsRange(t0, pt.tables, pt.root, pt.mode, vaddr, size, flags, frames + taken)
              && size.IsAligned(vaddr) && PageAt(vaddr, size, k + 1) <= Span(pt.mode)
  {
    hide Tiles, AllAligned, Threads, IsTree, MapsRange, Updates, SameTranslations, Took, FramesHeld, Span, Owned;
    hide PageError, FirstError, TablesFor, TakePages, ExtendsTo, BuddyOps.Allocate, RangeError, Shallow, PathSet, PageAt;
    var page := PageAt(vaddr, size, k);
    ghost var tables, tree, s := pt.tables, pt.tree, pt.pmem.Abstract();
    ErrorHere(t0, tables, pt.root, tree, pt.mode, size, flags, s, vaddr, frames, end);
    r, taken := MapFrame(pt, page, size, flags, frames);
    if r.Refused? {
      SameKeepsRange(t0, tables, pt.tables, pt.root, pt.mode, vaddr, size, flags, frames);
    } else {
      assert taken == [taken[0]];
      MapOneMore(t0, tables, pt.tables, pt.root, pt.mode, vaddr, size, flags, frames, taken[0]);
      PageEnds(pt.mode, vaddr, size, k);
      ShallowGrows(tree, pt.tree, pt.mode, page, size);
      ErrorsBeyond(t0, pt.root, tree, pt.tree, pt.mode, size, s, vaddr, k, end);
    }
  }

  /** When `map_alloc` succeeds: the range is aligned, lies in the address space and is free, and
      there is a frame for every page and memory for every table that is missing. */
  ghost predicate RangeFits(
      tables: Tables, root: nat, tree: Tree, mode: Mode, size: PageSize, s: State, vaddr: nat, end: nat)
    requires HasFrames(size)
  {
    vaddr < end ==>
      && size.IsAligned(vaddr) && RangeFree(tables, root, mode, size, vaddr, end)
      && Feasible(s, FrameOrder(size), Misses(Shallow(tree, DepthOf(mode, size)), mode, size, vaddr, end))
  }

  /** The error that the loop ends with, from `page` on. */
  ghost function RangeError(
      t0: Tables, root: nat, tree: Tree, mode: Mode, size: PageSize, s: State, page: nat, end: nat): Option<MapError>
  {
    if HasFrames(size) then FirstError(t0, root, mode, size, Shallow(tree, DepthOf(mode, size)), s, page, end) else None
  }

  lemma {:induction false} NextAligned(page: nat, size: PageSize)
    ensures size.IsAligned(page + size.Bytes()) <==> size.IsAligned(page)
  {
    AddMultiple(page, size.Bytes(), 1);
  }

  lemma {:induction false} NoErrorIff(
      t0: Tables, root: nat, mode: Mode, size: PageSize, paths: set<seq<nat>>, s: State, page: nat, end: nat)
    requires HasFrames(size)
    ensures FirstError(t0, root, mode, size, paths, s, page, end) == None <==>
              page >= end || (size.IsAligned(page) && CanBack(t0, root, mode, size, FrameOrder(size), paths, s, page, end))
    decreases end - page
  {
    hide Translate, CountMissing, PathSet, BuddyOps.Allocate, TakePages, PageSize.IsAligned;
    if page < end {
      var d := DepthOf(mode, size);
      var s1 := BuddyOps.Allocate(s, FrameOrder(size)).0;
      NextAligned(page, size);
      NoErrorIff(t0, root, mode, size, paths + PathSet(mode.Levels(), page, d),
                 TakePages(s1, CountMissing(paths, mode.Levels(), page, 0, d)), page + size.Bytes(), end);
    }
  }

  lemma {:induction false} FitsIffNoError(
      tables: Tables, root: nat, tree: Tree, mode: Mode, size: PageSize, s: State, vaddr: nat, end: nat)
    requires HasFrames(size)
    ensures RangeFits(tables, root, tree, mode, size, s, vaddr, end)
            <==> RangeError(tables, root, tree, mode, size, s, vaddr, end) == None
  {
    hide RangeFree, Misses, CanBack, Shallow, Feasible, FirstError;
    NoErrorIff(tables, root, mode, size, Shallow(tree, DepthOf(mode, size)), s, vaddr, end);
    CanBackIff(tables, root, mode, size, FrameOrder(size), Shallow(tree, DepthOf(mode, size)), s, vaddr, end);
  }

  lemma {:induction false} PageBefore(vaddr: nat, size: PageSize, k: nat, count: nat)
    requires k < count
    ensures vaddr == PageAt(vaddr, size, 0) <= PageAt(vaddr, size, k) < PageAt(vaddr, size, count)
  {
    PageInside(vaddr, size.Bytes(), k, count);
  }

  /** What the next iteration answers, in terms of the tables before the loop. */
  lemma {:induction false} ErrorHere(
      t0: Tables, tables: Tables, root: nat, tree: Tree, mode: Mode, size: PageSize, flags: Flags, s: State,
      vaddr: nat, frames: seq<usize>, end: nat)
    requires HasFrames(size) && MapsRange(t0, tables, root, mode, vaddr, size, flags, frames)
    requires PageAt(vaddr, size, |frames|) < end
    ensures var page, d := PageAt(vaddr, size, |frames|), DepthOf(mode, size);
            var e := PageError(tables, root, mode, size, Shallow(tree, d), s, page);
            var s1 := BuddyOps.Allocate(s, FrameOrder(size)).0;
            RangeError(t0, root, tree, mode, size, s, page, end)
            == if e.Some? then e
               else FirstError(t0, root, mode, size, Shallow(tree, d) + PathSet(mode.Levels(), page, d),
                               TakePages(s1, TablesFor(tree, mode, size, page)), page + size.Bytes(), end)
  {
    hide Translate, CountMissing, Shallow, PathSet, BuddyOps.Allocate, TakePages, MapsRange;
    var page := PageAt(vaddr, size, |frames|);
    if page < mode.MaxAddress() { NotMappedYet(t0, tables, root, mode, vaddr, size, flags, frames); }
  }

  lemma {:induction false} NotMappedYet(
      t0: Tables, tables: Tables, root: nat, mode: Mode, vaddr: nat, size: PageSize, flags: Flags, frames: seq<usize>)
    requires MapsRange(t0, tables, root, mode, vaddr, size, flags, frames) && PageAt(vaddr, size, |frames|) < mode.MaxAddress()
    ensures var page := PageAt(vaddr, size, |frames|);
            Translate(tables, root, mode, page) == Translate(t0, root, mode, page)
  {
    hide Translate, Answer;
    var page := PageAt(vaddr, size, |frames|);
    DivModUnique(page, Span(mode), 0, page);
    assert Translate(tables, root, mode, page) == RangeAnswer(t0, root, mode, vaddr, size, flags, frames, page);
  }

  lemma {:induction false} ErrorsBeyond(
      t0: Tables, root: nat, tree: Tree, tree': Tree, mode: Mode, size: PageSize, s: State, vaddr: nat, k: nat, end: nat)
    requires HasFrames(size)
    requires var d := DepthOf(mode, size);
             Shallow(tree', d) == Shallow(tree, d) + PathSet(mode.Levels(), PageAt(vaddr, size, k), d)
    ensures var page, d := PageAt(vaddr, size, k), DepthOf(mode, size);
            var s2 := TakePages(BuddyOps.Allocate(s, FrameOrder(size)).0, TablesFor(tree, mode, size, page));
            FirstError(t0, root, mode, size, Shallow(tree, d) + PathSet(mode.Levels(), page, d), s2, page + size.Bytes(), end)
            == RangeError(t0, root, tree', mode, size, s2, PageAt(vaddr, size, k + 1), end)
  {
    hide FirstError, Shallow, PathSet, TakePages, BuddyOps.Allocate, TablesFor;
    assert (k + 1) * size.Bytes() == k * size.Bytes() + size.Bytes();
  }

  lemma {:induction false} NoMoreErrors(t0: Tables, root: nat, tree: Tree, mode: Mode, size: PageSize, s: State, end: nat)
    ensures RangeError(t0, root, tree, mode, size, s, end, end) == None
  {
  }

  lemma {:induction false} NothingHeld(live: set<Block>, tables: Tables, order: nat)
    ensures FramesHeld(live, tables, order, [])
  {
  }

  lemma {:induction false} HeldPrefix(live: set<Block>, tables: Tables, order: nat, frames: seq<usize>, more: seq<usize>)
    requires FramesHeld(live, tables, order, frames + more)
    ensures FramesHeld(live, tables, order, frames)
  {
    assert forall i :: 0 <= i < |frames| ==> (frames + more)[i] == frames[i];
  }

  // ----- free -----

  /** What `free` needs: the range is mapped, page by page, to frames that are held. */
  ghost predicate Backed(tables: Tables, root: nat, mode: Mode, vaddr: nat, size: PageSize, flags: seq<Flags>, frames: seq<usize>) {
    && |flags| == |frames| && HasFrames(size) && size.Level() < mode.Levels() && size.IsAligned(vaddr)
    && PageAt(vaddr, size, |frames|) <= Span(mode)
    && forall k :: 0 <= k < |frames| ==> BackedAt(tables, root, mode, vaddr, size, flags, frames, k)
  }

  ghost predicate BackedAt(tables: Tables, root: nat, mode: Mode, vaddr: nat, size: PageSize, flags: seq<Flags>,
                           frames: seq<usize>, k: nat)
    requires k < |frames| == |flags|
  {
    && PageAt(vaddr, size, k) < WORD
    && Translate(tables, root, mode, PageAt(vaddr, size, k)) == Mapped(frames[k], size, flags[k])
  }

  lemma {:induction false} PageAligned(vaddr: nat, size: PageSize, k: nat)
    requires size.IsAligned(vaddr)
    ensures size.IsAligned(PageAt(vaddr, size, k))
  {
    var s := size.Bytes();
    var q := vaddr / s;
    assert vaddr + k * s == (q + k) * s + 0;
    DivModUnique(vaddr + k * s, s, q + k, 0);
  }

  /** The pages not yet unmapped still translate as before. */
  lemma {:induction false} StillBacked(
      t0: Tables, t1: Tables, root: nat, mode: Mode, vaddr: nat, size: PageSize, flags: seq<Flags>, frames: seq<usize>, k: nat)
    requires Backed(t0, root, mode, vaddr, size, flags, frames) && k < |frames|
    requires UnmapsRange(t0, t1, root, mode, vaddr, size, k)
    ensures |flags| == |frames| && HasFrames(size) && size.Level() < mode.Levels()
    ensures PageAt(vaddr, size, k) < Span(mode) && size.IsAligned(PageAt(vaddr, size, k))
    ensures Translate(t1, root, mode, PageAt(vaddr, size, k)) == Mapped(frames[k], size, flags[k])
  {
    hide Translate, Span;
    var s, v := size.Bytes(), PageAt(vaddr, size, k);
    assert BackedAt(t0, root, mode, vaddr, size, flags, frames, k);
    assert (k + 1) * s <= |frames| * s;
    assert (k + 1) * s == k * s + s;
    DivModUnique(v, Span(mode), 0, v);
    PageAligned(vaddr, size, k);
  }

  lemma {:induction false} NothingUnmapped(tables: Tables, root: nat, mode: Mode, vaddr: nat, size: PageSize)
    ensures UnmapsRange(tables, tables, root, mode, vaddr, size, 0)
  {
    hide Translate;
  }

  /** One iteration of `free`: the page is unmapped and its frame goes back, once. */
  method FreeFrame(pt: PageTable, page: usize, ghost size: PageSize, order: nat, ghost flags: Flags, ghost f: usize)
      returns (r: Ending)
    requires pt.Valid() && HasFrames(size) && order == FrameOrder(size)
    requires Translate(pt.tables, pt.root, pt.mode, page) == Mapped(f, size, flags)
    requires Block(f, order) in pt.pmem.live && (order == 0 ==> f !in pt.tables)
    modifies pt, pt.pmem, pt.pmem.orders
    ensures pt.Valid() && (r == Finished || r == Failed(Alloc(NullPointer)))
    ensures r.Failed? <==> BuddyOps.MergesIntoNull(old(pt.pmem.lists), f, order)
    ensures r.Failed? ==> f < 0x100_0000
    ensures Unmaps(old(pt.tables), pt.tables, pt.root, pt.mode, page, size)
    ensures pt.tables.Keys == old(pt.tables).Keys && pt.subtables == old(pt.subtables) && pt.pmem.region == old(pt.pmem.region)
    ensures r == Finished ==> pt.pmem.live == old(pt.pmem.live) - {Block(f, order)}
    ensures r.Failed? ==> MergedAway(old(pt.pmem.live) - {Block(f, order)}, pt.pmem.live)
  {
    hide Tiles, AllAligned, Threads, IsTree, Translate, Unmaps, BuddyOps.Deallocate, Size, BuddyOps.MergesIntoNull;
    var t := pt.TranslateAddress(page);
    var paddr := t.paddr;
    var cleared := pt.Unmap(page);
    assert cleared == Cleared(true);
    FrameFitsPage(size);
    if paddr >= 0x100_0000 {
      BuddyOps.HighBlocksNeverLeak(pt.pmem.Abstract(), pt.pmem.live, pt.pmem.region, paddr, order);
    }
    var freed := pt.pmem.Deallocate(paddr, order);
    if freed.Err? {
      assert MergedAway(old(pt.pmem.live) - {Block(f, order)}, pt.pmem.live);
      return Failed(Alloc(freed.error));
    }
    return Finished;
  }

  /** The callers' contract of `free`: if there are pages, the first ones are mapped to frames
      that are held, and the one after them, if it belongs to the range, is not mapped. */
  ghost predicate Freeable(
      tables: Tables, root: nat, mode: Mode, live: set<Block>, vaddr: usize, count: nat, size: PageSize, flags: seq<Flags>,
      frames: seq<usize>) {
    match Translate(tables, root, mode, vaddr)
    case Mapped(_, s, _) =>
      HasFrames(s) && count > 0 && vaddr + s.Bytes() * count < WORD ==>
        && s == size && 0 < |frames| <= count && Backed(tables, root, mode, vaddr, size, flags, frames)
        && FramesHeld(live, tables, FrameOrder(size), frames)
        && (|frames| < count ==> Unbacked(tables, root, mode, PageAt(vaddr, size, |frames|)))
    case _ => true
  }

  ghost predicate Unbacked(tables: Tables, root: nat, mode: Mode, page: nat) {
    page < WORD ==> Translate(tables, root, mode, page) == NotMapped
  }

  /** `free` cannot start: nothing is mapped there, or a page without frames, or the range ends
      outside of the word. */
  function Refusal(t: Translation, vaddr: nat, count: nat): (r: Ending) {
    match t
    case NotMapped => Failed(InvalidAddress)
    case Panics => Panicked
    case Mapped(_, s, _) => if s.Gigapage? || s.Terapage? || vaddr + s.Bytes() * count >= WORD then Panicked else Finished
  }

  /** `free`: a refusal changes nothing. Otherwise the pages are unmapped one by one, nothing
      else changes, and exactly their frames go back to the allocator; a page that is not mapped
      makes it panic, and a frame that merges into a null buddy makes it fail. */
  method Free(pt: PageTable, vaddr: usize, count: nat, ghost size: PageSize, ghost flags: seq<Flags>, ghost frames: seq<usize>)
      returns (r: Ending)
    requires pt.Valid()
    requires Freeable(pt.tables, pt.root, pt.mode, pt.pmem.live, vaddr, count, size, flags, frames)
    modifies pt, pt.pmem, pt.pmem.orders
    ensures pt.Valid() && pt.subtables == old(pt.subtables) && pt.tables.Keys == old(pt.tables).Keys
    ensures pt.pmem.region == old(pt.pmem.region)
    ensures var refusal := Refusal(Translate(old(pt.tables), pt.root, pt.mode, vaddr), vaddr, count);
            if refusal != Finished || count == 0 then r == refusal && pt.tables == old(pt.tables) && pt.pmem.live == old(pt.pmem.live)
            else if r.Failed? then
              && r == Failed(Alloc(NullPointer)) && (exists i :: 0 <= i < |frames| && frames[i] < 0x100_0000)
              && exists k :: FailedAt(old(pt.tables), pt.tables, pt.root, pt.mode, vaddr, size, frames, old(pt.pmem.live), pt.pmem.live, k)
            else
              && (r == Finished <==> |frames| == count)
              && UnmapsRange(old(pt.tables), pt.tables, pt.root, pt.mode, vaddr, size, |frames|)
              && HasFrames(size) && pt.pmem.live == old(pt.pmem.live) - BlocksOf(frames, FrameOrder(size))
  {
    hide Tiles, AllAligned, Threads, IsTree, Translate, Unmaps, UnmapsRange, Backed, Span, BlocksOf, MergedAway, FailedAt;
    hide BuddyOps.MergesIntoNull, FramesHeld, Unbacked;
    var first := pt.TranslateAddress(vaddr);
    if first == NotMapped {
      return Failed(InvalidAddress);
    }
    if first == Panics || !HasFrames(first.size) || vaddr + first.size.Bytes() * count >= WORD {
      return Panicked;
    }
    var pageSize := first.size;
    var order := FrameOrder(pageSize);
    NothingUnmapped(pt.tables, pt.root, pt.mode, vaddr, size);
    NothingFreedYet(pt.pmem.live, frames, order);
    var k := 0;
    while k < count
      invariant k <= count && pt.Valid() && pt.tables.Keys == old(pt.tables).Keys && pt.subtables == old(pt.subtables)
      invariant k > 0 ==> k <= |frames|
      invariant pt.pmem.region == old(pt.pmem.region)
      invariant UnmapsRange(old(pt.tables), pt.tables, pt.root, pt.mode, vaddr, size, k)
      invariant k == 0 ==> pt.tables == old(pt.tables) && pt.pmem.live == old(pt.pmem.live)
      invariant k > 0 ==> pt.pmem.live == old(pt.pmem.live) - BlocksOf(frames[..k], order)
    {
      ghost var tables := pt.tables;
      StepFits(vaddr, pageSize.Bytes(), k, count);
      if k == |frames| {
        StillUnbacked(old(pt.tables), pt.tables, pt.root, pt.mode, vaddr, size, k);
        assert frames[..k] == frames;
      } else {
        StillBacked(old(pt.tables), pt.tables, pt.root, pt.mode, vaddr, size, flags, frames, k);
        HeldAt(old(pt.pmem.live), old(pt.tables), order, frames, k);
        assert order == 0 ==> frames[k] !in pt.tables.Keys;
        NotYetFreed(frames, k, order);
        assert k == 0 ==> old(pt.pmem.live) == old(pt.pmem.live) - BlocksOf(frames[..0], order);
      }
      var page := vaddr + k * pageSize.Bytes();
      var t := pt.TranslateAddress(page);
      if t == NotMapped {
        return Panicked;
      }
      ghost var live := pt.pmem.live;
      var ending := FreeFrame(pt, page, size, order, flags[k], frames[k]);
      UnmapOneMore(old(pt.tables), tables, pt.tables, pt.root, pt.mode, vaddr, size, k);
      if ending.Failed? {
        FailsHere(old(pt.tables), pt.tables, pt.root, pt.mode, vaddr, size, frames, old(pt.pmem.live), live, pt.pmem.live, k);
        return ending;
      }
      k := k + 1;
    }
    assert k > 0 ==> frames[..k] == frames;
    return Finished;
  }

  /** Freeing failed at page `k`: it is unmapped as well, but its frame was merged into a block
      that stays live. */
  ghost predicate FailedAt(
      t0: Tables, t1: Tables, root: nat, mode: Mode, vaddr: nat, size: PageSize, frames: seq<usize>,
      live: set<Block>, live': set<Block>, k: int) {
    && 0 <= k < |frames| && HasFrames(size) && UnmapsRange(t0, t1, root, mode, vaddr, size, k + 1)
    && MergedAway(live - BlocksOf(frames[..k + 1], FrameOrder(size)), live')
  }

  lemma {:induction false} FailsHere(
      t0: Tables, t1: Tables, root: nat, mode: Mode, vaddr: nat, size: PageSize, frames: seq<usize>,
      live0: set<Block>, live: set<Block>, live': set<Block>, k: nat)
    requires k < |frames| && HasFrames(size) && NoDuplicates(frames) && UnmapsRange(t0, t1, root, mode, vaddr, size, k + 1)
    requires live == live0 - BlocksOf(frames[..k], FrameOrder(size))
    requires MergedAway(live - {Block(frames[k], FrameOrder(size))}, live')
    ensures FailedAt(t0, t1, root, mode, vaddr, size, frames, live0, live', k)
  {
    hide UnmapsRange, BlocksOf, Size;
    NotYetFreed(frames, k, FrameOrder(size));
    assert live - {Block(frames[k], FrameOrder(size))} == live0 - BlocksOf(frames[..k + 1], FrameOrder(size));
  }

  lemma {:induction false} NothingFreedYet(live: set<Block>, frames: seq<usize>, order: nat)
    ensures live == live - BlocksOf(frames[..0], order)
  {
  }

  lemma {:induction false} StillUnbacked(t0: Tables, t1: Tables, root: nat, mode: Mode, vaddr: nat, size: PageSize, k: nat)
    requires Unbacked(t0, root, mode, PageAt(vaddr, size, k)) && UnmapsRange(t0, t1, root, mode, vaddr, size, k)
    ensures PageAt(vaddr, size, k) < WORD ==> Translate(t1, root, mode, PageAt(vaddr, size, k)) == NotMapped
  {
    hide Translate, Span;
  }

  lemma {:induction false} HeldAt(live: set<Block>, tables: Tables, order: nat, frames: seq<usize>, k: nat)
    requires k < |frames| && FramesHeld(live, tables, order, frames)
    ensures NoDuplicates(frames) && Block(frames[k], order) in live && (order == 0 ==> frames[k] !in tables)
  {
  }

  lemma {:induction false} NotYetFreed(frames: seq<usize>, k: nat, order: nat)
    requires k < |frames| && NoDuplicates(frames)
    ensures Block(frames[k], order) !in BlocksOf(frames[..k], order)
    ensures BlocksOf(frames[..k + 1], order) == BlocksOf(frames[..k], order) + {Block(frames[k], order)}
  {
    hide BlocksOf;
    assert frames[..k + 1] == frames[..k] + [frames[k]];
  }

  // ----- Matching calls -----

  function SameFlags(flags: Flags, n: nat): seq<Flags> {
    seq(n, _ => flags)
  }

  /** What `map_alloc` leaves is what a matching `free` needs... */
  lemma {:induction false} MapAllocBacks(
      t0: Tables, t1: Tables, root: nat, mode: Mode, vaddr: nat, size: PageSize, flags: Flags, frames: seq<usize>)
    requires HasFrames(size) && size.Level() < mode.Levels() && size.IsAligned(vaddr)
    requires PageAt(vaddr, size, |frames|) <= Span(mode)
    requires forall i :: 0 <= i < |frames| ==> size.IsAligned(frames[i])
    requires MapsRange(t0, t1, root, mode, vaddr, size, flags, frames)
    ensures Backed(t1, root, mode, vaddr, size, SameFlags(flags, |frames|), frames)
  {
    hide BackedAt, MapsRange, Span;
    forall k | 0 <= k < |frames| ensures BackedAt(t1, root, mode, vaddr, size, SameFlags(flags, |frames|), frames, k) {
      MapAllocBacksAt(t0, t1, root, mode, vaddr, size, flags, frames, k);
    }
  }

  lemma {:induction false} MapAllocBacksAt(
      t0: Tables, t1: Tables, root: nat, mode: Mode, vaddr: nat, size: PageSize, flags: Flags, frames: seq<usize>, k: nat)
    requires HasFrames(size) && size.IsAligned(vaddr) && k < |frames|
    requires PageAt(vaddr, size, |frames|) <= Span(mode) && size.IsAligned(frames[k])
    requires MapsRange(t0, t1, root, mode, vaddr, size, flags, frames)
    ensures BackedAt(t1, root, mode, vaddr, size, SameFlags(flags, |frames|), frames, k)
  {
    hide Translate, Span;
    var s, v := size.Bytes(), PageAt(vaddr, size, k);
    PageInside(vaddr, s, k, |frames|);
    DivModUnique(v, Span(mode), 0, v);
    PageIndex(k * s, k, s);
    PageAligned(vaddr, size, k);
    AnswerDoesNotWrap(frames[k], size, v);
    assert Translate(t1, root, mode, v) == RangeAnswer(t0, root, mode, vaddr, size, flags, frames, v);
  }

  lemma {:induction false} PageInside(vaddr: nat, s: nat, k: nat, n: nat)
    requires k < n && s > 0
    ensures vaddr <= vaddr + k * s < vaddr + n * s
  {
    assert (k + 1) * s <= n * s;
    assert (k + 1) * s == k * s + s;
  }

  lemma {:induction false} HeldAligned(
      s: State, live: set<Block>, region: set<int>, tables: Tables, size: PageSize, frames: seq<usize>)
    requires HasFrames(size) && Tiles(s, live, region) && AllAligned(s, live)
    requires FramesHeld(live, tables, FrameOrder(size), frames)
    ensures forall i :: 0 <= i < |frames| ==> size.IsAligned(frames[i]) && frames[i] in region
  {
    hide Tiles, AllAligned;
    forall i | 0 <= i < |frames| ensures size.IsAligned(frames[i]) && frames[i] in region {
      FrameAligned(s, live, region, size, frames[i]);
      LiveInRegion(s, live, region, Block(frames[i], FrameOrder(size)));
    }
  }

  lemma {:induction false} MapAllocFreeable(
      tables: Tables, root: nat, mode: Mode, live: set<Block>, vaddr: usize, size: PageSize, flags: seq<Flags>, frames: seq<usize>)
    requires Backed(tables, root, mode, vaddr, size, flags, frames) && frames != []
    requires FramesHeld(live, tables, FrameOrder(size), frames) && PageAt(vaddr, size, |frames|) < WORD
    ensures Freeable(tables, root, mode, live, vaddr, |frames|, size, flags, frames)
    ensures Refusal(Translate(tables, root, mode, vaddr), vaddr, |frames|) == Finished
  {
    hide Translate, Span, FramesHeld;
    assert BackedAt(tables, root, mode, vaddr, size, flags, frames, 0);
  }

  /** ...and the two together only clear the range: every other address translates as it did
      before the allocation. */
  lemma {:induction false} ClearsOnly(
      t0: Tables, t1: Tables, t2: Tables, root: nat, mode: Mode, vaddr: nat, size: PageSize, flags: Flags, frames: seq<usize>)
    requires MapsRange(t0, t1, root, mode, vaddr, size, flags, frames)
    requires UnmapsRange(t1, t2, root, mode, vaddr, size, |frames|)
    ensures UnmapsRange(t0, t2, root, mode, vaddr, size, |frames|)
  {
    hide Translate, Span, Answer;
  }

  lemma {:induction false} OnlyTablesLeft(
      live: set<Block>, live': set<Block>, order: nat, frames: seq<usize>, subs: seq<nat>, subs': seq<nat>)
    requires Took(live, live', order, frames, subs, subs')
    ensures TablesTaken(live, live' - BlocksOf(frames, order), subs, subs')
  {
    hide BlocksOf;
  }

  /** `map_alloc` followed by the matching `free`: every frame is back, once, and what remains
      live of the allocation is its new tables. The second call succeeds unless there is memory
      below 16 MiB. */
  method MapAllocThenFree(pt: PageTable, vaddr: usize, count: nat, size: PageSize, flags: Flags)
      returns (mapped: Ending, freed: Ending)
    requires pt.Valid() && flags != 0 && count > 0
    modifies pt, pt.pmem, pt.pmem.orders
    ensures pt.Valid() && pt.pmem.region == old(pt.pmem.region)
    ensures mapped == Panicked <==> PageAt(vaddr, size, count) >= WORD || size.Gigapage? || size.Terapage?
    ensures mapped != Panicked ==>
              RangeError(old(pt.tables), pt.root, old(pt.tree), pt.mode, size, old(pt.pmem.Abstract()), vaddr, PageAt(vaddr, size, count))
              == if mapped.Failed? then Some(mapped.error) else None
    ensures mapped == Finished <==>
              && HasFrames(size) && PageAt(vaddr, size, count) < WORD
              && RangeFits(old(pt.tables), pt.root, old(pt.tree), pt.mode, size, old(pt.pmem.Abstract()), vaddr, PageAt(vaddr, size, count))
    ensures mapped == Finished && freed == Finished ==>
              && UnmapsRange(old(pt.tables), pt.tables, pt.root, pt.mode, vaddr, size, count)
              && TablesTaken(old(pt.pmem.live), pt.pmem.live, old(pt.subtables), pt.subtables)
              && forall t :: t in pt.subtables ==> Block(t, 0) in pt.pmem.live
    ensures mapped == Finished && (forall x :: x in pt.pmem.region ==> x >= 0x100_0000) ==> freed == Finished
  {
    hide Tiles, AllAligned, Threads, IsTree, Translate, MapsRange, UnmapsRange, Took, TookOneMore, FramesHeld, Freeable;
    hide Backed, Refusal, BlocksOf, Owned, TablesTaken, FailedAt, Span, RangeFits, RangeError, PageAt;
    var frames;
    mapped, frames := MapAlloc(pt, vaddr, count, size, flags);
    if mapped != Finished {
      return mapped, mapped;
    }
    ghost var tables, live := pt.tables, pt.pmem.live;
    HeldAligned(pt.pmem.Abstract(), pt.pmem.live, pt.pmem.region, pt.tables, size, frames);
    MapAllocBacks(old(pt.tables), pt.tables, pt.root, pt.mode, vaddr, size, flags, frames);
    MapAllocFreeable(pt.tables, pt.root, pt.mode, pt.pmem.live, vaddr, size, SameFlags(flags, count), frames);
    freed := Free(pt, vaddr, count, size, SameFlags(flags, count), frames);
    SubsLive(pt.tables, pt.root, pt.subtables, pt.pmem.live, pt.pmem.region);
    if freed == Finished {
      ClearsOnly(old(pt.tables), tables, pt.tables, pt.root, pt.mode, vaddr, size, flags, frames);
      OnlyTablesLeft(old(pt.pmem.live), live, FrameOrder(size), frames, old(pt.subtables), pt.subtables);
    }
  }
}
