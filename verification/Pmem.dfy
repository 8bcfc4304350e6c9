/** `pmem::init`: from the memory regions of the devicetree to a filled allocator. */
module Pmem {
  import opened Bits
  import opened Blocks
  import opened RangeSpec
  import opened BuddySpec
  import opened BuddyAllocator
  import opened FreeListMemory
  import opened Wrappers
  import R = RangeSet

  datatype MemRegion = MemRegion(start: usize, size: usize) {
    ghost predicate Has(p: int) { start <= p < start + size }
  }

  datatype Error = RangeSet(range: R.Error) | Alloc(alloc: BuddySpec.Error) | NullRegion

  datatype Outcome = Ready | Failed(error: Error) | Panicked

  const OPENSBI := Range(0x8000_0000, 0x801F_FFFF)

  ghost predicate InRegions(regions: seq<MemRegion>, p: int) {
    exists i :: 0 <= i < |regions| && regions[i].Has(p)
  }

  /** The addresses that may be handed out: in a memory region, outside the firmware and the
      kernel image. */
  ghost predicate Usable(regions: seq<MemRegion>, kernelStart: usize, kernelEnd: usize, p: int) {
    InRegions(regions, p) && !(0x8000_0000 <= p < 0x8020_0000) && !(kernelStart <= p < kernelEnd)
  }

  /** The inclusive range of a region; `end()` and the subtraction must not leave the word. */
  predicate Representable(m: MemRegion) {
    0 < m.start + m.size < WORD
  }

  function RangeOf(m: MemRegion): Range
    requires Representable(m)
  {
    Range(m.start, m.start + m.size - 1)
  }

  /** What inserting the regions one by one ends with. */
  function Collect(c: R.Contents, regions: seq<MemRegion>): (r: (Outcome, R.Contents))
    requires c.Fits()
    ensures r.1.Fits()
    decreases |regions|
  {
    if regions == [] then (Ready, c)
    else if !Representable(regions[0]) then (Panicked, c)
    else
      var range := RangeOf(regions[0]);
      if !WellFormed(range) then (Failed(RangeSet(R.InvalidRange)), c)
      else if !R.InsertReturns(c.slots, c.n, range) then (Panicked, c)
      else Collect(R.Inserted(c, range), regions[1..])
  }

  /** Every region is representable and not empty. */
  predicate Sound(regions: seq<MemRegion>) {
    forall i :: 0 <= i < |regions| ==> Representable(regions[i]) && regions[i].size > 0
  }

  function RangesOf(regions: seq<MemRegion>): (rs: seq<Range>)
    requires Sound(regions)
    ensures |rs| == |regions|
    ensures forall i :: 0 <= i < |rs| ==> rs[i] == RangeOf(regions[i]) && WellFormed(rs[i])
  {
    seq(|regions|, i requires 0 <= i < |regions| => RangeOf(regions[i]))
  }

  /** Collecting succeeds exactly when every region is sound and all inserts return. */
  lemma {:induction false} CollectsIff(c: R.Contents, regions: seq<MemRegion>)
    requires c.Fits()
    ensures Collect(c, regions).0.Ready? <==> Sound(regions) && R.InsertAll(c, RangesOf(regions)).Some?
    ensures Collect(c, regions).0.Ready? ==> R.InsertAll(c, RangesOf(regions)) == Some(Collect(c, regions).1)
    decreases |regions|
  {
    hide R.InsertReturns, R.Inserted;
    if regions != [] {
      assert Sound(regions) ==> Sound(regions[1..]) && RangesOf(regions)[1..] == RangesOf(regions[1..]);
      assert Sound(regions[1..]) && Representable(regions[0]) && regions[0].size > 0 ==> Sound(regions) by {
        assert forall i :: 1 <= i < |regions| ==> regions[i] == regions[1..][i - 1];
      }
      if Representable(regions[0]) && regions[0].size > 0 && R.InsertReturns(c.slots, c.n, RangeOf(regions[0])) {
        CollectsIff(R.Inserted(c, RangeOf(regions[0])), regions[1..]);
      }
    }
  }

  /** For regions in ascending order: exactly when they are sound and leave no more than eight
      ranges once touching ones are joined. */
  lemma {:induction false} AscendingCollects(regions: seq<MemRegion>)
    requires Sound(regions) && R.Ascending(RangesOf(regions))
    ensures var (r, c) := Collect(R.EmptyContents(), regions);
            && (r.Ready? <==> |R.Joined([], RangesOf(regions))| <= RANGE_COUNT)
            && (r.Ready? ==> c.Live() == R.Joined([], RangesOf(regions)))
  {
    hide Collect, R.InsertAll, R.Joined;
    CollectsIff(R.EmptyContents(), regions);
    assert R.EmptyContents().Live() == [];
    R.AscendingInsertsReturn(R.EmptyContents(), RangesOf(regions));
  }

  /** For regions that do not touch, in any order: exactly when there are at most eight. */
  lemma {:induction false} ApartCollects(regions: seq<MemRegion>)
    requires Sound(regions) && Canonical(RangesOf(regions))
    ensures var (r, c) := Collect(R.EmptyContents(), regions);
            && (r.Ready? <==> |regions| <= RANGE_COUNT)
            && (r.Ready? ==> c.Live() == RangesOf(regions))
  {
    hide Collect, R.InsertAll, Canonical;
    CollectsIff(R.EmptyContents(), regions);
    assert R.EmptyContents().Live() + RangesOf(regions) == RangesOf(regions);
    R.ApartInsertsReturn(R.EmptyContents(), RangesOf(regions));
  }

  /** Insert every region; the end becomes inclusive. */
  method CollectRegions(regions: seq<MemRegion>) returns (mem: R.RangeSet, r: Outcome)
    ensures fresh(mem) && fresh(mem.ranges)
    ensures r == Collect(R.EmptyContents(), regions).0
    ensures r.Ready? ==> mem.Valid() && R.Contents(mem.ranges[..], mem.idx) == Collect(R.EmptyContents(), regions).1
    ensures r.Ready? ==> Denotes(mem.Live(), regions)
  {
    hide Denotes, Canonical, R.InsertReturns, R.MergedRange, Kept, Collect, R.Inserted;
    mem := new R.RangeSet();
    NothingDenoted(regions);
    r := Ready;
    var i := 0;
    while i < |regions|
      invariant i <= |regions| && r == Ready
      invariant fresh(mem) && fresh(mem.ranges) && mem.Valid()
      invariant Collect(R.Contents(mem.ranges[..], mem.idx), regions[i..]) == Collect(R.EmptyContents(), regions)
      invariant Denotes(mem.Live(), regions[..i])
    {
      var region := regions[i];
      ghost var c, l := R.Contents(mem.ranges[..], mem.idx), mem.Live();
      CollectStep(c, regions, i);
      if region.start + region.size >= WORD || region.start + region.size == 0 {
        return mem, Panicked;
      }
      var outcome := mem.Insert(Range(region.start, region.start + region.size - 1));
      match outcome {
        case Failed(e) => return mem, Failed(RangeSet(e));
        case Panicked => return mem, Panicked;
        case Done =>
      }
      DenotesMore(l, mem.Live(), regions, i);
      i := i + 1;
    }
    assert regions[..|regions|] == regions;
    NothingToCollect(R.Contents(mem.ranges[..], mem.idx), regions);
  }

  /** The ranges hold exactly the addresses of the regions. */
  ghost predicate Denotes(l: seq<Range>, regions: seq<MemRegion>) {
    forall p :: Holds(l, p) <==> InRegions(regions, p)
  }

  lemma {:induction false} NothingDenoted(regions: seq<MemRegion>)
    ensures Denotes([], regions[..0]) && regions[0..] == regions
  {
  }

  lemma {:induction false} NothingToCollect(c: R.Contents, regions: seq<MemRegion>)
    requires c.Fits()
    ensures Collect(c, regions[|regions|..]) == (Ready, c)
  {
  }

  lemma {:induction false} DenotesMore(l: seq<Range>, l': seq<Range>, regions: seq<MemRegion>, i: nat)
    requires i < |regions| && Representable(regions[i]) && Denotes(l, regions[..i])
    requires forall p :: Holds(l', p) <==> Holds(l, p) || RangeOf(regions[i]).Has(p)
    ensures Denotes(l', regions[..i + 1])
  {
    hide Holds, InRegions;
    OneMore(regions, i);
    assert forall p :: regions[i].Has(p) <==> RangeOf(regions[i]).Has(p);
  }

  lemma {:induction false} CollectStep(c: R.Contents, regions: seq<MemRegion>, i: nat)
    requires c.Fits() && i < |regions|
    ensures Collect(c, regions[i..])
         == if !Representable(regions[i]) then (Panicked, c)
            else
              var range := RangeOf(regions[i]);
              if !WellFormed(range) then (Failed(RangeSet(R.InvalidRange)), c)
              else if !R.InsertReturns(c.slots, c.n, range) then (Panicked, c)
              else Collect(R.Inserted(c, range), regions[i + 1..])
  {
    hide R.InsertReturns, R.Inserted;
    assert regions[i..][0] == regions[i] && regions[i..][1..] == regions[i + 1..];
  }

  lemma {:induction false} OneMore(regions: seq<MemRegion>, i: nat)
    requires i < |regions|
    ensures forall p :: InRegions(regions[..i + 1], p) <==> InRegions(regions[..i], p) || regions[i].Has(p)
  {
    forall p ensures InRegions(regions[..i + 1], p) <==> InRegions(regions[..i], p) || regions[i].Has(p) {
      if j :| 0 <= j < i && regions[..i][j].Has(p) { assert regions[..i + 1][j].Has(p); }
      if regions[i].Has(p) { assert regions[..i + 1][i].Has(p); }
      if InRegions(regions[..i + 1], p) && !regions[i].Has(p) {
        var m := regions[..i + 1];
        var j :| 0 <= j < |m| && m[j].Has(p);
        assert regions[..i][j].Has(p);
      }
    }
  }

  /** The whole pages of a range; its last byte is lost, because the inclusive end is passed as
      an exclusive one. */
  ghost function PagesOf(range: Range): set<int> {
    if range.start + PAGE_SIZE > WORD then {}
    else
      var first := AlignUp(range.start, PAGE_SIZE);
      Interval(first, first + Region.WholePages(first, range.end))
  }

  /** What handing one range to the allocator ends with. */
  ghost function RangeOutcome(range: Range): Outcome {
    if range.start == 0 || range.end == 0 then Failed(NullRegion)
    else if range.start + PAGE_SIZE > WORD then Panicked
    else
      var first := AlignUp(range.start, PAGE_SIZE);
      if range.end < first + PAGE_SIZE then Failed(Alloc(RegionTooSmall))
      else if Region.MeetsNullBuddy(first, range.end) then Failed(Alloc(NullPointer))
      else Ready
  }

  /** The first range that does not go in decides. */
  ghost function AddOutcome(l: seq<Range>): Outcome {
    if l == [] then Ready
    else
      var first := RangeOutcome(l[0]);
      if first.Ready? then AddOutcome(l[1..]) else first
  }

  lemma {:induction false} AddReadyIff(l: seq<Range>)
    ensures AddOutcome(l).Ready? <==> forall i :: 0 <= i < |l| ==> RangeOutcome(l[i]).Ready?
  {
    hide RangeOutcome;
    if l != [] {
      AddReadyIff(l[1..]);
      assert forall i :: 1 <= i < |l| ==> l[i] == l[1..][i - 1];
    }
  }

  /** The pages of all the ranges. */
  ghost function AllPages(l: seq<Range>): set<int> {
    if l == [] then {} else AllPages(l[..|l| - 1]) + PagesOf(l[|l| - 1])
  }

  /** The first page of the range is not 1 modulo 4, or it is the only one. */
  predicate RangeStartsWell(range: Range) {
    range.start + PAGE_SIZE <= WORD && Region.StartsWell(AlignUp(range.start, PAGE_SIZE), range.end)
  }

  /** Hand one range to the allocator: its whole pages are added, and the blocks stay aligned
      exactly when it starts well. */
  method AddRange(range: Range, alloc: Allocator) returns (r: Outcome)
    requires alloc.Valid() && alloc.live == {}
    requires forall p :: p in alloc.region ==> !range.Has(p)
    modifies alloc, alloc.orders
    ensures alloc.Valid() && alloc.live == {}
    ensures r == RangeOutcome(range)
    ensures r.Ready? ==> alloc.region == old(alloc.region) + PagesOf(range)
    ensures r.Ready? ==>
              (AllAligned(alloc.Abstract(), {}) <==> old(AllAligned(alloc.Abstract(), {})) && RangeStartsWell(range))
    ensures r.Ready? ==> forall p :: p in PagesOf(range) ==> range.Has(p)
  {
    hide Tiles, Threads, AlignUp, Interval, AllAligned, Region.MeetsNullBuddy, Region.AddRegion;
    if range.start == 0 || range.end == 0 {
      return Failed(NullRegion);
    }
    if range.start + PAGE_SIZE > WORD {
      return Panicked;
    }
    NextRangeFits(range.start, range.end);
    ghost var s0 := alloc.Abstract();
    var added := alloc.AddRegion(range.start, range.end);
    if added.Err? {
      return Failed(Alloc(added.error));
    }
    AlignedWhenStartsWell(s0, old(alloc.region), range);
    return Ready;
  }

  lemma {:induction false} AlignedWhenStartsWell(s: State, region: set<int>, range: Range)
    requires Tiles(s, {}, region) && 0 < range.start && range.start + PAGE_SIZE <= WORD
    requires Interval(AlignUp(range.start, PAGE_SIZE), range.end) !! region
    requires Region.AddRegion(s, range.start, range.end).1.Ok?
    ensures AllAligned(Region.AddRegion(s, range.start, range.end).0, {}) <==> AllAligned(s, {}) && RangeStartsWell(range)
  {
    hide Tiles, AllAligned, Region.AddFrom, AlignUp, Interval;
    AlignUpPage(range.start);
    Region.AddFromAlignedIff(s, {}, region, AlignUp(range.start, PAGE_SIZE), range.end, 0);
  }

  /** Hand every remaining range to the allocator. */
  method AddRanges(l: seq<Range>, alloc: Allocator) returns (r: Outcome)
    requires Canonical(l) && alloc.Valid() && alloc.live == {} && alloc.region == {}
    requires AllAligned(alloc.Abstract(), {})
    modifies alloc, alloc.orders
    ensures alloc.Valid() && alloc.live == {}
    ensures r == AddOutcome(l)
    ensures r.Ready? ==> alloc.region == AllPages(l)
    ensures r.Ready? ==> (AllAligned(alloc.Abstract(), {}) <==> AllStartWell(l))
    ensures r.Ready? ==> forall p :: p in alloc.region ==> Holds(l, p)
  {
    hide Holds, Canonical, Tiles, Threads, AllAligned, RangeOutcome, PagesOf, RangeStartsWell, AddOutcome, AllPages;
    var i := 0;
    assert l[0..] == l;
    StartOfPages(l);
    while i < |l|
      invariant i <= |l|
      invariant alloc.Valid() && alloc.live == {}
      invariant AddOutcome(l[i..]) == AddOutcome(l)
      invariant alloc.region == AllPages(l[..i])
      invariant AllAligned(alloc.Abstract(), {}) <==> AllStartWell(l[..i])
      invariant forall p :: p in alloc.region ==> Holds(l[..i], p)
    {
      NextRangeApart(l, i, alloc.region);
      AddStep(l, i);
      r := AddRange(l[i], alloc);
      if !r.Ready? {
        return;
      }
      StillCovered(l, i);
      MorePages(l, i);
      i := i + 1;
    }
    assert l[..|l|] == l;
    assert AddOutcome(l[|l|..]) == Ready by { NoneLeft(l); }
    return Ready;
  }

  ghost predicate AllStartWell(l: seq<Range>) {
    forall i :: 0 <= i < |l| ==> RangeStartsWell(l[i])
  }

  lemma {:induction false} NoneLeft(l: seq<Range>)
    ensures AddOutcome(l[|l|..]) == Ready
  {
  }

  lemma {:induction false} StartOfPages(l: seq<Range>)
    ensures AllPages(l[..0]) == {} && AllStartWell(l[..0])
  {
  }

  lemma {:induction false} AddStep(l: seq<Range>, i: nat)
    requires i < |l|
    ensures AddOutcome(l[i..]) == if RangeOutcome(l[i]).Ready? then AddOutcome(l[i + 1..]) else RangeOutcome(l[i])
  {
    hide RangeOutcome;
    assert l[i..][0] == l[i] && l[i..][1..] == l[i + 1..];
  }

  lemma {:induction false} MorePages(l: seq<Range>, i: nat)
    requires i < |l|
    ensures AllPages(l[..i + 1]) == AllPages(l[..i]) + PagesOf(l[i])
    ensures AllStartWell(l[..i + 1]) <==> AllStartWell(l[..i]) && RangeStartsWell(l[i])
  {
    hide PagesOf, Region.StartsWell, AlignUp;
    assert l[..i + 1][..i] == l[..i] && l[..i + 1][i] == l[i];
    assert forall j :: 0 <= j < i ==> l[..i + 1][j] == l[..i][j];
  }

  lemma {:induction false} NextRangeApart(l: seq<Range>, i: nat, region: set<int>)
    requires Canonical(l) && i < |l| && forall p :: p in region ==> Holds(l[..i], p)
    ensures forall p :: p in region ==> !l[i].Has(p)
  {
    forall p | p in region ensures !l[i].Has(p) {
      var j :| 0 <= j < i && l[..i][j].Has(p);
      assert !Touches(l[i], l[j]);
      TouchesMeans(l[i], l[j]);
    }
  }

  lemma {:induction false} NextRangeFits(start: nat, end: nat)
    requires start + PAGE_SIZE <= WORD
    ensures start <= AlignUp(start, PAGE_SIZE)
    ensures AlignUp(start, PAGE_SIZE) + Region.WholePages(AlignUp(start, PAGE_SIZE), end) <= end
            || end < AlignUp(start, PAGE_SIZE) + PAGE_SIZE
  {
    AlignUpPage(start);
  }

  lemma {:induction false} StillCovered(l: seq<Range>, i: nat)
    requires i < |l|
    ensures forall p :: Holds(l[..i], p) || l[i].Has(p) ==> Holds(l[..i + 1], p)
  {
    assert l[..i + 1] == l[..i] + [l[i]];
    forall p | Holds(l[..i], p) || l[i].Has(p) ensures Holds(l[..i + 1], p) {
      HoldsConcat(l[..i], [l[i]], p);
      if l[i].Has(p) { assert [l[i]][0].Has(p); }
    }
  }

  ghost predicate Overflows(l: seq<Range>, range: Range) {
    |l| == RANGE_COUNT && HasSplit(l, range)
  }

  // ----- In terms of the inputs -----

  /** `r` is a maximal run of usable addresses. */
  ghost predicate UsableRun(regions: seq<MemRegion>, kernelStart: usize, kernelEnd: usize, r: Range) {
    && WellFormed(r) && (forall p :: r.Has(p) ==> Usable(regions, kernelStart, kernelEnd, p))
    && !Usable(regions, kernelStart, kernelEnd, r.start - 1) && !Usable(regions, kernelStart, kernelEnd, r.end + 1)
  }

  /** The ranges are the memory regions without the firmware. */
  ghost predicate WithoutFirmware(regions: seq<MemRegion>, l: seq<Range>) {
    Canonical(l) && forall p :: Holds(l, p) <==> InRegions(regions, p) && !(0x8000_0000 <= p < 0x8020_0000)
  }

  /** Without the firmware there are eight runs, and the kernel lies inside one of them. */
  ghost predicate Crowded(regions: seq<MemRegion>, kernel: Range) {
    exists l :: WithoutFirmware(regions, l) && Overflows(l, kernel)
  }

  ghost predicate RunsReady(regions: seq<MemRegion>, kernelStart: usize, kernelEnd: usize) {
    forall r :: UsableRun(regions, kernelStart, kernelEnd, r) ==> RangeOutcome(r).Ready?
  }

  ghost predicate RunsStartWell(regions: seq<MemRegion>, kernelStart: usize, kernelEnd: usize) {
    forall r :: UsableRun(regions, kernelStart, kernelEnd, r) ==> RangeStartsWell(r)
  }

  /** `p` lies in a whole page of a run. */
  ghost predicate InRunPages(regions: seq<MemRegion>, kernelStart: usize, kernelEnd: usize, p: int) {
    exists r :: UsableRun(regions, kernelStart, kernelEnd, r) && p in PagesOf(r)
  }

  /** A run that cannot be handed over decides the outcome. */
  ghost predicate RunFails(regions: seq<MemRegion>, kernelStart: usize, kernelEnd: usize, o: Outcome) {
    exists r :: UsableRun(regions, kernelStart, kernelEnd, r) && RangeOutcome(r) == o && !o.Ready?
  }

  /** How `init` ends. */
  ghost predicate Ends(r: Outcome, regions: seq<MemRegion>, kernelStart: usize, kernelEnd: usize) {
    var (collected, c) := Collect(R.EmptyContents(), regions);
    if !collected.Ready? then r == collected
    else if kernelEnd == 0 || Overflows(c.Live(), Range(0x8000_0000, 0x801F_FFFF)) then r == Panicked
    else if kernelStart > kernelEnd - 1 then r == Failed(RangeSet(R.InvalidRange))
    else if Crowded(regions, Range(kernelStart, kernelEnd - 1)) then r == Panicked
    else if RunsReady(regions, kernelStart, kernelEnd) then r == Ready
    else RunFails(regions, kernelStart, kernelEnd, r)
  }

  lemma {:induction false} CrowdedIff(regions: seq<MemRegion>, l: seq<Range>, kernel: Range)
    requires WithoutFirmware(regions, l)
    ensures Crowded(regions, kernel) <==> Overflows(l, kernel)
  {
    hide Canonical, Holds, HasSplit;
    forall m | WithoutFirmware(regions, m) ensures Overflows(m, kernel) <==> Overflows(l, kernel) {
      CanonicalUnique(l, m);
      SameElements(l, m);
    }
  }

  /** The ranges left are the maximal runs of usable addresses. */
  lemma {:induction false} LeftAreRuns(regions: seq<MemRegion>, kernelStart: usize, kernelEnd: usize, l: seq<Range>)
    requires Canonical(l) && forall p :: Holds(l, p) <==> Usable(regions, kernelStart, kernelEnd, p)
    ensures forall r :: r in l <==> UsableRun(regions, kernelStart, kernelEnd, r)
  {
    hide Canonical, Holds, Usable;
    RangesAreRuns(l);
    forall r ensures RunOf(l, r) <==> UsableRun(regions, kernelStart, kernelEnd, r) {
    }
  }

  lemma {:induction false} AllPagesMeans(l: seq<Range>, p: int)
    ensures p in AllPages(l) <==> exists r :: r in l && p in PagesOf(r)
  {
    hide PagesOf;
    if l != [] {
      var n := |l| - 1;
      AllPagesMeans(l[..n], p);
      assert forall r :: r in l <==> r in l[..n] || r == l[n];
    }
  }

  lemma {:induction false} FirstFailure(l: seq<Range>)
    ensures AddOutcome(l).Ready? <==> forall r :: r in l ==> RangeOutcome(r).Ready?
    ensures !AddOutcome(l).Ready? ==> exists r :: r in l && RangeOutcome(r) == AddOutcome(l)
  {
    hide RangeOutcome;
    AddReadyIff(l);
    if l != [] {
      FirstFailure(l[1..]);
      assert forall r :: r in l[1..] ==> r in l;
    }
  }

  /** So the outcome, the pages and the alignment depend on the inputs alone. */
  lemma {:induction false} DecidedByRuns(regions: seq<MemRegion>, kernelStart: usize, kernelEnd: usize, l: seq<Range>)
    requires Canonical(l) && forall p :: Holds(l, p) <==> Usable(regions, kernelStart, kernelEnd, p)
    ensures if RunsReady(regions, kernelStart, kernelEnd) then AddOutcome(l) == Ready
            else RunFails(regions, kernelStart, kernelEnd, AddOutcome(l))
    ensures AllStartWell(l) <==> RunsStartWell(regions, kernelStart, kernelEnd)
    ensures forall p :: p in AllPages(l) <==> InRunPages(regions, kernelStart, kernelEnd, p)
  {
    hide Canonical, Holds, Usable, UsableRun, RangeOutcome, AddOutcome, RangeStartsWell, PagesOf, AllPages;
    LeftAreRuns(regions, kernelStart, kernelEnd, l);
    FirstFailure(l);
    assert AllStartWell(l) <==> forall r :: r in l ==> RangeStartsWell(r);
    forall p ensures p in AllPages(l) <==> InRunPages(regions, kernelStart, kernelEnd, p) {
      AllPagesMeans(l, p);
    }
  }

  /** `init`. How it ends is decided by the regions and the kernel range. When it succeeds, the
      allocator holds exactly the whole pages of the maximal runs of usable addresses, so every
      byte of every free block lies in a memory region of the devicetree and outside the firmware
      and the kernel; and its blocks are aligned, as later allocations need, exactly when every
      run starts well. */
  method Init(regions: seq<MemRegion>, kernelStart: usize, kernelEnd: usize, alloc: Allocator) returns (r: Outcome)
    requires alloc.Valid() && alloc.live == {} && alloc.region == {} && AllAligned(alloc.Abstract(), {})
    modifies alloc, alloc.orders
    ensures alloc.Valid() && alloc.live == {}
    ensures Ends(r, regions, kernelStart, kernelEnd)
    ensures r.Ready? ==> forall p :: p in alloc.region <==> InRunPages(regions, kernelStart, kernelEnd, p)
    ensures r.Ready? ==> (AllAligned(alloc.Abstract(), {}) <==> RunsStartWell(regions, kernelStart, kernelEnd))
    ensures r.Ready? ==> forall b, p :: InLists(alloc.lists, b) && b.Covers(p) ==>
              Usable(regions, kernelStart, kernelEnd, p)
  {
    hide Holds, Canonical, Tiles, Threads, AllAligned, Collect, AddOutcome, AllPages, AllStartWell, HasSplit;
    hide RunsReady, RunFails, RunsStartWell, InRunPages, Crowded, WithoutFirmware, Denotes;
    var mem, collected := CollectRegions(regions);
    if !collected.Ready? {
      return collected;
    }
    if kernelEnd == 0 {
      return Panicked;
    }
    assert mem.ranges[..mem.idx] == R.Contents(mem.ranges[..], mem.idx).Live();
    ghost var l0 := mem.ranges[..mem.idx];
    var first := mem.RemoveRange(OPENSBI);
    if first.Panicked? {
      return Panicked;
    }
    ghost var l1 := mem.ranges[..mem.idx];
    FirmwareRemoved(regions, l0, l1);
    CrowdedIff(regions, l1, Range(kernelStart, kernelEnd - 1));
    var second := mem.RemoveRange(Range(kernelStart, kernelEnd - 1));
    match second {
      case Failed(e) => return Failed(RangeSet(e));
      case Panicked => return Panicked;
      case Done =>
    }
    KernelRemoved(regions, kernelStart, kernelEnd, l1, mem.ranges[..mem.idx]);
    DecidedByRuns(regions, kernelStart, kernelEnd, mem.ranges[..mem.idx]);
    r := AddRanges(mem.ranges[..mem.idx], alloc);
    FreeBytesInRegion(alloc.Abstract(), alloc.live, alloc.region);
  }

  lemma {:induction false} FirmwareRemoved(regions: seq<MemRegion>, l0: seq<Range>, l1: seq<Range>)
    requires Denotes(l0, regions) && Canonical(l1) && forall p :: Holds(l1, p) <==> Holds(l0, p) && !OPENSBI.Has(p)
    ensures WithoutFirmware(regions, l1)
  {
    hide Holds, Canonical, InRegions;
    assert forall p :: OPENSBI.Has(p) <==> 0x8000_0000 <= p < 0x8020_0000;
  }

  lemma {:induction false} KernelRemoved(
      regions: seq<MemRegion>, kernelStart: usize, kernelEnd: usize, l1: seq<Range>, l2: seq<Range>)
    requires kernelEnd > 0 && WithoutFirmware(regions, l1)
    requires forall p :: Holds(l2, p) <==> Holds(l1, p) && !Range(kernelStart, kernelEnd - 1).Has(p)
    ensures forall p :: Holds(l2, p) <==> Usable(regions, kernelStart, kernelEnd, p)
  {
    hide Holds, Canonical, InRegions;
    var kernel := Range(kernelStart, kernelEnd - 1);
    assert forall p :: kernel.Has(p) <==> kernelStart <= p < kernelEnd;
  }

  lemma {:induction false} FreeBytesInRegion(s: State, live: set<Block>, region: set<int>)
    requires Tiles(s, live, region)
    ensures forall b, p :: InLists(s.lists, b) && b.Covers(p) ==> p in region
  {
    hide ListsOk, PairwiseDisjoint, Size;
    forall b, p | InLists(s.lists, b) && b.Covers(p) ensures p in region {
      assert b in FreeSet(s.lists) + live;
    }
  }
}
