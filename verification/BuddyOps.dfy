/** `allocate` and `deallocate`: what they do to the free lists, what they keep, and that
    they undo each other. */
module BuddyOps {
  import opened Bits
  import opened Blocks
  import opened BuddySpec

  // ----- allocate -----

  /** The smallest order from `order` on whose list holds a block, or `MAX_ORDER`. */
  function FirstNonEmpty(lists: FreeLists, order: nat): (k: nat)
    requires order <= MAX_ORDER
    ensures order <= k <= MAX_ORDER
    ensures forall j :: order <= j < k ==> lists[j] == []
    ensures k < MAX_ORDER ==> lists[k] != []
    decreases MAX_ORDER - order
  {
    if order == MAX_ORDER || lists[order] != [] then order else FirstNonEmpty(lists, order + 1)
  }

  /** `allocate`: pop a block of the order, or split one of the next order and push its XOR
      buddy. An error of the inner call is reported as `NoMemoryAvailable`, whatever it was. */
  function Allocate(s: State, order: nat): (State, Result<nat>)
    decreases MAX_ORDER - order
  {
    if order >= MAX_ORDER then (s, Err(OrderTooLarge))
    else if s.lists[order] != [] then
      var a := s.lists[order][0];
      (CountAlloc(Remove(s, order, a), Size(order)), Ok(a))
    else
      var (s1, r) := Allocate(s, order + 1);
      if r.Err? then (s1, Err(NoMemoryAvailable))
      else if BuddyOf(r.value, order) == 0 then (s1, Err(NullPointer))
      else (CountFree(Push(s1, order, BuddyOf(r.value, order)), Size(order)), r)
  }

  /** The lists once the first block of order `k` has been split down to `order`: one buddy
      stays behind at every order in between. */
  function SplitDown(lists: FreeLists, order: nat, k: nat): FreeLists
    requires order <= k < MAX_ORDER && lists[k] != []
  {
    seq(MAX_ORDER, j requires 0 <= j < MAX_ORDER =>
      if j == k then lists[k][1..]
      else if order <= j < k then [BuddyOf(lists[k][0], j)]
      else lists[j])
  }

  /** What an allocation of `order` does to a state whose first block from there on, `a`, has
      order `k`: pop it, and leave its buddies behind down to the order asked for. */
  function Split(s: State, order: nat, k: nat): State
    requires order <= k < MAX_ORDER && s.lists[k] != []
  {
    CountAlloc(s.(lists := SplitDown(s.lists, order, k)), Size(order))
  }

  /** The split from order `k` meets a null buddy at order `j`. */
  predicate NullAt(a: nat, order: nat, k: nat, j: int) {
    order <= j < k && a == Size(j)
  }

  ghost predicate MeetsNull(a: nat, order: nat, k: nat) {
    exists j :: NullAt(a, order, k, j)
  }

  lemma {:induction false} SplitOnce(s: State, order: nat, k: nat)
    requires order < k < MAX_ORDER && s.lists[k] != [] && s.lists[order] == []
    ensures Split(s, order, k)
         == CountFree(Push(Split(s, order + 1, k), order, BuddyOf(s.lists[k][0], order)), Size(order))
  {
    hide BuddyOf, Size;
    SizeIsPow2(order);
    var t, u := SplitDown(s.lists, order + 1, k), SplitDown(s.lists, order, k);
    assert [BuddyOf(s.lists[k][0], order)] + t[order] == u[order];
    assert u == t[order := u[order]];
  }

  lemma {:induction false} SplitNothing(s: State, order: nat)
    requires order < MAX_ORDER && s.lists[order] != []
    ensures Split(s, order, order) == CountAlloc(Remove(s, order, s.lists[order][0]), Size(order))
  {
    hide BuddyOf, Size;
    assert SplitDown(s.lists, order, order)
        == s.lists[order := RemoveFirst(s.lists[order], s.lists[order][0])];
  }

  /** `allocate` without its recursion, for every state. It takes the first block of the
      smallest order that has one; if the split would meet a null buddy at some order, it stops
      above that order and loses the block. */
  lemma {:induction false} AllocateSplits(s: State, order: nat)
    requires order < MAX_ORDER
    ensures var k := FirstNonEmpty(s.lists, order);
            if k == MAX_ORDER then Allocate(s, order) == (s, Err(NoMemoryAvailable))
            else
              var a := s.lists[k][0];
              && (!MeetsNull(a, order, k) ==> Allocate(s, order) == (Split(s, order, k), Ok(a)))
              && (forall j :: NullAt(a, order, k, j) ==>
                    Allocate(s, order)
                    == (Split(s, j + 1, k), Err(if j == order then NullPointer else NoMemoryAvailable)))
    decreases MAX_ORDER - order
  {
    hide Split, Size, BuddyOf, CountAlloc, Remove, CountFree, Push;
    var k := FirstNonEmpty(s.lists, order);
    if k == order {
      SplitNothing(s, order);
    } else if order + 1 < MAX_ORDER {
      AllocateSplits(s, order + 1);
      if k < MAX_ORDER {
        SplitOnce(s, order, k);
        var a := s.lists[k][0];
        NullBuddy(a, order);
        NullBelow(a, order, k);
      }
    }
  }

  /** The orders of a null buddy, seen from one order down: there is at most one. */
  lemma {:induction false} NullBelow(a: nat, order: nat, k: nat)
    requires order < k
    ensures MeetsNull(a, order, k) <==> a == Size(order) || MeetsNull(a, order + 1, k)
    ensures a == Size(order) ==> NullAt(a, order, k, order) && !MeetsNull(a, order + 1, k)
    ensures forall j :: NullAt(a, order, k, j) && a != Size(order) ==> NullAt(a, order + 1, k, j)
    ensures forall j :: NullAt(a, order, k, j) && a == Size(order) ==> j == order
  {
    hide Size;
    forall j | NullAt(a, order, k, j) && j != order ensures a != Size(order) && NullAt(a, order + 1, k, j) {
      SizeGrows(order, j);
    }
    if a == Size(order) { assert NullAt(a, order, k, order); }
    var up := order + 1;
    if j :| NullAt(a, up, k, j) { assert NullAt(a, order, k, j); }
  }

  lemma {:induction false} SizeGrows(i: nat, j: nat)
    requires i < j
    ensures Size(i) < Size(j)
  {
    hide Size;
    SizeIsPow2(i);
    SizeMonotone(i + 1, j);
  }

  /** `allocate` fails exactly when no list from the order on holds a block, or when the block
      it would split starts at the size of an order that it would be split into. In the second
      case the state has changed: the block is on no list any more. */
  lemma {:induction false} AllocateFailsExactly(s: State, order: nat)
    requires order < MAX_ORDER
    ensures var k := FirstNonEmpty(s.lists, order);
            && (Allocate(s, order).1.Err? <==> k == MAX_ORDER || MeetsNull(s.lists[k][0], order, k))
            && (Allocate(s, order).1.Err? && Allocate(s, order).0 == s <==> k == MAX_ORDER)
            && (Allocate(s, order).1.Ok? ==> Allocate(s, order).1.value == s.lists[k][0])
  {
    hide Allocate, Size, BuddyOf;
    AllocateSplits(s, order);
    var k := FirstNonEmpty(s.lists, order);
    if k < MAX_ORDER {
      forall j | NullAt(s.lists[k][0], order, k, j) ensures Split(s, j + 1, k) != s {
        assert |Split(s, j + 1, k).lists[k]| < |s.lists[k]|;
      }
    }
  }

  // ----- When an allocation keeps the tiling -----

  /** Nothing is split, or the block that is split has no bit set between the order asked for
      and its own; or it is lost to a null buddy. */
  ghost predicate SplitsInside(lists: FreeLists, order: nat) {
    order < MAX_ORDER ==>
      var k := FirstNonEmpty(lists, order);
      k < MAX_ORDER ==> Inside(lists[k][0], order, k)
  }

  ghost predicate Inside(a: nat, order: nat, k: nat) {
    a % Size(k) < Size(order) || MeetsNull(a, order, k)
  }

  /** Natural alignment is more than enough. */
  lemma {:induction false} AlignedSplitsInside(s: State, live: set<Block>, region: set<int>, order: nat)
    requires Tiles(s, live, region) && AllAligned(s, live)
    ensures SplitsInside(s.lists, order)
    ensures order < MAX_ORDER ==>
              var k := FirstNonEmpty(s.lists, order);
              k < MAX_ORDER ==> !MeetsNull(s.lists[k][0], order, k)
  {
    hide Tiles, FreeSet, Size, MeetsNull;
    if order < MAX_ORDER {
      var k := FirstNonEmpty(s.lists, order);
      if k < MAX_ORDER {
        var a := s.lists[k][0];
        FreeInRegion(s, live, region, Block(a, k));
        RegionBound(s, live, region, a);
        assert Block(a, k) in FreeSet(s.lists);
        AlignedNoNull(a, order, k);
      }
    }
  }

  lemma {:induction false} AlignedNoNull(a: nat, order: nat, k: nat)
    requires a > 0 && IsAligned(a, k)
    ensures !MeetsNull(a, order, k)
  {
    hide Size;
    forall j | NullAt(a, order, k, j) ensures false {
      SizeGrows(j, k);
    }
  }

  /** On aligned blocks `allocate` is the closed form, and fails only for want of a block. */
  lemma {:induction false} AlignedAllocates(s: State, live: set<Block>, region: set<int>, order: nat)
    requires order < MAX_ORDER && Tiles(s, live, region) && AllAligned(s, live)
    ensures SplitsInside(s.lists, order)
    ensures var k := FirstNonEmpty(s.lists, order);
            if k == MAX_ORDER then Allocate(s, order) == (s, Err(NoMemoryAvailable))
            else Allocate(s, order) == (Split(s, order, k), Ok(s.lists[k][0]))
  {
    hide Tiles, AllAligned, Allocate, Split, MeetsNull;
    AlignedSplitsInside(s, live, region, order);
    AllocateSplits(s, order);
  }

  lemma {:induction false} InsideUp(a: nat, order: nat, k: nat)
    requires order < k && Inside(a, order, k)
    ensures Inside(a, order + 1, k)
    ensures a == Size(order) || BuddyOf(a, order) == a + Size(order) || MeetsNull(a, order + 1, k)
  {
    hide Size, BuddyOf;
    SizeIsPow2(order);
    if a % Size(k) < Size(order) {
      ClearBits(a, order, order, k);
    } else {
      NullBelow(a, order, k);
      SizeGrows(order, k);
    }
  }

  /** One level of the recursion. */
  lemma {:induction false} AllocateUnfolds(s: State, order: nat)
    ensures order >= MAX_ORDER ==> Allocate(s, order) == (s, Err(OrderTooLarge))
    ensures order < MAX_ORDER && s.lists[order] != [] ==>
              var a := s.lists[order][0];
              Allocate(s, order) == (CountAlloc(Remove(s, order, a), Size(order)), Ok(a))
    ensures order < MAX_ORDER && s.lists[order] == [] ==>
              var (s1, r) := Allocate(s, order + 1);
              && (r.Ok? ==> order + 1 < MAX_ORDER)
              && Allocate(s, order)
                 == if r.Err? then (s1, Err(NoMemoryAvailable))
                    else if BuddyOf(r.value, order) == 0 then (s1, Err(NullPointer))
                    else (CountFree(Push(s1, order, BuddyOf(r.value, order)), Size(order)), r)
  {
    hide CountAlloc, CountFree, Remove, Push, Size, BuddyOf;
  }

  lemma {:induction false} SplitsInsideUp(lists: FreeLists, order: nat)
    requires order < MAX_ORDER && lists[order] == [] && SplitsInside(lists, order)
    ensures SplitsInside(lists, order + 1)
  {
    hide Inside;
    var k := FirstNonEmpty(lists, order);
    if order + 1 < MAX_ORDER && k < MAX_ORDER { InsideUp(lists[k][0], order, k); }
  }

  /** The buddy of a block that was split inside is null or its upper half. */
  lemma {:induction false} BuddyAfterSplit(s: State, order: nat)
    requires order < MAX_ORDER && s.lists[order] == [] && SplitsInside(s.lists, order)
    requires Allocate(s, order + 1).1.Ok?
    ensures var a := Allocate(s, order + 1).1.value;
            BuddyOf(a, order) == 0 || BuddyOf(a, order) == a + Size(order)
  {
    hide Allocate, Size, BuddyOf, Inside, MeetsNull;
    AllocateUnfolds(s, order);
    AllocateFailsExactly(s, order + 1);
    var k := FirstNonEmpty(s.lists, order);
    InsideUp(s.lists[k][0], order, k);
    NullBuddy(s.lists[k][0], order);
  }

  /** The block that a failed allocation took off its list and lost. */
  ghost predicate LostOnSplit(s: State, live: set<Block>, region: set<int>, order: nat, j: nat) {
    && order <= j && j + 1 < MAX_ORDER && Block(Size(j), j + 1) !in live
    && Tiles(s, live + {Block(Size(j), j + 1)}, region)
  }

  /** Such an allocation keeps the tiling: the block it returns was free, is live now, and all
      other bytes keep their role. */
  lemma {:induction false} AllocateKeeps(s: State, live: set<Block>, region: set<int>, order: nat)
    requires Tiles(s, live, region) && SplitsInside(s.lists, order)
    ensures var (s', r) := Allocate(s, order);
            && (r.Err? ==> s' == s || exists j :: LostOnSplit(s', live, region, order, j))
            && (r.Ok? ==> Block(r.value, order) !in live && Tiles(s', live + {Block(r.value, order)}, region))
            && (r.Ok? && AllAligned(s, live) ==> AllAligned(s', live + {Block(r.value, order)}))
    decreases MAX_ORDER - order
  {
    hide Tiles, AllAligned, BuddyOf, Size, CountAlloc, Remove, CountFree, Push;
    if order < MAX_ORDER {
      var k := FirstNonEmpty(s.lists, order);
      if k == order {
        TakeKeeps(s, live, region, Block(s.lists[order][0], order));
      } else if order + 1 < MAX_ORDER {
        if k < MAX_ORDER { InsideUp(s.lists[k][0], order, k); }
        AllocateKeeps(s, live, region, order + 1);
        AllocateFailsExactly(s, order + 1);
        var (s1, r) := Allocate(s, order + 1);
        if r.Ok? {
          NullBuddy(r.value, order);
          if r.value == Size(order) {
            assert LostOnSplit(s1, live, region, order, order);
          } else {
            SplitStep(s1, live, region, r.value, order);
          }
        } else if s1 != s {
          var j :| LostOnSplit(s1, live, region, order + 1, j);
          assert LostOnSplit(s1, live, region, order, j);
        }
      }
    }
  }

  /** One split: the upper half is pushed, the lower half stays live. */
  lemma {:induction false} SplitStep(s: State, live: set<Block>, region: set<int>, addr: nat, order: nat)
    requires order + 1 < MAX_ORDER && Block(addr, order + 1) !in live
    requires Tiles(s, live + {Block(addr, order + 1)}, region)
    ensures var s' := CountFree(Push(s, order, addr + Size(order)), Size(order));
            && Block(addr, order) !in live
            && Tiles(s', live + {Block(addr, order)}, region)
            && (AllAligned(s, live + {Block(addr, order + 1)}) ==> AllAligned(s', live + {Block(addr, order)}))
  {
    hide Tiles, AllAligned;
    SplitLiveKeeps(s, live, region, addr, order);
    var l, h := Block(addr, order), Block(addr + Size(order), order);
    PushKeeps(s, live + {l, h}, region, h);
    assert live + {l, h} - {h} == live + {l};
  }

  /** And only such an allocation does: if a bit between the two orders is set, the XOR goes
      down, and a block in front of the one that is split is put on a list. */
  lemma {:induction false} AllocateKeepsExactly(s: State, live: set<Block>, region: set<int>, order: nat)
    requires order < MAX_ORDER && Tiles(s, live, region) && Allocate(s, order).1.Ok?
    ensures var k := FirstNonEmpty(s.lists, order);
            && k < MAX_ORDER && Allocate(s, order).1.value == s.lists[k][0]
            && (Tiles(Allocate(s, order).0, live + {Block(s.lists[k][0], order)}, region)
                <==> s.lists[k][0] % Size(k) < Size(order))
  {
    hide Tiles, Allocate, Size, BuddyOf;
    AllocateFailsExactly(s, order);
    AllocateSplits(s, order);
    var k := FirstNonEmpty(s.lists, order);
    var a := s.lists[k][0];
    if a % Size(k) < Size(order) {
      AllocateKeeps(s, live, region, order);
    } else {
      var j := SetBit(a, order, k);
      SplitEscapes(s, live, region, order, k, j);
    }
  }

  /** A split whose buddy lies below the block: those bytes are outside of the region, or belong
      to another block. */
  lemma {:induction false} SplitEscapes(s: State, live: set<Block>, region: set<int>, order: nat, k: nat, j: nat)
    requires order <= j < k < MAX_ORDER && k == FirstNonEmpty(s.lists, order)
    requires Tiles(s, live, region) && BuddyOf(s.lists[k][0], j) < s.lists[k][0]
    ensures BuddyOf(s.lists[k][0], j) in Split(s, order, k).lists[j]
    ensures !Tiles(Split(s, order, k), live + {Block(s.lists[k][0], order)}, region)
  {
    hide BuddyOf, Size, Bytes, FreeSet, Tiles;
    var a, s' := s.lists[k][0], Split(s, order, k);
    var e, live' := Block(BuddyOf(a, j), j), live + {Block(a, order)};
    if Tiles(s', live', region) {
      TilesPartition(s, live, region);
      TilesPartition(s', live', region);
      var all, all' := FreeSet(s.lists) + live, FreeSet(s'.lists) + live';
      forall x | x in all && x.Covers(e.addr) ensures x in all' {
        if x !in live { StillThere(s, order, k, x); }
      }
      Uncovered(all, all', e);
    }
  }

  lemma {:induction false} TilesPartition(s: State, live: set<Block>, region: set<int>)
    requires Tiles(s, live, region)
    ensures Partition(FreeSet(s.lists), live, region)
  {
  }

  /** A new block among others that still cover its start overlaps one of them. */
  lemma {:induction false} Uncovered(all: set<Block>, all': set<Block>, e: Block)
    requires Bytes(all) == Bytes(all') && PairwiseDisjoint(all')
    requires e in all' && forall x :: x in all && x.Covers(e.addr) ==> x in all'
    ensures e in all
  {
    hide Size;
    assert e.Covers(e.addr) && e.addr in Bytes(all');
    var x :| x in all && x.Covers(e.addr);
    assert !Disjoint(x, e);
  }

  lemma {:induction false} StillThere(s: State, order: nat, k: nat, x: Block)
    requires order <= k < MAX_ORDER && k == FirstNonEmpty(s.lists, order)
    requires InLists(s.lists, x) && x != Block(s.lists[k][0], k)
    ensures InLists(Split(s, order, k).lists, x)
  {
    hide BuddyOf, Size;
  }

  // ----- deallocate -----

  /** `deallocate`: merge with free buddies as far up as possible, then push. */
  function Deallocate(s: State, addr: nat, order: nat): (State, Result<()>)
    requires order < MAX_ORDER
    decreases MAX_ORDER - order
  {
    var buddy := BuddyOf(addr, order);
    if buddy == 0 then (s, Err(NullPointer))
    else if buddy in s.lists[order] then
      var s1 := CountAlloc(Remove(s, order, buddy), Size(order));
      if order + 1 >= MAX_ORDER then
        (CountFree(Push(Push(s1, order, buddy), order, addr), Size(order) * 2), Ok(()))
      else
        Deallocate(s1, if buddy < addr then buddy else addr, order + 1)
    else
      (CountFree(Push(s, order, addr), Size(order)), Ok(()))
  }

  /** What alignment says about the buddy of a live block. */
  lemma {:induction false} LiveBuddy(s: State, live: set<Block>, region: set<int>, addr: nat, order: nat)
    requires Tiles(s, live, region) && AllAligned(s, live) && Block(addr, order) in live
    ensures order < MAX_ORDER && BuddyFacts(addr, order)
  {
    hide Partition, ListsOk, Size, BuddyOf, IsAligned, FreeSet, BuddyFacts;
    assert IsAligned(addr, order);
    BuddyGeometry(addr, order);
  }

  ghost predicate BuddyFacts(addr: nat, order: nat) {
    var buddy := BuddyOf(addr, order);
    var m := if buddy < addr then buddy else addr;
    && IsAligned(addr, order) && IsAligned(m, order + 1)
    && Size(order + 1) == 2 * Size(order)
    && m <= addr && addr + Size(order) <= m + Size(order + 1)
    && {Block(m, order), Block(m + Size(order), order)} == {Block(buddy, order), Block(addr, order)}
    && (buddy == 0 ==> addr == Size(order))
  }

  lemma {:induction false} BuddyGeometry(addr: nat, order: nat)
    requires IsAligned(addr, order)
    ensures BuddyFacts(addr, order)
  {
    hide Size, IsAligned, BuddyOf;
    BuddyPair(addr, order);
    SizeIsPow2(order);
    var buddy := BuddyOf(addr, order);
    if buddy < addr {
      assert addr == buddy + Size(order);
    } else {
      assert {Block(addr, order), Block(buddy, order)} == {Block(buddy, order), Block(addr, order)};
    }
  }

  /** One merge: the free buddy joins the live block. */
  lemma {:induction false} MergeStep(s: State, live: set<Block>, region: set<int>, addr: nat, order: nat)
    requires order + 1 < MAX_ORDER
    requires Tiles(s, live, region) && AllAligned(s, live) && Block(addr, order) in live
    requires BuddyOf(addr, order) in s.lists[order]
    ensures var buddy := BuddyOf(addr, order);
            var w := Block(if buddy < addr then buddy else addr, order + 1);
            var s' := CountAlloc(Remove(s, order, buddy), Size(order));
            var rest := live - {Block(addr, order)};
            w !in rest && Tiles(s', rest + {w}, region) && AllAligned(s', rest + {w})
  {
    hide Tiles, AllAligned, BuddyOf, IsAligned, Size;
    var buddy := BuddyOf(addr, order);
    var b := Block(buddy, order);
    LiveBuddy(s, live, region, addr, order);
    TakeKeeps(s, live, region, b);
    var s' := CountAlloc(Remove(s, order, buddy), Size(order));
    var rest := live - {Block(addr, order)};
    var m := if buddy < addr then buddy else addr;
    var both := {Block(m, order), Block(m + Size(order), order)};
    assert b != Block(addr, order);
    assert live + {b} == rest + both;
    MergeLiveKeeps(s', rest, region, m, order);
  }

  /** At the top order both buddies go back to the list. */
  lemma {:induction false} TopStep(s: State, live: set<Block>, region: set<int>, addr: nat, order: nat)
    requires order < MAX_ORDER
    requires Tiles(s, live, region) && AllAligned(s, live) && Block(addr, order) in live
    requires BuddyOf(addr, order) in s.lists[order]
    ensures var buddy := BuddyOf(addr, order);
            var s1 := CountAlloc(Remove(s, order, buddy), Size(order));
            var s' := CountFree(Push(Push(s1, order, buddy), order, addr), Size(order) * 2);
            Tiles(s', live - {Block(addr, order)}, region) && AllAligned(s', live - {Block(addr, order)})
  {
    hide Tiles, AllAligned, BuddyOf, Size, RemoveFirst;
    var buddy := BuddyOf(addr, order);
    var x, b := Block(addr, order), Block(buddy, order);
    TakeKeeps(s, live, region, b);
    var s1 := CountAlloc(Remove(s, order, buddy), Size(order));
    PushKeeps(s1, live + {b}, region, b);
    assert live + {b} - {b} == live;
    PushKeeps(CountFree(Push(s1, order, buddy), Size(order)), live, region, x);
  }

  /** Every deallocation keeps the tiling, and gives exactly the freed block back. The one
      error, `NullPointer`, needs a merged block whose buddy would start at address zero; that
      block stays live, so nothing is lost from the count. */
  lemma {:induction false} DeallocateKeeps(s: State, live: set<Block>, region: set<int>, addr: nat, order: nat)
    requires order < MAX_ORDER
    requires Tiles(s, live, region) && AllAligned(s, live) && Block(addr, order) in live
    ensures var (s', r) := Deallocate(s, addr, order);
            var rest := live - {Block(addr, order)};
            && (r.Ok? ==> Tiles(s', rest, region) && AllAligned(s', rest))
            && (r.Err? ==> r.error == NullPointer && exists m :: Leaks(s', rest, region, addr, order, m))
    decreases MAX_ORDER - order
  {
    hide Tiles, AllAligned, BuddyOf, Size, RemoveFirst, IsAligned;
    var buddy := BuddyOf(addr, order);
    var x := Block(addr, order);
    LiveBuddy(s, live, region, addr, order);
    if buddy == 0 {
      assert live - {x} + {x} == live;
      assert Leaks(s, live - {x}, region, addr, order, order);
    } else if buddy in s.lists[order] {
      if order + 1 < MAX_ORDER {
        MergeStep(s, live, region, addr, order);
        var w := Block(if buddy < addr then buddy else addr, order + 1);
        var s1 := CountAlloc(Remove(s, order, buddy), Size(order));
        DeallocateKeeps(s1, live - {x} + {w}, region, w.addr, order + 1);
        assert live - {x} + {w} - {w} == live - {x};
        var (s', r) := Deallocate(s1, w.addr, order + 1);
        if r.Err? {
          var m :| Leaks(s', live - {x}, region, w.addr, order + 1, m);
          assert Leaks(s', live - {x}, region, addr, order, m);
        }
      } else {
        TopStep(s, live, region, addr, order);
      }
    } else {
      PushKeeps(s, live, region, x);
    }
  }

  /** The block `[Size(m), 2 * Size(m))`, which contains the freed one, stays live. */
  ghost predicate Leaks(s: State, rest: set<Block>, region: set<int>, addr: nat, order: nat, m: nat) {
    && order <= m < MAX_ORDER
    && Size(m) <= addr && addr + Size(order) <= 2 * Size(m)
    && Block(Size(m), m) !in rest
    && Tiles(s, rest + {Block(Size(m), m)}, region)
    && AllAligned(s, rest + {Block(Size(m), m)})
  }

  /** The merge climbs to order `m` and finds the block whose buddy is null. */
  predicate ClimbsToNull(lists: FreeLists, addr: nat, order: nat, m: int) {
    && order <= m < MAX_ORDER && BlockStart(addr, m) == Size(m)
    && forall j :: order <= j < m ==> BuddyOf(BlockStart(addr, j), j) in lists[j]
  }

  ghost predicate MergesIntoNull(lists: FreeLists, addr: nat, order: nat) {
    exists m :: ClimbsToNull(lists, addr, order, m)
  }

  /** `deallocate` fails exactly when the buddy of every block around the freed one is free, up
      to an order whose block starts at its own size. */
  lemma {:induction false} DeallocateFailsExactly(s: State, addr: nat, order: nat)
    requires order < MAX_ORDER && IsAligned(addr, order)
    ensures Deallocate(s, addr, order).1.Err? <==> MergesIntoNull(s.lists, addr, order)
    decreases MAX_ORDER - order
  {
    hide BuddyOf, Size, RemoveFirst, IsAligned, BlockStart;
    var buddy := BuddyOf(addr, order);
    BlockStartAligned(addr, order);
    NullBuddy(addr, order);
    if buddy == 0 {
      assert ClimbsToNull(s.lists, addr, order, order);
    } else if buddy in s.lists[order] && order + 1 < MAX_ORDER {
      BuddyGeometry(addr, order);
      var up := if buddy < addr then buddy else addr;
      var s1 := CountAlloc(Remove(s, order, buddy), Size(order));
      DeallocateFailsExactly(s1, up, order + 1);
      MergedStart(addr, order);
      ClimbsOn(s.lists, s1.lists, addr, up, order);
    }
  }

  lemma {:induction false} BlockStartAligned(addr: nat, order: nat)
    requires IsAligned(addr, order)
    ensures BlockStart(addr, order) == addr
  {
    hide Size;
  }

  lemma {:induction false} MergedStart(addr: nat, order: nat)
    requires IsAligned(addr, order)
    ensures var buddy := BuddyOf(addr, order);
            BlockStart(addr, order + 1) == if buddy < addr then buddy else addr
  {
    hide Size, BuddyOf;
    SizeIsPow2(order);
    BuddyIsOtherHalf(addr, order);
    var s := Size(order);
    var m := if BuddyOf(addr, order) < addr then BuddyOf(addr, order) else addr;
    assert m % (2 * s) == 0 && m <= addr < m + 2 * s;
    DivModUnique(addr, 2 * s, m / (2 * s), addr - m);
  }

  lemma {:induction false} ClimbsOn(lists: FreeLists, lists': FreeLists, addr: nat, up: nat, order: nat)
    requires order + 1 < MAX_ORDER && up == BlockStart(addr, order + 1) && BlockStart(addr, order) == addr != Size(order)
    requires BuddyOf(addr, order) in lists[order]
    requires forall j :: order < j < MAX_ORDER ==> lists'[j] == lists[j]
    ensures MergesIntoNull(lists, addr, order) <==> MergesIntoNull(lists', up, order + 1)
  {
    hide Size, BuddyOf, BlockStart;
    forall j | order < j < MAX_ORDER ensures BlockStart(up, j) == BlockStart(addr, j) {
      BlockStartNests(addr, order + 1, j);
    }
    var next := order + 1;
    if m :| ClimbsToNull(lists, addr, order, m) { assert ClimbsToNull(lists', up, next, m); }
    if m :| ClimbsToNull(lists', up, next, m) { assert ClimbsToNull(lists, addr, order, m); }
  }

  /** No block at or above 16 MiB can run into that error. */
  lemma {:induction false} HighBlocksNeverLeak(s: State, live: set<Block>, region: set<int>, addr: nat, order: nat)
    requires order < MAX_ORDER && addr >= 0x100_0000
    requires Tiles(s, live, region) && AllAligned(s, live) && Block(addr, order) in live
    ensures Deallocate(s, addr, order).1.Ok?
  {
    hide Tiles, AllAligned, Deallocate, Size;
    DeallocateKeeps(s, live, region, addr, order);
    var (s', r) := Deallocate(s, addr, order);
    forall m | Leaks(s', live - {Block(addr, order)}, region, addr, order, m) ensures false {
      TopSize(m);
    }
  }
}
