/** Laws that relate `allocate` and `deallocate`: neither creates a pair of free buddies, and
    freeing what was just allocated restores the allocator exactly when the block that was
    taken had no free buddy. */
module BuddyLaws {
  import opened Bits
  import opened Blocks
  import opened BuddySpec
  import opened BuddyOps

  /** Both halves of a larger block are free at the same order. */
  predicate IsFreePair(lists: FreeLists, order: nat, addr: nat)
    requires order < MAX_ORDER
  {
    addr in lists[order] && BuddyOf(addr, order) in lists[order]
  }

  lemma {:induction false} BuddyDiffers(addr: nat, order: nat)
    ensures BuddyOf(addr, order) != addr
  {
    SizeIsPow2(order);
    XorBit(addr, order + 12);
  }

  lemma {:induction false} AllocateLeavesLower(s: State, order: nat, o: nat)
    requires o < order && o < MAX_ORDER
    ensures Allocate(s, order).0.lists[o] == s.lists[o]
    decreases MAX_ORDER - order
  {
    hide BuddyOf, Size, RemoveFirst;
    if order < MAX_ORDER && s.lists[order] == [] {
      AllocateLeavesLower(s, order + 1, o);
    }
  }

  /** Whatever the state and whatever the outcome, `allocate` makes no pair of free buddies. */
  lemma {:induction false} AllocateMakesNoPair(s: State, order: nat, o: nat, addr: nat)
    requires o < MAX_ORDER && IsFreePair(Allocate(s, order).0.lists, o, addr)
    ensures IsFreePair(s.lists, o, addr)
    decreases MAX_ORDER - order
  {
    hide BuddyOf, Size, RemoveFirst;
    BuddyDiffers(addr, o);
    if order < MAX_ORDER {
      if s.lists[order] != [] {
        RemovedWereThere(s.lists[order], s.lists[order][0]);
      } else {
        AllocateLeavesLower(s, order + 1, order);
        if o != order || Allocate(s, order).1.Err? {
          AllocateMakesNoPair(s, order + 1, o, addr);
        }
      }
    }
  }

  /** `deallocate` leaves the lists below its order alone. */
  lemma {:induction false} DeallocateLeavesLower(s: State, addr: nat, order: nat, o: nat)
    requires o < order < MAX_ORDER
    ensures Deallocate(s, addr, order).0.lists[o] == s.lists[o]
    decreases MAX_ORDER - order
  {
    hide BuddyOf, Size, RemoveFirst;
    var buddy := BuddyOf(addr, order);
    if buddy != 0 && buddy in s.lists[order] && order + 1 < MAX_ORDER {
      var s1 := CountAlloc(Remove(s, order, buddy), Size(order));
      DeallocateLeavesLower(s1, if buddy < addr then buddy else addr, order + 1, o);
    }
  }

  /** Below the top order, `deallocate` merges instead of leaving a new pair behind. */
  lemma {:induction false} DeallocateMakesNoPair(
      s: State, live: set<Block>, region: set<int>, addr: nat, order: nat, o: nat, x: nat)
    requires order < MAX_ORDER && o + 1 < MAX_ORDER
    requires Tiles(s, live, region) && AllAligned(s, live) && Block(addr, order) in live
    requires IsFreePair(Deallocate(s, addr, order).0.lists, o, x)
    ensures IsFreePair(s.lists, o, x)
    decreases MAX_ORDER - order
  {
    hide Tiles, AllAligned, BuddyOf, Size, RemoveFirst, IsAligned;
    if o < order {
      DeallocateLeavesLower(s, addr, order, o);
    } else {
      LiveBuddy(s, live, region, addr, order);
      var buddy := BuddyOf(addr, order);
      if buddy != 0 && buddy in s.lists[order] {
        if order + 1 < MAX_ORDER {
          MergeStep(s, live, region, addr, order);
          var w := Block(if buddy < addr then buddy else addr, order + 1);
          var s1 := CountAlloc(Remove(s, order, buddy), Size(order));
          DeallocateMakesNoPair(s1, live - {Block(addr, order)} + {w}, region, w.addr, order + 1, o, x);
          RemovedWereThere(s.lists[order], buddy);
        }
      } else if o == order {
        BuddyPair(addr, order);
        PairAligned(s, live, region, addr, order, x);
      }
    }
  }

  lemma {:induction false} RemovedWereThere(s: seq<nat>, x: nat)
    ensures forall y :: y in RemoveFirst(s, x) ==> y in s
  {
    if s != [] && s[0] != x {
      RemovedWereThere(s[1..], x);
    }
  }

  lemma {:induction false} PairAligned(s: State, live: set<Block>, region: set<int>, addr: nat, order: nat, x: nat)
    requires order < MAX_ORDER
    requires Tiles(s, live, region) && AllAligned(s, live) && Block(addr, order) in live
    requires x == addr || x in s.lists[order]
    ensures BuddyOf(BuddyOf(x, order), order) == x && BuddyOf(x, order) != x
  {
    hide Partition, ListsOk, Size, BuddyOf, IsAligned;
    assert InLists(s.lists, Block(x, order)) || Block(x, order) in live;
    assert IsAligned(x, order);
    BuddyPair(x, order);
  }

  // ----- The round trip -----

  /** Every split that `allocate` made is undone by one merge of `deallocate`. */
  lemma {:induction false} UnsplitToSource(s: State, live: set<Block>, region: set<int>, order: nat)
    requires order < MAX_ORDER && Tiles(s, live, region) && AllAligned(s, live)
    requires FirstNonEmpty(s.lists, order) < MAX_ORDER
    ensures var k := FirstNonEmpty(s.lists, order);
            var a := s.lists[k][0];
            Deallocate(Allocate(s, order).0, a, order) == Deallocate(Allocate(s, k).0, a, k)
    decreases MAX_ORDER - order
  {
    hide Tiles, AllAligned, Deallocate, Allocate, Size, BuddyOf, MeetsNull;
    var k := FirstNonEmpty(s.lists, order);
    AlignedAllocates(s, live, region, order);
    if order < k {
      var a := s.lists[k][0];
      UnsplitToSource(s, live, region, order + 1);
      AlignedAllocates(s, live, region, order + 1);
      AllocateKeeps(s, live, region, order + 1);
      Halved(Allocate(s, order + 1).0, live + {Block(a, order + 1)}, a, order);
      UnsplitOnce(s, a, order, k);
    }
  }

  lemma {:induction false} UnsplitOnce(s: State, a: nat, order: nat, k: nat)
    requires order < k < MAX_ORDER && k == FirstNonEmpty(s.lists, order) && a == s.lists[k][0]
    requires BuddyOf(a, order) == a + Size(order)
    requires Allocate(s, order).0 == Split(s, order, k) && Allocate(s, order + 1).0 == Split(s, order + 1, k)
    ensures Deallocate(Allocate(s, order).0, a, order) == Deallocate(Allocate(s, order + 1).0, a, order + 1)
  {
    hide BuddyOf, RemoveFirst, Allocate;
    var s0, s1 := Split(s, order, k), Split(s, order + 1, k);
    var buddy := a + Size(order);
    SplitOnce(s, order, k);
    assert s0.lists[order] == [buddy];
    RemoveOnly(buddy);
    assert s0.lists[order := []] == s1.lists;
    assert CountAlloc(Remove(s0, order, buddy), Size(order)) == s1;
  }

  lemma {:induction false} RemoveOnly(x: nat)
    ensures RemoveFirst([x], x) == []
  {
  }

  /** A call that ended well, with the free blocks and the counters of `s`. */
  ghost predicate BackTo(s: State, after: (State, Result<()>)) {
    after.1.Ok? && FreeSet(after.0.lists) == FreeSet(s.lists) && after.0.(lists := s.lists) == s
  }

  /** Freeing what was just allocated ends where it began. */
  ghost predicate Restores(s: State, order: nat)
    requires order < MAX_ORDER
  {
    Allocate(s, order).1.Ok? && BackTo(s, Deallocate(Allocate(s, order).0, Allocate(s, order).1.value, order))
  }

  /** Allocate, then free: every free block and every counter is back, through any depth of
      splitting and merging, if and only if the block that was taken had no free buddy (at the
      top order it may have one) and does not start at its own size. Below the top order the
      lists themselves are back, in order. */
  lemma {:induction false} AllocateThenDeallocate(s: State, live: set<Block>, region: set<int>, order: nat)
    requires order < MAX_ORDER && Tiles(s, live, region) && AllAligned(s, live)
    requires FirstNonEmpty(s.lists, order) < MAX_ORDER
    ensures var k := FirstNonEmpty(s.lists, order);
            var a := s.lists[k][0];
            Restores(s, order) <==> a != Size(k) && (k == MAX_ORDER - 1 || !IsFreePair(s.lists, k, a))
    ensures var k := FirstNonEmpty(s.lists, order);
            Restores(s, order) && k < MAX_ORDER - 1 ==>
              Deallocate(Allocate(s, order).0, s.lists[k][0], order) == (s, Ok(()))
  {
    hide Tiles, AllAligned, Deallocate, Allocate, Size, BuddyOf, BackTo, IsFreePair, CountAlloc, Remove, BuddyFacts;
    var k := FirstNonEmpty(s.lists, order);
    RoundTripAtSource(s, live, region, order);
    HeadFacts(s, live, k);
    PutBack(s, live, region, k);
  }

  lemma {:induction false} RoundTripAtSource(s: State, live: set<Block>, region: set<int>, order: nat)
    requires order < MAX_ORDER && Tiles(s, live, region) && AllAligned(s, live)
    requires FirstNonEmpty(s.lists, order) < MAX_ORDER
    ensures var k := FirstNonEmpty(s.lists, order);
            && Allocate(s, order).1 == Ok(s.lists[k][0])
            && Deallocate(Allocate(s, order).0, s.lists[k][0], order)
               == Deallocate(CountAlloc(Remove(s, k, s.lists[k][0]), Size(k)), s.lists[k][0], k)
  {
    hide Tiles, AllAligned, Deallocate, Allocate, Size, BuddyOf, Split, SplitsInside, CountAlloc, Remove;
    var k := FirstNonEmpty(s.lists, order);
    AlignedAllocates(s, live, region, order);
    UnsplitToSource(s, live, region, order);
    AlignedAllocates(s, live, region, k);
    SplitNothing(s, k);
  }

  lemma {:induction false} HeadFacts(s: State, live: set<Block>, k: nat)
    requires k < MAX_ORDER && s.lists[k] != [] && AllAligned(s, live)
    ensures BuddyFacts(s.lists[k][0], k)
  {
    hide Size, IsAligned, BuddyFacts;
    assert Block(s.lists[k][0], k) in FreeSet(s.lists);
    BuddyGeometry(s.lists[k][0], k);
  }

  /** The same for a block that needs no splitting. */
  lemma {:induction false} PutBack(s: State, live: set<Block>, region: set<int>, k: nat)
    requires k < MAX_ORDER && Tiles(s, live, region) && s.lists[k] != []
    requires BuddyFacts(s.lists[k][0], k)
    ensures var a := s.lists[k][0];
            var after := Deallocate(CountAlloc(Remove(s, k, a), Size(k)), a, k);
            && (BackTo(s, after) <==> a != Size(k) && (k == MAX_ORDER - 1 || !IsFreePair(s.lists, k, a)))
            && (a != Size(k) && !IsFreePair(s.lists, k, a) ==> after == (s, Ok(())))
  {
    var a := s.lists[k][0];
    hide FreeSet, Tiles, Size, IsAligned, BuddyOf, BuddyFacts, NoDuplicates, CountAlloc, Remove, Deallocate, BackTo;
    ListIsOk(s, live, region, k);
    NullBuddy(a, k);
    if a == Size(k) {
      PutBackNull(s, k);
    } else if !IsFreePair(s.lists, k, a) {
      PutBackAlone(s, k);
    } else if k == MAX_ORDER - 1 {
      PutBackTop(s, k);
    } else {
      PutBackMerges(s, k);
    }
  }

  lemma {:induction false} ListIsOk(s: State, live: set<Block>, region: set<int>, k: nat)
    requires k < MAX_ORDER && Tiles(s, live, region)
    ensures NoDuplicates(s.lists[k])
  {
    hide Partition, NoDuplicates;
  }

  lemma {:induction false} PutBackNull(s: State, k: nat)
    requires k < MAX_ORDER && s.lists[k] != [] && BuddyOf(s.lists[k][0], k) == 0
    ensures var s1 := CountAlloc(Remove(s, k, s.lists[k][0]), Size(k));
            !BackTo(s, Deallocate(s1, s.lists[k][0], k))
  {
  }

  lemma {:induction false} PutBackAlone(s: State, k: nat)
    requires k < MAX_ORDER && s.lists[k] != []
    requires var b := BuddyOf(s.lists[k][0], k); b != 0 && b !in s.lists[k]
    ensures var s1 := CountAlloc(Remove(s, k, s.lists[k][0]), Size(k));
            Deallocate(s1, s.lists[k][0], k) == (s, Ok(())) && BackTo(s, (s, Ok(())))
  {
    hide BuddyOf, Size;
    var a := s.lists[k][0];
    assert s.lists[k] == [a] + s.lists[k][1..];
    var s1 := CountAlloc(Remove(s, k, a), Size(k));
    assert s1.lists[k] == s.lists[k][1..];
    assert s1.lists[k := [a] + s1.lists[k]] == s.lists;
  }

  lemma {:induction false} PutBackTop(s: State, k: nat)
    requires k == MAX_ORDER - 1 && s.lists[k] != [] && NoDuplicates(s.lists[k])
    requires var b := BuddyOf(s.lists[k][0], k); b != 0 && b in s.lists[k]
    ensures var s1 := CountAlloc(Remove(s, k, s.lists[k][0]), Size(k));
            BackTo(s, Deallocate(s1, s.lists[k][0], k))
  {
    hide BuddyOf, Size, FreeSet, NoDuplicates;
    var l := s.lists[k];
    var a, b := l[0], BuddyOf(l[0], k);
    BuddyDiffers(a, k);
    assert l == [a] + l[1..];
    var s1 := CountAlloc(Remove(s, k, a), Size(k));
    assert s1.lists[k] == l[1..];
    var s2 := Deallocate(s1, a, k).0;
    assert s2.lists[k] == [a] + ([b] + RemoveFirst(l[1..], b));
    TopListSame(l, a, b);
    SameElementsSameSet(s.lists, s2.lists, k);
  }

  lemma {:induction false} PutBackMerges(s: State, k: nat)
    requires k < MAX_ORDER - 1 && s.lists[k] != [] && NoDuplicates(s.lists[k])
    requires var b := BuddyOf(s.lists[k][0], k); b != 0 && b in s.lists[k]
    ensures var s1 := CountAlloc(Remove(s, k, s.lists[k][0]), Size(k));
            !BackTo(s, Deallocate(s1, s.lists[k][0], k))
  {
    hide BuddyOf, Size, FreeSet;
    var l := s.lists[k];
    var a, b := l[0], BuddyOf(l[0], k);
    BuddyDiffers(a, k);
    assert l == [a] + l[1..];
    var s1 := CountAlloc(Remove(s, k, a), Size(k));
    assert s1.lists[k] == l[1..] && b in l[1..] && a !in l[1..];
    var s3 := CountAlloc(Remove(s1, k, b), Size(k));
    DeallocateLeavesLower(s3, if b < a then b else a, k + 1, k);
    RemovedWereThere(l[1..], b);
    var s2 := Deallocate(s1, a, k).0;
    assert Block(a, k) in FreeSet(s.lists) && Block(a, k) !in FreeSet(s2.lists);
  }

  lemma {:induction false} TopListSame(l: seq<nat>, a: nat, buddy: nat)
    requires l != [] && NoDuplicates(l) && a == l[0] && buddy in l && buddy != a
    ensures var l' := [a] + ([buddy] + RemoveFirst(l[1..], buddy));
            forall x :: x in l' <==> x in l
  {
    assert NoDuplicates(l[1..]);
    RemoveFirstElements(l[1..], buddy);
    assert forall x :: x in l <==> x == a || x in l[1..];
  }

  lemma {:induction false} SameElementsSameSet(l: FreeLists, l': FreeLists, k: nat)
    requires k < MAX_ORDER
    requires forall o :: 0 <= o < MAX_ORDER && o != k ==> l[o] == l'[o]
    requires forall x :: x in l[k] <==> x in l'[k]
    ensures FreeSet(l) == FreeSet(l')
  {
  }
}
