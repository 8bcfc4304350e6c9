/** The fixed-size set of ranges, updated in place. A Rust panic is an outcome of its own:
    `ok == false`, after which nothing is promised about the object. */
module RangeSet {
  import opened Bits
  import opened RangeSpec
  import opened Wrappers

  datatype Error = InvalidRange | OutOfBounds

  datatype Outcome = Done | Failed(error: Error) | Panicked

  /** The slots after `merge_blocks`: the kept ranges, then the slots that were already unused,
      then the merged ranges, which the rotations moved to the end. */
  function SlotsAfter(slots: seq<Range>, n: nat, r: Range): seq<Range>
    requires n <= |slots|
  {
    Kept(slots[..n], r) + slots[n..] + Touched(slots[..n], r)
  }

  function MergedRange(slots: seq<Range>, n: nat, r: Range): Range
    requires n <= |slots|
  {
    JoinAll(r, Touched(slots[..n], r))
  }

  /** The loop of `merge_blocks` keeps the bound that it had on entry. After a merge it goes on
      to read unused slots; one that touches the joined range makes `remove` fail, and the
      `unwrap` panics. These are the slots it reads. */
  predicate StaleSlotsClear(slots: seq<Range>, n: nat, r: Range)
    requires n <= |slots|
  {
    var first := FirstTouched(slots[..n], r);
    var kept := |Kept(slots[..n], r)|;
    forall i :: first < i < n && kept <= i ==> !Touches(MergedRange(slots, n, r), SlotsAfter(slots, n, r)[i])
  }

  class RangeSet {
    const ranges: array<Range>
    var idx: nat

    ghost predicate Valid()
      reads this, ranges
    {
      ranges.Length == RANGE_COUNT && idx <= RANGE_COUNT && Canonical(ranges[..idx])
    }

    /** The ranges in use. */
    ghost function Live(): seq<Range>
      requires Valid()
      reads this, ranges
    {
      ranges[..idx]
    }

    constructor ()
      ensures Valid() && fresh(ranges) && Live() == []
      ensures ranges[..] == seq(RANGE_COUNT, _ => Range(0, 0))
    {
      ranges := new Range[RANGE_COUNT](_ => Range(0, 0));
      idx := 0;
    }

    /** `remove`: rotate the range past the end, so that the others close up in order. */
    method Remove(i: nat) returns (r: Outcome)
      requires ranges.Length == RANGE_COUNT && idx <= RANGE_COUNT
      modifies this, ranges
      ensures i >= old(idx) ==> r == Failed(OutOfBounds) && idx == old(idx) && ranges[..] == old(ranges[..])
      ensures i < old(idx) ==> r == Done && idx == old(idx) - 1
                               && ranges[..] == old(ranges[..i]) + old(ranges[i + 1..]) + [old(ranges[i])]
    {
      if i >= idx {
        return Failed(OutOfBounds);
      }
      var first := ranges[i];
      var j := i;
      while j < ranges.Length - 1
        invariant i <= j < ranges.Length && idx == old(idx)
        invariant forall k :: 0 <= k < ranges.Length ==>
                    ranges[k] == if i <= k < j then old(ranges[k + 1]) else old(ranges[k])
      {
        ranges[j] := ranges[j + 1];
        j := j + 1;
      }
      ranges[j] := first;
      idx := idx - 1;
      return Done;
    }

    /** `merge_blocks`, recursion inside the loop as in the source. It returns exactly when no
        unused slot that it reads touches the joined range. */
    method MergeBlocks(range: Range) returns (ok: bool, merged: Range)
      requires Valid() && WellFormed(range)
      modifies this, ranges
      ensures ok <==> StaleSlotsClear(old(ranges[..]), old(idx), range)
      ensures ok ==> Valid() && idx == |Kept(old(ranges[..])[..old(idx)], range)|
      ensures ok ==> ranges[..] == SlotsAfter(old(ranges[..]), old(idx), range)
      ensures ok ==> merged == MergedRange(old(ranges[..]), old(idx), range)
      decreases idx, 1
    {
      hide Touches, Canonical, SlotsAfter, MergedRange, StaleSlotsClear, Kept;
      var bound, i := idx, 0;
      while i < bound
        invariant i <= bound == idx && idx == old(idx) && ranges[..] == old(ranges[..])
        invariant forall j :: 0 <= j < i ==> !Touches(range, ranges[j])
      {
        if Touches(range, ranges[i]) {
          ok, merged := MergeAt(range, i);
          return;
        }
        i := i + 1;
      }
      NothingMerged(ranges[..], bound, range);
      return true, range;
    }

    /** The loop from the first range that touches: join it, remove it, start over, and go on
        with the old bound. */
    method MergeAt(range: Range, i: nat) returns (ok: bool, merged: Range)
      requires Valid() && WellFormed(range) && i < idx && Touches(range, ranges[i])
      requires forall j :: 0 <= j < i ==> !Touches(range, ranges[j])
      modifies this, ranges
      ensures ok <==> StaleSlotsClear(old(ranges[..]), old(idx), range)
      ensures ok ==> Valid() && idx == |Kept(old(ranges[..])[..old(idx)], range)|
      ensures ok ==> ranges[..] == SlotsAfter(old(ranges[..]), old(idx), range)
      ensures ok ==> merged == MergedRange(old(ranges[..]), old(idx), range)
      decreases idx, 0
    {
      hide Touches, Join, Canonical, SlotsAfter, MergedRange, StaleSlotsClear, Kept;
      ghost var slots := ranges[..];
      var bound := idx;
      assert ranges[..idx] == slots[..bound];
      FirstMerge(slots, bound, range, i);
      merged := Join(range, ranges[i]);
      var removed := Remove(i);
      assert removed.Done?;
      ghost var slots1 := ranges[..];
      assert slots1 == slots[..i] + slots[i + 1..] + [slots[i]];
      assert ranges[..idx] == slots1[..bound - 1];
      AfterInner(slots, bound, range, i, slots1);
      RestScanned(slots, bound, range, i);
      ok, merged := MergeBlocks(merged);
      if ok {
        assert forall j :: 0 <= j < ranges.Length ==> ranges[j] == SlotsAfter(slots, bound, range)[j];
        ok := ScanRest(i + 1, bound, merged);
      }
    }

    /** The rest of the loop once a recursive call has returned: a slot that touches lies past
        the ranges in use, `remove` refuses it, and `unwrap` panics. */
    method ScanRest(from: nat, bound: nat, merged: Range) returns (ok: bool)
      requires Valid() && from <= bound <= RANGE_COUNT
      requires forall j :: 0 <= j < idx ==> !Touches(merged, ranges[j])
      ensures ok <==> forall j :: from <= j < bound ==> !Touches(merged, ranges[j])
    {
      var i := from;
      while i < bound
        invariant from <= i <= bound
        invariant forall j :: from <= j < i ==> !Touches(merged, ranges[j])
      {
        if Touches(merged, ranges[i]) {
          assert i >= idx;
          return false;
        }
        i := i + 1;
      }
      return true;
    }

    /** `remove_inner`: trim, drop or split every range that overlaps. It panics exactly when a
        split needs a ninth slot. */
    method RemoveInner(range: Range) returns (ok: bool)
      requires Valid() && WellFormed(range)
      modifies this, ranges
      ensures ok <==> !(old(idx) == RANGE_COUNT && HasSplit(old(ranges[..idx]), range))
      ensures ok ==> Valid()
      ensures ok ==> Removed(old(ranges[..idx]), ranges[..idx], range)
      ensures ok && OnlyTrims(old(ranges[..idx]), range) ==> idx == old(idx)
      decreases if HasSplit(ranges[..idx], range) then 1 else 0, idx
    {
      hide Canonical, Removed, Overlaps, Contains, HasSplit, OnlyTrims, Trimmed;
      ghost var l, split := ranges[..idx], false;
      var bound, i := idx, 0;
      TrimmedStart(l, range);
      while i < bound
        invariant i <= bound == old(idx) <= idx && Valid()
        invariant !split ==> idx == bound && Trimmed(l, ranges[..idx], range, i)
        invariant split ==> HasSplit(l, range) && !OnlyTrims(l, range) && old(idx) < RANGE_COUNT
        invariant split ==> Removed(l, ranges[..idx], range)
      {
        ghost var cur := ranges[..idx];
        var other := ranges[i];
        assert other == cur[i];
        if split {
          NothingLeft(l, cur, range);
        }
        if Overlaps(range, other) {
          if Contains(other, range) {
            DropStep(l, cur, range, i);
            RotateSlices(ranges[..], i, idx);
            var removed := Remove(i);
            assert removed.Done?;
            assert ranges[..idx] == cur[..i] + cur[i + 1..];
            ok := RemoveInner(range);
            RemovedVia(l, cur[..i] + cur[i + 1..], ranges[..idx], range);
            return;
          }
          if range.start <= other.start {
            TrimStep(l, cur, range, i, Range(SaturatingAdd(range.end, 1), other.end));
            ranges[i] := Range(SaturatingAdd(range.end, 1), other.end);
            assert ranges[..idx] == cur[i := Range(SaturatingAdd(range.end, 1), other.end)];
          } else if range.end >= other.end {
            TrimStep(l, cur, range, i, Range(other.start, SaturatingSub(range.start, 1)));
            ranges[i] := Range(other.start, SaturatingSub(range.start, 1));
            assert ranges[..idx] == cur[i := Range(other.start, SaturatingSub(range.start, 1))];
          } else {
            SplitStep(l, cur, range, i);
            if idx >= ranges.Length {
              return false;
            }
            ranges[idx] := Range(SaturatingAdd(range.start, 1), other.end);
            idx := idx + 1;
            ranges[i] := Range(other.start, SaturatingSub(range.start, 1));
            assert ranges[..idx] == SplitAt(cur, range, i);
            ok := RemoveInner(range);
            split := true;
            RemovedVia(l, SplitAt(cur, range, i), ranges[..idx], range);
          }
        } else if !split {
          SkipStep(l, cur, range, i);
        }
        i := i + 1;
      }
      if !split {
        TrimmedAll(l, ranges[..idx], range);
      }
      ok := true;
    }

    /** `remove_range`: the set loses exactly the addresses of the range. */
    method RemoveRange(range: Range) returns (r: Outcome)
      requires Valid()
      modifies this, ranges
      ensures r == Failed(InvalidRange) <==> !WellFormed(range)
      ensures r.Failed? ==> Valid() && r.error == InvalidRange && ranges[..] == old(ranges[..]) && idx == old(idx)
      ensures r.Panicked? <==> WellFormed(range) && old(idx) == RANGE_COUNT && HasSplit(old(ranges[..idx]), range)
      ensures r.Done? ==> Valid()
      ensures r.Done? ==> forall p :: Holds(Live(), p) <==> Holds(old(Live()), p) && !range.Has(p)
    {
      if range.start > range.end {
        return Failed(InvalidRange);
      }
      var ok := RemoveInner(range);
      return if ok then Done else Panicked;
    }

    /** `insert`: on success the set denotes the union, and stays canonical. */
    method Insert(range: Range) returns (r: Outcome)
      requires Valid()
      modifies this, ranges
      ensures r == Failed(InvalidRange) <==> !WellFormed(range)
      ensures r.Failed? ==> Valid() && r.error == InvalidRange && ranges[..] == old(ranges[..]) && idx == old(idx)
      ensures r.Panicked? <==> WellFormed(range) && !InsertReturns(old(ranges[..]), old(idx), range)
      ensures r.Done? ==> Valid() && Contents(ranges[..], idx) == Inserted(Contents(old(ranges[..]), old(idx)), range)
      ensures r.Done? ==> forall p :: Holds(Live(), p) <==> Holds(old(Live()), p) || range.Has(p)
    {
      hide Touches, Touched, Kept, JoinAll, StaleSlotsClear;
      if range.start > range.end {
        return Failed(InvalidRange);
      }
      ghost var l := ranges[..idx];
      assert ranges[..][..idx] == l;
      KeptApart(l, range);
      var ok, merged := MergeBlocks(range);
      if !ok || idx >= ranges.Length {
        return Panicked;
      }
      ghost var k := Kept(l, range);
      assert ranges[..idx] == k;
      ranges[idx] := merged;
      idx := idx + 1;
      assert ranges[..] == SlotsAfter(old(ranges[..]), old(idx), range)[|k| := merged];
      assert ranges[..idx] == k + [merged];
      CanonicalAppend(k, merged);
      InsertedUnion(l, range);
      return Done;
    }
  }

  /** When `insert` returns: no unused slot in the way, and room for one more range. */
  predicate InsertReturns(slots: seq<Range>, n: nat, r: Range)
    requires n <= |slots|
  {
    StaleSlotsClear(slots, n, r) && |Kept(slots[..n], r)| < RANGE_COUNT
  }

  /** All the slots, used and unused, and how many are used. */
  datatype Contents = Contents(slots: seq<Range>, n: nat) {
    predicate Fits() { |slots| == RANGE_COUNT && n <= RANGE_COUNT }

    function Live(): seq<Range>
      requires Fits()
    {
      slots[..n]
    }
  }

  /** The slots after an `insert` that returns. */
  function Inserted(c: Contents, r: Range): (c': Contents)
    requires c.Fits() && InsertReturns(c.slots, c.n, r)
    ensures c'.Fits() && c'.Live() == Kept(c.Live(), r) + [MergedRange(c.slots, c.n, r)]
  {
    var k := |Kept(c.slots[..c.n], r)|;
    var c' := Contents(SlotsAfter(c.slots, c.n, r)[k := MergedRange(c.slots, c.n, r)], k + 1);
    assert c'.slots[..k] == Kept(c.slots[..c.n], r);
    c'
  }

  function EmptyContents(): Contents {
    Contents(seq(RANGE_COUNT, _ => Range(0, 0)), 0)
  }

  /** A sequence of inserts; none of them may fail or panic. */
  function InsertAll(c: Contents, rs: seq<Range>): (c': Option<Contents>)
    requires c.Fits()
    ensures c'.Some? ==> c'.value.Fits()
    decreases |rs|
  {
    if rs == [] then Some(c)
    else if !WellFormed(rs[0]) || !InsertReturns(c.slots, c.n, rs[0]) then None
    else InsertAll(Inserted(c, rs[0]), rs[1..])
  }

  // ----- When a whole sequence of inserts returns -----

  /** A range that touches none of the ranges in use needs a free slot, and nothing else. */
  lemma {:induction false} InsertApart(c: Contents, r: Range)
    requires c.Fits() && forall j :: 0 <= j < c.n ==> !Touches(r, c.slots[j])
    ensures InsertReturns(c.slots, c.n, r) <==> c.n < RANGE_COUNT
    ensures c.n < RANGE_COUNT ==> Inserted(c, r).Live() == c.Live() + [r]
  {
    hide Touches, Kept, Touched, JoinAll;
    NothingMerged(c.slots, c.n, r);
    NoneTouched(c.Live(), r);
  }

  /** A range that touches the last range in use, and no other, always goes in. */
  lemma {:induction false} InsertAtLast(c: Contents, r: Range)
    requires c.Fits() && c.n > 0 && Canonical(c.Live()) && WellFormed(r)
    requires Touches(r, c.slots[c.n - 1]) && forall j :: 0 <= j < c.n - 1 ==> !Touches(r, c.slots[j])
    ensures InsertReturns(c.slots, c.n, r)
    ensures Inserted(c, r).Live() == c.slots[..c.n - 1] + [Join(r, c.slots[c.n - 1])]
  {
    hide Touches, Join, Canonical;
    var l, i := c.Live(), c.n - 1;
    PartitionAt(l, r, i);
    assert l[..i] + l[i + 1..] == c.slots[..i];
    NoneTouched(c.slots[..i], r);
    assert Touched(l, r) == [l[i]];
    assert JoinAll(Join(r, l[i]), []) == Join(r, l[i]);
  }

  /** Ranges that do not touch each other, in any order: all inserts return if and only if there
      is a slot for each, and the set then lists them as they came. */
  lemma {:induction false} ApartInsertsReturn(c: Contents, rs: seq<Range>)
    requires c.Fits() && Canonical(c.Live() + rs)
    ensures InsertAll(c, rs).Some? <==> c.n + |rs| <= RANGE_COUNT
    ensures InsertAll(c, rs).Some? ==> InsertAll(c, rs).value.Live() == c.Live() + rs
    decreases |rs|
  {
    hide Touches, InsertReturns, Inserted;
    if rs != [] {
      var l := c.Live() + rs;
      assert l[c.n] == rs[0];
      assert forall j :: 0 <= j < c.n ==> l[j] == c.slots[j] && !Touches(l[c.n], l[j]);
      InsertApart(c, rs[0]);
      if c.n < RANGE_COUNT {
        assert c.Live() + [rs[0]] + rs[1..] == l;
        ApartInsertsReturn(Inserted(c, rs[0]), rs[1..]);
      }
    } else {
      assert c.Live() + rs == c.Live();
    }
  }

  /** Ranges in ascending order, joined where they touch. */
  function Joined(l: seq<Range>, rs: seq<Range>): seq<Range>
    decreases |rs|
  {
    if rs == [] then l
    else if l != [] && Touches(rs[0], l[|l| - 1]) then
      Joined(l[..|l| - 1] + [Join(rs[0], l[|l| - 1])], rs[1..])
    else Joined(l + [rs[0]], rs[1..])
  }

  predicate Ascending(rs: seq<Range>) {
    forall i :: 0 <= i < |rs| - 1 ==> rs[i].start <= rs[i + 1].start
  }

  predicate Sorted(l: seq<Range>) {
    AllWellFormed(l) && forall i, j :: 0 <= i < j < |l| ==> l[i].end + 1 < l[j].start
  }

  lemma {:induction false} JoinedGrows(l: seq<Range>, rs: seq<Range>)
    ensures |l| <= |Joined(l, rs)|
    decreases |rs|
  {
    hide Touches, Join;
    if rs != [] {
      if l != [] && Touches(rs[0], l[|l| - 1]) {
        JoinedGrows(l[..|l| - 1] + [Join(rs[0], l[|l| - 1])], rs[1..]);
      } else {
        JoinedGrows(l + [rs[0]], rs[1..]);
      }
    }
  }

  /** One insert above everything that is there. */
  lemma {:induction false} InsertAbove(c: Contents, r: Range)
    requires c.Fits() && Sorted(c.Live()) && WellFormed(r) && (c.n > 0 ==> c.slots[c.n - 1].start <= r.start)
    ensures var merges := c.n > 0 && Touches(r, c.slots[c.n - 1]);
            && (InsertReturns(c.slots, c.n, r) <==> merges || c.n < RANGE_COUNT)
            && (InsertReturns(c.slots, c.n, r) ==>
                  && Inserted(c, r).Live() == (if merges then c.slots[..c.n - 1] + [Join(r, c.slots[c.n - 1])] else c.Live() + [r])
                  && Sorted(Inserted(c, r).Live()))
  {
    hide InsertReturns, Inserted, Touches, Sorted, Join;
    var l := c.Live();
    SortedIsCanonical(l);
    OnlyLastTouches(l, r);
    assert c.n > 0 ==> l[c.n - 1] == c.slots[c.n - 1] && l[..c.n - 1] == c.slots[..c.n - 1];
    assert forall j :: 0 <= j < c.n ==> l[j] == c.slots[j];
    if c.n > 0 && Touches(r, c.slots[c.n - 1]) {
      InsertAtLast(c, r);
    } else {
      InsertApart(c, r);
    }
  }

  lemma {:induction false} OnlyLastTouches(l: seq<Range>, r: Range)
    requires Sorted(l) && WellFormed(r) && (l != [] ==> l[|l| - 1].start <= r.start)
    ensures forall j :: 0 <= j < |l| - 1 ==> !Touches(r, l[j])
    ensures if l != [] && Touches(r, l[|l| - 1]) then Sorted(l[..|l| - 1] + [Join(r, l[|l| - 1])]) else Sorted(l + [r])
  {
    hide Touches;
    forall j | 0 <= j < |l| - 1 ensures !Touches(r, l[j]) {
      TouchesMeans(r, l[j]);
    }
    if l != [] { TouchesMeans(r, l[|l| - 1]); }
  }

  lemma {:induction false} SortedIsCanonical(l: seq<Range>)
    requires Sorted(l)
    ensures Canonical(l)
  {
    forall i, j | 0 <= i < |l| && 0 <= j < |l| && i != j ensures !Touches(l[i], l[j]) {
      TouchesMeans(l[i], l[j]);
    }
  }

  /** Ranges in ascending order, overlapping or not, as a devicetree lists them: all inserts
      return if and only if no more than eight ranges remain once touching ones are joined, and
      these are what the set then holds. The unused slots never get in the way. */
  lemma {:induction false} AscendingInsertsReturn(c: Contents, rs: seq<Range>)
    requires c.Fits() && Sorted(c.Live()) && AllWellFormed(rs) && Ascending(rs)
    requires c.n > 0 && rs != [] ==> c.slots[c.n - 1].start <= rs[0].start
    ensures InsertAll(c, rs).Some? <==> |Joined(c.Live(), rs)| <= RANGE_COUNT
    ensures InsertAll(c, rs).Some? ==> InsertAll(c, rs).value.Live() == Joined(c.Live(), rs)
    decreases |rs|
  {
    hide Touches, InsertReturns, Inserted;
    if rs != [] {
      var r, l := rs[0], c.Live();
      InsertAbove(c, r);
      assert c.n > 0 ==> l[c.n - 1] == c.slots[c.n - 1] && l[..c.n - 1] == c.slots[..c.n - 1];
      if InsertReturns(c.slots, c.n, r) {
        var c' := Inserted(c, r);
        var l' := c'.Live();
        assert l'[|l'| - 1].start <= r.start;
        assert c'.slots[c'.n - 1] == l'[|l'| - 1];
        AscendingInsertsReturn(c', rs[1..]);
      } else {
        JoinedGrows(l + [r], rs[1..]);
      }
    }
  }

  lemma {:induction false} InsertedUnion(l: seq<Range>, r: Range)
    requires Canonical(l) && WellFormed(r)
    ensures forall p :: Holds(Kept(l, r) + [JoinAll(r, Touched(l, r))], p) <==> Holds(l, p) || r.Has(p)
  {
    hide Kept, Touched, JoinAll;
    var k, m := Kept(l, r), JoinAll(r, Touched(l, r));
    forall p ensures Holds(k + [m], p) <==> Holds(l, p) || r.Has(p) {
      MergedUnion(l, r, p);
      HoldsConcat(k, [m], p);
      assert Holds([m], p) <==> m.Has(p) by { if m.Has(p) { assert [m][0].Has(p); } }
    }
  }

  lemma {:induction false} NothingMerged(slots: seq<Range>, n: nat, r: Range)
    requires n <= |slots| && forall j :: 0 <= j < n ==> !Touches(r, slots[j])
    ensures SlotsAfter(slots, n, r) == slots && MergedRange(slots, n, r) == r
    ensures |Kept(slots[..n], r)| == n && StaleSlotsClear(slots, n, r)
  {
    hide Touches, Touched, Kept, Join;
    NoneTouched(slots[..n], r);
    assert slots[..n] + slots[n..] + [] == slots;
  }

  /** What the rotation of `remove` does to the slots in use and to the unused ones. */
  lemma {:induction false} RotateSlices<T>(s: seq<T>, i: nat, n: nat)
    requires i < n <= |s|
    ensures var s1 := s[..i] + s[i + 1..] + [s[i]];
            && s1[..n - 1] == s[..n][..i] + s[..n][i + 1..]
            && s1[n - 1..] == s[n..] + [s[i]]
  {
  }

  lemma {:induction false} FirstMerge(slots: seq<Range>, n: nat, r: Range, i: nat)
    requires n <= |slots| && Canonical(slots[..n]) && WellFormed(r)
    requires i < n && Touches(r, slots[i]) && forall j :: 0 <= j < i ==> !Touches(r, slots[j])
    ensures var slots1 := slots[..i] + slots[i + 1..] + [slots[i]];
            WellFormed(Join(r, slots[i])) && Canonical(slots1[..n - 1])
  {
    hide Touches, Touched, Kept, Join, JoinAll, Canonical;
    var l := slots[..n];
    MergeOne(l, r, i);
    RotateSlices(slots, i, n);
  }

  lemma {:induction false} AfterInner(slots: seq<Range>, n: nat, r: Range, i: nat, slots1: seq<Range>)
    requires n <= |slots| && Canonical(slots[..n]) && WellFormed(r)
    requires i < n && Touches(r, slots[i]) && forall j :: 0 <= j < i ==> !Touches(r, slots[j])
    requires slots1 == slots[..i] + slots[i + 1..] + [slots[i]]
    ensures var r1 := Join(r, slots[i]);
            && SlotsAfter(slots1, n - 1, r1) == SlotsAfter(slots, n, r)
            && MergedRange(slots1, n - 1, r1) == MergedRange(slots, n, r)
            && |Kept(slots1[..n - 1], r1)| == |Kept(slots[..n], r)|
            && i == FirstTouched(slots[..n], r) <= FirstTouched(slots1[..n - 1], r1)
            && (StaleSlotsClear(slots, n, r) ==> StaleSlotsClear(slots1, n - 1, r1))
  {
    hide Touches, Touched, Kept, Join, JoinAll;
    var l, r1 := slots[..n], Join(r, slots[i]);
    var m := l[..i] + l[i + 1..];
    MergeOne(l, r, i);
    RotateSlices(slots, i, n);
    var k, t := Kept(l, r), Touched(m, r1);
    assert k + (slots[n..] + [slots[i]]) + t == k + slots[n..] + ([slots[i]] + t);
  }

  lemma {:induction false} RestScanned(slots: seq<Range>, n: nat, r: Range, i: nat)
    requires n <= |slots| && Canonical(slots[..n]) && WellFormed(r)
    requires i == FirstTouched(slots[..n], r) < n
    ensures StaleSlotsClear(slots, n, r) <==>
              forall j :: i + 1 <= j < n ==> !Touches(MergedRange(slots, n, r), SlotsAfter(slots, n, r)[j])
    ensures forall j :: 0 <= j < |Kept(slots[..n], r)| ==>
              !Touches(MergedRange(slots, n, r), SlotsAfter(slots, n, r)[j])
  {
    hide Touches, Touched, Kept, Join, JoinAll;
    KeptApart(slots[..n], r);
    var k := Kept(slots[..n], r);
    assert forall j :: 0 <= j < |k| ==> SlotsAfter(slots, n, r)[j] == k[j];
  }

  lemma {:induction false} JoinAllCovers(r: Range, t: seq<Range>)
    ensures JoinAll(r, t).start <= r.start && r.end <= JoinAll(r, t).end
    ensures forall j :: 0 <= j < |t| ==> JoinAll(r, t).start <= t[j].start && t[j].end <= JoinAll(r, t).end
    decreases |t|
  {
    if t != [] {
      JoinAllCovers(Join(r, t[0]), t[1..]);
      assert forall j :: 1 <= j < |t| ==> t[j] == t[1..][j - 1];
    }
  }

  lemma {:induction false} TouchedAreRanges(l: seq<Range>, r: Range)
    requires AllWellFormed(l)
    ensures AllWellFormed(Touched(l, r))
    ensures Touched(l, r) == [] <==> FirstTouched(l, r) == |l|
  {
    if l != [] {
      assert AllWellFormed(l[1..]);
      TouchedAreRanges(l[1..], r);
    }
  }

  /** Exactly when `insert` returns on a set whose unused slots were never used, in terms a
      caller can check: nothing to merge and room left; or only the last range is merged; or
      the merged and unused slots do not meet and the union starts above address 1, where the
      zeroed slots sit. */
  lemma {:induction false} FreshInsertReturnsExactly(slots: seq<Range>, n: nat, r: Range)
    requires |slots| == RANGE_COUNT && n <= RANGE_COUNT && Canonical(slots[..n]) && WellFormed(r)
    requires forall j :: n <= j < RANGE_COUNT ==> slots[j] == Range(0, 0)
    ensures var merges := |Touched(slots[..n], r)|;
            InsertReturns(slots, n, r) <==>
              if merges == 0 then n < RANGE_COUNT
              else FirstTouched(slots[..n], r) + 1 == n
                   || (n + merges <= RANGE_COUNT && MergedRange(slots, n, r).start > 1)
  {
    hide Touched, Kept, Join, JoinAll, Touches, FirstTouched;
    var l := slots[..n];
    var t, k, first := Touched(l, r), Kept(l, r), FirstTouched(l, r);
    var m, after := JoinAll(r, t), SlotsAfter(slots, n, r);
    TouchedAreRanges(l, r);
    JoinAllCovers(r, t);
    TouchesMeans(m, Range(0, 0));
    if first + 1 < n && n + |t| > RANGE_COUNT {
      var j := n - 1 - (RANGE_COUNT - |t|);
      assert after[n - 1] == t[j];
      TouchesMeans(m, t[j]);
    } else if first + 1 < n && n + |t| <= RANGE_COUNT && t != [] {
      assert forall i :: |k| <= i < n ==> after[i] == slots[n + (i - |k|)];
      assert after[n - 1] == Range(0, 0);
    }
  }

  /** Two ranges, then a third that meets only the first: the loop reads the zeroed slot that
      the removal moved up, takes it for a range at address 0, and panics. */
  lemma {:induction false} InsertPanicsOnZeroedSlot()
    ensures var z := Range(0, 0);
            !InsertReturns([Range(5, 10), Range(20, 30), z, z, z, z, z, z], 2, Range(0, 6))
  {
    var z := Range(0, 0);
    var slots := [Range(5, 10), Range(20, 30), z, z, z, z, z, z];
    var l, r := slots[..2], Range(0, 6);
    assert l == [Range(5, 10), Range(20, 30)];
    assert l[1..] == [Range(20, 30)] && l[1..][1..] == [];
    assert Touched(l[1..], r) == [] && Touched(l, r) == [Range(5, 10)];
    assert FirstTouched(l, r) == 0;
    assert JoinAll(Range(0, 10), []) == Range(0, 10);
    assert [Range(5, 10)][1..] == [];
    assert MergedRange(slots, 2, r) == Range(0, 10);
    FreshInsertReturnsExactly(slots, 2, r);
  }
}
