/** Inclusive ranges, the sets of addresses they denote, and the algebra behind `RangeSet`. */
module RangeSpec {
  import opened Bits

  datatype Range = Range(start: usize, end: usize) {
    ghost predicate Has(p: int) { start <= p <= end }
  }

  const RANGE_COUNT: nat := 8

  function SaturatingAdd(a: usize, b: usize): usize {
    if a + b < WORD then a + b else WORD - 1
  }

  function SaturatingSub(a: usize, b: usize): usize {
    if b <= a then a - b else 0
  }

  /** The sum, or the largest word; the difference, or zero. */
  lemma {:induction false} SaturatingMeans(a: usize, b: usize)
    ensures SaturatingAdd(a, b) == (if a + b > 0xFFFF_FFFF_FFFF_FFFF then 0xFFFF_FFFF_FFFF_FFFF else a + b)
    ensures SaturatingSub(a, b) == (if a < b then 0 else a - b)
  {
  }

  /** `overlaps`: two inclusive ranges share an address. */
  predicate Overlaps(a: Range, b: Range) {
    a.start <= b.end && b.start <= a.end
  }

  /** `contains`: all of `a` lies inside `b`. */
  predicate Contains(a: Range, b: Range) {
    a.start >= b.start && a.end <= b.end
  }

  /** The test of `merge_blocks`: both ranges grown by one at the end, then `overlaps`. */
  predicate Touches(a: Range, b: Range) {
    Overlaps(Range(a.start, SaturatingAdd(a.end, 1)), Range(b.start, SaturatingAdd(b.end, 1)))
  }

  /** No address lies between or in both: what `Touches` decides, saturation included. */
  lemma {:induction false} TouchesMeans(a: Range, b: Range)
    ensures Touches(a, b) <==> !(a.end + 1 < b.start || b.end + 1 < a.start)
  {
  }

  predicate WellFormed(r: Range) {
    r.start <= r.end
  }

  predicate AllWellFormed(l: seq<Range>) {
    forall i :: 0 <= i < |l| ==> WellFormed(l[i])
  }

  /** No two ranges overlap or are adjacent. */
  predicate Apart(l: seq<Range>) {
    forall i, j :: 0 <= i < |l| && 0 <= j < |l| && i != j ==> !Touches(l[i], l[j])
  }

  predicate Canonical(l: seq<Range>) {
    AllWellFormed(l) && Apart(l)
  }

  /** The addresses that a list of ranges denotes. */
  ghost predicate Holds(l: seq<Range>, p: int) {
    exists i :: 0 <= i < |l| && l[i].Has(p)
  }

  // ----- insert -----

  function Join(a: Range, b: Range): Range {
    Range(if b.start < a.start then b.start else a.start, if b.end > a.end then b.end else a.end)
  }

  /** The ranges that touch `r`, in order. */
  function Touched(l: seq<Range>, r: Range): (t: seq<Range>)
    ensures |t| <= |l|
  {
    if l == [] then [] else (if Touches(r, l[0]) then [l[0]] else []) + Touched(l[1..], r)
  }

  /** The ranges that do not, in order. */
  function Kept(l: seq<Range>, r: Range): (k: seq<Range>)
    ensures |k| + |Touched(l, r)| == |l|
  {
    if l == [] then [] else (if Touches(r, l[0]) then [] else [l[0]]) + Kept(l[1..], r)
  }

  function JoinAll(r: Range, t: seq<Range>): Range
    decreases |t|
  {
    if t == [] then r else JoinAll(Join(r, t[0]), t[1..])
  }

  /** The index of the first range that touches `r`, or the length. */
  function FirstTouched(l: seq<Range>, r: Range): (i: nat)
    ensures i <= |l|
    ensures forall j :: 0 <= j < i ==> !Touches(r, l[j])
    ensures i < |l| ==> Touches(r, l[i])
  {
    if l == [] || Touches(r, l[0]) then 0 else
      var i := 1 + FirstTouched(l[1..], r);
      assert forall j :: 1 <= j < i ==> l[j] == l[1..][j - 1];
      i
  }

  lemma {:induction false} PartitionAt(l: seq<Range>, r: Range, i: nat)
    requires i < |l| && Touches(r, l[i]) && forall j :: 0 <= j < i ==> !Touches(r, l[j])
    ensures Touched(l, r) == [l[i]] + Touched(l[..i] + l[i + 1..], r)
    ensures Kept(l, r) == Kept(l[..i] + l[i + 1..], r)
  {
    var m := l[..i] + l[i + 1..];
    if i == 0 {
      assert m == l[1..];
    } else {
      assert l[1..][i - 1] == l[i];
      assert forall j :: 0 <= j < i - 1 ==> l[1..][j] == l[j + 1];
      PartitionAt(l[1..], r, i - 1);
      assert m[0] == l[0] && m[1..] == l[1..][..i - 1] + l[1..][i..];
    }
  }

  lemma {:induction false} NoneTouched(l: seq<Range>, r: Range)
    requires forall j :: 0 <= j < |l| ==> !Touches(r, l[j])
    ensures Touched(l, r) == [] && Kept(l, r) == l
  {
    if l != [] {
      assert forall j :: 0 <= j < |l[1..]| ==> l[1..][j] == l[j + 1];
      NoneTouched(l[1..], r);
    }
  }

  /** Joining two ranges that touch adds no address. */
  lemma {:induction false} JoinExact(a: Range, b: Range)
    requires WellFormed(a) && WellFormed(b) && Touches(a, b)
    ensures WellFormed(Join(a, b))
    ensures forall p :: Join(a, b).Has(p) <==> a.Has(p) || b.Has(p)
  {
    TouchesMeans(a, b);
  }

  /** A range apart from `b` touches the join exactly when it touches `a`. */
  lemma {:induction false} JoinTouches(a: Range, b: Range, c: Range)
    requires WellFormed(a) && WellFormed(b) && WellFormed(c) && Touches(a, b) && !Touches(b, c)
    ensures Touches(Join(a, b), c) <==> Touches(a, c)
  {
    TouchesMeans(a, b);
    TouchesMeans(b, c);
    TouchesMeans(a, c);
    TouchesMeans(Join(a, b), c);
  }

  lemma {:induction false} SameTouches(l: seq<Range>, r: Range, r': Range)
    requires forall j :: 0 <= j < |l| ==> (Touches(r, l[j]) <==> Touches(r', l[j]))
    ensures Touched(l, r) == Touched(l, r') && Kept(l, r) == Kept(l, r')
  {
    if l != [] {
      assert forall j :: 0 <= j < |l[1..]| ==> l[1..][j] == l[j + 1];
      SameTouches(l[1..], r, r');
    }
  }

  lemma {:induction false} WithoutOne(l: seq<Range>, i: nat)
    requires i < |l| && Canonical(l)
    ensures var m := l[..i] + l[i + 1..];
            && Canonical(m)
            && forall j :: 0 <= j < |m| ==> !Touches(l[i], m[j]) && WellFormed(m[j])
  {
    var m := l[..i] + l[i + 1..];
    assert forall j :: 0 <= j < |m| ==> m[j] == l[if j < i then j else j + 1];
  }

  /** Joining the first touched range and dropping it leaves the rest of the work unchanged. */
  lemma {:induction false} MergeOne(l: seq<Range>, r: Range, i: nat)
    requires Canonical(l) && WellFormed(r)
    requires i < |l| && Touches(r, l[i]) && forall j :: 0 <= j < i ==> !Touches(r, l[j])
    ensures var m, r' := l[..i] + l[i + 1..], Join(r, l[i]);
            && WellFormed(r') && Canonical(m)
            && Touched(l, r) == [l[i]] + Touched(m, r')
            && Kept(l, r) == Kept(m, r')
            && JoinAll(r, Touched(l, r)) == JoinAll(r', Touched(m, r'))
            && i <= FirstTouched(m, r')
  {
    var m, r' := l[..i] + l[i + 1..], Join(r, l[i]);
    WithoutOne(l, i);
    PartitionAt(l, r, i);
    forall j | 0 <= j < |m| ensures Touches(r, m[j]) <==> Touches(r', m[j]) {
      JoinTouches(r, l[i], m[j]);
    }
    SameTouches(m, r, r');
    assert forall j :: 0 <= j < i ==> m[j] == l[j] && !Touches(r', m[j]);
    assert ([l[i]] + Touched(m, r'))[1..] == Touched(m, r');
  }

  /** What stays does not touch the joined range. */
  lemma {:induction false} KeptApart(l: seq<Range>, r: Range)
    requires Canonical(l) && WellFormed(r)
    ensures var k, r' := Kept(l, r), JoinAll(r, Touched(l, r));
            && WellFormed(r') && Canonical(k)
            && forall j :: 0 <= j < |k| ==> !Touches(r', k[j])
    decreases |l|
  {
    var i := FirstTouched(l, r);
    if i == |l| {
      NoneTouched(l, r);
    } else {
      MergeOne(l, r, i);
      KeptApart(l[..i] + l[i + 1..], Join(r, l[i]));
    }
  }

  lemma {:induction false} HoldsConcat(a: seq<Range>, b: seq<Range>, p: int)
    ensures Holds(a + b, p) <==> Holds(a, p) || Holds(b, p)
  {
    if i :| 0 <= i < |a| && a[i].Has(p) { assert (a + b)[i].Has(p); }
    if i :| 0 <= i < |b| && b[i].Has(p) { assert (a + b)[|a| + i].Has(p); }
    if i :| 0 <= i < |a + b| && (a + b)[i].Has(p) {
      assert if i < |a| then a[i].Has(p) else b[i - |a|].Has(p);
    }
  }

  lemma {:induction false} HoldsSplit(l: seq<Range>, i: nat, p: int)
    requires i < |l|
    ensures Holds(l, p) <==> Holds(l[..i] + l[i + 1..], p) || l[i].Has(p)
  {
    assert l == l[..i] + ([l[i]] + l[i + 1..]);
    HoldsConcat(l[..i], [l[i]] + l[i + 1..], p);
    HoldsConcat([l[i]], l[i + 1..], p);
    HoldsConcat(l[..i], l[i + 1..], p);
    assert Holds([l[i]], p) <==> l[i].Has(p) by {
      if l[i].Has(p) { assert [l[i]][0].Has(p); }
    }
  }

  /** What stays, together with the joined range, denotes the union with the new range. */
  lemma {:induction false} MergedUnion(l: seq<Range>, r: Range, p: int)
    requires Canonical(l) && WellFormed(r)
    ensures Holds(Kept(l, r), p) || JoinAll(r, Touched(l, r)).Has(p) <==> Holds(l, p) || r.Has(p)
    decreases |l|
  {
    var i := FirstTouched(l, r);
    if i == |l| {
      NoneTouched(l, r);
    } else {
      MergeOne(l, r, i);
      JoinExact(r, l[i]);
      HoldsSplit(l, i, p);
      MergedUnion(l[..i] + l[i + 1..], Join(r, l[i]), p);
    }
  }

  lemma {:induction false} CanonicalAppend(k: seq<Range>, r: Range)
    requires Canonical(k) && WellFormed(r) && forall j :: 0 <= j < |k| ==> !Touches(r, k[j])
    ensures Canonical(k + [r])
  {
    forall j | 0 <= j < |k| ensures !Touches(k[j], r) {
      TouchesMeans(k[j], r);
      TouchesMeans(r, k[j]);
    }
  }

  // ----- remove_range -----

  /** `x` sticks out of `r` on both sides. */
  predicate Straddles(x: Range, r: Range) {
    x.start < r.start && r.end < x.end
  }

  ghost predicate HasSplit(l: seq<Range>, r: Range) {
    exists i :: 0 <= i < |l| && Straddles(l[i], r)
  }

  /** No range is swallowed and none is split. */
  ghost predicate OnlyTrims(l: seq<Range>, r: Range) {
    forall i :: 0 <= i < |l| ==> !Contains(l[i], r) && !Straddles(l[i], r)
  }

  /** What the source leaves after a split, before it recurses: the head is final, the tail
      still overlaps and starts one past the start of the removed range. */
  function SplitAt(l: seq<Range>, r: Range, i: nat): seq<Range>
    requires i < |l|
  {
    l[i := Range(l[i].start, SaturatingSub(r.start, 1))] + [Range(SaturatingAdd(r.start, 1), l[i].end)]
  }

  /** The state of the loop at index `i`: same length, every address outside `r` kept, nothing
      added, and no overlap left below `i`. Contained and straddling ranges have not been met. */
  ghost predicate Trimmed(l: seq<Range>, cur: seq<Range>, r: Range, i: nat) {
    && |cur| == |l| && i <= |l|
    && (forall p :: !r.Has(p) ==> (Holds(cur, p) <==> Holds(l, p)))
    && (forall j :: 0 <= j < i ==> !Overlaps(r, cur[j]) && !Contains(l[j], r) && !Straddles(l[j], r))
    && (forall j :: i <= j < |l| ==> cur[j] == l[j])
  }

  lemma {:induction false} TrimmedStart(l: seq<Range>, r: Range)
    ensures Trimmed(l, l, r, 0)
  {
  }

  lemma {:induction false} HoldsUpdate(l: seq<Range>, i: nat, x: Range, p: int)
    requires i < |l| && (x.Has(p) <==> l[i].Has(p))
    ensures Holds(l[i := x], p) <==> Holds(l, p)
  {
    var m := l[i := x];
    if j :| 0 <= j < |l| && l[j].Has(p) { assert m[j].Has(p); }
    if j :| 0 <= j < |m| && m[j].Has(p) { assert l[j].Has(p); }
  }

  lemma {:induction false} CanonicalShrink(l: seq<Range>, i: nat, x: Range)
    requires Canonical(l) && i < |l| && WellFormed(x) && l[i].start <= x.start && x.end <= l[i].end
    ensures Canonical(l[i := x])
  {
    var m := l[i := x];
    forall j, k | 0 <= j < |m| && 0 <= k < |m| && j != k ensures !Touches(m[j], m[k]) {
      TouchesMeans(m[j], m[k]);
      TouchesMeans(l[j], l[k]);
    }
  }

  lemma {:induction false} SkipStep(l: seq<Range>, cur: seq<Range>, r: Range, i: nat)
    requires Trimmed(l, cur, r, i) && i < |l| && Canonical(cur) && WellFormed(r) && !Overlaps(r, cur[i])
    ensures Trimmed(l, cur, r, i + 1)
  {
    hide Holds;
  }

  /** Cutting off the part that overlaps. */
  lemma {:induction false} TrimStep(l: seq<Range>, cur: seq<Range>, r: Range, i: nat, x: Range)
    requires Trimmed(l, cur, r, i) && i < |l| && Canonical(cur) && WellFormed(r)
    requires Overlaps(r, cur[i]) && !Contains(cur[i], r)
    requires if r.start <= cur[i].start then x == Range(SaturatingAdd(r.end, 1), cur[i].end)
             else r.end >= cur[i].end && x == Range(cur[i].start, SaturatingSub(r.start, 1))
    ensures Canonical(cur[i := x]) && Trimmed(l, cur[i := x], r, i + 1)
  {
    hide Holds;
    CanonicalShrink(cur, i, x);
    forall p | !r.Has(p) ensures Holds(cur[i := x], p) <==> Holds(l, p) {
      HoldsUpdate(cur, i, x, p);
    }
  }

  /** Dropping a contained range loses only addresses of `r`; there was no range to split. */
  lemma {:induction false} DropStep(l: seq<Range>, cur: seq<Range>, r: Range, i: nat)
    requires Trimmed(l, cur, r, i) && i < |l| && Canonical(l) && Canonical(cur) && WellFormed(r)
    requires Overlaps(r, cur[i]) && Contains(cur[i], r)
    ensures var m := cur[..i] + cur[i + 1..];
            && Canonical(m) && !HasSplit(m, r) && !HasSplit(l, r) && !OnlyTrims(l, r)
            && (forall p :: Holds(m, p) && !r.Has(p) <==> Holds(l, p) && !r.Has(p))
  {
    hide Holds;
    var m := cur[..i] + cur[i + 1..];
    WithoutOne(cur, i);
    NoStraddler(l, r, i);
    NoStraddler(cur, r, i);
    assert forall j :: 0 <= j < |m| ==> m[j] == cur[if j < i then j else j + 1];
    forall p ensures Holds(m, p) && !r.Has(p) <==> Holds(l, p) && !r.Has(p) {
      HoldsSplit(cur, i, p);
    }
  }

  lemma {:induction false} NoStraddler(l: seq<Range>, r: Range, i: nat)
    requires Canonical(l) && i < |l| && WellFormed(r) && Contains(l[i], r)
    ensures forall j :: 0 <= j < |l| ==> !Straddles(l[j], r)
  {
    forall j | 0 <= j < |l| && j != i ensures !Straddles(l[j], r) {
      assert !Touches(l[i], l[j]);
      TouchesMeans(l[i], l[j]);
    }
  }

  /** Splitting: the two pieces are canonical, nothing outside `r` is lost, and what the
      recursive call still has to do is one trim. */
  lemma {:induction false} SplitStep(l: seq<Range>, cur: seq<Range>, r: Range, i: nat)
    requires Trimmed(l, cur, r, i) && i < |l| && Canonical(l) && Canonical(cur) && WellFormed(r)
    requires Overlaps(r, cur[i]) && !Contains(cur[i], r) && !(r.start <= cur[i].start) && !(r.end >= cur[i].end)
    ensures var m := SplitAt(cur, r, i);
            && Canonical(m) && !HasSplit(m, r) && OnlyTrims(m, r) && HasSplit(l, r) && !OnlyTrims(l, r)
            && (forall p :: Holds(m, p) && !r.Has(p) <==> Holds(l, p) && !r.Has(p))
  {
    hide Holds;
    assert Straddles(l[i], r);
    SplitCanonical(cur, r, i);
    SplitLeavesNone(cur, r, i);
    forall p ensures Holds(SplitAt(cur, r, i), p) && !r.Has(p) <==> Holds(l, p) && !r.Has(p) {
      SplitHolds(cur, r, i, p);
    }
  }

  lemma {:induction false} SplitCanonical(cur: seq<Range>, r: Range, i: nat)
    requires Canonical(cur) && i < |cur| && WellFormed(r) && Straddles(cur[i], r)
    ensures Canonical(SplitAt(cur, r, i))
  {
    var head, tail := Range(cur[i].start, SaturatingSub(r.start, 1)), Range(SaturatingAdd(r.start, 1), cur[i].end);
    CanonicalShrink(cur, i, head);
    var m := cur[i := head];
    forall j | 0 <= j < |m| ensures !Touches(tail, m[j]) {
      TouchesMeans(tail, m[j]);
      TouchesMeans(cur[i], cur[j]);
    }
    CanonicalAppend(m, tail);
  }

  lemma {:induction false} SplitLeavesNone(cur: seq<Range>, r: Range, i: nat)
    requires Canonical(cur) && i < |cur| && WellFormed(r) && Straddles(cur[i], r)
    ensures !HasSplit(SplitAt(cur, r, i), r) && OnlyTrims(SplitAt(cur, r, i), r)
  {
    var m := SplitAt(cur, r, i);
    forall j | 0 <= j < |m| ensures !Straddles(m[j], r) && !Contains(m[j], r) {
      if j < |cur| && j != i {
        assert m[j] == cur[j] && !Touches(cur[i], cur[j]);
        TouchesMeans(cur[i], cur[j]);
      }
    }
  }

  lemma {:induction false} SplitHolds(cur: seq<Range>, r: Range, i: nat, p: int)
    requires i < |cur| && WellFormed(r) && Straddles(cur[i], r)
    ensures Holds(SplitAt(cur, r, i), p) && !r.Has(p) <==> Holds(cur, p) && !r.Has(p)
  {
    hide Holds;
    var head, tail := Range(cur[i].start, SaturatingSub(r.start, 1)), Range(SaturatingAdd(r.start, 1), cur[i].end);
    HoldsConcat(cur[i := head], [tail], p);
    HoldsSplit(cur, i, p);
    HoldsSplit(cur[i := head], i, p);
    HoldsSplit([tail], 0, p);
    assert cur[i := head][..i] + cur[i := head][i + 1..] == cur[..i] + cur[i + 1..];
    HoldsNothing([tail][..0] + [tail][1..], p);
  }

  lemma {:induction false} HoldsNothing(l: seq<Range>, p: int)
    requires l == []
    ensures !Holds(l, p)
  {
  }

  /** `cur` denotes what `l` denotes without `r`. */
  ghost predicate Removed(l: seq<Range>, cur: seq<Range>, r: Range) {
    forall p :: Holds(cur, p) <==> Holds(l, p) && !r.Has(p)
  }

  lemma {:induction false} RemovedVia(l: seq<Range>, m: seq<Range>, cur: seq<Range>, r: Range)
    requires forall p :: Holds(m, p) && !r.Has(p) <==> Holds(l, p) && !r.Has(p)
    requires Removed(m, cur, r)
    ensures Removed(l, cur, r)
  {
    hide Holds;
  }

  /** When no address of `r` is left, no range overlaps it. */
  lemma {:induction false} NothingLeft(l: seq<Range>, cur: seq<Range>, r: Range)
    requires Canonical(cur) && WellFormed(r) && Removed(l, cur, r)
    ensures forall j :: 0 <= j < |cur| ==> !Overlaps(r, cur[j])
  {
    forall j | 0 <= j < |cur| ensures !Overlaps(r, cur[j]) {
      var p := if r.start < cur[j].start then cur[j].start else r.start;
      if cur[j].Has(p) { assert Holds(cur, p); }
    }
  }

  lemma {:induction false} TrimmedAll(l: seq<Range>, cur: seq<Range>, r: Range)
    requires Trimmed(l, cur, r, |l|) && Canonical(cur) && WellFormed(r)
    ensures !HasSplit(l, r) && Removed(l, cur, r) && |cur| == |l|
  {
  }

  // ----- A canonical list is determined by what it denotes -----

  /** `r` is a maximal run of the addresses that the list denotes. */
  ghost predicate RunOf(l: seq<Range>, r: Range) {
    && WellFormed(r) && (forall p :: r.Has(p) ==> Holds(l, p))
    && !Holds(l, r.start - 1) && !Holds(l, r.end + 1)
  }

  lemma {:induction false} ElementIsRun(l: seq<Range>, i: nat)
    requires Canonical(l) && i < |l|
    ensures RunOf(l, l[i])
  {
    forall j | 0 <= j < |l| ensures !l[j].Has(l[i].start - 1) && !l[j].Has(l[i].end + 1) {
      if j != i { TouchesMeans(l[i], l[j]); }
    }
  }

  lemma {:induction false} RunIsElement(l: seq<Range>, r: Range)
    requires Canonical(l) && RunOf(l, r)
    ensures r in l
  {
    assert r.Has(r.start);
    var i :| 0 <= i < |l| && l[i].Has(r.start);
    assert !l[i].Has(r.start - 1) && !l[i].Has(r.end + 1);
    if l[i].end < r.end {
      assert r.Has(l[i].end + 1);
      var j :| 0 <= j < |l| && l[j].Has(l[i].end + 1);
      TouchesMeans(l[i], l[j]);
      assert false;
    }
    assert l[i] == r;
  }

  /** The ranges of a canonical list are exactly the maximal runs of what it denotes. */
  lemma {:induction false} RangesAreRuns(l: seq<Range>)
    requires Canonical(l)
    ensures forall r :: r in l <==> RunOf(l, r)
  {
    hide Canonical, RunOf;
    forall r ensures r in l <==> RunOf(l, r) {
      if RunOf(l, r) { RunIsElement(l, r); }
      if i :| 0 <= i < |l| && l[i] == r { ElementIsRun(l, i); }
    }
  }

  function Elements(l: seq<Range>): set<Range> {
    set r | r in l
  }

  lemma {:induction false} ElementsCount(l: seq<Range>)
    requires Canonical(l)
    ensures |Elements(l)| == |l|
  {
    hide Touches;
    if l != [] {
      var n := |l| - 1;
      var m := l[..n];
      ElementsCount(m);
      assert Elements(l) == Elements(m) + {l[n]};
      forall j | 0 <= j < n ensures l[j] != l[n] {
        TouchesMeans(l[n], l[n]);
        assert !Touches(l[n], l[j]);
      }
      assert l[n] !in Elements(m);
    }
  }

  /** Two canonical lists that denote the same addresses hold the same ranges, each once. */
  lemma {:induction false} CanonicalUnique(l: seq<Range>, m: seq<Range>)
    requires Canonical(l) && Canonical(m) && forall p :: Holds(l, p) <==> Holds(m, p)
    ensures |l| == |m| && forall r :: r in l <==> r in m
  {
    hide Canonical, Holds, Elements;
    RangesAreRuns(l);
    RangesAreRuns(m);
    forall r ensures r in l <==> r in m {
      assert RunOf(l, r) <==> RunOf(m, r);
    }
    ElementsCount(l);
    ElementsCount(m);
    SameElements(l, m);
  }

  lemma {:induction false} SameElements(l: seq<Range>, m: seq<Range>)
    requires forall r :: r in l <==> r in m
    ensures Elements(l) == Elements(m)
    ensures forall r :: HasSplit(l, r) <==> HasSplit(m, r)
  {
    hide Straddles;
    forall r ensures HasSplit(l, r) <==> HasSplit(m, r) {
      if i :| 0 <= i < |l| && Straddles(l[i], r) { assert l[i] in m; }
      if i :| 0 <= i < |m| && Straddles(m[i], r) { assert m[i] in l; }
    }
  }
}
