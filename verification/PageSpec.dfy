/** Translation as a partial map on virtual addresses, and what writing one entry of the tree
    does to it. */
module PageSpec {
  import opened Bits
  import opened PageEntry
  import opened PageWalk
  import opened PageTree

  /** What `translate` answers. The source cannot name the size of a leaf at level 3 and stops
      there (`unreachable!`). */
  datatype Translation =
    | NotMapped
    | Mapped(paddr: usize, size: PageSize, flags: Flags)
    | Panics

  function SizeAt(level: nat): PageSize {
    if level == 0 then Kilopage else if level == 1 then Megapage else if level == 2 then Gigapage else Terapage
  }

  /** The masks of `translate`. */
  function Offset(vaddr: usize, size: PageSize): nat {
    And(vaddr, size.Bytes() - 1)
  }

  function Translate(tables: Tables, root: nat, mode: Mode, vaddr: usize): Translation {
    match Walk(tables, root, vaddr, mode.Levels() - 1)
    case Found(_, _, level, e) =>
      if level >= 3 then Panics
      else Mapped((AddrOf(e) + Offset(vaddr, SizeAt(level))) % WORD, SizeAt(level), FlagsOf(e))
    case _ => NotMapped
  }

  /** The bytes that a mode can address; higher bits of an address are ignored. */
  function Span(mode: Mode): (r: nat)
    ensures 0 < r <= WORD
  {
    mode.MaxAddress() + 1
  }

  /** `w` names a byte of the page of the given size at `vaddr`. */
  predicate InPage(mode: Mode, w: nat, vaddr: nat, size: PageSize) {
    vaddr <= w % Span(mode) < vaddr + size.Bytes()
  }

  // ----- Paths and pages -----

  function Pow512(n: nat): (r: nat)
    ensures r > 0
  {
    if n == 0 then 1 else 512 * Pow512(n - 1)
  }

  lemma {:induction false} ModStep(a: nat, m: nat)
    requires m > 0
    ensures a % (512 * m) == a % 512 + 512 * ((a / 512) % m)
  {
    var q, r := a / 512 / m, (a / 512) % m;
    assert a / 512 == q * m + r;
    assert a == 512 * (a / 512) + a % 512 == q * (512 * m) + (512 * r + a % 512);
    DivModUnique(a, 512 * m, q, 512 * r + a % 512);
  }

  /** The lowest `n` digits agree. */
  predicate Agree(a: nat, b: nat, n: nat) {
    n == 0 || (a % 512 == b % 512 && Agree(a / 512, b / 512, n - 1))
  }

  lemma {:induction false} AgreeIsSameRemainder(a: nat, b: nat, n: nat)
    ensures Agree(a, b, n) <==> a % Pow512(n) == b % Pow512(n)
  {
    if n > 0 {
      var m := Pow512(n - 1);
      ModStep(a, m);
      ModStep(b, m);
      AgreeIsSameRemainder(a / 512, b / 512, n - 1);
      TwoDigits(a % 512, (a / 512) % m, b % 512, (b / 512) % m);
    }
  }

  lemma {:induction false} TwoDigits(x: nat, h: nat, y: nat, k: nat)
    requires x < 512 && y < 512
    ensures x + 512 * h == y + 512 * k <==> x == y && h == k
  {
  }

  lemma {:induction false} DropStep(a: nat, n: nat)
    ensures Drop(a, n) / 512 == Drop(a, n + 1)
  {
    if n > 0 { DropStep(a / 512, n - 1); }
  }

  lemma {:induction false} DropIsDivision(a: nat, n: nat)
    ensures Drop(a, n) == a / Pow512(n)
  {
    if n > 0 {
      DropIsDivision(a / 512, n - 1);
      DivTwice(a, 512, Pow512(n - 1));
    }
  }

  lemma {:induction false} DivTwice(a: nat, s: nat, m: nat)
    requires s > 0 && m > 0
    ensures a / s / m == a / (s * m)
    ensures (a % (s * m)) / s == a / s % m
  {
    var x, u := a / s, a % s;
    var q, r := x / m, x % m;
    Regroup(q, m, r, s);
    DivModUnique(a, s * m, q, r * s + u);
    DivModUnique(r * s + u, s, r, u);
  }

  lemma {:induction false} Regroup(q: nat, m: nat, r: nat, s: nat)
    requires r < m
    ensures (q * m + r) * s == q * (s * m) + r * s
    ensures r * s + s <= s * m
  {
    assert (r + 1) * s <= m * s;
  }

  lemma {:induction false} PathsAgree(levels: nat, v: nat, w: nat, d: nat)
    requires d <= levels
    ensures PathTo(levels, v, d) == PathTo(levels, w, d) <==>
              Agree(Drop(v / 4096, levels - d), Drop(w / 4096, levels - d), d)
  {
    hide Vpn, Drop, Digit;
    if d > 0 {
      var l := levels - d;
      PathsAgree(levels, v, w, d - 1);
      DropStep(v / 4096, l);
      DropStep(w / 4096, l);
      LowDigitIsVpn(v, l);
      LowDigitIsVpn(w, l);
      var p, q := PathTo(levels, v, d), PathTo(levels, w, d);
      PathStep(levels, v, d - 1);
      PathStep(levels, w, d - 1);
      assert p == p[..d - 1] + [p[d - 1]] && q == q[..d - 1] + [q[d - 1]];
    }
  }

  lemma {:induction false} LowDigitIsVpn(v: nat, l: nat)
    ensures Drop(v / 4096, l) % 512 == Vpn(v, l)
  {
    hide Drop;
    VpnIsDigit(v, l);
    DigitOfDrop(v / 4096, l, 0);
  }

  /** Two addresses share the path down to level `l` exactly when they agree on all the digits
      from level `l` up. */
  lemma {:induction false} PathsAgreeIff(levels: nat, v: nat, w: nat, l: nat)
    requires l <= levels
    ensures PathTo(levels, v, levels - l) == PathTo(levels, w, levels - l) <==>
              v / 4096 / Pow512(l) % Pow512(levels - l) == w / 4096 / Pow512(l) % Pow512(levels - l)
  {
    hide Drop, Pow512, Agree, PathTo;
    PathsAgree(levels, v, w, levels - l);
    DropIsDivision(v / 4096, l);
    DropIsDivision(w / 4096, l);
    AgreeIsSameRemainder(Drop(v / 4096, l), Drop(w / 4096, l), levels - l);
  }

  lemma {:induction false} SizesAreProducts(mode: Mode, size: PageSize)
    requires size.Level() < mode.Levels()
    ensures size.Bytes() == 4096 * Pow512(size.Level())
    ensures Span(mode) == size.Bytes() * Pow512(mode.Levels() - size.Level())
  {
    assert Pow512(1) == 512 && Pow512(2) == 262144 && Pow512(3) == 134217728 && Pow512(4) == 68719476736;
  }

  /** For an aligned address, sharing the path down to the page's level means lying in it. */
  lemma {:induction false} SamePathIsSamePage(mode: Mode, v: nat, w: nat, size: PageSize)
    requires size.Level() < mode.Levels() && size.IsAligned(v) && v < Span(mode)
    ensures var d := mode.Levels() - size.Level();
            PathTo(mode.Levels(), v, d) == PathTo(mode.Levels(), w, d) <==> InPage(mode, w, v, size)
  {
    hide PathTo, Pow512;
    var l, s, m := size.Level(), size.Bytes(), Pow512(mode.Levels() - size.Level());
    PathsAgreeIff(mode.Levels(), v, w, l);
    SizesAreProducts(mode, size);
    DivTwice(v, 4096, Pow512(l));
    DivTwice(w, 4096, Pow512(l));
    DivTwice(v, s, m);
    DivTwice(w, s, m);
    DivModUnique(v, Span(mode), 0, v);
    SameQuotient(v, w % Span(mode), s);
  }

  lemma {:induction false} SameQuotient(v: nat, x: nat, s: nat)
    requires s > 0 && v % s == 0
    ensures v / s == x / s <==> v <= x < v + s
  {
    if v <= x < v + s {
      assert x == (v / s) * s + (x - v);
      DivModUnique(x, s, v / s, x - v);
    }
  }

  // ----- The two theorems on values -----

  lemma {:induction false} OffsetMeans(vaddr: usize, size: PageSize)
    requires !size.Terapage?
    ensures Offset(vaddr, size) == vaddr % size.Bytes()
  {
    hide And, Pow2;
    NineBits();
    Pow2Sum(12, 9);
    Pow2Sum(21, 9);
    AndLowMask(vaddr, 12 + 9 * size.Level());
  }

  lemma {:induction false} LargerAlignment(size: PageSize, addr: nat)
    requires size.IsAligned(addr)
    ensures addr % 4096 == 0
  {
    var q := addr / size.Bytes();
    match size
    case Kilopage =>
    case Megapage => DivModUnique(addr, 4096, q * 512, 0);
    case Gigapage => DivModUnique(addr, 4096, q * 262144, 0);
    case Terapage => DivModUnique(addr, 4096, q * 134217728, 0);
  }

  /** What `translate` answers for a byte of a page mapped to `paddr`. */
  function Answer(paddr: usize, size: PageSize, flags: Flags, w: usize): Translation {
    if size.Terapage? then Panics else Mapped((paddr + w % size.Bytes()) % WORD, size, flags)
  }

  /** An aligned page ends inside the machine word, so its answer never wraps. */
  lemma {:induction false} AnswerDoesNotWrap(paddr: usize, size: PageSize, w: usize)
    requires size.IsAligned(paddr)
    ensures (paddr + w % size.Bytes()) % WORD == paddr + w % size.Bytes()
  {
    var s := size.Bytes();
    var q := paddr / s;
    assert paddr == q * s;
    match size
    case Kilopage => assert WORD == s * 0x10_0000_0000_0000;
    case Megapage => assert WORD == s * 0x800_0000_0000;
    case Gigapage => assert WORD == s * 0x4_0000_0000;
    case Terapage => assert WORD == s * 0x200_0000;
  }

  /** Where `map` writes: below the entries for the higher levels of `vaddr`. */
  ghost predicate Slot(tables: Tables, root: nat, tree: Tree, mode: Mode, vaddr: nat, level: nat) {
    && level < mode.Levels() && IsTree(tables, root, tree, mode.Levels())
    && PathTo(mode.Levels(), vaddr, mode.Levels() - 1 - level) in tree
    && tree[PathTo(mode.Levels(), vaddr, mode.Levels() - 1 - level)] in tables
  }

  /** The page at `vaddr` answers with the new mapping; every other address as before. */
  ghost predicate Updates(
      tables: Tables, tables': Tables, root: nat, mode: Mode, paddr: usize, vaddr: nat, size: PageSize, flags: Flags) {
    forall w: usize :: Translate(tables', root, mode, w)
                    == if InPage(mode, w, vaddr, size) then Answer(paddr, size, flags, w)
                       else Translate(tables, root, mode, w)
  }

  /** Writing a leaf makes exactly its page translate to it, and changes nothing else. */
  lemma {:induction false} LeafUpdatesTranslation(
      tables: Tables, root: nat, tree: Tree, mode: Mode,
      paddr: usize, vaddr: nat, size: PageSize, flags: Flags, w: usize)
    requires Slot(tables, root, tree, mode, vaddr, size.Level())
    requires size.IsAligned(paddr) && size.IsAligned(vaddr) && vaddr < Span(mode) && flags != 0
    ensures LeafEntry(paddr, flags) < WORD
    ensures var t := tree[PathTo(mode.Levels(), vaddr, mode.Levels() - 1 - size.Level())];
            Translate(Write(tables, t, Vpn(vaddr, size.Level()), LeafEntry(paddr, flags)), root, mode, w)
            == if InPage(mode, w, vaddr, size) then Answer(paddr, size, flags, w)
               else Translate(tables, root, mode, w)
  {
    hide IsTree, PathTo, Vpn, Walk, KindOf, LeafEntry, AddrOf, FlagsOf, InPage, Through, Translate, Answer;
    hide PageSize.Bytes;
    LargerAlignment(size, paddr);
    LeafRoundTrip(paddr, flags);
    var levels, l, e := mode.Levels(), size.Level(), LeafEntry(paddr, flags);
    var p, i := PathTo(levels, vaddr, levels - 1 - l), Vpn(vaddr, l);
    PathThrough(levels, vaddr, w, l);
    SamePathIsSamePage(mode, vaddr, w, size);
    if InPage(mode, w, vaddr, size) {
      WriteFound(tables, root, tree, levels, p, i, e, w);
      FoundAnswers(Write(tables, tree[p], i, e), root, mode, w, paddr, size, flags);
    } else {
      RootFacts(tables, root, tree, levels);
      EmptyPath(levels, w);
      WriteFrame(tables, root, tree, levels, p, i, e, w, 0);
      SameWalkAnswers(tables, Write(tables, tree[p], i, e), root, mode, w);
    }
  }

  lemma {:induction false} FoundAnswers(
      tables: Tables, root: nat, mode: Mode, w: usize, paddr: usize, size: PageSize, flags: Flags)
    requires paddr % 4096 == 0 && size.Level() < mode.Levels() && LeafEntry(paddr, flags) < WORD
    requires var f := Walk(tables, root, w, mode.Levels() - 1);
             f.Found? && f.level == size.Level() && f.entry == LeafEntry(paddr, flags)
    ensures Translate(tables, root, mode, w) == Answer(paddr, size, flags, w)
  {
    hide Walk, LeafEntry, AddrOf, FlagsOf, Offset;
    LeafRoundTrip(paddr, flags);
    if !size.Terapage? { OffsetMeans(w, size); }
  }

  lemma {:induction false} SameWalkAnswers(tables: Tables, tables': Tables, root: nat, mode: Mode, w: usize)
    requires Walk(tables', root, w, mode.Levels() - 1) == Walk(tables, root, w, mode.Levels() - 1)
    ensures Translate(tables', root, mode, w) == Translate(tables, root, mode, w)
  {
    hide Walk, AddrOf, FlagsOf, Offset;
  }

  lemma {:induction false} PathThrough(levels: nat, v: nat, w: nat, l: nat)
    requires l < levels
    ensures Through(levels, w, PathTo(levels, v, levels - 1 - l), Vpn(v, l)) <==>
              PathTo(levels, v, levels - l) == PathTo(levels, w, levels - l)
  {
    hide Vpn;
    PathStep(levels, v, levels - 1 - l);
  }

  /** The page that a walk of `vaddr` ending at `level` belongs to. */
  function PageOf(mode: Mode, vaddr: nat, size: PageSize): nat {
    vaddr % Span(mode) - vaddr % Span(mode) % size.Bytes()
  }

  lemma {:induction false} PageOfFacts(mode: Mode, vaddr: nat, size: PageSize)
    requires size.Level() < mode.Levels()
    ensures var b := PageOf(mode, vaddr, size);
            size.IsAligned(b) && 0 <= b < Span(mode) && InPage(mode, vaddr, b, size)
  {
    FloorMultiple(vaddr % Span(mode), size.Bytes());
  }

  /** Clearing the leaf that a walk found unmaps exactly the page it mapped. */
  lemma {:induction false} ClearUpdatesTranslation(
      tables: Tables, root: nat, tree: Tree, mode: Mode, vaddr: nat, size: PageSize, w: usize)
    requires Slot(tables, root, tree, mode, vaddr, size.Level())
    ensures var t := tree[PathTo(mode.Levels(), vaddr, mode.Levels() - 1 - size.Level())];
            Translate(Write(tables, t, Vpn(vaddr, size.Level()), 0), root, mode, w)
            == if InPage(mode, w, PageOf(mode, vaddr, size), size) then NotMapped
               else Translate(tables, root, mode, w)
  {
    hide IsTree, PathTo, Vpn, Walk, KindOf, AddrOf, FlagsOf, InPage, Offset, Through;
    ZeroIsEmpty();
    var levels, l := mode.Levels(), size.Level();
    var b := PageOf(mode, vaddr, size);
    var p, i := PathTo(levels, vaddr, levels - 1 - l), Vpn(vaddr, l);
    PageOfFacts(mode, vaddr, size);
    SamePathIsSamePage(mode, b, vaddr, size);
    SamePathIsSamePage(mode, b, w, size);
    PathThrough(levels, vaddr, w, l);
    if InPage(mode, w, b, size) {
      WriteFound(tables, root, tree, levels, p, i, 0, w);
    } else {
      RootFacts(tables, root, tree, levels);
      EmptyPath(levels, w);
      WriteFrame(tables, root, tree, levels, p, i, 0, w, 0);
    }
  }

  /** A leaf that a walk finds has a flag. */
  lemma {:induction false} LeafHasFlags(tables: Tables, table: nat, vaddr: nat, level: nat)
    ensures var w := Walk(tables, table, vaddr, level); w.Found? ==> FlagsOf(w.entry) != 0 && w.level <= level
    decreases level
  {
    hide Vpn, FlagsOf;
    if table in tables {
      var k := KindOf(tables[table][Vpn(vaddr, level)]);
      if k.Branch? && level > 0 { LeafHasFlags(tables, k.next, vaddr, level - 1); }
    }
  }

  /** An entry written without flags is a branch, whatever the size of the page: the walk goes
      on below, in the data page, and never answers with the mapping asked for. */
  lemma {:induction false} EmptyFlagsNeverAnswer(
      tables: Tables, root: nat, tree: Tree, mode: Mode, paddr: usize, vaddr: nat, size: PageSize, w: usize)
    requires Slot(tables, root, tree, mode, vaddr, size.Level())
    requires size.IsAligned(paddr) && size.IsAligned(vaddr) && vaddr < Span(mode) && InPage(mode, w, vaddr, size)
    ensures LeafEntry(paddr, 0) < WORD
    ensures var t := tree[PathTo(mode.Levels(), vaddr, mode.Levels() - 1 - size.Level())];
            Translate(Write(tables, t, Vpn(vaddr, size.Level()), LeafEntry(paddr, 0)), root, mode, w)
            != Answer(paddr, size, 0, w)
  {
    hide IsTree, PathTo, Vpn, KindOf, LeafEntry, InPage, Through, Walk, FlagsOf, AddrOf, Offset, PageSize.Bytes;
    LargerAlignment(size, paddr);
    LeafRoundTrip(paddr, 0);
    var levels, l, e := mode.Levels(), size.Level(), LeafEntry(paddr, 0);
    var p, i := PathTo(levels, vaddr, levels - 1 - l), Vpn(vaddr, l);
    var tables' := Write(tables, tree[p], i, e);
    LeafHasFlags(tables', root, w, levels - 1);
    if size.Terapage? {
      PathThrough(levels, vaddr, w, l);
      SamePathIsSamePage(mode, vaddr, w, size);
      RootFacts(tables, root, tree, levels);
      EmptyPath(levels, w);
      EmptyPath(levels, vaddr);
      ThroughFacts(levels, w, p, i);
      BranchAtTop(tables', root, w, levels - 1);
    }
  }

  lemma {:induction false} BranchAtTop(tables: Tables, root: nat, w: nat, top: nat)
    requires root in tables && KindOf(tables[root][Vpn(w, top)]).Branch?
    ensures var f := Walk(tables, root, w, top); f.Found? ==> f.level < top
  {
    hide KindOf, Vpn, FlagsOf;
    if top > 0 { LeafHasFlags(tables, KindOf(tables[root][Vpn(w, top)]).next, w, top - 1); }
  }

  /** Writing the entry of `map` does what `map` promises if and only if there is a flag. */
  lemma {:induction false} MapsIffFlagged(
      tables: Tables, root: nat, tree: Tree, mode: Mode, paddr: usize, vaddr: usize, size: PageSize, flags: Flags)
    requires Slot(tables, root, tree, mode, vaddr, size.Level())
    requires size.IsAligned(paddr) && size.IsAligned(vaddr) && vaddr < Span(mode)
    ensures LeafEntry(paddr, flags) < WORD
    ensures var t := tree[PathTo(mode.Levels(), vaddr, mode.Levels() - 1 - size.Level())];
            Updates(tables, Write(tables, t, Vpn(vaddr, size.Level()), LeafEntry(paddr, flags)), root, mode, paddr, vaddr, size, flags)
            <==> flags != 0
  {
    hide IsTree, PathTo, Vpn, Translate, LeafEntry, InPage, Answer;
    if flags == 0 {
      OwnPage(mode, vaddr, size);
      EmptyFlagsNeverAnswer(tables, root, tree, mode, paddr, vaddr, size, vaddr);
    } else {
      LargerAlignment(size, paddr);
      LeafRoundTrip(paddr, flags);
      var t := tree[PathTo(mode.Levels(), vaddr, mode.Levels() - 1 - size.Level())];
      forall w: usize
        ensures Translate(Write(tables, t, Vpn(vaddr, size.Level()), LeafEntry(paddr, flags)), root, mode, w)
             == if InPage(mode, w, vaddr, size) then Answer(paddr, size, flags, w) else Translate(tables, root, mode, w)
      {
        LeafUpdatesTranslation(tables, root, tree, mode, paddr, vaddr, size, flags, w);
      }
    }
  }

  lemma {:induction false} OwnPage(mode: Mode, vaddr: usize, size: PageSize)
    requires vaddr < Span(mode)
    ensures InPage(mode, vaddr, vaddr, size)
  {
    hide Span;
    DivModUnique(vaddr, Span(mode), 0, vaddr);
  }

  /** At the last level nothing lies below: the page answers nothing at all. */
  lemma {:induction false} EmptyFlagsMapNothing(
      tables: Tables, root: nat, tree: Tree, mode: Mode, paddr: usize, vaddr: nat, w: usize)
    requires Slot(tables, root, tree, mode, vaddr, 0)
    requires Kilopage.IsAligned(paddr) && Kilopage.IsAligned(vaddr) && vaddr < Span(mode) && InPage(mode, w, vaddr, Kilopage)
    ensures LeafEntry(paddr, 0) < WORD
    ensures var t := tree[PathTo(mode.Levels(), vaddr, mode.Levels() - 1)];
            var tables' := Write(tables, t, Vpn(vaddr, 0), LeafEntry(paddr, 0));
            Walk(tables', root, w, mode.Levels() - 1) == Unmapped && Translate(tables', root, mode, w) == NotMapped
  {
    hide IsTree, PathTo, Vpn, KindOf, LeafEntry, InPage, Through;
    LeafRoundTrip(paddr, 0);
    var levels, e := mode.Levels(), LeafEntry(paddr, 0);
    var p, i := PathTo(levels, vaddr, levels - 1), Vpn(vaddr, 0);
    PathThrough(levels, vaddr, w, 0);
    SamePathIsSamePage(mode, vaddr, w, Kilopage);
    RootFacts(tables, root, tree, levels);
    EmptyPath(levels, w);
    WriteArrives(tables, root, tree, levels, p, i, e, w, 0);
    ThroughFacts(levels, w, p, i);
  }
}
