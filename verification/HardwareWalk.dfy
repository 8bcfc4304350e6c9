/** The translation that the processor performs, after section 4.3.2 of the RISC-V Privileged
    Architecture, and when the kernel's own walk agrees with it. */
module HardwareWalk {
  import opened Bits
  import opened PageEntry
  import opened PageWalk
  import opened PageTree
  import opened PageSpec

  const READ: nat := 2
  const WRITE: nat := 4
  const EXEC: nat := 8

  predicate HasBit(e: nat, bit: nat)
    requires bit > 0
  {
    e / bit % 2 == 1
  }

  /** Bits 63 to 54 are reserved. */
  const ENTRY_LIMIT: nat := 0x40_0000_0000_0000

  /** Where the walk ends: in a fault, or at a byte, with the flags of its leaf. */
  datatype Access = Fault | Reaches(paddr: nat, flags: nat)

  /** The bytes that an entry of the given level spans. */
  function SpanAt(level: nat): (r: nat)
    ensures r > 0
  {
    4096 * Pow512(level)
  }

  /** Bits 1 to 7. */
  function LeafFlags(e: nat): nat {
    e % 256 / 2 * 2
  }

  /** Steps 1 to 4 and 6 of the translation process. */
  function HwWalk(tables: Tables, table: nat, vaddr: nat, level: nat): Access
    decreases level
  {
    if table !in tables then Fault
    else
      var e := tables[table][Vpn(vaddr, level)];
      var base := e / 1024 % 0x1000_0000_0000 * 4096;
      if e % 2 == 0 || (!HasBit(e, READ) && HasBit(e, WRITE)) || e >= ENTRY_LIMIT then Fault
      else if HasBit(e, READ) || HasBit(e, EXEC) then
        if base % SpanAt(level) != 0 then Fault else Reaches(base + vaddr % SpanAt(level), LeafFlags(e))
      else if level == 0 then Fault
      else HwWalk(tables, base, vaddr, level - 1)
  }

  /** An entry that the kernel and the processor read the same way. */
  predicate Conforms(e: usize, level: nat) {
    match KindOf(e)
    case Empty => true
    case Branch(_) => e < ENTRY_LIMIT
    case Leaf =>
      && e < ENTRY_LIMIT && AddrOf(e) % SpanAt(level) == 0
      && (HasBit(e, READ) || HasBit(e, EXEC)) && (HasBit(e, WRITE) ==> HasBit(e, READ))
  }

  ghost predicate ConformingTree(tables: Tables, tree: Tree, levels: nat) {
    forall p, i :: p in tree && |p| < levels && tree[p] in tables && 0 <= i < 512 ==>
      Conforms(tables[tree[p]][i], levels - 1 - |p|)
  }

  lemma {:induction false} NoFlagsNoBits(e: nat)
    requires e % 256 == 1
    ensures !HasBit(e, READ) && !HasBit(e, WRITE) && !HasBit(e, EXEC)
  {
    var q := e / 256;
    assert e == 256 * q + 1;
    DivModUnique(e, 2, 128 * q, 1);
    DivModUnique(e, 4, 64 * q, 1);
    DivModUnique(e, 8, 32 * q, 1);
  }

  lemma {:induction false} SmallAddr(e: usize)
    requires e < ENTRY_LIMIT
    ensures AddrOf(e) == e / 1024 % 0x1000_0000_0000 * 4096
  {
    hide AddrOf;
    AddrMeans(e);
  }

  /** What the processor makes of the kernel's answer. */
  function Meaning(w: Walked, vaddr: nat): Access {
    match w
    case Found(_, _, level, e) => Reaches(AddrOf(e) + vaddr % SpanAt(level), FlagsOf(e))
    case _ => Fault
  }

  /** On conforming tables, the kernel's walk and the processor's reach the same byte, for every
      address and at every level. */
  lemma {:induction false} WalksAgree(tables: Tables, root: nat, tree: Tree, levels: nat, vaddr: nat, depth: nat)
    requires IsTree(tables, root, tree, levels) && ConformingTree(tables, tree, levels)
    requires depth < levels && PathTo(levels, vaddr, depth) in tree
    ensures var t := tree[PathTo(levels, vaddr, depth)];
            HwWalk(tables, t, vaddr, levels - 1 - depth) == Meaning(Walk(tables, t, vaddr, levels - 1 - depth), vaddr)
    decreases levels - depth
  {
    hide IsTree, KindOf, Vpn, PathTo, AddrOf, SpanAt, HasBit, FlagsOf;
    var p, level := PathTo(levels, vaddr, depth), levels - 1 - depth;
    var i := Vpn(vaddr, level);
    BranchFacts(tables, root, tree, levels, p, i);
    PathStep(levels, vaddr, depth);
    var e := tables[tree[p]][i];
    assert Conforms(e, level);
    KindMeans(e);
    if KindOf(e).Leaf? {
      SmallAddr(e);
      FlagsMeans(e);
    } else if KindOf(e).Branch? {
      NoFlagsNoBits(e);
      NodeFacts(tables, root, tree, levels, p + [i]);
      WalksAgree(tables, root, tree, levels, vaddr, depth + 1);
    }
  }

  /** So what `translate` answers is what the processor reaches. */
  lemma {:induction false} TranslateAgrees(tables: Tables, root: nat, tree: Tree, mode: Mode, vaddr: usize)
    requires IsTree(tables, root, tree, mode.Levels()) && ConformingTree(tables, tree, mode.Levels())
    ensures var hw := HwWalk(tables, root, vaddr, mode.Levels() - 1);
            match Translate(tables, root, mode, vaddr)
            case NotMapped => hw == Fault
            case Mapped(paddr, _, flags) => hw == Reaches(paddr, flags)
            case Panics => hw.Reaches?
  {
    hide IsTree, Walk, HwWalk, PathTo, AddrOf, FlagsOf, SpanAt, Offset, ConformingTree, LeafAt;
    var levels := mode.Levels();
    RootFacts(tables, root, tree, levels);
    EmptyPath(levels, vaddr);
    WalksAgree(tables, root, tree, levels, vaddr, 0);
    WalkStays(tables, root, tree, levels, vaddr, 0);
    var w := Walk(tables, root, vaddr, levels - 1);
    if w.Found? && w.level < 3 {
      FoundBounds(tables, tree, levels, vaddr, w);
      SmallSum(AddrOf(w.entry), vaddr, w.level);
    }
  }

  // ----- One access -----

  datatype Purpose = Load | Store | Fetch

  /** Who makes the access, and the two bits of the status register that matter. */
  datatype Context = Context(user: bool, sum: bool, mxr: bool)

  const USER: nat := 16
  const ACCESSED: nat := 64
  const DIRTY: nat := 128

  /** Step 5, and step 7 for a processor that leaves the accessed and dirty bits to software. */
  predicate Allows(flags: nat, purpose: Purpose, who: Context) {
    && (if who.user then HasBit(flags, USER) else !HasBit(flags, USER) || (who.sum && !purpose.Fetch?))
    && (match purpose
        case Load => HasBit(flags, READ) || (who.mxr && HasBit(flags, EXEC))
        case Store => HasBit(flags, WRITE)
        case Fetch => HasBit(flags, EXEC))
    && HasBit(flags, ACCESSED) && (purpose.Store? ==> HasBit(flags, DIRTY))
  }

  /** The bits above the address space must repeat its top bit. */
  predicate SignExtended(mode: Mode, vaddr: usize) {
    var half := Span(mode) / 2;
    vaddr < half || vaddr >= WORD - half
  }

  function HwAccess(tables: Tables, root: nat, mode: Mode, vaddr: usize, purpose: Purpose, who: Context): Access {
    var a := HwWalk(tables, root, vaddr, mode.Levels() - 1);
    if SignExtended(mode, vaddr) && a.Reaches? && Allows(a.flags, purpose, who) then a else Fault
  }

  /** What an access does, from what `translate` answers: it succeeds exactly when the address
      is sign-extended, the kernel has it mapped, and the flags it reports allow the access. The
      kernel itself ignores the bits above the address space. */
  lemma {:induction false} AccessAgrees(
      tables: Tables, root: nat, tree: Tree, mode: Mode, vaddr: usize, purpose: Purpose, who: Context)
    requires IsTree(tables, root, tree, mode.Levels()) && ConformingTree(tables, tree, mode.Levels())
    requires Translate(tables, root, mode, vaddr) != Panics
    ensures HwAccess(tables, root, mode, vaddr, purpose, who)
         == match Translate(tables, root, mode, vaddr)
            case Mapped(paddr, _, flags) =>
              if SignExtended(mode, vaddr) && Allows(flags, purpose, who) then Reaches(paddr, flags) else Fault
            case _ => Fault
  {
    hide IsTree, HwWalk, Translate, Allows, SignExtended, ConformingTree;
    TranslateAgrees(tables, root, tree, mode, vaddr);
  }

  lemma {:induction false} SmallSum(base: nat, vaddr: usize, level: nat)
    requires base < 0x100_0000_0000_0000 && level < 3
    ensures (base + Offset(vaddr, SizeAt(level))) % WORD == base + vaddr % SpanAt(level)
  {
    hide Offset, SpanAt;
    OffsetMeans(vaddr, SizeAt(level));
    SpanIsPageSize(SizeAt(level));
  }

  lemma {:induction false} FoundBounds(tables: Tables, tree: Tree, levels: nat, vaddr: nat, w: Walked)
    requires LeafAt(tables, tree, levels, vaddr, w) && ConformingTree(tables, tree, levels)
    ensures AddrOf(w.entry) < 0x100_0000_0000_0000
  {
    hide AddrOf, SpanAt, HasBit, PathTo, Vpn, KindOf;
    var p := PathTo(levels, vaddr, levels - 1 - w.level);
    assert Conforms(tables[tree[p]][w.index], levels - 1 - |p|);
    SmallAddr(w.entry);
  }

  // ----- Where the two walks differ -----

  /** On tables that both read alike so far, the processor's walk comes to the entry written. */
  lemma {:induction false} HwArrives(
      tables: Tables, root: nat, tree: Tree, levels: nat, p: seq<nat>, i: nat, e: usize, vaddr: nat, depth: nat)
    requires IsTree(tables, root, tree, levels) && ConformingTree(tables, tree, levels)
    requires p in tree && i < 512 && tree[p] in tables && depth <= |p| < levels && Through(levels, vaddr, p, i)
    ensures PathTo(levels, vaddr, depth) in tree
    ensures HwWalk(Write(tables, tree[p], i, e), tree[PathTo(levels, vaddr, depth)], vaddr, levels - 1 - depth)
         == HwWalk(Write(tables, tree[p], i, e), tree[p], vaddr, levels - 1 - |p|)
    decreases |p| - depth
  {
    hide Vpn, KindOf, IsTree, PathTo, Through, SpanAt, LeafFlags, HasBit, Conforms;
    ThroughFacts(levels, vaddr, p, i);
    if depth < |p| {
      HwArrives(tables, root, tree, levels, p, i, e, vaddr, depth + 1);
      var c, q := PathTo(levels, vaddr, depth + 1), PathTo(levels, vaddr, depth);
      PathStep(levels, vaddr, depth);
      ParentFacts(tables, root, tree, levels, c);
      if tree[q] == tree[p] {
        OnePath(tables, root, tree, levels, p, q);
      }
      var x := Vpn(vaddr, levels - 1 - depth);
      var b := tables[tree[q]][x];
      assert Conforms(b, levels - 1 - |q|);
      assert Write(tables, tree[p], i, e)[tree[q]][x] == b;
      BranchGoesOn(Write(tables, tree[p], i, e), tree[q], vaddr, levels - 1 - depth);
    }
  }

  lemma {:induction false} BranchGoesOn(tables: Tables, table: nat, vaddr: nat, level: nat)
    requires table in tables && level > 0
    requires var e := tables[table][Vpn(vaddr, level)]; KindOf(e).Branch? && Conforms(e, level)
    ensures HwWalk(tables, table, vaddr, level) == HwWalk(tables, KindOf(tables[table][Vpn(vaddr, level)]).next, vaddr, level - 1)
  {
    hide Vpn, KindOf, SpanAt, HasBit, LeafFlags;
    var e := tables[table][Vpn(vaddr, level)];
    KindMeans(e);
    NoFlagsNoBits(e);
  }

  /** What the processor reaches may be read or executed. */
  lemma {:induction false} ReachesIsAccessible(tables: Tables, table: nat, vaddr: nat, level: nat)
    ensures var a := HwWalk(tables, table, vaddr, level);
            a.Reaches? ==> HasBit(a.flags, READ) || HasBit(a.flags, EXEC)
    decreases level
  {
    hide Vpn, SpanAt;
    if table in tables {
      var e := tables[table][Vpn(vaddr, level)];
      if e % 2 == 1 { LowBitsAgree(e); }
      if level > 0 { ReachesIsAccessible(tables, e / 1024 % 0x1000_0000_0000 * 4096, vaddr, level - 1); }
    }
  }

  lemma {:induction false} LowBitsAgree(e: nat)
    requires e % 2 == 1
    ensures HasBit(LeafFlags(e), READ) == HasBit(e, READ) && HasBit(LeafFlags(e), EXEC) == HasBit(e, EXEC)
  {
    var q, h := e / 256, e % 256 / 2;
    assert e == 256 * q + 2 * h + 1;
    BitOfSum(64 * q, h, 1);
    BitOfSum(16 * q, h, 4);
  }

  /** An entry with flags that are not accessible: the processor faults on it, or goes on below
      it; it never reaches the byte that the kernel's walk answers, with those flags. */
  lemma {:induction false} EntryDiffers(tables: Tables, table: nat, vaddr: nat, level: nat, paddr: usize, flags: Flags)
    requires table in tables && flags != 0 && paddr % 4096 == 0 && LeafEntry(paddr, flags) < WORD
    requires tables[table][Vpn(vaddr, level)] == LeafEntry(paddr, flags) && !Accessible(paddr, flags)
    ensures HwWalk(tables, table, vaddr, level) != Meaning(Walk(tables, table, vaddr, level), vaddr)
  {
    hide Vpn, SpanAt, KindOf, AddrOf, FlagsOf, LeafEntry, HasBit, LeafFlags;
    var e := LeafEntry(paddr, flags);
    LeafRoundTrip(paddr, flags);
    LeafMeans(paddr, flags);
    FlagBit(e, paddr / 4096, flags, READ);
    FlagBit(e, paddr / 4096, flags, WRITE);
    FlagBit(e, paddr / 4096, flags, EXEC);
    if level > 0 {
      ReachesIsAccessible(tables, e / 1024 % 0x1000_0000_0000 * 4096, vaddr, level - 1);
    }
  }

  /** The processor and the kernel read this address alike. */
  predicate ReadAlike(tables: Tables, root: nat, top: nat, w: nat) {
    HwWalk(tables, root, w, top) == Meaning(Walk(tables, root, w, top), w)
  }

  /** They read every address alike. */
  ghost predicate SameReading(tables: Tables, root: nat, top: nat) {
    forall w: usize :: ReadAlike(tables, root, top, w)
  }

  lemma {:induction false} ConformingReadsAlike(tables: Tables, root: nat, tree: Tree, levels: nat)
    requires IsTree(tables, root, tree, levels) && ConformingTree(tables, tree, levels) && levels > 0
    ensures SameReading(tables, root, levels - 1)
  {
    hide IsTree, ConformingTree, HwWalk, Walk, Meaning, PathTo;
    RootFacts(tables, root, tree, levels);
    var top := levels - 1;
    forall w: usize ensures ReadAlike(tables, root, top, w) {
      EmptyPath(levels, w);
      WalksAgree(tables, root, tree, levels, w, 0);
    }
  }

  /** On every address of a page mapped without being accessible, the two walks differ. */
  lemma {:induction false} InaccessibleDiffers(
      tables: Tables, root: nat, tree: Tree, mode: Mode, paddr: usize, vaddr: nat, size: PageSize, flags: Flags, w: usize)
    requires Slot(tables, root, tree, mode, vaddr, size.Level()) && ConformingTree(tables, tree, mode.Levels())
    requires size.IsAligned(paddr) && size.IsAligned(vaddr) && vaddr < Span(mode) && InPage(mode, w, vaddr, size)
    requires flags != 0 && !Accessible(paddr, flags)
    ensures LeafEntry(paddr, flags) < WORD
    ensures var t := tree[PathTo(mode.Levels(), vaddr, mode.Levels() - 1 - size.Level())];
            var tables' := Write(tables, t, Vpn(vaddr, size.Level()), LeafEntry(paddr, flags));
            !ReadAlike(tables', root, mode.Levels() - 1, w)
  {
    hide IsTree, PathTo, Vpn, KindOf, LeafEntry, InPage, Through, Walk, HwWalk, Meaning, ConformingTree, Accessible;
    LargerAlignment(size, paddr);
    LeafRoundTrip(paddr, flags);
    var levels, l, e := mode.Levels(), size.Level(), LeafEntry(paddr, flags);
    var p, i := PathTo(levels, vaddr, levels - 1 - l), Vpn(vaddr, l);
    PathThrough(levels, vaddr, w, l);
    SamePathIsSamePage(mode, vaddr, w, size);
    RootFacts(tables, root, tree, levels);
    EmptyPath(levels, w);
    ThroughFacts(levels, w, p, i);
    WriteArrives(tables, root, tree, levels, p, i, e, w, 0);
    HwArrives(tables, root, tree, levels, p, i, e, w, 0);
    EntryDiffers(Write(tables, tree[p], i, e), tree[p], w, l, paddr, flags);
  }

  // ----- The kernel's writes keep the tables conforming -----

  lemma {:induction false} EmptyConforms(level: nat)
    ensures Conforms(0, level)
  {
    ZeroIsEmpty();
  }

  lemma {:induction false} BranchConforms(table: usize, level: nat)
    requires table % 4096 == 0 && table < 0x100_0000_0000_0000
    ensures BranchEntry(table) < WORD && Conforms(BranchEntry(table), level)
  {
    hide KindOf, Or, Shr, Pow2;
    BranchRoundTrip(table);
    SmallPowers();
    ShrIsDivision(table, 2);
    assert table / 4 == table / 4096 * 1024;
    SetLowBit(table / 4);
  }

  /** The page may be read or executed, is not writable without being readable, and lies below
      2^56. */
  predicate Accessible(paddr: nat, flags: Flags) {
    && paddr < 0x100_0000_0000_0000
    && (HasBit(flags, READ) || HasBit(flags, EXEC)) && (HasBit(flags, WRITE) ==> HasBit(flags, READ))
  }

  /** A leaf written by `map` is read alike exactly when its page is accessible. */
  lemma {:induction false} LeafConforms(paddr: usize, size: PageSize, flags: Flags)
    requires size.IsAligned(paddr) && flags != 0
    ensures LeafEntry(paddr, flags) < WORD
    ensures Conforms(LeafEntry(paddr, flags), size.Level()) <==> Accessible(paddr, flags)
  {
    hide KindOf, AddrOf, LeafEntry, HasBit, SpanAt;
    LargerAlignment(size, paddr);
    LeafRoundTrip(paddr, flags);
    LeafMeans(paddr, flags);
    var e := LeafEntry(paddr, flags);
    FlagBit(e, paddr / 4096, flags, READ);
    FlagBit(e, paddr / 4096, flags, WRITE);
    FlagBit(e, paddr / 4096, flags, EXEC);
    SpanIsPageSize(size);
  }

  lemma {:induction false} SpanIsPageSize(size: PageSize)
    ensures SpanAt(size.Level()) == size.Bytes()
  {
    assert Pow512(1) == 512 && Pow512(2) == 262144 && Pow512(3) == 134217728;
  }

  lemma {:induction false} FlagBit(e: nat, ppn: nat, flags: Flags, bit: nat)
    requires (bit == READ || bit == WRITE || bit == EXEC) && e == ppn * 1024 + flags + 1
    ensures HasBit(e, bit) == HasBit(flags, bit)
  {
    BitOfSum(ppn * 256, flags / 2, 1);
    BitOfSum(ppn * 128, flags / 2, 2);
    BitOfSum(ppn * 64, flags / 2, 4);
    assert e == (2 * (ppn * 256)) * 2 + 2 * (flags / 2) + 1;
    assert e == (2 * (ppn * 128)) * 4 + 2 * (flags / 2) + 1;
    assert e == (2 * (ppn * 64)) * 8 + 2 * (flags / 2) + 1;
  }

  /** The valid bit and whole multiples of twice the bit do not reach it. */
  lemma {:induction false} BitOfSum(q: nat, f: nat, h: nat)
    requires h > 0
    ensures ((2 * q) * (2 * h) + 2 * f + 1) / (2 * h) % 2 == (2 * f) / (2 * h) % 2
  {
    var a, r, m := f / h, f % h, 2 * h;
    Sum(2 * q, a, m);
    assert f == a * h + r;
    assert a * m == 2 * (a * h);
    DivModUnique((2 * q) * m + 2 * f + 1, m, 2 * q + a, 2 * r + 1);
    DivModUnique(2 * f, m, a, 2 * r);
    DivModUnique(2 * q + a, 2, q + a / 2, a % 2);
  }

  lemma {:induction false} Sum(x: nat, y: nat, m: nat)
    ensures (x + y) * m == x * m + y * m
  {
  }

  /** After a write, the processor reads the tables as the kernel does exactly when the new
      entry conforms. */
  lemma {:induction false} WriteConforms(
      tables: Tables, root: nat, tree: Tree, levels: nat, p: seq<nat>, i: nat, e: usize)
    requires IsTree(tables, root, tree, levels) && ConformingTree(tables, tree, levels)
    requires p in tree && i < 512 && tree[p] in tables && |p| < levels
    ensures ConformingTree(Write(tables, tree[p], i, e), Prune(tree, p, i), levels) <==> Conforms(e, levels - 1 - |p|)
  {
    hide IsTree, Conforms;
    var tables', tree' := Write(tables, tree[p], i, e), Prune(tree, p, i);
    assert p in tree' && tables'[tree'[p]][i] == e;
    forall q, j | Conforms(e, levels - 1 - |p|) && q in tree' && |q| < levels && tree'[q] in tables' && 0 <= j < 512
      ensures Conforms(tables'[tree'[q]][j], levels - 1 - |q|)
    {
      if tree[q] == tree[p] { OnePath(tables, root, tree, levels, p, q); }
      assert Conforms(tables[tree[q]][j], levels - 1 - |q|);
    }
  }

  /** A leaf that `map` writes into tables that are read alike: they still are, at every address,
      if and only if its page is accessible to the processor. */
  lemma {:induction false} ReadAlikeIffAccessible(
      tables: Tables, root: nat, tree: Tree, mode: Mode, paddr: usize, vaddr: usize, size: PageSize, flags: Flags)
    requires Slot(tables, root, tree, mode, vaddr, size.Level()) && ConformingTree(tables, tree, mode.Levels())
    requires size.IsAligned(paddr) && size.IsAligned(vaddr) && vaddr < Span(mode) && flags != 0
    ensures LeafEntry(paddr, flags) < WORD
    ensures var p := PathTo(mode.Levels(), vaddr, mode.Levels() - 1 - size.Level());
            var tables' := Write(tables, tree[p], Vpn(vaddr, size.Level()), LeafEntry(paddr, flags));
            SameReading(tables', root, mode.Levels() - 1) <==> Accessible(paddr, flags)
  {
    hide IsTree, PathTo, Vpn, KindOf, LeafEntry, InPage, ConformingTree, Accessible, ReadAlike, Prune, Conforms;
    LargerAlignment(size, paddr);
    LeafRoundTrip(paddr, flags);
    var levels, e := mode.Levels(), LeafEntry(paddr, flags);
    var p, i := PathTo(levels, vaddr, levels - 1 - size.Level()), Vpn(vaddr, size.Level());
    if Accessible(paddr, flags) {
      LeafConforms(paddr, size, flags);
      WriteKeepsTree(tables, root, tree, levels, p, i, e);
      WriteConforms(tables, root, tree, levels, p, i, e);
      ConformingReadsAlike(Write(tables, tree[p], i, e), root, Prune(tree, p, i), levels);
    } else {
      OwnPage(mode, vaddr, size);
      InaccessibleDiffers(tables, root, tree, mode, paddr, vaddr, size, flags, vaddr);
    }
  }

  lemma {:induction false} HangConforms(
      tables: Tables, root: nat, tree: Tree, levels: nat, p: seq<nat>, i: nat, page: usize)
    requires HangOk(tables, root, tree, levels, p, i, page) && ConformingTree(tables, tree, levels)
    ensures BranchEntry(page) < WORD
    ensures ConformingTree(Hang(tables, tree[p], i, page), tree[p + [i] := page], levels)
  {
    hide IsTree, Conforms, KindOf, BranchEntry;
    BranchConforms(page, levels - 1 - |p|);
    var tables', tree' := Hang(tables, tree[p], i, page), tree[p + [i] := page];
    forall q, j | q in tree' && |q| < levels && tree'[q] in tables' && 0 <= j < 512
      ensures Conforms(tables'[tree'[q]][j], levels - 1 - |q|)
    {
      if q == p + [i] {
        assert tree[p] != page;
        EmptyConforms(levels - 1 - |q|);
      } else {
        NodeFacts(tables, root, tree, levels, q);
        if tree[q] == tree[p] { OnePath(tables, root, tree, levels, p, q); }
        assert Conforms(tables[tree[q]][j], levels - 1 - |q|);
      }
    }
  }
}
