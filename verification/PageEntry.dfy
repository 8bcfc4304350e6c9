/** Page sizes, paging modes and the bit layout of page table entries. */
module PageEntry {
  import opened Bits

  datatype PageSize = Kilopage | Megapage | Gigapage | Terapage {
    function Bytes(): (r: nat)
      ensures r > 0
    {
      match this
      case Kilopage => 0x1000
      case Megapage => 0x20_0000
      case Gigapage => 0x4000_0000
      case Terapage => 0x80_0000_0000
    }

    /** The level whose virtual page number selects a page of this size. */
    function Level(): nat {
      match this
      case Kilopage => 0
      case Megapage => 1
      case Gigapage => 2
      case Terapage => 3
    }

    predicate IsAligned(addr: nat) { addr % Bytes() == 0 }
  }

  datatype Mode = Sv39 | Sv48 {
    function Levels(): nat { if Sv39? then 3 else 4 }

    function MaxAddress(): nat { if Sv39? then 0x7F_FFFF_FFFF else 0xFFFF_FFFF_FFFF }
  }

  /** READ to DIRTY: bits 1 to 7. */
  type Flags = f: int | 0 <= f < 256 && f % 2 == 0 witness 0

  const VALID: nat := 1

  /** `Entry::flags`: the low byte without the valid bit. */
  function FlagsOf(e: usize): Flags {
    assert Shr(e % 256, 1) == Shr(e % 256 / 2, 0) == e % 256 / 2;
    Shl(Shr(e % 256, 1), 1)
  }

  datatype Kind = Empty | Branch(next: nat) | Leaf

  /** `Entry::kind`. */
  function KindOf(e: usize): Kind {
    if And(e, VALID) == 0 then Empty
    else if FlagsOf(e) == 0 then Branch(Shl(And(Shr(e, 10), 0x0FFF_FFFF_FFFF), 12))
    else Leaf
  }

  /** The physical address in a leaf; bits shifted out of the word are lost. */
  function AddrOf(e: usize): usize {
    Shl(Shr(e, 10), 12) % WORD
  }

  function LeafEntry(paddr: usize, flags: Flags): nat {
    Or(Or(Shl(Shr(paddr, 12), 10), flags), VALID)
  }

  function BranchEntry(table: usize): nat {
    Or(Shr(table, 2), VALID)
  }

  // ----- What the bits mean -----

  lemma {:induction false} SmallPowers()
    ensures Pow2(2) == 4 && Pow2(8) == 256 && Pow2(10) == 1024 && Pow2(12) == 4096
  {
  }

  lemma {:induction false} TableMask()
    ensures Pow2(44) == 0x1000_0000_0000
  {
    hide Pow2;
    SmallPowers();
    Pow2Sum(10, 12);
    Pow2Sum(22, 22);
  }

  lemma {:induction false} LowBit(e: nat)
    ensures And(e, VALID) == e % 2
  {
    AndLowMask(e, 1);
    assert Pow2(1) == 2;
  }

  lemma {:induction false} SetLowBit(x: nat)
    requires x % 2 == 0
    ensures Or(x, VALID) == x + 1
  {
    OrDisjoint(x / 2, 1, 1);
    assert Pow2(1) == 2;
  }

  lemma {:induction false} FlagsMeans(e: usize)
    ensures FlagsOf(e) == e % 256 - e % 2
  {
    assert Shr(e % 256, 1) == (e % 256) / 2;
    assert Pow2(1) == 2;
  }

  lemma {:induction false} KindMeans(e: usize)
    ensures KindOf(e) == if e % 2 == 0 then Empty
                         else if e % 256 == 1 then Branch(e / 1024 % 0x1000_0000_0000 * 4096)
                         else Leaf
  {
    hide And, Shr, Pow2;
    LowBit(e);
    FlagsMeans(e);
    SmallPowers();
    TableMask();
    ShrIsDivision(e, 10);
    AndLowMask(Shr(e, 10), 44);
  }

  lemma {:induction false} LeafMeans(paddr: usize, flags: Flags)
    ensures LeafEntry(paddr, flags) == paddr / 4096 * 1024 + flags + 1 < WORD
  {
    hide Or, Shr, Pow2;
    SmallPowers();
    ShrIsDivision(paddr, 12);
    OrDisjoint(paddr / 4096, flags, 10);
    SetLowBit(paddr / 4096 * 1024 + flags);
  }

  lemma {:induction false} AddrMeans(e: usize)
    ensures AddrOf(e) == (e / 1024 * 4096) % WORD
  {
    hide Shr, Pow2;
    SmallPowers();
    ShrIsDivision(e, 10);
  }

  /** A leaf written for a page-aligned address reads back as that address and those flags,
      unless the flags are empty: then it reads back as a branch. */
  lemma {:induction false} LeafRoundTrip(paddr: usize, flags: Flags)
    requires paddr % 4096 == 0
    ensures var e := LeafEntry(paddr, flags);
            && e < WORD
            && AddrOf(e) == paddr && FlagsOf(e) == flags
            && KindOf(e) == if flags == 0 then Branch(paddr % 0x100_0000_0000_0000) else Leaf
  {
    hide LeafEntry, AddrOf, FlagsOf, KindOf;
    LeafMeans(paddr, flags);
    var e := LeafEntry(paddr, flags);
    var ppn := paddr / 4096;
    assert e == ppn * 1024 + (flags + 1);
    LowBits(e, ppn, flags + 1);
    FlagsMeans(e);
    KindMeans(e);
    AddrMeans(e);
    assert ppn % 0x1000_0000_0000 * 4096 == paddr % 0x100_0000_0000_0000;
  }

  lemma {:induction false} LowBits(e: nat, hi: nat, lo: nat)
    requires e == hi * 1024 + lo && lo < 256
    ensures e / 1024 == hi && e % 256 == lo && e % 2 == lo % 2
  {
    DivModUnique(e, 1024, hi, lo);
    DivModUnique(e, 256, 4 * hi, lo);
    DivModUnique(e, 2, 512 * hi + lo / 2, lo % 2);
  }

  /** A branch to a page-aligned table below 2^56 reads back as that table. */
  lemma {:induction false} BranchRoundTrip(table: usize)
    requires table % 4096 == 0 && table < 0x100_0000_0000_0000
    ensures BranchEntry(table) < WORD && KindOf(BranchEntry(table)) == Branch(table)
  {
    hide Or, Shr, Pow2, KindOf;
    SmallPowers();
    ShrIsDivision(table, 2);
    var ppn := table / 4096;
    assert table / 4 == ppn * 1024;
    SetLowBit(table / 4);
    var e := BranchEntry(table);
    LowBits(e, ppn, 1);
    KindMeans(e);
  }

  lemma {:induction false} ZeroIsEmpty()
    ensures KindOf(0) == Empty
  {
    KindMeans(0);
  }
}
