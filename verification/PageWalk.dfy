/** The radix tree of page tables as a value, the walk through it, and what one write to one
    entry does to every walk. */
module PageWalk {
  import opened Bits
  import opened PageEntry

  type Table = t: seq<usize> | |t| == 512 witness seq(512, (_: int) => 0)

  /** The memory of page tables, by physical address. */
  type Tables = map<nat, Table>

  /** `vpn`: the index into the table of level `level`. */
  function Vpn(vaddr: nat, level: nat): (r: nat)
    ensures r < 512
  {
    VpnIsDigit(vaddr, level);
    And(Shr(vaddr, 12 + level * 9), 0x1FF)
  }

  datatype Walked =
    | Unmapped
    | Found(table: nat, index: nat, level: nat, entry: usize)
    | Dangling

  /** `traverse` from the table `table` of level `level` down. */
  function Walk(tables: Tables, table: nat, vaddr: nat, level: nat): Walked
    decreases level
  {
    if table !in tables then Dangling
    else
      var index := Vpn(vaddr, level);
      var entry := tables[table][index];
      match KindOf(entry)
      case Empty => Unmapped
      case Leaf => Found(table, index, level, entry)
      case Branch(next) => if level == 0 then Unmapped else Walk(tables, next, vaddr, level - 1)
  }

  // ----- Virtual page numbers are base-512 digits -----

  function Digit(a: nat, n: nat): nat {
    if n == 0 then a % 512 else Digit(a / 512, n - 1)
  }

  function Drop(a: nat, n: nat): nat {
    if n == 0 then a else Drop(a / 512, n - 1)
  }

  lemma {:induction false} DigitOfDrop(a: nat, n: nat, m: nat)
    ensures Digit(Drop(a, n), m) == Digit(a, n + m)
  {
    if n > 0 { DigitOfDrop(a / 512, n - 1, m); }
  }

  lemma {:induction false} ShrTwice(a: nat, n: nat, m: nat)
    ensures Shr(a, n + m) == Shr(Shr(a, n), m)
  {
    if n > 0 { ShrTwice(a / 2, n - 1, m); }
  }

  lemma {:induction false} NineBits()
    ensures Pow2(9) == 512 && Pow2(12) == 4096
  {
  }

  lemma {:induction false} ShrIsDrop(a: nat, n: nat)
    ensures Shr(a, n * 9) == Drop(a, n)
  {
    if n > 0 {
      ShrTwice(a, 9, (n - 1) * 9);
      NineBits();
      ShrIsDivision(a, 9);
      ShrIsDrop(a / 512, n - 1);
    }
  }

  lemma {:induction false} VpnIsDigit(vaddr: nat, level: nat)
    ensures And(Shr(vaddr, 12 + level * 9), 0x1FF) == Digit(vaddr / 4096, level) < 512
  {
    hide And, Shr, Pow2;
    NineBits();
    ShrTwice(vaddr, 12, level * 9);
    ShrIsDivision(vaddr, 12);
    ShrIsDrop(vaddr / 4096, level);
    AndLowMask(Drop(vaddr / 4096, level), 9);
    DigitOfDrop(vaddr / 4096, level, 0);
  }

  // ----- Paths -----

  /** The indices that a walk of `vaddr` uses on its way to depth `depth`. */
  function PathTo(levels: nat, vaddr: nat, depth: nat): (p: seq<nat>)
    requires depth <= levels
    ensures |p| == depth
  {
    if depth == 0 then [] else PathTo(levels, vaddr, depth - 1) + [Vpn(vaddr, levels - depth)]
  }

  // ----- The tree -----

  type Tree = map<seq<nat>, nat>

  /** The tables reachable from the root, each at exactly one path: branches lead to them and
      to nothing else, one level down each, and the last level has no branches. */
  ghost predicate IsTree(tables: Tables, root: nat, tree: Tree, levels: nat) {
    && [] in tree && tree[[]] == root
    && (forall p :: p in tree ==> |p| < levels && tree[p] in tables)
    && (forall p, q :: p in tree && q in tree && tree[p] == tree[q] ==> p == q)
    && (forall p, i :: p in tree && 0 <= i < 512 ==> BranchOk(tables, tree, levels, p, i))
    && (forall p :: p in tree && p != [] ==> ParentOk(tables, tree, p))
  }

  ghost predicate BranchOk(tables: Tables, tree: Tree, levels: nat, p: seq<nat>, i: nat)
    requires p in tree && tree[p] in tables && i < 512
  {
    var k := KindOf(tables[tree[p]][i]);
    k.Branch? ==> |p| + 1 < levels && p + [i] in tree && tree[p + [i]] == k.next
  }

  ghost predicate ParentOk(tables: Tables, tree: Tree, p: seq<nat>)
    requires p in tree && p != []
  {
    var q, i := p[..|p| - 1], p[|p| - 1];
    q in tree && tree[q] in tables && i < 512 && KindOf(tables[tree[q]][i]) == Branch(tree[p])
  }

  lemma {:induction false} NodeFacts(tables: Tables, root: nat, tree: Tree, levels: nat, p: seq<nat>)
    requires IsTree(tables, root, tree, levels) && p in tree
    ensures |p| < levels && tree[p] in tables
  {
    hide BranchOk, ParentOk;
  }

  lemma {:induction false} BranchFacts(tables: Tables, root: nat, tree: Tree, levels: nat, p: seq<nat>, i: nat)
    requires IsTree(tables, root, tree, levels) && p in tree && i < 512
    ensures tree[p] in tables && BranchOk(tables, tree, levels, p, i)
  {
    hide BranchOk, ParentOk;
  }

  lemma {:induction false} ParentFacts(tables: Tables, root: nat, tree: Tree, levels: nat, p: seq<nat>)
    requires IsTree(tables, root, tree, levels) && p in tree && p != []
    ensures ParentOk(tables, tree, p)
  {
    hide BranchOk, ParentOk;
  }

  lemma {:induction false} OnePath(tables: Tables, root: nat, tree: Tree, levels: nat, p: seq<nat>, q: seq<nat>)
    requires IsTree(tables, root, tree, levels) && p in tree && q in tree && tree[p] == tree[q]
    ensures p == q
  {
    hide BranchOk, ParentOk;
  }

  lemma {:induction false} RootFacts(tables: Tables, root: nat, tree: Tree, levels: nat)
    requires IsTree(tables, root, tree, levels)
    ensures [] in tree && tree[[]] == root && root in tables
  {
    hide BranchOk, ParentOk;
  }

  lemma {:induction false} PathStep(levels: nat, vaddr: nat, depth: nat)
    requires depth < levels
    ensures PathTo(levels, vaddr, depth + 1) == PathTo(levels, vaddr, depth) + [Vpn(vaddr, levels - 1 - depth)]
    ensures PathTo(levels, vaddr, depth + 1)[..depth] == PathTo(levels, vaddr, depth)
    ensures PathTo(levels, vaddr, depth + 1)[depth] == Vpn(vaddr, levels - 1 - depth)
  {
    hide Vpn;
  }

  /** A leaf that the tree holds on the path of `vaddr`. */
  ghost predicate LeafAt(tables: Tables, tree: Tree, levels: nat, vaddr: nat, w: Walked) {
    && w.Found? && w.level < levels
    && var p := PathTo(levels, vaddr, levels - 1 - w.level);
       && p in tree && w.table == tree[p] && w.table in tables
       && w.index == Vpn(vaddr, w.level)
       && w.entry == tables[w.table][w.index] && KindOf(w.entry).Leaf?
  }

  /** In a tree a walk never dangles, and ends at level 0 at the latest. */
  lemma {:induction false} WalkStays(tables: Tables, root: nat, tree: Tree, levels: nat, vaddr: nat, depth: nat)
    requires IsTree(tables, root, tree, levels) && depth < levels && PathTo(levels, vaddr, depth) in tree
    ensures var w := Walk(tables, tree[PathTo(levels, vaddr, depth)], vaddr, levels - 1 - depth);
            w.Unmapped? || LeafAt(tables, tree, levels, vaddr, w)
    decreases levels - depth
  {
    hide Vpn, KindOf, IsTree, PathTo;
    var p := PathTo(levels, vaddr, depth);
    var i := Vpn(vaddr, levels - 1 - depth);
    BranchFacts(tables, root, tree, levels, p, i);
    PathStep(levels, vaddr, depth);
    if KindOf(tables[tree[p]][i]).Branch? {
      NodeFacts(tables, root, tree, levels, p + [i]);
      WalkStays(tables, root, tree, levels, vaddr, depth + 1);
    }
  }

  /** The walk of `vaddr` passes through the entry at `p`, `i` exactly when its path does. */
  ghost predicate Through(levels: nat, vaddr: nat, p: seq<nat>, i: nat)
    requires |p| < levels
  {
    PathTo(levels, vaddr, |p| + 1) == p + [i]
  }

  lemma {:induction false} ThroughFacts(levels: nat, vaddr: nat, p: seq<nat>, i: nat)
    requires |p| < levels
    ensures Through(levels, vaddr, p, i) <==>
              PathTo(levels, vaddr, |p|) == p && Vpn(vaddr, levels - 1 - |p|) == i
  {
    hide Vpn, PathTo;
    PathStep(levels, vaddr, |p|);
    assert (p + [i])[..|p|] == p && (p + [i])[|p|] == i;
  }

  function Write(tables: Tables, table: nat, i: nat, e: usize): Tables
    requires table in tables && i < 512
  {
    tables[table := tables[table][i := e]]
  }

  /** Writing one entry changes no walk that does not pass through it. */
  lemma {:induction false} WriteFrame(
      tables: Tables, root: nat, tree: Tree, levels: nat, p: seq<nat>, i: nat, e: usize, vaddr: nat, depth: nat)
    requires IsTree(tables, root, tree, levels) && p in tree && i < 512 && tree[p] in tables
    requires depth < levels && PathTo(levels, vaddr, depth) in tree
    requires |p| < levels && !Through(levels, vaddr, p, i)
    ensures var t := tree[PathTo(levels, vaddr, depth)];
            Walk(Write(tables, tree[p], i, e), t, vaddr, levels - 1 - depth) == Walk(tables, t, vaddr, levels - 1 - depth)
    decreases levels - depth
  {
    hide Vpn, KindOf, IsTree, PathTo, Through;
    var q := PathTo(levels, vaddr, depth);
    var j := Vpn(vaddr, levels - 1 - depth);
    ThroughFacts(levels, vaddr, p, i);
    PathStep(levels, vaddr, depth);
    BranchFacts(tables, root, tree, levels, q, j);
    if tree[q] == tree[p] {
      OnePath(tables, root, tree, levels, p, q);
    }
    assert Write(tables, tree[p], i, e)[tree[q]][j] == tables[tree[q]][j];
    if KindOf(tables[tree[q]][j]).Branch? {
      NodeFacts(tables, root, tree, levels, q + [j]);
      WriteFrame(tables, root, tree, levels, p, i, e, vaddr, depth + 1);
    }
  }

  /** A walk through an entry of the tree arrives at it, whatever is written there. */
  lemma {:induction false} WriteArrives(
      tables: Tables, root: nat, tree: Tree, levels: nat, p: seq<nat>, i: nat, e: usize, vaddr: nat, depth: nat)
    requires IsTree(tables, root, tree, levels) && p in tree && i < 512 && tree[p] in tables
    requires depth <= |p| < levels && Through(levels, vaddr, p, i)
    ensures PathTo(levels, vaddr, depth) in tree
    ensures Walk(Write(tables, tree[p], i, e), tree[PathTo(levels, vaddr, depth)], vaddr, levels - 1 - depth)
         == Walk(Write(tables, tree[p], i, e), tree[p], vaddr, levels - 1 - |p|)
    decreases |p| - depth
  {
    hide Vpn, KindOf, IsTree, PathTo, Through;
    ThroughFacts(levels, vaddr, p, i);
    if depth < |p| {
      WriteArrives(tables, root, tree, levels, p, i, e, vaddr, depth + 1);
      var c, q := PathTo(levels, vaddr, depth + 1), PathTo(levels, vaddr, depth);
      PathStep(levels, vaddr, depth);
      ParentFacts(tables, root, tree, levels, c);
      if tree[q] == tree[p] {
        OnePath(tables, root, tree, levels, p, q);
      }
    }
  }

  /** What a walk finds at an entry once a leaf, or nothing, is written there. */
  lemma {:induction false} WriteFound(
      tables: Tables, root: nat, tree: Tree, levels: nat, p: seq<nat>, i: nat, e: usize, vaddr: nat)
    requires IsTree(tables, root, tree, levels) && p in tree && i < 512 && tree[p] in tables && |p| < levels
    requires Through(levels, vaddr, p, i) && !KindOf(e).Branch?
    ensures Walk(Write(tables, tree[p], i, e), root, vaddr, levels - 1)
         == if KindOf(e).Leaf? then Found(tree[p], i, levels - 1 - |p|, e) else Unmapped
  {
    hide Vpn, KindOf, IsTree, PathTo, Through;
    RootFacts(tables, root, tree, levels);
    WriteArrives(tables, root, tree, levels, p, i, e, vaddr, 0);
    EmptyPath(levels, vaddr);
    ThroughFacts(levels, vaddr, p, i);
  }

  lemma {:induction false} EmptyPath(levels: nat, vaddr: nat)
    ensures PathTo(levels, vaddr, 0) == []
  {
  }
}
