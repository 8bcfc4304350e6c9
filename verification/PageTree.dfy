/** The two ways in which `map` and `unmap` change the tables: hanging a zeroed table below an
    empty entry, and writing an entry that is not a branch. Both keep the tables a tree. */
module PageTree {
  import opened Bits
  import opened PageEntry
  import opened PageWalk

  function Zeros(): (t: Table)
    ensures forall i :: 0 <= i < 512 ==> t[i] == 0
  {
    seq(512, (_: int) => 0)
  }

  // ----- A new table -----

  function Hang(tables: Tables, table: nat, i: nat, page: usize): Tables
    requires table in tables && i < 512 && BranchEntry(page) < WORD
  {
    Write(tables[page := Zeros()], table, i, BranchEntry(page))
  }

  /** A table that is not part of the tree is invisible. */
  lemma {:induction false} UnreachableTable(
      tables: Tables, root: nat, tree: Tree, levels: nat, page: nat, vaddr: nat, depth: nat)
    requires IsTree(tables, root, tree, levels) && page !in tables
    requires depth < levels && PathTo(levels, vaddr, depth) in tree
    ensures var t := tree[PathTo(levels, vaddr, depth)];
            Walk(tables[page := Zeros()], t, vaddr, levels - 1 - depth) == Walk(tables, t, vaddr, levels - 1 - depth)
    decreases levels - depth
  {
    hide Vpn, KindOf, IsTree, PathTo;
    var p := PathTo(levels, vaddr, depth);
    var i := Vpn(vaddr, levels - 1 - depth);
    BranchFacts(tables, root, tree, levels, p, i);
    PathStep(levels, vaddr, depth);
    if KindOf(tables[tree[p]][i]).Branch? {
      NodeFacts(tables, root, tree, levels, p + [i]);
      UnreachableTable(tables, root, tree, levels, page, vaddr, depth + 1);
    }
  }

  lemma {:induction false} UnreachableKeepsTree(tables: Tables, root: nat, tree: Tree, levels: nat, page: nat)
    requires IsTree(tables, root, tree, levels) && page !in tables
    ensures IsTree(tables[page := Zeros()], root, tree, levels)
  {
    hide KindOf, IsTree;
    var tables' := tables[page := Zeros()];
    RootFacts(tables, root, tree, levels);
    forall p | p in tree ensures |p| < levels && tree[p] in tables' && tree[p] != page {
      NodeFacts(tables, root, tree, levels, p);
    }
    forall p, q | p in tree && q in tree && tree[p] == tree[q] ensures p == q {
      OnePath(tables, root, tree, levels, p, q);
    }
    forall p, i | p in tree && 0 <= i < 512 ensures BranchOk(tables', tree, levels, p, i) {
      BranchFacts(tables, root, tree, levels, p, i);
    }
    forall p | p in tree && p != [] ensures ParentOk(tables', tree, p) {
      ParentFacts(tables, root, tree, levels, p);
    }
    MakeTree(tables', root, tree, levels);
  }

  /** The definition, read from right to left. */
  lemma {:induction false} MakeTree(tables: Tables, root: nat, tree: Tree, levels: nat)
    requires [] in tree && tree[[]] == root
    requires forall p :: p in tree ==> |p| < levels && tree[p] in tables
    requires forall p, q :: p in tree && q in tree && tree[p] == tree[q] ==> p == q
    requires forall p, i :: p in tree && 0 <= i < 512 ==> BranchOk(tables, tree, levels, p, i)
    requires forall p :: p in tree && p != [] ==> ParentOk(tables, tree, p)
    ensures IsTree(tables, root, tree, levels)
  {
    hide BranchOk, ParentOk;
  }

  ghost predicate HangOk(tables: Tables, root: nat, tree: Tree, levels: nat, p: seq<nat>, i: nat, page: usize) {
    && IsTree(tables, root, tree, levels) && p in tree && i < 512 && |p| + 1 < levels
    && tree[p] in tables && KindOf(tables[tree[p]][i]).Empty?
    && page !in tables && page % 4096 == 0 && page < 0x100_0000_0000_0000
  }

  lemma {:induction false} HangKeepsTree(
      tables: Tables, root: nat, tree: Tree, levels: nat, p: seq<nat>, i: nat, page: usize)
    requires HangOk(tables, root, tree, levels, p, i, page)
    ensures BranchEntry(page) < WORD
    ensures p + [i] !in tree
    ensures IsTree(Hang(tables, tree[p], i, page), root, tree[p + [i] := page], levels)
  {
    hide KindOf, IsTree, BranchEntry;
    BranchRoundTrip(page);
    ZeroIsEmpty();
    NotYetThere(tables, root, tree, levels, p, i);
    var tables', tree', c := Hang(tables, tree[p], i, page), tree[p + [i] := page], p + [i];
    RootFacts(tables, root, tree, levels);
    forall q | q in tree ensures |q| < levels && tree[q] in tables && tree[q] != page {
      NodeFacts(tables, root, tree, levels, q);
    }
    forall q, r | q in tree' && r in tree' && tree'[q] == tree'[r] ensures q == r {
      if q != c && r != c { OnePath(tables, root, tree, levels, q, r); }
    }
    forall q, j | q in tree' && 0 <= j < 512 ensures BranchOk(tables', tree', levels, q, j) {
      HangBranch(tables, root, tree, levels, p, i, page, q, j);
    }
    forall q | q in tree' && q != [] ensures ParentOk(tables', tree', q) {
      HangParent(tables, root, tree, levels, p, i, page, q);
    }
    MakeTree(tables', root, tree', levels);
  }

  lemma {:induction false} NotYetThere(tables: Tables, root: nat, tree: Tree, levels: nat, p: seq<nat>, i: nat)
    requires IsTree(tables, root, tree, levels) && p in tree && i < 512
    requires tree[p] in tables && KindOf(tables[tree[p]][i]).Empty?
    ensures p + [i] !in tree
  {
    hide KindOf, IsTree;
    var c := p + [i];
    assert c[..|c| - 1] == p && c[|c| - 1] == i;
    if c in tree {
      ParentFacts(tables, root, tree, levels, c);
    }
  }

  lemma {:induction false} HangBranch(
      tables: Tables, root: nat, tree: Tree, levels: nat, p: seq<nat>, i: nat, page: usize, q: seq<nat>, j: nat)
    requires HangOk(tables, root, tree, levels, p, i, page) && BranchEntry(page) < WORD
    requires q in tree[p + [i] := page] && j < 512
    ensures tree[p + [i] := page][q] in Hang(tables, tree[p], i, page)
    ensures BranchOk(Hang(tables, tree[p], i, page), tree[p + [i] := page], levels, q, j)
  {
    hide KindOf, IsTree, BranchEntry;
    ZeroIsEmpty();
    BranchRoundTrip(page);
    if q != p + [i] {
      BranchFacts(tables, root, tree, levels, q, j);
      if tree[q] == tree[p] { OnePath(tables, root, tree, levels, p, q); }
      assert q + [j] == p + [i] ==> q == p && j == i by {
        assert (q + [j])[..|q|] == q && (p + [i])[..|p|] == p;
        assert (q + [j])[|q|] == j && (p + [i])[|p|] == i;
      }
    } else {
      assert tree[p] != page;
    }
  }

  lemma {:induction false} HangParent(
      tables: Tables, root: nat, tree: Tree, levels: nat, p: seq<nat>, i: nat, page: usize, q: seq<nat>)
    requires HangOk(tables, root, tree, levels, p, i, page) && BranchEntry(page) < WORD
    requires q in tree[p + [i] := page] && q != []
    ensures ParentOk(Hang(tables, tree[p], i, page), tree[p + [i] := page], q)
  {
    hide KindOf, IsTree, BranchEntry;
    BranchRoundTrip(page);
    var c := p + [i];
    NotYetThere(tables, root, tree, levels, p, i);
    if q == c {
      assert c[..|c| - 1] == p && c[|c| - 1] == i;
    } else {
      ParentFacts(tables, root, tree, levels, q);
      var r, k := q[..|q| - 1], q[|q| - 1];
      assert q == r + [k];
      NodeFacts(tables, root, tree, levels, r);
      if tree[r] == tree[p] { OnePath(tables, root, tree, levels, p, r); }
    }
  }

  /** Hanging a zeroed table below an empty entry changes no walk. */
  lemma {:induction false} HangKeepsWalks(
      tables: Tables, root: nat, tree: Tree, levels: nat, p: seq<nat>, i: nat, page: usize, vaddr: nat)
    requires HangOk(tables, root, tree, levels, p, i, page) && BranchEntry(page) < WORD
    ensures Walk(Hang(tables, tree[p], i, page), root, vaddr, levels - 1) == Walk(tables, root, vaddr, levels - 1)
  {
    hide KindOf, IsTree, BranchEntry, Vpn, PathTo, Through, Walk;
    var tables1 := tables[page := Zeros()];
    RootFacts(tables, root, tree, levels);
    EmptyPath(levels, vaddr);
    UnreachableTable(tables, root, tree, levels, page, vaddr, 0);
    UnreachableKeepsTree(tables, root, tree, levels, page);
    if Through(levels, vaddr, p, i) {
      ThroughFacts(levels, vaddr, p, i);
      var e := tables[tree[p]][i];
      WriteFound(tables1, root, tree, levels, p, i, e, vaddr);
      assert tables1[tree[p]] == tables[tree[p]];
      assert tables1[tree[p]][i := e] == tables1[tree[p]];
      assert Write(tables1, tree[p], i, e) == tables1;
      WriteArrives(tables1, root, tree, levels, p, i, BranchEntry(page), vaddr, 0);
      HangUnmapped(tables, tree[p], i, page, vaddr, levels - 1 - |p|);
    } else {
      WriteFrame(tables1, root, tree, levels, p, i, BranchEntry(page), vaddr, 0);
    }
  }

  lemma {:induction false} HangUnmapped(tables: Tables, t: nat, i: nat, page: usize, vaddr: nat, level: nat)
    requires t in tables && t != page && i < 512 && page % 4096 == 0 && page < 0x100_0000_0000_0000
    requires BranchEntry(page) < WORD && i == Vpn(vaddr, level) && level > 0
    ensures Walk(Hang(tables, t, i, page), t, vaddr, level) == Unmapped
  {
    hide KindOf, BranchEntry, Vpn;
    BranchRoundTrip(page);
    ZeroIsEmpty();
    var tables' := Hang(tables, t, i, page);
    assert tables'[page] == Zeros();
    assert Zeros()[Vpn(vaddr, level - 1)] == 0;
    assert Walk(tables', page, vaddr, level - 1) == Unmapped;
  }

  // ----- A leaf, or nothing -----

  /** The tree without everything below `p`, `i`. */
  ghost function Prune(tree: Tree, p: seq<nat>, i: nat): Tree {
    map q | q in tree && !Below(p, i, q) :: tree[q]
  }

  predicate Below(p: seq<nat>, i: nat, q: seq<nat>) {
    p + [i] <= q
  }

  /** Overwriting an entry with anything but a branch, be it empty, a leaf or a branch before,
      keeps a tree: what hung below it is no longer part of it. */
  lemma {:induction false} WriteKeepsTree(
      tables: Tables, root: nat, tree: Tree, levels: nat, p: seq<nat>, i: nat, e: usize)
    requires IsTree(tables, root, tree, levels) && p in tree && i < 512 && tree[p] in tables && !KindOf(e).Branch?
    ensures p in Prune(tree, p, i)
    ensures IsTree(Write(tables, tree[p], i, e), root, Prune(tree, p, i), levels)
  {
    hide KindOf, IsTree;
    var tables', tree' := Write(tables, tree[p], i, e), Prune(tree, p, i);
    RootFacts(tables, root, tree, levels);
    forall q | q in tree' ensures |q| < levels && tree[q] in tables' {
      NodeFacts(tables, root, tree, levels, q);
    }
    forall q, r | q in tree' && r in tree' && tree'[q] == tree'[r] ensures q == r {
      OnePath(tables, root, tree, levels, q, r);
    }
    forall q, j | q in tree' && 0 <= j < 512 ensures BranchOk(tables', tree', levels, q, j) {
      PruneBranch(tables, root, tree, levels, p, i, e, q, j);
    }
    forall q | q in tree' && q != [] ensures ParentOk(tables', tree', q) {
      PruneParent(tables, root, tree, levels, p, i, e, q);
    }
    MakeTree(tables', root, tree', levels);
  }

  lemma {:induction false} PrefixOfAppend(a: seq<nat>, q: seq<nat>, j: nat)
    ensures a <= q + [j] <==> a <= q || a == q + [j]
  {
    if a <= q { assert (q + [j])[..|a|] == q[..|a|]; }
    if |a| <= |q| && a <= q + [j] { assert q[..|a|] == (q + [j])[..|a|]; }
  }

  lemma {:induction false} PruneBranch(
      tables: Tables, root: nat, tree: Tree, levels: nat, p: seq<nat>, i: nat, e: usize, q: seq<nat>, j: nat)
    requires IsTree(tables, root, tree, levels) && p in tree && i < 512 && tree[p] in tables && !KindOf(e).Branch?
    requires q in Prune(tree, p, i) && j < 512
    ensures tree[q] in tables
    ensures BranchOk(Write(tables, tree[p], i, e), Prune(tree, p, i), levels, q, j)
  {
    hide KindOf, IsTree;
    BranchFacts(tables, root, tree, levels, q, j);
    if tree[q] == tree[p] { OnePath(tables, root, tree, levels, p, q); }
    PrefixOfAppend(p + [i], q, j);
    assert (q + [j])[..|q|] == q && (p + [i])[..|p|] == p;
    assert (q + [j])[|q|] == j && (p + [i])[|p|] == i;
  }

  lemma {:induction false} PruneParent(
      tables: Tables, root: nat, tree: Tree, levels: nat, p: seq<nat>, i: nat, e: usize, q: seq<nat>)
    requires IsTree(tables, root, tree, levels) && p in tree && i < 512 && tree[p] in tables
    requires q in Prune(tree, p, i) && q != []
    ensures ParentOk(Write(tables, tree[p], i, e), Prune(tree, p, i), q)
  {
    hide KindOf, IsTree;
    ParentFacts(tables, root, tree, levels, q);
    var r, k := q[..|q| - 1], q[|q| - 1];
    assert q == r + [k];
    PrefixOfAppend(p + [i], r, k);
    if tree[r] == tree[p] { OnePath(tables, root, tree, levels, p, r); }
  }

  // ----- What a tree of tables means -----

  /** Every table of the tree is the target of exactly one branch, and every branch leads one
      level down. */
  lemma {:induction false} OneIncomingBranch(
      tables: Tables, root: nat, tree: Tree, levels: nat, p: seq<nat>, i: nat, q: seq<nat>, j: nat)
    requires IsTree(tables, root, tree, levels) && p in tree && q in tree && i < 512 && j < 512
    requires tree[p] in tables && tree[q] in tables
    requires KindOf(tables[tree[p]][i]).Branch? && KindOf(tables[tree[p]][i]) == KindOf(tables[tree[q]][j])
    ensures p == q && i == j
    ensures |p| + 1 < levels && KindOf(tables[tree[p]][i]).next != root
  {
    hide IsTree, KindOf;
    BranchFacts(tables, root, tree, levels, p, i);
    BranchFacts(tables, root, tree, levels, q, j);
    RootFacts(tables, root, tree, levels);
    OnePath(tables, root, tree, levels, p + [i], q + [j]);
    assert (p + [i])[..|p|] == p && (p + [i])[|p|] == i;
    assert (q + [j])[..|q|] == q && (q + [j])[|q|] == j;
    if tree[p + [i]] == root { OnePath(tables, root, tree, levels, p + [i], []); }
  }
}
