/** Twelve singly linked lists threaded through one memory of `next` pointers. Zero stands for
    `None`; a list node lives at the address of the free block it describes. */
module FreeListMemory {
  import opened Blocks
  import opened BuddySpec

  /** The pointer that the cell before position `i` holds. */
  function At(l: seq<nat>, i: nat): nat {
    if i < |l| then l[i] else 0
  }

  /** `head` and the `next` pointers spell out `l`, which ends in `None`. */
  ghost predicate Chain(head: nat, next: map<nat, nat>, l: seq<nat>) {
    && head == At(l, 0)
    && forall i :: 0 <= i < |l| ==> l[i] != 0 && l[i] in next && next[l[i]] == At(l, i + 1)
  }

  /** No node occurs twice, in one list or in two. */
  ghost predicate Separate(lists: FreeLists) {
    && ListsOk(lists)
    && forall o, o', x :: 0 <= o < MAX_ORDER && 0 <= o' < MAX_ORDER && x in lists[o] && x in lists[o'] ==> o == o'
  }

  ghost predicate Threads(heads: seq<nat>, next: map<nat, nat>, lists: FreeLists) {
    && |heads| == MAX_ORDER
    && Separate(lists)
    && forall o :: 0 <= o < MAX_ORDER ==> Chain(heads[o], next, lists[o])
  }

  lemma {:induction false} HeadAt(heads: seq<nat>, next: map<nat, nat>, lists: FreeLists, order: nat)
    requires Threads(heads, next, lists) && order < MAX_ORDER
    ensures |heads| == MAX_ORDER && heads[order] == At(lists[order], 0)
  {
    hide Separate;
    assert Chain(heads[order], next, lists[order]);
  }

  lemma {:induction false} NodeAt(heads: seq<nat>, next: map<nat, nat>, lists: FreeLists, order: nat, i: nat)
    requires Threads(heads, next, lists) && order < MAX_ORDER && i < |lists[order]|
    ensures lists[order][i] != 0 && lists[order][i] in next
    ensures next[lists[order][i]] == At(lists[order], i + 1)
  {
    hide Separate;
    assert Chain(heads[order], next, lists[order]);
  }

  lemma {:induction false} NodesNonNull(heads: seq<nat>, next: map<nat, nat>, lists: FreeLists, order: nat)
    requires Threads(heads, next, lists) && order < MAX_ORDER
    ensures forall i :: 0 <= i < |lists[order]| ==> lists[order][i] != 0
  {
    hide Separate;
    assert Chain(heads[order], next, lists[order]);
  }

  ghost predicate Unlisted(lists: FreeLists, x: nat) {
    forall o :: 0 <= o < MAX_ORDER ==> x !in lists[o]
  }

  /** Writing a node that is not on a list leaves the list alone. */
  lemma {:induction false} ChainFrame(head: nat, next: map<nat, nat>, l: seq<nat>, x: nat, v: nat)
    requires Chain(head, next, l) && x !in l
    ensures Chain(head, next[x := v], l)
  {
  }

  lemma {:induction false} ChainPush(head: nat, next: map<nat, nat>, l: seq<nat>, x: nat)
    requires Chain(head, next, l) && x !in l && x != 0
    ensures Chain(x, next[x := head], [x] + l)
  {
    ChainFrame(head, next, l, x, head);
    var m := [x] + l;
    forall i | 0 <= i < |m| ensures m[i] != 0 && m[i] in next[x := head] && next[x := head][m[i]] == At(m, i + 1) {
      if i > 0 { assert m[i] == l[i - 1]; }
    }
  }

  lemma {:induction false} ThreadsPush(heads: seq<nat>, next: map<nat, nat>, lists: FreeLists, order: nat, x: nat)
    requires Threads(heads, next, lists) && order < MAX_ORDER && x != 0 && Unlisted(lists, x)
    ensures Threads(heads[order := x], next[x := heads[order]], lists[order := [x] + lists[order]])
  {
    ChainPush(heads[order], next, lists[order], x);
    forall o | 0 <= o < MAX_ORDER && o != order ensures Chain(heads[o], next[x := heads[order]], lists[o]) {
      ChainFrame(heads[o], next, lists[o], x, heads[order]);
    }
    SeparatePush(lists, order, x);
  }

  lemma {:induction false} SeparatePush(lists: FreeLists, order: nat, x: nat)
    requires Separate(lists) && order < MAX_ORDER && Unlisted(lists, x)
    ensures Separate(lists[order := [x] + lists[order]])
  {
  }

  lemma {:induction false} SeparateRemove(lists: FreeLists, order: nat, x: nat)
    requires Separate(lists) && order < MAX_ORDER
    ensures Separate(lists[order := RemoveFirst(lists[order], x)])
  {
    RemoveFirstElements(lists[order], x);
  }

  lemma {:induction false} RemoveFirstAt(l: seq<nat>, i: nat)
    requires i < |l| && l[i] !in l[..i]
    ensures RemoveFirst(l, l[i]) == l[..i] + l[i + 1..]
  {
    if i > 0 {
      assert l[0] == l[..i][0];
      assert l[1..][..i - 1] == l[..i][1..];
      RemoveFirstAt(l[1..], i - 1);
      assert l[..i] + l[i + 1..] == [l[0]] + (l[1..][..i - 1] + l[1..][i..]);
    }
  }

  /** Unlinking the head: the list head takes over its `next` pointer. */
  lemma {:induction false} ChainBehead(head: nat, next: map<nat, nat>, l: seq<nat>)
    requires Chain(head, next, l) && l != []
    ensures Chain(next[l[0]], next, l[1..])
  {
    forall j | 0 <= j < |l[1..]|
      ensures l[1..][j] != 0 && l[1..][j] in next && next[l[1..][j]] == At(l[1..], j + 1)
    {
      assert l[1..][j] == l[j + 1];
    }
  }

  /** Unlinking a later node: the node before it takes over its `next` pointer. */
  lemma {:induction false} ChainUnlink(head: nat, next: map<nat, nat>, l: seq<nat>, i: nat)
    requires Chain(head, next, l) && NoDuplicates(l) && 0 < i < |l|
    ensures Chain(head, next[l[i - 1] := next[l[i]]], l[..i] + l[i + 1..])
  {
    hide NoDuplicates;
    var m, next' := l[..i] + l[i + 1..], next[l[i - 1] := next[l[i]]];
    forall j | 0 <= j < |m| ensures m[j] != 0 && m[j] in next' && next'[m[j]] == At(m, j + 1) {
      UnlinkNode(head, next, l, i, j);
    }
    UnlinkedHead(l, i);
  }

  lemma {:induction false} UnlinkedHead(l: seq<nat>, i: nat)
    requires 0 < i < |l|
    ensures At(l[..i] + l[i + 1..], 0) == At(l, 0)
  {
  }

  lemma {:induction false} UnlinkNode(head: nat, next: map<nat, nat>, l: seq<nat>, i: nat, j: nat)
    requires Chain(head, next, l) && NoDuplicates(l) && 0 < i < |l| && j < |l| - 1
    ensures l[i] in next
    ensures var m, next' := l[..i] + l[i + 1..], next[l[i - 1] := next[l[i]]];
            m[j] != 0 && m[j] in next' && next'[m[j]] == At(m, j + 1)
  {
    hide NoDuplicates, Chain, At;
    ChainAt(head, next, l, i);
    if j < i - 1 {
      ChainAt(head, next, l, j);
      Distinct(l, j, i - 1);
      UnlinkedBefore(l, i, j);
    } else if j == i - 1 {
      ChainAt(head, next, l, i - 1);
      UnlinkedThere(l, i);
    } else {
      ChainAt(head, next, l, j + 1);
      Distinct(l, i - 1, j + 1);
      UnlinkedAfter(l, i, j);
    }
  }

  lemma {:induction false} ChainAt(head: nat, next: map<nat, nat>, l: seq<nat>, k: nat)
    requires Chain(head, next, l) && k < |l|
    ensures l[k] != 0 && l[k] in next && next[l[k]] == At(l, k + 1)
  {
    hide At;
  }

  lemma {:induction false} Distinct(l: seq<nat>, a: nat, b: nat)
    requires NoDuplicates(l) && a < b < |l|
    ensures l[a] != l[b]
  {
  }

  /** The nodes before the cell that changes, the one with that cell, and those behind. */
  lemma {:induction false} UnlinkedBefore(l: seq<nat>, i: nat, j: nat)
    requires j + 1 < i < |l|
    ensures var m := l[..i] + l[i + 1..]; m[j] == l[j] && At(m, j + 1) == At(l, j + 1)
  {
  }

  lemma {:induction false} UnlinkedThere(l: seq<nat>, i: nat)
    requires 0 < i < |l|
    ensures var m := l[..i] + l[i + 1..]; m[i - 1] == l[i - 1] && At(m, i) == At(l, i + 1)
  {
  }

  lemma {:induction false} UnlinkedAfter(l: seq<nat>, i: nat, j: nat)
    requires 0 < i <= j < |l| - 1
    ensures var m := l[..i] + l[i + 1..]; m[j] == l[j + 1] && At(m, j + 1) == At(l, j + 2)
  {
  }

  lemma {:induction false} ThreadsUnlink(heads: seq<nat>, next: map<nat, nat>, lists: FreeLists, order: nat, i: nat)
    requires Threads(heads, next, lists) && order < MAX_ORDER && i < |lists[order]|
    ensures var l := lists[order];
            var x := l[i];
            var lists' := lists[order := RemoveFirst(l, x)];
            && x in next
            && (i == 0 ==> Threads(heads[order := next[x]], next, lists'))
            && (i > 0 ==> Threads(heads, next[l[i - 1] := next[x]], lists'))
  {
    hide Separate, RemoveFirst;
    var l := lists[order];
    SeparateNodes(lists, order, i);
    RemoveFirstAt(l, i);
    SeparateRemove(lists, order, l[i]);
    if i == 0 {
      ChainBehead(heads[order], next, l);
      assert l[..0] + l[1..] == l[1..];
    } else {
      ChainUnlink(heads[order], next, l, i);
      forall o | 0 <= o < MAX_ORDER && o != order
        ensures Chain(heads[o], next[l[i - 1] := next[l[i]]], lists[o])
      {
        SeparateOther(lists, order, i - 1, o);
        ChainFrame(heads[o], next, lists[o], l[i - 1], next[l[i]]);
      }
    }
  }

  lemma {:induction false} SeparateNodes(lists: FreeLists, order: nat, i: nat)
    requires Separate(lists) && order < MAX_ORDER && i < |lists[order]|
    ensures NoDuplicates(lists[order]) && lists[order][i] !in lists[order][..i]
  {
  }

  lemma {:induction false} SeparateOther(lists: FreeLists, order: nat, i: nat, o: nat)
    requires Separate(lists) && order < MAX_ORDER && i < |lists[order]| && o < MAX_ORDER && o != order
    ensures lists[order][i] !in lists[o]
  {
  }

  /** A tiling keeps the lists apart. */
  lemma {:induction false} TilesSeparate(s: State, live: set<Block>, region: set<int>)
    requires Tiles(s, live, region)
    ensures Separate(s.lists)
    ensures forall b :: b in live ==> Unlisted(s.lists, b.addr) && 0 < b.addr
  {
    hide Bytes, Disjoint;
    var all := FreeSet(s.lists) + live;
    forall o, o', x | 0 <= o < MAX_ORDER && 0 <= o' < MAX_ORDER && x in s.lists[o] && x in s.lists[o']
      ensures o == o'
    {
      assert Block(x, o) in all && Block(x, o') in all;
      SameAddressSameBlock(all, Block(x, o), Block(x, o'));
    }
    forall b | b in live ensures Unlisted(s.lists, b.addr) && 0 < b.addr {
      forall o | 0 <= o < MAX_ORDER ensures b.addr !in s.lists[o] {
        if b.addr in s.lists[o] {
          assert Block(b.addr, o) in all;
          SameAddressSameBlock(all, Block(b.addr, o), b);
          assert false;
        }
      }
      LiveInRegion(s, live, region, b);
    }
  }
}
