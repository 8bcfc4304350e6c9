/** The readers of the devicetree as objects over the byte buffer, each proved against the
    function of the remaining tokens that it computes. */
module FdtReader {
  import opened Bits
  import opened Wrappers
  import opened FdtTokens
  import opened FdtTree
  import opened FdtSearch

  /** A node handed to the caller: name, level, and the buffer after its begin token. */
  datatype View = View(name: seq<byte>, level: nat, children: seq<byte>)

  datatype Outcome<T> = Nothing | Reported(value: T) | Panicked

  class TokenIter {
    var buf: seq<byte>

    constructor (buf: seq<byte>)
      ensures this.buf == buf
    {
      this.buf := buf;
    }

    /** `next_u32`. */
    method NextU32() returns (r: Option<nat>)
      modifies this
      ensures r.None? <==> |old(buf)| < 4
      ensures r.None? ==> buf == old(buf)
      ensures r.Some? ==> r.value == ReadU32(old(buf)) && buf == old(buf)[4..]
    {
      if |buf| < 4 {
        return None;
      }
      r := Some(ReadU32(buf));
      buf := buf[4..];
    }

    /** `next`, with NOPs skipped in place. */
    method Next() returns (r: Next)
      requires |buf| + 4 <= WORD
      modifies this
      ensures r == NextToken(old(buf))
      ensures r.Got? ==> buf == r.rest
    {
      hide ReadU32, NulPosition, AlignUp4;
      while true
        invariant |buf| + 4 <= WORD && NextToken(buf) == NextToken(old(buf))
        decreases |buf|
      {
        var tag := NextU32();
        if tag.None? {
          return Stop;
        } else if tag.value == FDT_BEGIN_NODE {
          var n := NulPosition(buf);
          if n == |buf| {
            return Stop;
          }
          var name, len := buf[..n], AlignUp4(n + 1);
          if len > |buf| {
            return Panic;
          }
          buf := buf[len..];
          return Got(BeginNode(name), buf);
        } else if tag.value == FDT_PROP {
          var len := NextU32();
          if len.None? {
            return Stop;
          }
          var nameOff := NextU32();
          if nameOff.None? {
            return Stop;
          }
          if len.value > |buf| {
            return Panic;
          }
          var data, skip := buf[..len.value], AlignUp4(len.value);
          if skip > |buf| {
            return Panic;
          }
          buf := buf[skip..];
          return Got(Property(nameOff.value, data), buf);
        } else if tag.value == FDT_END_NODE {
          return Got(EndNode, buf);
        } else if tag.value != FDT_NOP {
          return Stop;
        }
      }
    }
  }

  /** The reader at a buffer that yields `toks` takes the first token off. */
  lemma {:induction false} YieldsStep(buf: seq<byte>, toks: seq<Token>)
    requires Yields(buf, toks)
    ensures |buf| + 4 <= WORD
    ensures toks == [] ==> NextToken(buf) == Stop
    ensures toks != [] ==> NextToken(buf).Got? && NextToken(buf).token == toks[0] && Yields(NextToken(buf).rest, toks[1..])
  {
    hide NextToken;
  }

  /** `Nodes`. */
  class Nodes {
    const iter: TokenIter
    var level: nat
    ghost var toks: seq<Token>

    ghost predicate Valid()
      reads this, iter
    {
      Yields(iter.buf, toks)
    }

    constructor (buf: seq<byte>, ghost toks: seq<Token>)
      requires Yields(buf, toks)
      ensures Valid() && fresh(iter) && this.toks == toks && level == 0
    {
      iter := new TokenIter(buf);
      level := 0;
      this.toks := toks;
    }

    /** `next`: takes the first node off the nodes still to be reported. */
    method Next() returns (r: Outcome<View>)
      requires Valid()
      modifies this, iter
      ensures r.Reported? ==> Valid() && Yields(r.value.children, toks)
      ensures r.Reported? ==> r.value.level < MAX_LEVEL
      ensures AllNodes(old(toks), old(level))
           == match r
              case Reported(v) => After([Seen(v.name, v.level, toks)], AllNodes(toks, level))
              case Nothing => Done
              case Panicked => Overflowed
    {
      hide NextToken, Yields;
      while true
        invariant Valid() && AllNodes(toks, level) == AllNodes(old(toks), old(level))
        decreases |toks|
      {
        YieldsStep(iter.buf, toks);
        var next := iter.Next();
        if !next.Got? {
          return Nothing;
        }
        toks := toks[1..];
        match next.token {
          case BeginNode(name) =>
            if level >= MAX_LEVEL {
              return Panicked;
            }
            level := level + 1;
            return Reported(View(name, level - 1, iter.buf));
          case EndNode =>
            if level == 0 {
              return Panicked;
            }
            level := level - 1;
          case Property(_, _) =>
        }
      }
    }
  }

  /** `Children`. */
  class Children {
    const iter: TokenIter
    const nodeLevel: nat
    var nesting: nat
    ghost var toks: seq<Token>

    ghost predicate Valid()
      reads this, iter
    {
      Yields(iter.buf, toks)
    }

    /** The children of a node at `level` whose body starts at `buf`. */
    constructor (buf: seq<byte>, level: nat, ghost toks: seq<Token>)
      requires Yields(buf, toks) && level < MAX_LEVEL
      ensures Valid() && fresh(iter) && this.toks == toks && nodeLevel == level && nesting == level + 1
    {
      iter := new TokenIter(buf);
      nodeLevel, nesting := level, level + 1;
      this.toks := toks;
    }

    method Next() returns (r: Outcome<View>)
      requires Valid()
      modifies this, iter
      ensures r.Reported? ==> Valid() && Yields(r.value.children, toks)
      ensures r.Reported? ==> r.value.level < MAX_LEVEL
      ensures AllChildren(old(toks), nodeLevel, old(nesting))
           == match r
              case Reported(v) => After([Seen(v.name, v.level, toks)], AllChildren(toks, nodeLevel, nesting))
              case Nothing => Done
              case Panicked => Overflowed
    {
      hide NextToken, Yields;
      while true
        invariant Valid() && AllChildren(toks, nodeLevel, nesting) == AllChildren(old(toks), nodeLevel, old(nesting))
        decreases |toks|
      {
        YieldsStep(iter.buf, toks);
        var next := iter.Next();
        if !next.Got? {
          return Nothing;
        }
        toks := toks[1..];
        match next.token {
          case BeginNode(name) =>
            if nesting >= MAX_LEVEL {
              return Panicked;
            }
            nesting := nesting + 1;
            if nesting - 1 == nodeLevel + 1 {
              return Reported(View(name, nesting - 1, iter.buf));
            }
          case EndNode =>
            if nesting == 0 {
              return Panicked;
            }
            nesting := nesting - 1;
            if nesting <= nodeLevel {
              return Nothing;
            }
          case Property(_, _) =>
        }
      }
    }
  }

  /** `Properties`; `strings` is the buffer from the start of the strings block on. */
  class Properties {
    const iter: TokenIter
    const strings: seq<byte>
    ghost var toks: seq<Token>

    ghost predicate Valid()
      reads this, iter
    {
      Yields(iter.buf, toks)
    }

    constructor (buf: seq<byte>, strings: seq<byte>, ghost toks: seq<Token>)
      requires Yields(buf, toks)
      ensures Valid() && fresh(iter) && this.toks == toks && this.strings == strings
    {
      iter := new TokenIter(buf);
      this.strings := strings;
      this.toks := toks;
    }

    method Next() returns (r: Option<Named>)
      requires Valid()
      modifies this, iter
      ensures r.Some? ==> Valid() && AllProps(old(toks), strings) == [r.value] + AllProps(toks, strings)
      ensures r.None? ==> AllProps(old(toks), strings) == []
    {
      hide NextToken, Yields, StringAt;
      YieldsStep(iter.buf, toks);
      var next := iter.Next();
      if !next.Got? {
        return None;
      }
      toks := toks[1..];
      match next.token {
        case Property(nameOff, data) =>
          var name := StringAt(strings, nameOff);
          if name.Missing? {
            return None;
          }
          return Some(Named(name.name, data));
        case BeginNode(_) => return None;
        case EndNode => return None;
      }
    }
  }

  /** The iterator of `find_nodes`. */
  class FindNodes {
    const iter: TokenIter
    var nesting: nat
    var looking: nat
    var parts: Path
    var lastPart: Path
    ghost var toks: seq<Token>

    ghost predicate Valid()
      reads this, iter
    {
      Yields(iter.buf, toks) && looking >= 1
    }

    /** The nodes still to be reported. */
    ghost function Pending(): Reading
      requires looking >= 1
      reads this
    {
      FindAll(toks, nesting, looking, parts, lastPart)
    }

    constructor (buf: seq<byte>, path: seq<byte>, ghost toks: seq<Token>)
      requires Yields(buf, toks)
      ensures Valid() && fresh(iter) && Pending() == FindAll(toks, 0, 1, SplitTerminator(path), [])
    {
      iter := new TokenIter(buf);
      nesting, looking := 0, 1;
      parts, lastPart := SplitTerminator(path), [];
      this.toks := toks;
    }

    method Next() returns (r: Outcome<View>)
      requires Valid()
      modifies this, iter
      ensures r.Reported? ==> Valid() && Yields(r.value.children, toks)
      ensures r.Reported? ==> r.value.level < MAX_LEVEL
      ensures old(Pending())
           == match r
              case Reported(v) => After([Seen(v.name, v.level, toks)], Pending())
              case Nothing => Done
              case Panicked => Overflowed
    {
      hide NextToken, Yields;
      while true
        invariant Valid() && Pending() == old(Pending())
        decreases |toks|
      {
        YieldsStep(iter.buf, toks);
        var next := iter.Next();
        if !next.Got? {
          return Nothing;
        }
        toks := toks[1..];
        match next.token {
          case BeginNode(name) =>
            if nesting >= MAX_LEVEL {
              return Panicked;
            }
            nesting := nesting + 1;
            if nesting == looking {
              var part := NextPart(parts, lastPart);
              if part == [] {
                return Nothing;
              }
              if StartsWith(name, part[0]) {
                if |parts| <= 1 {
                  parts, lastPart := [], [part[0]];
                  return Reported(View(name, nesting - 1, iter.buf));
                }
                if looking >= MAX_LEVEL {
                  return Panicked;
                }
                parts := parts[1..];
                looking := looking + 1;
              }
            }
          case EndNode =>
            if nesting == 0 {
              return Panicked;
            }
            nesting := nesting - 1;
            if nesting < looking - 1 {
              return Nothing;
            }
          case Property(_, _) =>
        }
      }
    }
  }

  /** `find_node` on a buffer: the search over its tokens. */
  method FindNode(buf: seq<byte>, path: seq<byte>, ghost toks: seq<Token>) returns (r: Outcome<View>)
    requires Yields(buf, toks)
    ensures match Find(toks, 0, 1, SplitTerminator(path))
            case Hit(node) => r.Reported? && ShowsNode(r.value, node)
            case Miss => r == Nothing
            case Overflow => r == Panicked
  {
    hide NextToken, Yields, SplitTerminator;
    var parts := SplitTerminator(path);
    var nesting, looking := 0, 1;
    var iter := new TokenIter(buf);
    ghost var left := toks;
    while true
      invariant Yields(iter.buf, left) && looking >= 1 && nesting >= 0
      invariant Find(left, nesting, looking, parts) == Find(toks, 0, 1, SplitTerminator(path))
      decreases |left|
    {
      YieldsStep(iter.buf, left);
      var next := iter.Next();
      if !next.Got? {
        return Nothing;
      }
      left := left[1..];
      match next.token {
        case BeginNode(name) =>
          if nesting >= MAX_LEVEL {
            return Panicked;
          }
          nesting := nesting + 1;
          if nesting == looking {
            if parts == [] {
              return Nothing;
            }
            if StartsWith(name, parts[0]) {
              if |parts| == 1 {
                return Reported(View(name, nesting - 1, iter.buf));
              }
              if looking >= MAX_LEVEL {
                return Panicked;
              }
              parts := parts[1..];
              looking := looking + 1;
            }
          }
        case EndNode =>
          if nesting == 0 {
            return Panicked;
          }
          nesting := nesting - 1;
          if nesting < looking - 1 {
            return Nothing;
          }
        case Property(_, _) =>
      }
    }
  }

  // ----- Whole trees, from their bytes -----

  /** `items` lay out the tokens of the tree, and the bytes fit the word. */
  ghost predicate Carries(items: seq<Item>, root: Node, tail: seq<byte>) {
    && TokensOf(items) == Flatten(root)
    && (forall i :: 0 <= i < |items| ==> WellFormedItem(items[i]))
    && |Encode(items)| + |tail| + 8 <= WORD
  }

  /** The structure block: the items, the end mark, and anything behind it. */
  function Bytes(items: seq<Item>, tail: seq<byte>): seq<byte>
    requires forall i :: 0 <= i < |items| ==> WellFormedItem(items[i])
  {
    Encode(items) + (Tag(9) + tail)
  }

  /** Below a node at `level` the tree goes deeper than the levels can count. */
  ghost predicate TooDeep(n: Node, level: nat) {
    level + Height(n) > 255
  }

  /** The views are these nodes, in order, each with a reader at what follows it. */
  ghost predicate Shows(views: seq<View>, seen: seq<Seen>) {
    |views| == |seen| && forall i :: 0 <= i < |views| ==> ShowsNode(views[i], seen[i])
  }

  ghost predicate ShowsNode(v: View, s: Seen) {
    v.name == s.name && v.level == s.level < MAX_LEVEL && Yields(v.children, s.rest)
  }

  lemma {:induction false} BytesYield(root: Node, items: seq<Item>, tail: seq<byte>)
    requires Carries(items, root, tail)
    ensures Yields(Bytes(items, tail), Flatten(root))
  {
    hide Yields, Flatten, Encode, TokensOf, Tag;
    TokenizerInvertsEncoding(items, tail);
  }

  /** One more node shown: what is left starts after it. */
  lemma {:induction false} OneShown(all: Reading, seen: seq<Seen>, s: Seen, rest: Reading)
    requires all == After(seen, After([s], rest))
    ensures all == After(seen + [s], rest)
  {
    AfterTwice(seen, [s], rest);
  }

  /** Everything that `nodes` reports on the encoding of a tree: its nodes in pre-order, with
      their true depths, and no panic, unless the tree has more than 255 levels. */
  method NodesOfTree(ghost root: Node, items: seq<Item>, tail: seq<byte>) returns (views: seq<View>, panicked: bool)
    requires Carries(items, root, tail)
    ensures panicked <==> TooDeep(root, 0)
    ensures !panicked ==> Shows(views, PreOrder(root, 0, []))
  {
    hide Yields, Flatten, AllNodes, PreOrder, Bytes, Height;
    BytesYield(root, items, tail);
    assert Flatten(root) + [] == Flatten(root);
    if TooDeep(root, 0) { NodesOverflow(root, 0, []); } else { TreeNodes(root); }
    var it := new Nodes(Bytes(items, tail), Flatten(root));
    ghost var all, seen := AllNodes(Flatten(root), 0), [];
    views := [];
    while true
      invariant it.Valid() && fresh(it) && fresh(it.iter)
      invariant all == After(seen, AllNodes(it.toks, it.level)) && Shows(views, seen)
      decreases |AllNodes(it.toks, it.level).nodes|
    {
      var r := it.Next();
      if !r.Reported? {
        return views, r.Panicked?;
      }
      ghost var s := Seen(r.value.name, r.value.level, it.toks);
      OneShown(all, seen, s, AllNodes(it.toks, it.level));
      views, seen := views + [r.value], seen + [s];
    }
  }

  /** Everything that `children` of a node reports: its direct children, in order. */
  method ChildrenOfNode(v: View, ghost n: Node, ghost after: seq<Token>) returns (views: seq<View>, panicked: bool)
    requires ShowsNode(v, Seen(n.name, v.level, Body(n) + after))
    ensures panicked <==> TooDeep(n, v.level)
    ensures !panicked ==> Shows(views, DirectChildren(n.children, v.level + 1, [EndNode] + after))
  {
    hide Yields, Body, AllChildren, DirectChildren, Height;
    if TooDeep(n, v.level) { ChildrenOverflow(n, after, v.level); } else { ChildrenAreDirect(n, after, v.level); }
    var it := new Children(v.children, v.level, Body(n) + after);
    ghost var all, seen := AllChildren(Body(n) + after, v.level, v.level + 1), [];
    views := [];
    while true
      invariant it.Valid() && fresh(it) && fresh(it.iter) && it.nodeLevel == v.level
      invariant all == After(seen, AllChildren(it.toks, it.nodeLevel, it.nesting)) && Shows(views, seen)
      decreases |AllChildren(it.toks, it.nodeLevel, it.nesting).nodes|
    {
      var r := it.Next();
      if !r.Reported? {
        return views, r.Panicked?;
      }
      ghost var s := Seen(r.value.name, r.value.level, it.toks);
      OneShown(all, seen, s, AllChildren(it.toks, it.nodeLevel, it.nesting));
      views, seen := views + [r.value], seen + [s];
    }
  }

  /** `prop`: the first property of the node with the given name, among those before the first
      one whose name is missing. */
  method FindProp(v: View, strings: seq<byte>, name: seq<byte>, ghost n: Node, ghost after: seq<Token>)
      returns (r: Option<Named>)
    requires Yields(v.children, Body(n) + after)
    ensures var props := NamedProps(n.props, strings);
            match r
            case None => forall i :: 0 <= i < |props| ==> props[i].name != name
            case Some(p) => p.name == name && exists i :: FirstNamed(props, name, i) && props[i] == p
  {
    hide Yields, Body, AllProps, NamedProps;
    PropsAreOwn(n, after, strings);
    var it := new Properties(v.children, strings, Body(n) + after);
    ghost var props, k := NamedProps(n.props, strings), 0;
    while true
      invariant it.Valid() && fresh(it) && fresh(it.iter) && it.strings == strings
      invariant k <= |props| && props[k..] == AllProps(it.toks, strings)
      invariant forall i :: 0 <= i < k ==> props[i].name != name
      decreases |props| - k
    {
      r := it.Next();
      if r.None? {
        return;
      }
      assert props[k..][0] == props[k] && props[k..][1..] == props[k + 1..];
      if r.value.name == name {
        assert FirstNamed(props, name, k);
        return;
      }
      k := k + 1;
    }
  }

  ghost predicate FirstNamed(props: seq<Named>, name: seq<byte>, i: int) {
    0 <= i < |props| && props[i].name == name && forall j :: 0 <= j < i ==> props[j].name != name
  }

  /** `find_node` on the encoding of a tree, with any NOPs and padding, is greedy descent; it
      panics exactly when the search comes past or into a level that overflows. */
  method FindInTree(ghost root: Node, items: seq<Item>, tail: seq<byte>, path: seq<byte>) returns (r: Outcome<View>)
    requires Carries(items, root, tail)
    ensures r.Panicked? <==> SearchOverflows([root], SplitTerminator(path), 0)
    ensures !r.Panicked? ==>
              match Descend([root], SplitTerminator(path), 0, [])
              case Hit(node) => r.Reported? && ShowsNode(r.value, node)
              case _ => r == Nothing
  {
    hide Find, Descend, Yields, SplitTerminator, Flatten, Bytes, SearchOverflows;
    BytesYield(root, items, tail);
    FindNodeIsGreedy(root, SplitTerminator(path));
    DescendIsTotal([root], SplitTerminator(path), 0, []);
    r := FindNode(Bytes(items, tail), path, Flatten(root));
  }

  /** Everything that `find_nodes` reports on the encoding of a tree: the siblings that match, in
      order; it panics exactly when a node that it visits goes too deep, and has then reported
      the first of them. */
  method FindAllInTree(ghost root: Node, items: seq<Item>, tail: seq<byte>, path: seq<byte>)
      returns (views: seq<View>, panicked: bool)
    requires Carries(items, root, tail)
    ensures panicked <==> AllOverflows([root], SplitTerminator(path), 0)
    ensures !panicked ==> Shows(views, DescendAll([root], SplitTerminator(path), 0, []))
    ensures panicked ==> |views| <= |DescendAll([root], SplitTerminator(path), 0, [])|
                         && Shows(views, DescendAll([root], SplitTerminator(path), 0, [])[..|views|])
  {
    hide Yields, Flatten, FindAll, DescendAll, SplitTerminator, Bytes, AllOverflows;
    BytesYield(root, items, tail);
    FindNodesAreSiblings(root, SplitTerminator(path));
    var it := new FindNodes(Bytes(items, tail), path, Flatten(root));
    ghost var all, seen := it.Pending(), [];
    views := [];
    while true
      invariant it.Valid() && fresh(it) && fresh(it.iter)
      invariant all == After(seen, it.Pending()) && Shows(views, seen)
      decreases |it.Pending().nodes|
    {
      var r := it.Next();
      if !r.Reported? {
        return views, r.Panicked?;
      }
      ghost var s := Seen(r.value.name, r.value.level, it.toks);
      OneShown(all, seen, s, it.Pending());
      views, seen := views + [r.value], seen + [s];
    }
  }
}
