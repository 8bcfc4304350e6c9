/** Devicetrees as trees, the token stream they flatten to, and the level-counting readers of
    that stream as functions of the tokens left to read. */
module FdtTree {
  import opened FdtTokens

  datatype Prop = Prop(nameOff: nat, data: seq<byte>)

  datatype Node = Node(name: seq<byte>, props: seq<Prop>, children: seq<Node>)

  function PropTokens(props: seq<Prop>): seq<Token> {
    if props == [] then [] else [Property(props[0].nameOff, props[0].data)] + PropTokens(props[1..])
  }

  /** What follows the begin token of a node: its properties, its children, its end. */
  function Body(n: Node): seq<Token>
    decreases n, 0
  {
    PropTokens(n.props) + (Forest(n.children) + [EndNode])
  }

  function Flatten(n: Node): seq<Token>
    decreases n, 1
  {
    [BeginNode(n.name)] + Body(n)
  }

  function Forest(ns: seq<Node>): seq<Token>
    decreases ns
  {
    if ns == [] then [] else Flatten(ns[0]) + Forest(ns[1..])
  }

  /** The number of levels below and including the nodes. */
  function Height(n: Node): nat
    decreases n, 0
  {
    1 + ForestHeight(n.children)
  }

  function ForestHeight(ns: seq<Node>): (h: nat)
    decreases ns
    ensures ns != [] ==> ForestHeight(ns[1..]) <= h
  {
    if ns == [] then 0
    else
      var a, b := Height(ns[0]), ForestHeight(ns[1..]);
      if a > b then a else b
  }

  /** A node as the readers report it: name, level, and the tokens after its begin token. */
  datatype Seen = Seen(name: seq<byte>, level: nat, rest: seq<Token>)

  const MAX_LEVEL: nat := 255

  /** A forest starts with the first node's begin token; its body and the other nodes follow. */
  lemma {:induction false} ForestSplit(ns: seq<Node>, after: seq<Token>)
    requires ns != []
    ensures Forest(ns) + after == [BeginNode(ns[0].name)] + (Body(ns[0]) + (Forest(ns[1..]) + after))
    ensures ForestHeight(ns[0].children) + 1 <= ForestHeight(ns) && ForestHeight(ns[1..]) <= ForestHeight(ns)
  {
    hide Body;
    assert Forest(ns) == [BeginNode(ns[0].name)] + Body(ns[0]) + Forest(ns[1..]);
  }

  lemma {:induction false} ForestEmpty(after: seq<Token>)
    ensures Forest([]) + after == after && ForestHeight([]) == 0
  {
  }

  lemma {:induction false} BodySplit(n: Node, after: seq<Token>)
    ensures Body(n) + after == PropTokens(n.props) + (Forest(n.children) + ([EndNode] + after))
  {
    hide Forest, PropTokens;
  }

  lemma {:induction false} PropsSplit(props: seq<Prop>, rest: seq<Token>)
    requires props != []
    ensures PropTokens(props) + rest
         == [Property(props[0].nameOff, props[0].data)] + (PropTokens(props[1..]) + rest)
  {
  }

  lemma {:induction false} PropsEmpty(rest: seq<Token>)
    ensures PropTokens([]) + rest == rest
  {
  }

  lemma {:induction false} HeadTail<T>(x: T, s: seq<T>)
    ensures ([x] + s)[0] == x && ([x] + s)[1..] == s
  {
  }

  /** What a reader reports from here on, and whether it ends by a panic: levels are `u8`, and
      overflow checks are on. */
  datatype Reading = Reading(nodes: seq<Seen>, overflows: bool)

  const Done: Reading := Reading([], false)
  const Overflowed: Reading := Reading([], true)

  function After(nodes: seq<Seen>, r: Reading): Reading {
    Reading(nodes + r.nodes, r.overflows)
  }

  // ----- Nodes -----

  /** All the nodes that `Nodes` reports from here on. */
  function AllNodes(toks: seq<Token>, level: nat): Reading
    decreases |toks|
  {
    if toks == [] then Done
    else
      var rest := toks[1..];
      match toks[0]
      case BeginNode(name) =>
        if level >= MAX_LEVEL then Overflowed else After([Seen(name, level, rest)], AllNodes(rest, level + 1))
      case EndNode => if level == 0 then Overflowed else AllNodes(rest, level - 1)
      case Property(_, _) => AllNodes(rest, level)
  }

  /** The nodes of a tree in pre-order, with their depths and what follows them. */
  function PreOrder(n: Node, level: nat, after: seq<Token>): seq<Seen>
    decreases n, 1
  {
    [Seen(n.name, level, Body(n) + after)] + PreOrderForest(n.children, level + 1, [EndNode] + after)
  }

  function PreOrderForest(ns: seq<Node>, level: nat, after: seq<Token>): seq<Seen>
    decreases ns
  {
    if ns == [] then []
    else PreOrder(ns[0], level, Forest(ns[1..]) + after) + PreOrderForest(ns[1..], level, after)
  }

  lemma {:induction false} PropsSkipped(props: seq<Prop>, rest: seq<Token>, level: nat)
    ensures AllNodes(PropTokens(props) + rest, level) == AllNodes(rest, level)
    decreases |props|
  {
    hide PropTokens;
    if props == [] {
      PropsEmpty(rest);
    } else {
      PropsSplit(props, rest);
      HeadTail(Property(props[0].nameOff, props[0].data), PropTokens(props[1..]) + rest);
      PropsSkipped(props[1..], rest, level);
    }
  }

  /** `Nodes` reports exactly the nodes of the tree, in pre-order, with their true depths. */
  lemma {:induction false} NodesArePreOrder(n: Node, level: nat, after: seq<Token>)
    requires level + Height(n) <= MAX_LEVEL
    ensures AllNodes(Flatten(n) + after, level) == After(PreOrder(n, level, after), AllNodes(after, level))
    decreases n, 1
  {
    hide Body, Forest, PropTokens, ForestHeight;
    var inner := [EndNode] + after;
    assert Flatten(n) + after == [BeginNode(n.name)] + (Body(n) + after);
    HeadTail(BeginNode(n.name), Body(n) + after);
    BodySplit(n, after);
    PropsSkipped(n.props, Forest(n.children) + inner, level + 1);
    ForestArePreOrder(n.children, level + 1, inner);
    HeadTail(EndNode, after);
    var head, tail := [Seen(n.name, level, Body(n) + after)], PreOrderForest(n.children, level + 1, inner);
    AfterTwice(head, tail, AllNodes(after, level));
  }

  lemma {:induction false} ForestArePreOrder(ns: seq<Node>, level: nat, after: seq<Token>)
    requires level + ForestHeight(ns) <= MAX_LEVEL
    ensures AllNodes(Forest(ns) + after, level) == After(PreOrderForest(ns, level, after), AllNodes(after, level))
    decreases ns
  {
    if ns == [] {
      ForestEmpty(after);
    } else {
      var rest := Forest(ns[1..]) + after;
      assert Forest(ns) + after == Flatten(ns[0]) + rest;
      NodesArePreOrder(ns[0], level, rest);
      ForestArePreOrder(ns[1..], level, after);
      AfterTwice(PreOrder(ns[0], level, rest), PreOrderForest(ns[1..], level, after), AllNodes(after, level));
    }
  }

  lemma {:induction false} AfterTwice(xs: seq<Seen>, ys: seq<Seen>, r: Reading)
    ensures After(xs, After(ys, r)) == After(xs + ys, r)
  {
    assert xs + (ys + r.nodes) == (xs + ys) + r.nodes;
  }

  /** The nodes of a whole tree: all of them, in pre-order, and then the end, not a panic. */
  lemma {:induction false} TreeNodes(root: Node)
    requires Height(root) <= MAX_LEVEL
    ensures AllNodes(Flatten(root), 0) == Reading(PreOrder(root, 0, []), false)
  {
    hide Flatten, PreOrder, Height;
    assert Flatten(root) + [] == Flatten(root);
    NodesArePreOrder(root, 0, []);
  }

  /** Exactly the trees of more than 255 levels make `Nodes` panic. */
  lemma {:induction false} NodesOverflow(n: Node, level: nat, after: seq<Token>)
    requires level <= MAX_LEVEL < level + Height(n)
    ensures AllNodes(Flatten(n) + after, level).overflows
    decreases n, 1
  {
    hide Body, Forest, PropTokens, ForestHeight;
    var inner := [EndNode] + after;
    assert Flatten(n) + after == [BeginNode(n.name)] + (Body(n) + after);
    HeadTail(BeginNode(n.name), Body(n) + after);
    if level < MAX_LEVEL {
      BodySplit(n, after);
      PropsSkipped(n.props, Forest(n.children) + inner, level + 1);
      ForestOverflows(n.children, level + 1, inner);
    }
  }

  lemma {:induction false} ForestOverflows(ns: seq<Node>, level: nat, after: seq<Token>)
    requires level <= MAX_LEVEL < level + ForestHeight(ns)
    ensures AllNodes(Forest(ns) + after, level).overflows
    decreases ns
  {
    var rest := Forest(ns[1..]) + after;
    assert Forest(ns) + after == Flatten(ns[0]) + rest;
    if level + Height(ns[0]) > MAX_LEVEL {
      NodesOverflow(ns[0], level, rest);
    } else {
      NodesArePreOrder(ns[0], level, rest);
      ForestOverflows(ns[1..], level, after);
    }
  }

  // ----- Children -----

  /** All the children that `Children` reports from here on. */
  function AllChildren(toks: seq<Token>, nodeLevel: nat, nesting: nat): Reading
    decreases |toks|
  {
    if toks == [] then Done
    else
      var rest := toks[1..];
      match toks[0]
      case BeginNode(name) =>
        if nesting >= MAX_LEVEL then Overflowed
        else After(if nesting == nodeLevel + 1 then [Seen(name, nesting, rest)] else [],
                   AllChildren(rest, nodeLevel, nesting + 1))
      case EndNode =>
        if nesting == 0 then Overflowed
        else if nesting - 1 <= nodeLevel then Done
        else AllChildren(rest, nodeLevel, nesting - 1)
      case Property(_, _) => AllChildren(rest, nodeLevel, nesting)
  }

  /** The direct children of a node, in order. */
  function DirectChildren(ns: seq<Node>, level: nat, after: seq<Token>): (r: seq<Seen>)
    ensures |r| == |ns|
    decreases |ns|
  {
    if ns == [] then []
    else [Seen(ns[0].name, level, Body(ns[0]) + (Forest(ns[1..]) + after))] + DirectChildren(ns[1..], level, after)
  }

  lemma {:induction false} ChildPropsSkipped(props: seq<Prop>, rest: seq<Token>, nodeLevel: nat, nesting: nat)
    ensures AllChildren(PropTokens(props) + rest, nodeLevel, nesting) == AllChildren(rest, nodeLevel, nesting)
    decreases |props|
  {
    hide PropTokens;
    if props == [] {
      PropsEmpty(rest);
    } else {
      PropsSplit(props, rest);
      HeadTail(Property(props[0].nameOff, props[0].data), PropTokens(props[1..]) + rest);
      ChildPropsSkipped(props[1..], rest, nodeLevel, nesting);
    }
  }

  /** Below the children, `Children` reports nothing and comes back to the same level. */
  lemma {:induction false} InsideChildSkipped(n: Node, after: seq<Token>, nodeLevel: nat, nesting: nat)
    requires nesting > nodeLevel && nesting + ForestHeight(n.children) + 1 <= MAX_LEVEL
    ensures AllChildren(Body(n) + after, nodeLevel, nesting + 1) == AllChildren(after, nodeLevel, nesting)
    decreases n, 0
  {
    hide Body, Forest, PropTokens, ForestHeight;
    var inner := [EndNode] + after;
    BodySplit(n, after);
    ChildPropsSkipped(n.props, Forest(n.children) + inner, nodeLevel, nesting + 1);
    GrandchildrenSkipped(n.children, inner, nodeLevel, nesting + 1);
    HeadTail(EndNode, after);
  }

  lemma {:induction false} GrandchildrenSkipped(ns: seq<Node>, after: seq<Token>, nodeLevel: nat, nesting: nat)
    requires nesting > nodeLevel + 1 && nesting + ForestHeight(ns) <= MAX_LEVEL
    ensures AllChildren(Forest(ns) + after, nodeLevel, nesting) == AllChildren(after, nodeLevel, nesting)
    decreases ns
  {
    hide Forest, Body, ForestHeight;
    if ns == [] {
      ForestEmpty(after);
    } else {
      ForestSplit(ns, after);
      HeadTail(BeginNode(ns[0].name), Body(ns[0]) + (Forest(ns[1..]) + after));
      InsideChildSkipped(ns[0], Forest(ns[1..]) + after, nodeLevel, nesting);
      GrandchildrenSkipped(ns[1..], after, nodeLevel, nesting);
    }
  }

  lemma {:induction false} SiblingsReported(ns: seq<Node>, after: seq<Token>, nodeLevel: nat)
    requires nodeLevel + 1 + ForestHeight(ns) <= MAX_LEVEL
    ensures AllChildren(Forest(ns) + ([EndNode] + after), nodeLevel, nodeLevel + 1)
         == Reading(DirectChildren(ns, nodeLevel + 1, [EndNode] + after), false)
    decreases ns
  {
    hide Forest, Body, ForestHeight;
    var inner := [EndNode] + after;
    if ns == [] {
      ForestEmpty(inner);
      HeadTail(EndNode, after);
    } else {
      ForestSplit(ns, inner);
      HeadTail(BeginNode(ns[0].name), Body(ns[0]) + (Forest(ns[1..]) + inner));
      InsideChildSkipped(ns[0], Forest(ns[1..]) + inner, nodeLevel, nodeLevel + 1);
      SiblingsReported(ns[1..], after, nodeLevel);
    }
  }

  /** `Children` of a node reports exactly its direct children, in order, and stops at the
      node's own end, whatever follows, without a panic. */
  lemma {:induction false} ChildrenAreDirect(n: Node, after: seq<Token>, level: nat)
    requires level + Height(n) <= MAX_LEVEL
    ensures AllChildren(Body(n) + after, level, level + 1)
         == Reading(DirectChildren(n.children, level + 1, [EndNode] + after), false)
  {
    hide Body, Forest, PropTokens, ForestHeight;
    BodySplit(n, after);
    ChildPropsSkipped(n.props, Forest(n.children) + ([EndNode] + after), level, level + 1);
    SiblingsReported(n.children, after, level);
  }

  /** Exactly where the tree below goes deeper than level 255 does `Children` panic. */
  lemma {:induction false} ChildrenOverflow(n: Node, after: seq<Token>, level: nat)
    requires level < MAX_LEVEL < level + Height(n)
    ensures AllChildren(Body(n) + after, level, level + 1).overflows
  {
    hide Body, Forest, PropTokens, ForestHeight;
    BodySplit(n, after);
    ChildPropsSkipped(n.props, Forest(n.children) + ([EndNode] + after), level, level + 1);
    DeepChildOverflows(n.children, [EndNode] + after, level, level + 1);
  }

  lemma {:induction false} DeepChildOverflows(ns: seq<Node>, after: seq<Token>, nodeLevel: nat, nesting: nat)
    requires nodeLevel < nesting <= MAX_LEVEL < nesting + ForestHeight(ns)
    ensures AllChildren(Forest(ns) + after, nodeLevel, nesting).overflows
    decreases ns
  {
    hide Forest, Body;
    var rest := Forest(ns[1..]) + after;
    ForestSplit(ns, after);
    HeadTail(BeginNode(ns[0].name), Body(ns[0]) + rest);
    if nesting < MAX_LEVEL {
      if nesting + Height(ns[0]) > MAX_LEVEL {
        InsideChildOverflows(ns[0], rest, nodeLevel, nesting + 1);
      } else {
        InsideChildSkipped(ns[0], rest, nodeLevel, nesting);
        DeepChildOverflows(ns[1..], after, nodeLevel, nesting);
      }
    }
  }

  lemma {:induction false} InsideChildOverflows(n: Node, after: seq<Token>, nodeLevel: nat, nesting: nat)
    requires nodeLevel < nesting <= MAX_LEVEL < nesting + ForestHeight(n.children)
    ensures AllChildren(Body(n) + after, nodeLevel, nesting).overflows
    decreases n, 0
  {
    hide Body, Forest, PropTokens, ForestHeight;
    BodySplit(n, after);
    ChildPropsSkipped(n.props, Forest(n.children) + ([EndNode] + after), nodeLevel, nesting);
    DeepChildOverflows(n.children, [EndNode] + after, nodeLevel, nesting);
  }

  // ----- Properties -----

  /** A property with its name from the strings block. */
  datatype Named = Named(name: seq<byte>, data: seq<byte>)

  datatype Lookup = Missing | Name(name: seq<byte>)

  /** `string_at`: the bytes from the offset to the next NUL, if there is one. */
  function StringAt(strings: seq<byte>, offset: nat): Lookup {
    if offset > |strings| then Missing
    else
      var rest := strings[offset..];
      var n := NulPosition(rest);
      if n == |rest| then Missing else Name(rest[..n])
  }

  /** The name is the bytes at the offset, up to a NUL that follows them; it is missing exactly
      when there is no NUL from the offset on. */
  lemma {:induction false} StringAtMeans(strings: seq<byte>, offset: nat)
    ensures match StringAt(strings, offset)
            case Name(n) =>
              && offset + |n| < |strings| && n == strings[offset..offset + |n|] && 0 !in n
              && strings[offset + |n|] == 0
            case Missing => forall i :: offset <= i < |strings| ==> strings[i] != 0
  {
    if offset <= |strings| {
      var rest := strings[offset..];
      assert forall i :: offset <= i < |strings| ==> strings[i] == rest[i - offset];
    }
  }

  /** All the properties that `Properties` reports from here on. A name that cannot be looked up
      ends the sequence. */
  function AllProps(toks: seq<Token>, strings: seq<byte>): seq<Named>
    decreases |toks|
  {
    if toks == [] then []
    else
      match toks[0]
      case Property(nameOff, data) =>
        var name := StringAt(strings, nameOff);
        if name.Missing? then [] else [Named(name.name, data)] + AllProps(toks[1..], strings)
      case _ => []
  }

  /** The properties before the first one whose name is missing. */
  function NamedProps(props: seq<Prop>, strings: seq<byte>): (r: seq<Named>)
    ensures |r| <= |props|
    ensures |r| < |props| ==> StringAt(strings, props[|r|].nameOff).Missing?
    ensures forall i :: 0 <= i < |r| ==>
              StringAt(strings, props[i].nameOff) == Name(r[i].name) && r[i].data == props[i].data
  {
    if props == [] then []
    else
      var name := StringAt(strings, props[0].nameOff);
      if name.Missing? then [] else [Named(name.name, props[0].data)] + NamedProps(props[1..], strings)
  }

  /** `props` of a node reports exactly the node's own properties, up to the first one whose
      name is not in the strings block. */
  lemma {:induction false} PropsAreOwn(n: Node, after: seq<Token>, strings: seq<byte>)
    ensures AllProps(Body(n) + after, strings) == NamedProps(n.props, strings)
  {
    hide Forest, Body, NamedProps;
    var inner := [EndNode] + after;
    BodySplit(n, after);
    if n.children == [] { ForestEmpty(inner); } else { ForestSplit(n.children, inner); }
    OwnPropsThenStop(n.props, Forest(n.children) + inner, strings);
  }

  lemma {:induction false} OwnPropsThenStop(props: seq<Prop>, rest: seq<Token>, strings: seq<byte>)
    requires rest != [] && !rest[0].Property?
    ensures AllProps(PropTokens(props) + rest, strings) == NamedProps(props, strings)
    decreases |props|
  {
    hide PropTokens, StringAt;
    if props == [] {
      PropsEmpty(rest);
    } else {
      PropsSplit(props, rest);
      HeadTail(Property(props[0].nameOff, props[0].data), PropTokens(props[1..]) + rest);
      OwnPropsThenStop(props[1..], rest, strings);
    }
  }
}
