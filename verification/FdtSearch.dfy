/** Path search over the flat token stream: `find_node` and `find_nodes` as functions of the
    tokens left to read, and the greedy descent of the tree that they compute. */
module FdtSearch {
  import opened FdtTokens
  import opened FdtTree

  type Path = seq<seq<byte>>

  datatype Search = Hit(node: Seen) | Miss | Overflow

  /** `starts_with`. */
  predicate StartsWith(name: seq<byte>, part: seq<byte>) {
    part <= name
  }

  /** The name is at least as long as the part, and begins with its bytes. */
  lemma {:induction false} StartsWithMeans(name: seq<byte>, part: seq<byte>)
    ensures StartsWith(name, part) <==> |part| <= |name| && forall i :: 0 <= i < |part| ==> name[i] == part[i]
  {
  }

  /** `str::split_terminator('/')`: the parts between slashes, without a last empty one. */
  function SplitTerminator(path: seq<byte>): Path {
    var parts := Split(path, []);
    if parts[|parts| - 1] == [] then parts[..|parts| - 1] else parts
  }

  function Split(path: seq<byte>, part: seq<byte>): (r: Path)
    ensures r != []
    decreases |path|
  {
    if path == [] then [part]
    else if path[0] == 47 then [part] + Split(path[1..], [])
    else Split(path[1..], part + [path[0]])
  }

  /** The parts with a slash between any two of them. */
  function WithSlashes(parts: Path): seq<byte>
    requires parts != []
  {
    if |parts| == 1 then parts[0] else parts[0] + ([47] + WithSlashes(parts[1..]))
  }

  predicate NoSlash(parts: Path) {
    forall i :: 0 <= i < |parts| ==> 47 !in parts[i]
  }

  lemma {:induction false} SplitMeans(path: seq<byte>, part: seq<byte>)
    requires 47 !in part
    ensures NoSlash(Split(path, part)) && WithSlashes(Split(path, part)) == part + path
    decreases |path|
  {
    if path != [] {
      assert path == [path[0]] + path[1..];
      if path[0] == 47 {
        SplitMeans(path[1..], []);
        var rest := Split(path[1..], []);
        assert ([part] + rest)[1..] == rest;
        assert part + ([47] + ([] + path[1..])) == part + path;
      } else {
        SplitMeans(path[1..], part + [path[0]]);
        assert part + [path[0]] + path[1..] == part + path;
      }
    }
  }

  lemma {:induction false} DropLastPart(parts: Path)
    requires |parts| > 1
    ensures WithSlashes(parts) == WithSlashes(parts[..|parts| - 1]) + ([47] + parts[|parts| - 1])
    decreases |parts|
  {
    var n := |parts| - 1;
    if n > 1 {
      DropLastPart(parts[1..]);
      assert parts[1..][..n - 1] == parts[..n][1..] && parts[1..][n - 1] == parts[n];
      var front := WithSlashes(parts[1..][..n - 1]);
      assert parts[0] + ([47] + (front + ([47] + parts[n]))) == (parts[0] + ([47] + front)) + ([47] + parts[n]);
    } else {
      assert parts[1..] == [parts[1]] && parts[..1] == [parts[0]];
    }
  }

  /** No part has a slash in it, and with slashes between them the parts are the path again, but
      for one slash at its end; only the empty path has no part. */
  lemma {:induction false} SplitTerminatorMeans(path: seq<byte>)
    ensures var parts := SplitTerminator(path);
            && NoSlash(parts) && (parts == [] <==> path == [])
            && (path != [] ==> path == WithSlashes(parts) + (if path[|path| - 1] == 47 then [47] else []))
  {
    hide Split, WithSlashes;
    SplitMeans(path, []);
    var all := Split(path, []);
    var n := |all| - 1;
    assert [] + path == path;
    if n == 0 {
      OnePart(all);
      assert path == all[0];
    } else {
      DropLastPart(all);
      EndsWith(WithSlashes(all[..n]), all[n]);
    }
  }

  lemma {:induction false} OnePart(parts: Path)
    requires |parts| == 1
    ensures WithSlashes(parts) == parts[0]
  {
  }

  lemma {:induction false} EndsWith(front: seq<byte>, last: seq<byte>)
    requires 47 !in last
    ensures var s := front + ([47] + last); s[|s| - 1] == 47 <==> last == []
    ensures front + ([47] + []) == front + [47]
  {
    var s := front + ([47] + last);
    if last != [] { assert s[|s| - 1] == last[|last| - 1]; }
  }

  /** These two properties leave no other choice of parts. */
  lemma {:induction false} PartsUnique(a: Path, b: Path)
    requires a != [] && b != [] && NoSlash(a) && NoSlash(b) && WithSlashes(a) == WithSlashes(b)
    ensures a == b
    decreases |a|
  {
    FirstSlash(a);
    FirstSlash(b);
    var s := WithSlashes(a);
    assert forall i :: 0 <= i < |a[0]| ==> s[i] == a[0][i] && s[i] != 47;
    assert forall i :: 0 <= i < |b[0]| ==> s[i] == b[0][i] && s[i] != 47;
    assert |a[0]| == |b[0]|;
    assert a[0] == s[..|a[0]|] == b[0];
    if |a| > 1 && |b| > 1 {
      assert WithSlashes(a[1..]) == s[|a[0]| + 1..] == WithSlashes(b[1..]);
      PartsUnique(a[1..], b[1..]);
      assert a == [a[0]] + a[1..] && b == [b[0]] + b[1..];
    }
  }

  /** The first part reaches to the first slash, or to the end. */
  lemma {:induction false} FirstSlash(parts: Path)
    requires parts != [] && NoSlash(parts)
    ensures var s := WithSlashes(parts);
            && parts[0] <= s && (|parts| == 1 ==> s == parts[0])
            && (|parts| > 1 ==> |parts[0]| < |s| && s[|parts[0]|] == 47 && s[|parts[0]| + 1..] == WithSlashes(parts[1..]))
  {
  }

  /** The loop of `find_node`: `nesting` is the level of the reader, `looking` the level in
      which it compares names, `path` the parts still to match. */
  function Find(toks: seq<Token>, nesting: nat, looking: nat, path: Path): Search
    requires looking >= 1
    decreases |toks|
  {
    if toks == [] then Miss
    else
      var rest := toks[1..];
      match toks[0]
      case BeginNode(name) =>
        if nesting >= MAX_LEVEL then Overflow
        else if nesting + 1 != looking then Find(rest, nesting + 1, looking, path)
        else if path == [] then Miss
        else if !StartsWith(name, path[0]) then Find(rest, nesting + 1, looking, path)
        else if |path| == 1 then Hit(Seen(name, nesting, rest))
        else if looking >= MAX_LEVEL then Overflow
        else Find(rest, nesting + 1, looking + 1, path[1..])
      case EndNode =>
        if nesting == 0 then Overflow
        else if nesting - 1 < looking - 1 then Miss
        else Find(rest, nesting - 1, looking, path)
      case Property(_, _) => Find(rest, nesting, looking, path)
  }

  // ----- The tree search it computes -----

  /** Greedy descent: at every level the first node whose name starts with the component, and
      no way back from it. The result says where it stands in the stream. */
  function Descend(ns: seq<Node>, path: Path, level: nat, after: seq<Token>): Search
    decreases |path|, |ns|
  {
    if path == [] || ns == [] then Miss
    else if !StartsWith(ns[0].name, path[0]) then Descend(ns[1..], path, level, after)
    else
      var rest := Forest(ns[1..]) + after;
      if |path| == 1 then Hit(Seen(ns[0].name, level, Body(ns[0]) + rest))
      else Descend(ns[0].children, path[1..], level + 1, [EndNode] + rest)
  }

  // ----- The stream search is the tree search -----

  /** What may follow a forest at `level`: nothing, or the end of its parent. */
  predicate Closed(after: seq<Token>, level: nat) {
    if level == 0 then after == [] else after != [] && after[0] == EndNode
  }

  lemma {:induction false} FindSkipsProps(props: seq<Prop>, rest: seq<Token>, nesting: nat, looking: nat, path: Path)
    requires looking >= 1
    ensures Find(PropTokens(props) + rest, nesting, looking, path) == Find(rest, nesting, looking, path)
    decreases |props|
  {
    hide PropTokens;
    if props == [] {
      PropsEmpty(rest);
    } else {
      PropsSplit(props, rest);
      HeadTail(Property(props[0].nameOff, props[0].data), PropTokens(props[1..]) + rest);
      FindSkipsProps(props[1..], rest, nesting, looking, path);
    }
  }

  /** Nodes below the level being compared are passed over. */
  lemma {:induction false} FindSkipsBody(n: Node, after: seq<Token>, nesting: nat, looking: nat, path: Path)
    requires 1 <= looking <= nesting + 1 && nesting + 1 + ForestHeight(n.children) <= MAX_LEVEL
    ensures Find(Body(n) + after, nesting + 1, looking, path) == Find(after, nesting, looking, path)
    decreases n, 0
  {
    hide Body, Forest, ForestHeight, PropTokens;
    var inner := [EndNode] + after;
    BodySplit(n, after);
    FindSkipsProps(n.props, Forest(n.children) + inner, nesting + 1, looking, path);
    FindSkipsForest(n.children, inner, nesting + 1, looking, path);
    HeadTail(EndNode, after);
  }

  lemma {:induction false} FindSkipsForest(ns: seq<Node>, after: seq<Token>, nesting: nat, looking: nat, path: Path)
    requires 1 <= looking <= nesting && nesting + ForestHeight(ns) <= MAX_LEVEL
    ensures Find(Forest(ns) + after, nesting, looking, path) == Find(after, nesting, looking, path)
    decreases ns
  {
    hide Body, Forest, ForestHeight;
    if ns == [] {
      ForestEmpty(after);
    } else {
      ForestSplit(ns, after);
      HeadTail(BeginNode(ns[0].name), Body(ns[0]) + (Forest(ns[1..]) + after));
      FindSkipsBody(ns[0], Forest(ns[1..]) + after, nesting, looking, path);
      FindSkipsForest(ns[1..], after, nesting, looking, path);
    }
  }

  /** Below a node that is passed over, a tree that goes too deep overflows the level. */
  lemma {:induction false} FindOverflowsInBody(n: Node, after: seq<Token>, nesting: nat, looking: nat, path: Path)
    requires 1 <= looking <= nesting + 1 && nesting < MAX_LEVEL < nesting + 1 + ForestHeight(n.children)
    ensures Find(Body(n) + after, nesting + 1, looking, path) == Search.Overflow
    decreases n, 0
  {
    hide Body, Forest, ForestHeight, PropTokens;
    var inner := [EndNode] + after;
    BodySplit(n, after);
    FindSkipsProps(n.props, Forest(n.children) + inner, nesting + 1, looking, path);
    FindOverflowsInForest(n.children, inner, nesting + 1, looking, path);
  }

  lemma {:induction false} FindOverflowsInForest(ns: seq<Node>, after: seq<Token>, nesting: nat, looking: nat, path: Path)
    requires 1 <= looking <= nesting <= MAX_LEVEL < nesting + ForestHeight(ns)
    ensures Find(Forest(ns) + after, nesting, looking, path) == Search.Overflow
    decreases ns
  {
    hide Body, Forest;
    var rest := Forest(ns[1..]) + after;
    ForestSplit(ns, after);
    HeadTail(BeginNode(ns[0].name), Body(ns[0]) + rest);
    if nesting < MAX_LEVEL {
      if nesting + Height(ns[0]) > MAX_LEVEL {
        FindOverflowsInBody(ns[0], rest, nesting, looking, path);
      } else {
        FindSkipsBody(ns[0], rest, nesting, looking, path);
        FindOverflowsInForest(ns[1..], after, nesting, looking, path);
      }
    }
  }

  /** The search comes past a node that goes deeper than the levels can count, or goes down
      there itself. */
  predicate SearchOverflows(ns: seq<Node>, path: Path, level: nat)
    decreases |path|, |ns|
  {
    path != [] && ns != [] &&
    (level >= 255 ||
     if !StartsWith(ns[0].name, path[0]) then level + Height(ns[0]) > 255 || SearchOverflows(ns[1..], path, level)
     else |path| > 1 && (level + 1 >= 255 || SearchOverflows(ns[0].children, path[1..], level + 1)))
  }

  /** One node at the level being compared: pass over it, report it, or go into it. */
  lemma {:induction false} FindAtNode(n: Node, rest: seq<Token>, level: nat, path: Path)
    requires path != []
    ensures Find([BeginNode(n.name)] + (Body(n) + rest), level, level + 1, path)
         == if level >= MAX_LEVEL then Search.Overflow
            else if !StartsWith(n.name, path[0]) then
              (if level + Height(n) > MAX_LEVEL then Search.Overflow else Find(rest, level, level + 1, path))
            else if |path| == 1 then Hit(Seen(n.name, level, Body(n) + rest))
            else if level + 1 >= MAX_LEVEL then Search.Overflow
            else Find(Forest(n.children) + ([EndNode] + rest), level + 1, level + 2, path[1..])
  {
    hide Body, Forest, ForestHeight, StartsWith, PropTokens;
    HeadTail(BeginNode(n.name), Body(n) + rest);
    if level < MAX_LEVEL {
      if !StartsWith(n.name, path[0]) {
        if level + Height(n) > MAX_LEVEL {
          FindOverflowsInBody(n, rest, level, level + 1, path);
        } else {
          FindSkipsBody(n, rest, level, level + 1, path);
        }
      } else if |path| > 1 {
        BodySplit(n, rest);
        FindSkipsProps(n.props, Forest(n.children) + ([EndNode] + rest), level + 1, level + 2, path[1..]);
      }
    }
  }

  lemma {:induction false} FindEndsHere(after: seq<Token>, level: nat, path: Path)
    requires Closed(after, level)
    ensures Find(Forest([]) + after, level, level + 1, path) == Miss
  {
    ForestEmpty(after);
  }

  /** Searching a forest that is closed behind is greedy descent, unless a level overflows. */
  lemma {:induction false} FindIsDescend(ns: seq<Node>, after: seq<Token>, level: nat, path: Path)
    requires path != [] && Closed(after, level)
    ensures Find(Forest(ns) + after, level, level + 1, path)
         == if SearchOverflows(ns, path, level) then Search.Overflow else Descend(ns, path, level, after)
    decreases |path|, |ns|
  {
    hide Body, Forest, ForestHeight, StartsWith, Find, Height;
    if ns == [] {
      FindEndsHere(after, level, path);
    } else {
      var rest := Forest(ns[1..]) + after;
      ForestSplit(ns, after);
      FindAtNode(ns[0], rest, level, path);
      if level < MAX_LEVEL {
        if !StartsWith(ns[0].name, path[0]) {
          FindIsDescend(ns[1..], after, level, path);
        } else if |path| > 1 {
          HeadTail(EndNode, rest);
          FindIsDescend(ns[0].children, [EndNode] + rest, level + 1, path[1..]);
        }
      }
    }
  }

  lemma {:induction false} OneTree(root: Node)
    ensures Forest([root]) + [] == Flatten(root) && ForestHeight([root]) == Height(root)
    ensures Flatten(root) != [] && Flatten(root)[0].BeginNode?
  {
  }

  /** `find_node` on the stream of a whole tree is greedy descent from the root: at every level
      the first child whose name starts with the path component, without backtracking. It
      panics exactly when the search comes past or into a level that overflows. */
  lemma {:induction false} FindNodeIsGreedy(root: Node, path: Path)
    ensures Find(Flatten(root), 0, 1, path)
         == if SearchOverflows([root], path, 0) then Search.Overflow else Descend([root], path, 0, [])
  {
    hide Forest, Flatten, ForestHeight, Height;
    OneTree(root);
    if path != [] {
      FindIsDescend([root], [], 0, path);
    }
  }

  /** A tree of less than 255 levels never makes it panic. */
  lemma {:induction false} ShallowNeverOverflows(ns: seq<Node>, path: Path, level: nat)
    requires level + ForestHeight(ns) < MAX_LEVEL
    ensures !SearchOverflows(ns, path, level) && !AllOverflows(ns, path, level)
    decreases |path|, |ns|
  {
    hide StartsWith;
    if path != [] && ns != [] {
      ShallowNeverOverflows(ns[1..], path, level);
      if |path| > 1 { ShallowNeverOverflows(ns[0].children, path[1..], level + 1); }
    }
  }

  // ----- find_nodes -----

  /** The part that the next name is compared with: the next path component, or the last one
      again once the path is used up. */
  function NextPart(path: Path, last: Path): Path {
    if path != [] then [path[0]] else last
  }

  /** All the nodes that the iterator of `find_nodes` reports from here on; `last` holds the
      final component once it has matched. */
  function FindAll(toks: seq<Token>, nesting: nat, looking: nat, path: Path, last: Path): Reading
    requires looking >= 1
    decreases |toks|
  {
    if toks == [] then Done
    else
      var rest := toks[1..];
      match toks[0]
      case BeginNode(name) =>
        if nesting >= MAX_LEVEL then Overflowed
        else if nesting + 1 != looking then FindAll(rest, nesting + 1, looking, path, last)
        else
          var part := NextPart(path, last);
          if part == [] then Done
          else if !StartsWith(name, part[0]) then FindAll(rest, nesting + 1, looking, path, last)
          else if |path| <= 1 then
            After([Seen(name, nesting, rest)], FindAll(rest, nesting + 1, looking, [], [part[0]]))
          else if looking >= MAX_LEVEL then Overflowed
          else FindAll(rest, nesting + 1, looking + 1, path[1..], last)
      case EndNode =>
        if nesting == 0 then Overflowed
        else if nesting - 1 < looking - 1 then Done
        else FindAll(rest, nesting - 1, looking, path, last)
      case Property(_, _) => FindAll(rest, nesting, looking, path, last)
  }

  /** The nodes of a forest whose names start with `part`, in order. */
  function Matches(ns: seq<Node>, part: seq<byte>, level: nat, after: seq<Token>): seq<Seen>
    decreases |ns|
  {
    if ns == [] then []
    else
      var rest := Forest(ns[1..]) + after;
      (if StartsWith(ns[0].name, part) then [Seen(ns[0].name, level, Body(ns[0]) + rest)] else [])
      + Matches(ns[1..], part, level, after)
  }

  /** The nodes, under the greedily chosen parent, that match the last component. */
  function DescendAll(ns: seq<Node>, path: Path, level: nat, after: seq<Token>): seq<Seen>
    decreases |path|, |ns|
  {
    if path == [] || ns == [] then []
    else if |path| == 1 then Matches(ns, path[0], level, after)
    else if !StartsWith(ns[0].name, path[0]) then DescendAll(ns[1..], path, level, after)
    else DescendAll(ns[0].children, path[1..], level + 1, [EndNode] + (Forest(ns[1..]) + after))
  }

  lemma {:induction false} AllSkipsProps(
      props: seq<Prop>, rest: seq<Token>, nesting: nat, looking: nat, path: Path, last: Path)
    requires looking >= 1
    ensures FindAll(PropTokens(props) + rest, nesting, looking, path, last) == FindAll(rest, nesting, looking, path, last)
    decreases |props|
  {
    hide PropTokens;
    if props == [] {
      PropsEmpty(rest);
    } else {
      PropsSplit(props, rest);
      HeadTail(Property(props[0].nameOff, props[0].data), PropTokens(props[1..]) + rest);
      AllSkipsProps(props[1..], rest, nesting, looking, path, last);
    }
  }

  lemma {:induction false} AllSkipsBody(n: Node, after: seq<Token>, nesting: nat, looking: nat, path: Path, last: Path)
    requires 1 <= looking <= nesting + 1 && nesting + 1 + ForestHeight(n.children) <= MAX_LEVEL
    ensures FindAll(Body(n) + after, nesting + 1, looking, path, last) == FindAll(after, nesting, looking, path, last)
    decreases n, 0
  {
    hide Body, Forest, ForestHeight, PropTokens;
    var inner := [EndNode] + after;
    BodySplit(n, after);
    AllSkipsProps(n.props, Forest(n.children) + inner, nesting + 1, looking, path, last);
    AllSkipsForest(n.children, inner, nesting + 1, looking, path, last);
    HeadTail(EndNode, after);
  }

  lemma {:induction false} AllSkipsForest(ns: seq<Node>, after: seq<Token>, nesting: nat, looking: nat, path: Path, last: Path)
    requires 1 <= looking <= nesting && nesting + ForestHeight(ns) <= MAX_LEVEL
    ensures FindAll(Forest(ns) + after, nesting, looking, path, last) == FindAll(after, nesting, looking, path, last)
    decreases ns
  {
    hide Body, Forest, ForestHeight;
    if ns == [] {
      ForestEmpty(after);
    } else {
      ForestSplit(ns, after);
      HeadTail(BeginNode(ns[0].name), Body(ns[0]) + (Forest(ns[1..]) + after));
      AllSkipsBody(ns[0], Forest(ns[1..]) + after, nesting, looking, path, last);
      AllSkipsForest(ns[1..], after, nesting, looking, path, last);
    }
  }

  lemma {:induction false} AllOverflowsInBody(n: Node, after: seq<Token>, nesting: nat, looking: nat, path: Path, last: Path)
    requires 1 <= looking <= nesting + 1 && nesting < MAX_LEVEL < nesting + 1 + ForestHeight(n.children)
    ensures FindAll(Body(n) + after, nesting + 1, looking, path, last) == Overflowed
    decreases n, 0
  {
    hide Body, Forest, ForestHeight, PropTokens;
    var inner := [EndNode] + after;
    BodySplit(n, after);
    AllSkipsProps(n.props, Forest(n.children) + inner, nesting + 1, looking, path, last);
    AllOverflowsInForest(n.children, inner, nesting + 1, looking, path, last);
  }

  lemma {:induction false} AllOverflowsInForest(
      ns: seq<Node>, after: seq<Token>, nesting: nat, looking: nat, path: Path, last: Path)
    requires 1 <= looking <= nesting <= MAX_LEVEL < nesting + ForestHeight(ns)
    ensures FindAll(Forest(ns) + after, nesting, looking, path, last) == Overflowed
    decreases ns
  {
    hide Body, Forest;
    var rest := Forest(ns[1..]) + after;
    ForestSplit(ns, after);
    HeadTail(BeginNode(ns[0].name), Body(ns[0]) + rest);
    if nesting < MAX_LEVEL {
      if nesting + Height(ns[0]) > MAX_LEVEL {
        AllOverflowsInBody(ns[0], rest, nesting, looking, path, last);
      } else {
        AllSkipsBody(ns[0], rest, nesting, looking, path, last);
        AllOverflowsInForest(ns[1..], after, nesting, looking, path, last);
      }
    }
  }

  /** The body of a node at the level being compared: passed over, or too deep. */
  lemma {:induction false} AllPassesBody(n: Node, rest: seq<Token>, level: nat, path: Path, last: Path)
    requires level < MAX_LEVEL
    ensures FindAll(Body(n) + rest, level + 1, level + 1, path, last)
         == if level + Height(n) > MAX_LEVEL then Overflowed else FindAll(rest, level, level + 1, path, last)
  {
    hide Body, ForestHeight, FindAll;
    if level + Height(n) > MAX_LEVEL {
      AllOverflowsInBody(n, rest, level, level + 1, path, last);
    } else {
      AllSkipsBody(n, rest, level, level + 1, path, last);
    }
  }

  /** The search of the tree that `find_nodes` makes, with levels that overflow: like
      `DescendAll`, but it stops where a node goes too deep. */
  function SearchAll(ns: seq<Node>, path: Path, level: nat, after: seq<Token>): Reading
    decreases |path|, |ns|
  {
    if path == [] || ns == [] then Done
    else if level >= MAX_LEVEL then Overflowed
    else
      var n, rest := ns[0], Forest(ns[1..]) + after;
      if StartsWith(n.name, path[0]) && |path| > 1 then
        if level + 1 >= MAX_LEVEL then Overflowed else SearchAll(n.children, path[1..], level + 1, [EndNode] + rest)
      else
        After(if StartsWith(n.name, path[0]) then [Seen(n.name, level, Body(n) + rest)] else [],
              if level + Height(n) > MAX_LEVEL then Overflowed else SearchAll(ns[1..], path, level, after))
  }

  /** `find_nodes` visits all the siblings at the last level, so any of them may be too deep. */
  predicate AllOverflows(ns: seq<Node>, path: Path, level: nat)
    decreases |path|, |ns|
  {
    path != [] && ns != [] &&
    (level >= 255 ||
     if |path| == 1 then level + ForestHeight(ns) > 255
     else if !StartsWith(ns[0].name, path[0]) then level + Height(ns[0]) > 255 || AllOverflows(ns[1..], path, level)
     else level + 1 >= 255 || AllOverflows(ns[0].children, path[1..], level + 1))
  }

  /** One node at the level being compared, with one component left to match. */
  lemma {:induction false} AllAtLastNode(n: Node, rest: seq<Token>, level: nat, path: Path, last: Path)
    requires |path| <= 1 && NextPart(path, last) != [] && level < MAX_LEVEL
    ensures FindAll([BeginNode(n.name)] + (Body(n) + rest), level, level + 1, path, last)
         == if !StartsWith(n.name, NextPart(path, last)[0]) then
              (if level + Height(n) > MAX_LEVEL then Overflowed else FindAll(rest, level, level + 1, path, last))
            else
              After([Seen(n.name, level, Body(n) + rest)],
                    if level + Height(n) > MAX_LEVEL then Overflowed
                    else FindAll(rest, level, level + 1, [], [NextPart(path, last)[0]]))
  {
    hide Body, Forest, ForestHeight, StartsWith, Height;
    var part := NextPart(path, last)[0];
    HeadTail(BeginNode(n.name), Body(n) + rest);
    if !StartsWith(n.name, part) {
      AllPassesBody(n, rest, level, path, last);
    } else {
      AllPassesBody(n, rest, level, [], [part]);
    }
  }

  /** One node at the level being compared, with more components to come. */
  lemma {:induction false} AllAtInnerNode(n: Node, rest: seq<Token>, level: nat, path: Path)
    requires |path| > 1 && level < MAX_LEVEL
    ensures FindAll([BeginNode(n.name)] + (Body(n) + rest), level, level + 1, path, [])
         == if !StartsWith(n.name, path[0]) then
              (if level + Height(n) > MAX_LEVEL then Overflowed else FindAll(rest, level, level + 1, path, []))
            else if level + 1 >= MAX_LEVEL then Overflowed
            else FindAll(Forest(n.children) + ([EndNode] + rest), level + 1, level + 2, path[1..], [])
  {
    hide Body, Forest, ForestHeight, StartsWith, PropTokens, Height;
    HeadTail(BeginNode(n.name), Body(n) + rest);
    if !StartsWith(n.name, path[0]) {
      AllPassesBody(n, rest, level, path, []);
    } else {
      BodySplit(n, rest);
      AllSkipsProps(n.props, Forest(n.children) + ([EndNode] + rest), level + 1, level + 2, path[1..], []);
    }
  }

  lemma {:induction false} AllEndsHere(after: seq<Token>, level: nat, path: Path, last: Path)
    requires Closed(after, level)
    ensures FindAll(Forest([]) + after, level, level + 1, path, last) == Done
  {
    ForestEmpty(after);
  }

  lemma {:induction false} AllTooDeep(n: Node, rest: seq<Token>, level: nat, path: Path, last: Path)
    requires level >= MAX_LEVEL
    ensures FindAll([BeginNode(n.name)] + rest, level, level + 1, path, last) == Overflowed
  {
    HeadTail(BeginNode(n.name), rest);
  }

  /** With one component to match, before or after the first match, the siblings that match are
      reported, one after the other. */
  lemma {:induction false} AllReportsMatches(ns: seq<Node>, after: seq<Token>, level: nat, path: Path, last: Path)
    requires |path| <= 1 && NextPart(path, last) != [] && Closed(after, level)
    ensures FindAll(Forest(ns) + after, level, level + 1, path, last)
         == SearchAll(ns, [NextPart(path, last)[0]], level, after)
    decreases |ns|
  {
    hide Body, Forest, ForestHeight, StartsWith, FindAll, Height;
    if ns == [] {
      AllEndsHere(after, level, path, last);
    } else {
      var part := NextPart(path, last)[0];
      ForestSplit(ns, after);
      if level >= MAX_LEVEL {
        AllTooDeep(ns[0], Body(ns[0]) + (Forest(ns[1..]) + after), level, path, last);
      } else {
        AllAtLastNode(ns[0], Forest(ns[1..]) + after, level, path, last);
        if StartsWith(ns[0].name, part) {
          AllReportsMatches(ns[1..], after, level, [], [part]);
        } else {
          AllReportsMatches(ns[1..], after, level, path, last);
        }
      }
    }
  }

  lemma {:induction false} AllIsSearchAll(ns: seq<Node>, after: seq<Token>, level: nat, path: Path)
    requires path != [] && Closed(after, level)
    ensures FindAll(Forest(ns) + after, level, level + 1, path, []) == SearchAll(ns, path, level, after)
    decreases |path|, |ns|
  {
    hide Body, Forest, ForestHeight, StartsWith, FindAll, Height;
    if ns == [] {
      AllEndsHere(after, level, path, []);
    } else if |path| == 1 {
      AllReportsMatches(ns, after, level, path, []);
      assert [NextPart(path, [])[0]] == path;
    } else {
      var rest := Forest(ns[1..]) + after;
      ForestSplit(ns, after);
      if level >= MAX_LEVEL {
        AllTooDeep(ns[0], Body(ns[0]) + rest, level, path, []);
      } else {
        AllAtInnerNode(ns[0], rest, level, path);
        if !StartsWith(ns[0].name, path[0]) {
          AllIsSearchAll(ns[1..], after, level, path);
        } else {
          HeadTail(EndNode, rest);
          AllIsSearchAll(ns[0].children, [EndNode] + rest, level + 1, path[1..]);
        }
      }
    }
  }

  /** `find_nodes` on the stream of a whole tree is this search, for every tree. */
  lemma {:induction false} FindNodesIsSearchAll(root: Node, path: Path)
    ensures FindAll(Flatten(root), 0, 1, path, []) == SearchAll([root], path, 0, [])
  {
    hide Forest, Flatten, ForestHeight, Height;
    OneTree(root);
    if path != [] {
      AllIsSearchAll([root], [], 0, path);
    }
  }

  /** It panics exactly when a node that it visits goes too deep. What it reports are the siblings
      that match the last component under the greedily chosen parent, in order: all of them
      unless it panics, and the first of them if it does. */
  lemma {:induction false} SearchAllMeans(ns: seq<Node>, path: Path, level: nat, after: seq<Token>)
    ensures SearchAll(ns, path, level, after).overflows <==> AllOverflows(ns, path, level)
    ensures SearchAll(ns, path, level, after).nodes <= DescendAll(ns, path, level, after)
    ensures !AllOverflows(ns, path, level) ==> SearchAll(ns, path, level, after).nodes == DescendAll(ns, path, level, after)
    decreases |path|, |ns|
  {
    hide Body, Forest, StartsWith;
    if path != [] && ns != [] {
      SearchAllMeans(ns[1..], path, level, after);
      if |path| == 1 {
        LastLevelStep(ns, path[0], level, after);
      } else if StartsWith(ns[0].name, path[0]) {
        SearchAllMeans(ns[0].children, path[1..], level + 1, [EndNode] + (Forest(ns[1..]) + after));
      }
    }
  }

  lemma {:induction false} LastLevelStep(ns: seq<Node>, part: seq<byte>, level: nat, after: seq<Token>)
    requires ns != []
    ensures DescendAll(ns, [part], level, after)
         == (if StartsWith(ns[0].name, part) then [Seen(ns[0].name, level, Body(ns[0]) + (Forest(ns[1..]) + after))] else [])
            + DescendAll(ns[1..], [part], level, after)
    ensures level + ForestHeight(ns) > MAX_LEVEL <==>
              level + Height(ns[0]) > MAX_LEVEL || level + ForestHeight(ns[1..]) > MAX_LEVEL
  {
    hide Body, Forest, StartsWith, Height;
    assert DescendAll(ns, [part], level, after) == Matches(ns, part, level, after);
    assert DescendAll(ns[1..], [part], level, after) == Matches(ns[1..], part, level, after);
  }

  /** `find_nodes` on the stream of a whole tree reports exactly the siblings that match the
      last component under the greedily chosen parent, in order, and then ends, unless it
      panics. */
  lemma {:induction false} FindNodesAreSiblings(root: Node, path: Path)
    ensures var r := FindAll(Flatten(root), 0, 1, path, []);
            && (r.overflows <==> AllOverflows([root], path, 0))
            && r.nodes <= DescendAll([root], path, 0, [])
            && (!r.overflows ==> r.nodes == DescendAll([root], path, 0, []))
  {
    hide FindAll, Flatten, SearchAll, DescendAll, AllOverflows;
    FindNodesIsSearchAll(root, path);
    SearchAllMeans([root], path, 0, []);
  }

  /** The first node of `find_nodes` is the node of `find_node`; one has none or panics exactly
      when the other does so before its first node. */
  lemma {:induction false} FirstOfAll(ns: seq<Node>, path: Path, level: nat, after: seq<Token>)
    ensures var all := SearchAll(ns, path, level, after);
            if SearchOverflows(ns, path, level) then all == Overflowed
            else
              match Descend(ns, path, level, after)
              case Hit(node) => all.nodes != [] && all.nodes[0] == node
              case _ => all == Done
    decreases |path|, |ns|
  {
    hide Body, Forest, StartsWith, Height;
    if path != [] && ns != [] {
      if !StartsWith(ns[0].name, path[0]) {
        FirstOfAll(ns[1..], path, level, after);
      } else if |path| > 1 {
        FirstOfAll(ns[0].children, path[1..], level + 1, [EndNode] + (Forest(ns[1..]) + after));
      }
    }
  }

  /** On every tree, `find_nodes` begins with what `find_node` finds. */
  lemma {:induction false} FindNodeIsFirstOfFindNodes(root: Node, path: Path)
    ensures var all := FindAll(Flatten(root), 0, 1, path, []);
            match Find(Flatten(root), 0, 1, path)
            case Hit(node) => all.nodes != [] && all.nodes[0] == node
            case Miss => all == Done
            case Overflow => all == Overflowed
  {
    hide Flatten, Find, FindAll, Descend, SearchAll, SearchOverflows;
    FindNodeIsGreedy(root, path);
    FindNodesIsSearchAll(root, path);
    FirstOfAll([root], path, 0, []);
    DescendIsTotal([root], path, 0, []);
  }

  /** Greedy descent itself never overflows. */
  lemma {:induction false} DescendIsTotal(ns: seq<Node>, path: Path, level: nat, after: seq<Token>)
    ensures !Descend(ns, path, level, after).Overflow?
    decreases |path|, |ns|
  {
    hide Body, Forest, StartsWith;
    if path != [] && ns != [] {
      if !StartsWith(ns[0].name, path[0]) {
        DescendIsTotal(ns[1..], path, level, after);
      } else if |path| > 1 {
        DescendIsTotal(ns[0].children, path[1..], level + 1, [EndNode] + (Forest(ns[1..]) + after));
      }
    }
  }

  /** `root()`: the path of one slash finds the root of every tree. */
  lemma {:induction false} SlashFindsRoot(root: Node)
    ensures Find(Flatten(root), 0, 1, SplitTerminator([47])) == Hit(Seen(root.name, 0, Body(root)))
  {
    hide Find, Flatten, Body, Forest;
    assert Split([47], []) == [[], []];
    assert SplitTerminator([47]) == [[]];
    FindNodeIsGreedy(root, [[]]);
    assert Forest([]) + [] == [] by { ForestEmpty([]); }
    assert Body(root) + [] == Body(root);
    assert [root][1..] == [];
  }
}
