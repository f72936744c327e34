/**
 The location tree as a value: insertion and search as the code performs them, and what they mean in
 terms of the registered paths.
 */
module RadixModel {
  import opened Wrappers

  type Handler = nat

  datatype Location = Location(handler: Option<Handler>, priority: int, kind: string, internal: bool)

  /** What a node without a handler carries. */
  const NoLocation := Location(None, 0, "", false)

  datatype Node = Node(prefix: string, loc: Location, children: seq<Node>)

  const EmptyTree := Node("", NoLocation, [])

  // ---------------------------------------------------------------- insertion

  /** The position of the first child whose segment begins `path`, or the number of children. */
  function FirstMatch(cs: seq<Node>, path: string): (i: nat)
    ensures i <= |cs|
    ensures i < |cs| ==> cs[i].prefix <= path
    ensures forall k :: 0 <= k < i ==> !(cs[k].prefix <= path)
  {
    if cs == [] then 0
    else if cs[0].prefix <= path then 0
    else 1 + FirstMatch(cs[1..], path)
  }

  function CommonLength(a: string, b: string): (n: nat)
    ensures n <= |a| && n <= |b| && a[..n] == b[..n]
    ensures n < |a| && n < |b| ==> a[n] != b[n]
  {
    if a == [] || b == [] || a[0] != b[0] then 0
    else
      assert a == [a[0]] + a[1..] && b == [b[0]] + b[1..];
      1 + CommonLength(a[1..], b[1..])
  }

  /** Insertion as written, all four cases; `None` is the error "path already exists". */
  function InsertNode(node: Node, path: string, loc: Location): Option<Node>
    decreases node, 1
  {
    var common := CommonLength(node.prefix, path);
    if node.prefix == "" && node.children == [] && node.loc.handler.None? then
      if path == "" then Some(node.(loc := loc))
      else Some(node.(children := [Node(path, loc, [])]))
    else if common == |node.prefix| then InsertBelow(node, path[common..], loc)
    else Some(Split(node, path, loc, common))
  }

  /** The third case: the node's segment is used up and `remaining` is left. */
  function InsertBelow(node: Node, remaining: string, loc: Location): Option<Node>
    decreases node, 0
  {
    if remaining == "" then
      if node.loc.handler.Some? then None else Some(node.(loc := loc))
    else
      var i := FirstMatch(node.children, remaining);
      if i < |node.children| then
        var inserted := InsertNode(node.children[i], remaining, loc);
        if inserted.None? then None
        else Some(node.(children := node.children[i := inserted.value]))
      else
        Some(node.(children := node.children + [Node(remaining, loc, [])]))
  }

  /** The fourth case: the shared part becomes an intermediate node. */
  function Split(node: Node, path: string, loc: Location, common: nat): Node
    requires common <= |node.prefix| && common <= |path|
  {
    Node(node.prefix[..common], NoLocation,
         [node.(prefix := node.prefix[common..]), Node(path[common..], loc, [])])
  }

  lemma {:induction false} CommonIsAll(a: string, b: string)
    ensures CommonLength(a, b) == |a| <==> a <= b
  {
    if a != [] && b != [] && a[0] == b[0] {
      CommonIsAll(a[1..], b[1..]);
    }
  }

  // ---------------------------------------------------------------- the registered paths

  /** Following the first matching child at every node, the location found exactly at `path`. */
  function Find(node: Node, path: string): Option<Location>
    decreases node
  {
    if !(node.prefix <= path) then None
    else
      var rest := path[|node.prefix|..];
      if rest == "" then Some(node.loc)
      else
        var i := FirstMatch(node.children, rest);
        if i < |node.children| then Find(node.children[i], rest) else None
  }

  /** A path is registered when its node carries a handler. */
  predicate Registered(node: Node, path: string)
  {
    Find(node, path).Some? && Find(node, path).value.handler.Some?
  }

  /** A node seen from the root: the full path down to it, its own segment, its location. */
  datatype Match = Match(full: string, segment: string, loc: Location)

  /** All nodes in pre-order, `base` being the path above them. */
  function Entries(node: Node, base: string): seq<Match>
    decreases node, 1
  {
    [Match(base + node.prefix, node.prefix, node.loc)] + ForestEntries(node.children, base + node.prefix)
  }

  function ForestEntries(cs: seq<Node>, base: string): seq<Match>
    decreases cs, 0
  {
    if cs == [] then [] else Entries(cs[0], base) + ForestEntries(cs[1..], base)
  }

  /** Every node lies on its own descent route: below each node no segment is empty, and no path stored
      under a child begins with the segment of an earlier child. */
  ghost predicate Routed(node: Node)
    decreases node
  {
    && (forall i :: 0 <= i < |node.children| ==>
          node.children[i].prefix != "" && Routed(node.children[i]))
    && (forall j, p :: 0 <= j < |node.children| && Find(node.children[j], p).Some? ==>
          FirstMatch(node.children, p) == j)
  }

  /** In particular no earlier sibling's segment begins a later one's. */
  lemma SiblingSegments(node: Node, i: nat, j: nat)
    requires Routed(node) && i < j < |node.children|
    ensures !(node.children[i].prefix <= node.children[j].prefix)
  {
    assert Find(node.children[j], node.children[j].prefix).Some?;
    assert FirstMatch(node.children, node.children[j].prefix) == j;
  }

  // ---------------------------------------------------------------- what insertion does

  lemma {:induction false} FirstMatchAppend(cs: seq<Node>, c: Node, p: string)
    ensures FirstMatch(cs + [c], p) ==
      if FirstMatch(cs, p) < |cs| then FirstMatch(cs, p)
      else if c.prefix <= p then |cs| else |cs| + 1
  {
    if cs != [] && !(cs[0].prefix <= p) {
      assert (cs + [c])[1..] == cs[1..] + [c];
      FirstMatchAppend(cs[1..], c, p);
    }
  }

  lemma {:induction false} FirstMatchReplace(cs: seq<Node>, i: nat, c: Node, p: string)
    requires i < |cs| && c.prefix == cs[i].prefix
    ensures FirstMatch(cs[i := c], p) == FirstMatch(cs, p)
  {
    if !(cs[0].prefix <= p) {
      if i == 0 {
        assert cs[i := c][1..] == cs[1..];
      } else {
        assert cs[i := c][1..] == cs[1..][i-1 := c];
        FirstMatchReplace(cs[1..], i - 1, c, p);
      }
    }
  }

  /** Called where the source calls it, on a node whose segment begins the path, insertion never reaches
      the split. */
  lemma NoSplit(node: Node, path: string, loc: Location)
    requires node.prefix <= path
    ensures CommonLength(node.prefix, path) == |node.prefix|
    ensures InsertNode(node, path, loc) == InsertBelow(node, path[|node.prefix|..], loc)
  {
    CommonIsAll(node.prefix, path);
    assert node.prefix == "" ==> path[|node.prefix|..] == path;
    assert [] + [Node(path, loc, [])] == [Node(path, loc, [])];
  }

  /** The descent below a node whose segment begins the path. */
  function FindBelow(node: Node, rest: string): Option<Location>
  {
    if rest == "" then Some(node.loc)
    else
      var i := FirstMatch(node.children, rest);
      if i < |node.children| then Find(node.children[i], rest) else None
  }

  /** Insertion keeps the node's segment, fails exactly on a registered path, and otherwise changes what
      the descent finds at that path only. */
  lemma {:induction false} InsertFind(node: Node, path: string, loc: Location, q: string)
    requires node.prefix <= path
    ensures InsertNode(node, path, loc).None? <==> Registered(node, path)
    ensures InsertNode(node, path, loc).Some? ==>
      && InsertNode(node, path, loc).value.prefix == node.prefix
      && Find(InsertNode(node, path, loc).value, q) == if q == path then Some(loc) else Find(node, q)
    decreases node, 1
  {
    NoSplit(node, path, loc);
    var rest := path[|node.prefix|..];
    assert path == node.prefix + rest;
    var after := if node.prefix <= q then q[|node.prefix|..] else "";
    assert node.prefix <= q ==> q == node.prefix + after;
    InsertFindBelow(node, rest, loc, after);
    assert Find(node, path) == FindBelow(node, rest);
  }

  lemma {:induction false} InsertFindBelow(node: Node, rest: string, loc: Location, after: string)
    ensures InsertBelow(node, rest, loc).None?
      <==> FindBelow(node, rest).Some? && FindBelow(node, rest).value.handler.Some?
    ensures InsertBelow(node, rest, loc).Some? ==>
      && InsertBelow(node, rest, loc).value.prefix == node.prefix
      && FindBelow(InsertBelow(node, rest, loc).value, after)
         == if after == rest then Some(loc) else FindBelow(node, after)
    decreases node, 0
  {
    var cs := node.children;
    if rest != "" {
      var i := FirstMatch(cs, rest);
      if i < |cs| {
        InsertFind(cs[i], rest, loc, after);
        var c := InsertNode(cs[i], rest, loc);
        if c.Some? {
          FirstMatchReplace(cs, i, c.value, after);
        }
      } else {
        FirstMatchAppend(cs, Node(rest, loc, []), after);
      }
    }
  }

  lemma {:induction false} InsertRouted(node: Node, path: string, loc: Location)
    requires Routed(node) && node.prefix <= path && InsertNode(node, path, loc).Some?
    ensures Routed(InsertNode(node, path, loc).value)
    decreases node
  {
    NoSplit(node, path, loc);
    var rest := path[|node.prefix|..];
    if rest != "" {
      var i := FirstMatch(node.children, rest);
      if i < |node.children| {
        InsertRouted(node.children[i], rest, loc);
        ReplaceRouted(node, rest, loc, i);
      } else {
        AppendRouted(node, rest, loc);
      }
    }
  }

  lemma ReplaceRouted(node: Node, rest: string, loc: Location, i: nat)
    requires Routed(node) && rest != "" && i == FirstMatch(node.children, rest) < |node.children|
    requires InsertNode(node.children[i], rest, loc).Some?
    requires Routed(InsertNode(node.children[i], rest, loc).value)
    ensures Routed(node.(children := node.children[i := InsertNode(node.children[i], rest, loc).value]))
  {
    var cs, c := node.children, InsertNode(node.children[i], rest, loc).value;
    InsertFind(cs[i], rest, loc, rest);
    var cs' := cs[i := c];
    forall j, p | 0 <= j < |cs'| && Find(cs'[j], p).Some? ensures FirstMatch(cs', p) == j {
      InsertFind(cs[i], rest, loc, p);
      FirstMatchReplace(cs, i, c, p);
    }
  }

  lemma LeafFind(rest: string, loc: Location, p: string)
    ensures Find(Node(rest, loc, []), p).Some? <==> p == rest
  {
    if rest <= p && p[|rest|..] == "" {
      assert p == rest;
    }
  }

  lemma {:induction false} AppendRouted(node: Node, rest: string, loc: Location)
    requires Routed(node) && rest != "" && FirstMatch(node.children, rest) == |node.children|
    ensures Routed(node.(children := node.children + [Node(rest, loc, [])]))
  {
    var cs, leaf := node.children, Node(rest, loc, []);
    forall j, p | 0 <= j <= |cs| && Find((cs + [leaf])[j], p).Some?
      ensures FirstMatch(cs + [leaf], p) == j
    {
      FirstMatchAppend(cs, leaf, p);
      LeafFind(rest, loc, p);
    }
  }

  // ---------------------------------------------------------------- whole insertion sequences

  datatype Insertion = Insertion(path: string, loc: Location)

  /** The tree after a sequence of insertions, refused ones leaving it unchanged. */
  function InsertAll(ops: seq<Insertion>): Node
  {
    if ops == [] then EmptyTree
    else
      var tree := InsertAll(ops[..|ops|-1]);
      var op := ops[|ops|-1];
      InsertNode(tree, op.path, op.loc).GetOr(tree)
  }

  /** The reference: a plain map in which the first insertion of a path with a handler stays. */
  function Registry(ops: seq<Insertion>): map<string, Location>
  {
    if ops == [] then map[]
    else
      var m := Registry(ops[..|ops|-1]);
      var op := ops[|ops|-1];
      if op.path in m || op.loc.handler.None? then m else m[op.path := op.loc]
  }

  /** The tree denotes exactly the registry, whatever was inserted before; and the next insertion fails
      exactly when its path is already there. */
  lemma {:induction false} TreeIsRegistry(ops: seq<Insertion>, next: Insertion, q: string)
    ensures InsertAll(ops).prefix == "" && Routed(InsertAll(ops))
    ensures Registered(InsertAll(ops), q) <==> q in Registry(ops)
    ensures q in Registry(ops) ==> Find(InsertAll(ops), q) == Some(Registry(ops)[q])
    ensures InsertNode(InsertAll(ops), next.path, next.loc).None? <==> next.path in Registry(ops)
    decreases |ops|
  {
    if ops != [] {
      var before, op := ops[..|ops|-1], ops[|ops|-1];
      TreeIsRegistry(before, op, q);
      TreeIsRegistry(before, op, op.path);
      TreeIsRegistry(before, op, next.path);
      var tree := InsertAll(before);
      InsertFind(tree, op.path, op.loc, q);
      InsertFind(tree, op.path, op.loc, next.path);
      if InsertNode(tree, op.path, op.loc).Some? {
        InsertRouted(tree, op.path, op.loc);
      }
    }
    InsertFind(InsertAll(ops), next.path, next.loc, q);
  }

  // ---------------------------------------------------------------- entries and descent agree

  lemma {:induction false} EntriesBelow(node: Node, base: string, m: Match)
    requires m in Entries(node, base)
    ensures base + node.prefix <= m.full
    decreases node, 1
  {
    if m !in [Match(base + node.prefix, node.prefix, node.loc)] {
      var i := ForestEntriesBelow(node.children, base + node.prefix, m);
    }
  }

  lemma {:induction false} ForestEntriesBelow(cs: seq<Node>, base: string, m: Match) returns (i: nat)
    requires m in ForestEntries(cs, base)
    ensures i < |cs| && m in Entries(cs[i], base) && base + cs[i].prefix <= m.full && base <= m.full
    decreases cs, 0
  {
    if m in Entries(cs[0], base) {
      EntriesBelow(cs[0], base, m);
      i := 0;
    } else {
      i := ForestEntriesBelow(cs[1..], base, m);
      i := i + 1;
    }
  }

  lemma {:induction false} ForestEntriesAt(cs: seq<Node>, base: string, i: nat, m: Match)
    requires i < |cs| && m in Entries(cs[i], base)
    ensures m in ForestEntries(cs, base)
    decreases cs
  {
    if i > 0 {
      ForestEntriesAt(cs[1..], base, i - 1, m);
    }
  }

  /** Every node is found by the descent along its own full path. */
  lemma {:induction false} EntryIsFound(node: Node, base: string, m: Match)
    requires Routed(node) && m in Entries(node, base)
    ensures base <= m.full && Find(node, m.full[|base|..]) == Some(m.loc)
    decreases node
  {
    EntriesBelow(node, base, m);
    var p := m.full[|base|..];
    assert node.prefix <= p by { assert m.full[..|base| + |node.prefix|] == base + node.prefix; }
    if m == Match(base + node.prefix, node.prefix, node.loc) {
      assert p == node.prefix;
    } else {
      var below := base + node.prefix;
      var i := ForestEntriesBelow(node.children, below, m);
      EntryIsFound(node.children[i], below, m);
      assert p[|node.prefix|..] == m.full[|below|..];
      assert node.children[i].prefix <= m.full[|below|..];
    }
  }

  /** What the descent finds is a node with that full path. */
  lemma {:induction false} FoundIsEntry(node: Node, base: string, p: string) returns (m: Match)
    requires Find(node, p).Some?
    ensures m in Entries(node, base) && m.full == base + p && m.loc == Find(node, p).value
    decreases node
  {
    var rest := p[|node.prefix|..];
    if rest == "" {
      m := Match(base + node.prefix, node.prefix, node.loc);
      assert p == node.prefix;
    } else {
      var i := FirstMatch(node.children, rest);
      m := FoundIsEntry(node.children[i], base + node.prefix, rest);
      ForestEntriesAt(node.children, base + node.prefix, i, m);
      assert p == node.prefix + rest;
    }
  }

  /** No two nodes have the same full path. */
  lemma {:induction false} EntriesDistinct(node: Node, base: string, i: nat, j: nat)
    requires Routed(node) && i < j < |Entries(node, base)|
    ensures Entries(node, base)[i].full != Entries(node, base)[j].full
    decreases node, |node.children| + 1
  {
    var below := base + node.prefix;
    var forest := ForestEntries(node.children, below);
    assert node.children[0..] == node.children;
    assert Entries(node, base) == [Match(below, node.prefix, node.loc)] + forest;
    if i == 0 {
      var k := ForestEntriesBelow(node.children, below, forest[j-1]);
    } else {
      ForestDistinct(node, below, 0, i - 1, j - 1);
    }
  }

  lemma {:induction false} ForestDistinct(node: Node, base: string, s: nat, i: nat, j: nat)
    requires Routed(node) && s <= |node.children| && i < j < |ForestEntries(node.children[s..], base)|
    ensures ForestEntries(node.children[s..], base)[i].full != ForestEntries(node.children[s..], base)[j].full
    decreases node, |node.children| - s
  {
    var cs := node.children;
    assert cs[s..][0] == cs[s] && cs[s..][1..] == cs[s+1..];
    var first, rest := Entries(cs[s], base), ForestEntries(cs[s+1..], base);
    assert ForestEntries(cs[s..], base) == first + rest;
    if j < |first| {
      EntriesDistinct(cs[s], base, i, j);
    } else if |first| <= i {
      ForestDistinct(node, base, s + 1, i - |first|, j - |first|);
    } else {
      SiblingsDistinct(node, base, s, first[i], rest[j - |first|]);
    }
  }

  /** A node under a child and one under a later child have different paths. */
  lemma {:induction false} SiblingsDistinct(node: Node, base: string, s: nat, m: Match, m': Match)
    requires Routed(node) && s < |node.children|
    requires m in Entries(node.children[s], base) && m' in ForestEntries(node.children[s+1..], base)
    ensures m.full != m'.full
  {
    var cs := node.children;
    var t := ForestEntriesBelow(cs[s+1..], base, m');
    assert cs[s+1..][t] == cs[s + 1 + t];
    EntryIsFound(cs[s], base, m);
    EntryIsFound(cs[s + 1 + t], base, m');
    RouteOf(node, s, m.full[|base|..]);
    RouteOf(node, s + 1 + t, m'.full[|base|..]);
  }

  lemma RouteOf(node: Node, j: nat, p: string)
    requires Routed(node) && j < |node.children| && Find(node.children[j], p).Some?
    ensures FirstMatch(node.children, p) == j
  {
  }
}
