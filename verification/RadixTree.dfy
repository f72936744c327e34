/** The location tree as linked nodes updated in place. */
module RadixTrees {
  import opened Wrappers
  import opened RadixModel
  import opened RadixSearch

  /** The shared-prefix loop. */
  method CommonPrefix(a: string, b: string) returns (n: nat)
    ensures n == CommonLength(a, b)
  {
    n := 0;
    while n < |a| && n < |b| && a[n] == b[n]
      invariant n <= |a| && n <= |b|
      invariant n + CommonLength(a[n..], b[n..]) == CommonLength(a, b)
    {
      assert a[n..][1..] == a[n+1..] && b[n..][1..] == b[n+1..];
      n := n + 1;
    }
  }

  class RadixNode {
    var prefix: string
    var loc: Location
    var children: seq<RadixNode>
    /** The nodes of the subtree, and its value. */
    ghost var repr: set<object>
    ghost var view: Node

    ghost predicate Valid()
      reads this, repr
      decreases repr
    {
      && this in repr
      && view.prefix == prefix && view.loc == loc && |view.children| == |children|
      && (forall c :: c in children ==> c in repr && c.repr < repr && this !in c.repr && c.Valid())
      && (forall i :: 0 <= i < |children| ==> view.children[i] == children[i].view)
      && (forall i, j :: 0 <= i < j < |children| ==> children[i].repr !! children[j].repr)
    }

    constructor (prefix: string, loc: Location)
      ensures Valid() && fresh(repr) && view == Node(prefix, loc, [])
    {
      this.prefix, this.loc, this.children := prefix, loc, [];
      repr, view := {this}, Node(prefix, loc, []);
    }

    /** Insertion in place. The root's segment is empty and a child is entered only after its segment
        was found to begin the path, so the node is never split. */
    method Insert(path: string, newLoc: Location) returns (ok: bool)
      requires Valid() && prefix <= path
      modifies repr
      ensures Valid() && fresh(repr - old(repr))
      ensures ok <==> InsertNode(old(view), path, newLoc).Some?
      ensures view == InsertNode(old(view), path, newLoc).GetOr(old(view))
      decreases view
    {
      if prefix == "" && children == [] && loc.handler.None? {
        if path == "" {
          SetLocation(newLoc);
        } else {
          AddChild(path, newLoc);
        }
        return true;
      }
      var common := CommonPrefix(prefix, path);
      NoSplit(view, path, newLoc);
      var remaining := path[common..];
      if remaining == "" {
        if loc.handler.Some? {
          return false;
        }
        SetLocation(newLoc);
        return true;
      }
      var i := FindChild(remaining);
      if i < |children| {
        ok := InsertInto(i, remaining, newLoc);
      } else {
        AddChild(remaining, newLoc);
        ok := true;
      }
    }

    method SetLocation(newLoc: Location)
      requires Valid()
      modifies this
      ensures Valid() && repr == old(repr) && view == old(view).(loc := newLoc)
    {
      loc := newLoc;
      view := view.(loc := newLoc);
    }

    method AddChild(segment: string, newLoc: Location)
      requires Valid()
      modifies this
      ensures Valid() && fresh(repr - old(repr))
      ensures view == old(view).(children := old(view).children + [Node(segment, newLoc, [])])
    {
      var child := new RadixNode(segment, newLoc);
      children := children + [child];
      repr := repr + child.repr;
      view := view.(children := view.children + [child.view]);
    }

    method FindChild(remaining: string) returns (i: nat)
      requires Valid()
      ensures i == FirstMatch(view.children, remaining)
    {
      i := 0;
      while i < |children| && !(children[i].prefix <= remaining)
        invariant i <= |children|
        invariant forall k :: 0 <= k < i ==> !(view.children[k].prefix <= remaining)
      {
        assert children[i].Valid();
        i := i + 1;
      }
      assert i < |children| ==> children[i].Valid();
    }

    method InsertInto(i: nat, remaining: string, newLoc: Location) returns (ok: bool)
      requires Valid() && i < |children| && children[i].prefix <= remaining
      modifies repr
      ensures Valid() && fresh(repr - old(repr))
      ensures var inserted := InsertNode(old(view).children[i], remaining, newLoc);
        && (ok <==> inserted.Some?)
        && view == if ok then old(view).(children := old(view).children[i := inserted.value]) else old(view)
      decreases view, 0
    {
      var child := children[i];
      assert child.Valid();
      assert forall j :: 0 <= j < |children| && j != i ==> children[j].repr !! child.repr;
      ok := child.Insert(remaining, newLoc);
      repr := repr + child.repr;
      view := view.(children := view.children[i := child.view]);
      forall j | 0 <= j < |children| && j != i ensures StillValid(children[j]) {
        StaysValid(children[j]);
      }
    }

    /** A subtree none of whose nodes was touched keeps its validity, its nodes and its value. */
    twostate predicate StillValid(c: RadixNode)
      reads c, c.repr
    {
      c.Valid() && c.repr == old(c.repr) && c.view == old(c.view)
    }

    twostate lemma StaysValid(c: RadixNode)
      requires old(c.Valid()) && unchanged(c) && unchanged(old(c.repr))
      ensures StillValid(c)
    {
    }

    /** The recursive search; `base` names the path above the node, so that the answer can be named. */
    method SearchLongest(base: string, path: string, best: Option<Match>) returns (r: Option<Match>)
      requires Valid()
      ensures r == Search(SegmentLength, view, base, path, best)
      decreases view
    {
      if |path| == 0 {
        return best;
      }
      if !(prefix <= path) {
        return best;
      }
      var remaining := path[|prefix|..];
      var here := Match(base + prefix, prefix, loc);
      r := best;
      if loc.handler.Some? {
        r := Prefer(r, here);
      }
      ghost var start := r;
      for i := 0 to |children|
        invariant SearchChildren(SegmentLength, view.children[i..], here.full, remaining, r)
                  == SearchChildren(SegmentLength, view.children, here.full, remaining, start)
      {
        var child := children[i];
        assert child.Valid();
        ChildrenFrom(view.children, i, here.full, remaining, r);
        var result := child.SearchLongest(here.full, remaining, r);
        if result.Some? && result != r {
          r := Prefer(r, result.value);
        }
      }
    }
  }

  /** The search through the children from one on. */
  lemma ChildrenFrom(cs: seq<Node>, i: nat, base: string, path: string, best: Option<Match>)
    requires i < |cs|
    ensures var result := Search(SegmentLength, cs[i], base, path, best);
      SearchChildren(SegmentLength, cs[i..], base, path, best)
      == SearchChildren(SegmentLength, cs[i+1..], base, path,
           if result.Some? && result != best then Challenge(SegmentLength, best, result.value) else best)
  {
    assert cs[i..][0] == cs[i] && cs[i..][1..] == cs[i+1..];
  }

  /** Lowest priority first, then the longer segment. */
  function Prefer(best: Option<Match>, m: Match): (r: Option<Match>)
    ensures r == Challenge(SegmentLength, best, m)
  {
    if best.None? || m.loc.priority < best.value.loc.priority then Some(m)
    else if m.loc.priority == best.value.loc.priority && |m.segment| > |best.value.segment| then Some(m)
    else best
  }

  datatype InsertResult = Inserted | PathExists | AlreadyInitialized

  class RadixTree {
    var root: RadixNode
    var initialized: bool
    /** Everything inserted so far, refused insertions included. */
    ghost var log: seq<Insertion>

    ghost predicate Valid()
      reads this, root, root.repr
    {
      this !in root.repr && root.Valid() && root.view == InsertAll(log)
    }

    constructor ()
      ensures Valid() && fresh(root.repr) && log == [] && !initialized
    {
      root := new RadixNode("", NoLocation);
      initialized, log := false, [];
    }

    /** Insertion fails after initialization, and otherwise exactly on a path already registered. */
    method Insert(path: string, loc: Location) returns (result: InsertResult)
      requires Valid()
      modifies this, root.repr
      ensures Valid() && root == old(root) && fresh(root.repr - old(root.repr))
      ensures initialized == old(initialized)
      ensures log == if initialized then old(log) else old(log) + [Insertion(path, loc)]
      ensures result == if initialized then AlreadyInitialized
                        else if path in Registry(old(log)) then PathExists else Inserted
    {
      if initialized {
        return AlreadyInitialized;
      }
      TreeIsRegistry(log, Insertion(path, loc), path);
      var ok := root.Insert(path, loc);
      log := log + [Insertion(path, loc)];
      assert log[..|log|-1] == old(log);
      return if ok then Inserted else PathExists;
    }

    /** The answer depends on the insertions as SearchOverRegistry says. */
    method FindLongestPrefix(request: string) returns (r: Option<Match>)
      requires Valid()
      ensures r == RadixSearch.FindLongestPrefix(SegmentLength, InsertAll(log), request)
    {
      r := root.SearchLongest("", request, None);
    }

    method MarkInitialized()
      requires Valid()
      modifies this`initialized
      ensures Valid() && initialized
    {
      initialized := true;
    }
  }

  /** The tree and the map hold the same locations. */
  ghost predicate Denotes(tree: Node, registry: map<string, Location>)
  {
    && Routed(tree)
    && (forall p :: Registered(tree, p) <==> p in registry)
    && (forall p :: p in registry ==> Find(tree, p) == Some(registry[p]))
  }

  lemma TreeDenotesRegistry(log: seq<Insertion>)
    ensures Denotes(InsertAll(log), Registry(log))
  {
    var any := Insertion("", NoLocation);
    forall p
      ensures Registered(InsertAll(log), p) <==> p in Registry(log)
      ensures p in Registry(log) ==> Find(InsertAll(log), p) == Some(Registry(log)[p]) {
      TreeIsRegistry(log, any, p);
    }
    TreeIsRegistry(log, any, "");
  }

  /** `m` is a registered path that begins the request, of the lowest priority among those. */
  ghost predicate BestRegistered(registry: map<string, Location>, request: string, m: Match)
  {
    && m.full in registry && m.full <= request && m.loc == registry[m.full]
    && forall p :: p in registry && p <= request ==> m.loc.priority <= registry[p].priority
  }

  /** What a search should answer: nothing exactly when no registered path begins the request, otherwise
      a registered path that does, of the lowest priority among those. */
  ghost predicate Answers(registry: map<string, Location>, request: string, r: Option<Match>)
  {
    && (r.None? <==> forall p :: p in registry ==> !(p <= request))
    && (r.Some? ==> BestRegistered(registry, request, r.value))
  }

  lemma SearchDenoted(len: Measure, tree: Node, registry: map<string, Location>, request: string)
    requires Denotes(tree, registry) && request != ""
    ensures Answers(registry, request, RadixSearch.FindLongestPrefix(len, tree, request))
  {
    SearchSound(len, tree, request);
    var r := RadixSearch.FindLongestPrefix(len, tree, request);
    if r.Some? {
      forall p | p in registry && p <= request ensures r.value.loc.priority <= registry[p].priority {
        assert Registered(tree, p);
      }
    }
  }

  /** An empty request finds nothing, whatever is registered. */
  lemma EmptyRequest(log: seq<Insertion>)
    ensures RadixSearch.FindLongestPrefix(SegmentLength, InsertAll(log), "") == None
  {
  }

  /** For any insertion sequence and either measure the search answers from the registry. */
  lemma SearchOverRegistry(len: Measure, log: seq<Insertion>, request: string)
    requires request != ""
    ensures Answers(Registry(log), request, RadixSearch.FindLongestPrefix(len, InsertAll(log), request))
  {
    TreeDenotesRegistry(log);
    SearchDenoted(len, InsertAll(log), Registry(log), request);
  }
}
