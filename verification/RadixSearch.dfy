/**
 Longest-prefix search over the location tree: the search as written compares the lengths of node
 segments; the documented one compares full paths. What each answers, and exactly when they agree.
 */
module RadixSearch {
  import opened Wrappers
  import opened RadixModel

  /** The length by which two matches of equal priority are compared. */
  type Measure = Match -> nat

  const SegmentLength: Measure := (m: Match) => |m.segment|
  const PathLength: Measure := (m: Match) => |m.full|

  predicate Better(len: Measure, a: Match, b: Match)
  {
    a.loc.priority < b.loc.priority || (a.loc.priority == b.loc.priority && len(a) > len(b))
  }

  function Challenge(len: Measure, best: Option<Match>, m: Match): Option<Match>
  {
    if best.None? || Better(len, m, best.value) then Some(m) else best
  }

  /** The search as written; `base` is the part of the request above the node, `path` what is left. */
  function Search(len: Measure, node: Node, base: string, path: string, best: Option<Match>): Option<Match>
    decreases node, 1
  {
    if path == "" then best
    else if !(node.prefix <= path) then best
    else
      var here := Match(base + node.prefix, node.prefix, node.loc);
      var best' := if node.loc.handler.Some? then Challenge(len, best, here) else best;
      SearchChildren(len, node.children, here.full, path[|node.prefix|..], best')
  }

  function SearchChildren(len: Measure, cs: seq<Node>, base: string, path: string, best: Option<Match>)
    : Option<Match>
    decreases cs, 0
  {
    if cs == [] then best
    else
      var result := Search(len, cs[0], base, path, best);
      var best' := if result.Some? && result != best then Challenge(len, best, result.value) else best;
      SearchChildren(len, cs[1..], base, path, best')
  }

  /** The answer for a whole request. */
  function FindLongestPrefix(len: Measure, tree: Node, request: string): Option<Match>
  {
    Search(len, tree, "", request, None)
  }

  // ---------------------------------------------------------------- the search is a fold

  predicate Matches(m: Match, request: string)
  {
    m.loc.handler.Some? && m.full <= request
  }

  /** The reference: go through the nodes in order and keep the best match seen so far. */
  function Fold(len: Measure, best: Option<Match>, es: seq<Match>, request: string): Option<Match>
  {
    if es == [] then best
    else
      var front, last := Fold(len, best, es[..|es|-1], request), es[|es|-1];
      if Matches(last, request) then Challenge(len, front, last) else front
  }

  lemma {:induction false} FoldConcat(len: Measure, best: Option<Match>, a: seq<Match>, b: seq<Match>, request: string)
    ensures Fold(len, best, a + b, request) == Fold(len, Fold(len, best, a, request), b, request)
  {
    if b == [] {
      assert a + b == a;
    } else {
      assert (a + b)[..|a + b|-1] == a + b[..|b|-1];
      FoldConcat(len, best, a, b[..|b|-1], request);
    }
  }

  lemma {:induction false} FoldImproves(len: Measure, best: Option<Match>, es: seq<Match>, request: string)
    ensures var r := Fold(len, best, es, request);
      r == best || (r.Some? && (best.None? || Better(len, r.value, best.value)))
  {
    if es != [] {
      FoldImproves(len, best, es[..|es|-1], request);
    }
  }

  lemma {:induction false} FoldIdle(len: Measure, best: Option<Match>, es: seq<Match>, request: string)
    requires forall m :: m in es ==> !Matches(m, request)
    ensures Fold(len, best, es, request) == best
  {
    if es != [] {
      FoldIdle(len, best, es[..|es|-1], request);
    }
  }

  /** The recursive search is the left fold over the nodes in pre-order, for either measure. */
  lemma {:induction false} SearchIsFold(len: Measure, node: Node, base: string, path: string, best: Option<Match>)
    requires Routed(node) && (node.prefix != "" || path != "")
    ensures Search(len, node, base, path, best) == Fold(len, best, Entries(node, base), base + path)
    decreases node, 1
  {
    var es := Entries(node, base);
    if path == "" || !(node.prefix <= path) {
      forall m | m in es ensures !Matches(m, base + path) {
        EntriesBelow(node, base, m);
        PrefixLonger(base, node.prefix, path, m.full);
      }
      FoldIdle(len, best, es, base + path);
    } else {
      var here := Match(base + node.prefix, node.prefix, node.loc);
      var best' := if node.loc.handler.Some? then Challenge(len, best, here) else best;
      var rest := path[|node.prefix|..];
      assert here.full + rest == base + path;
      FoldConcat(len, best, [here], ForestEntries(node.children, here.full), base + path);
      FoldOne(len, best, here, base + path);
      ChildrenSearchIsFold(len, node.children, here.full, rest, best');
    }
  }

  lemma FoldOne(len: Measure, best: Option<Match>, m: Match, request: string)
    ensures Fold(len, best, [m], request) == if Matches(m, request) then Challenge(len, best, m) else best
  {
    assert [m][..0] == [];
  }

  lemma PrefixLonger(base: string, prefix: string, path: string, full: string)
    requires base + prefix <= full
    ensures full <= base + path ==> prefix <= path
  {
    if full <= base + path {
      assert prefix == (base + prefix)[|base|..] && path == (base + path)[|base|..];
    }
  }

  lemma {:induction false} ChildrenSearchIsFold(len: Measure, cs: seq<Node>, base: string, path: string,
                                                best: Option<Match>)
    requires forall i :: 0 <= i < |cs| ==> cs[i].prefix != "" && Routed(cs[i])
    ensures SearchChildren(len, cs, base, path, best)
            == Fold(len, best, ForestEntries(cs, base), base + path)
    decreases cs, 0
  {
    if cs != [] {
      var result := Search(len, cs[0], base, path, best);
      SearchIsFold(len, cs[0], base, path, best);
      FoldImproves(len, best, Entries(cs[0], base), base + path);
      FoldConcat(len, best, Entries(cs[0], base), ForestEntries(cs[1..], base), base + path);
      ChildrenSearchIsFold(len, cs[1..], base, path, result);
    }
  }

  // ---------------------------------------------------------------- which match wins

  /** Position `k` holds the winner: it beats every match before it and no later match beats it. */
  ghost predicate Wins(len: Measure, es: seq<Match>, request: string, k: nat)
  {
    && k < |es| && Matches(es[k], request)
    && (forall j :: 0 <= j < k && Matches(es[j], request) ==> Better(len, es[k], es[j]))
    && (forall j :: k < j < |es| && Matches(es[j], request) ==> !Better(len, es[j], es[k]))
  }

  lemma {:induction false} FoldWinner(len: Measure, es: seq<Match>, request: string) returns (k: nat)
    ensures Fold(len, None, es, request).None? <==> forall m :: m in es ==> !Matches(m, request)
    ensures Fold(len, None, es, request).Some? ==>
      Wins(len, es, request, k) && Fold(len, None, es, request) == Some(es[k])
  {
    k := 0;
    if es != [] {
      var front := es[..|es|-1];
      assert es == front + [es[|es|-1]];
      k := FoldWinner(len, front, request);
      if Matches(es[|es|-1], request)
         && (Fold(len, None, front, request).None? || Better(len, es[|es|-1], front[k])) {
        k := |es| - 1;
        assert forall m :: m in front && Matches(m, request) ==> Fold(len, None, front, request).Some?;
      }
    }
  }

  lemma WinnerUnique(len: Measure, es: seq<Match>, request: string, j: nat, k: nat)
    requires Wins(len, es, request, j) && Wins(len, es, request, k)
    ensures j == k
  {
  }

  lemma SearchWinner(len: Measure, tree: Node, request: string) returns (k: nat)
    requires Routed(tree) && request != ""
    ensures var es := Entries(tree, "");
      && (FindLongestPrefix(len, tree, request).None? <==> forall m :: m in es ==> !Matches(m, request))
      && (FindLongestPrefix(len, tree, request).Some? ==>
            Wins(len, es, request, k) && FindLongestPrefix(len, tree, request) == Some(es[k]))
  {
    SearchIsFold(len, tree, "", request, None);
    assert "" + request == request;
    k := FoldWinner(len, Entries(tree, ""), request);
  }

  lemma RegisteredMatch(tree: Node, p: string, request: string) returns (m: Match)
    requires Registered(tree, p) && p <= request
    ensures m in Entries(tree, "") && Matches(m, request) && m.full == p && Find(tree, p) == Some(m.loc)
  {
    m := FoundIsEntry(tree, "", p);
    assert "" + p == p;
  }

  lemma MatchRegistered(tree: Node, m: Match)
    requires Routed(tree) && m in Entries(tree, "") && m.loc.handler.Some?
    ensures Registered(tree, m.full) && Find(tree, m.full) == Some(m.loc)
  {
    EntryIsFound(tree, "", m);
    assert m.full[0..] == m.full;
  }

  /** `m` is a registered path that begins the request, of the lowest priority among those. */
  ghost predicate BestPriority(tree: Node, request: string, m: Match)
  {
    && Registered(tree, m.full) && m.full <= request && Find(tree, m.full) == Some(m.loc)
    && forall p :: Registered(tree, p) && p <= request ==> m.loc.priority <= Find(tree, p).value.priority
  }

  /** Every search finds something exactly when some registered path begins the request, and then one of
      the lowest priority among those. */
  lemma SearchSound(len: Measure, tree: Node, request: string)
    requires Routed(tree) && request != ""
    ensures FindLongestPrefix(len, tree, request).None?
      <==> forall p :: Registered(tree, p) ==> !(p <= request)
    ensures FindLongestPrefix(len, tree, request).Some? ==>
      BestPriority(tree, request, FindLongestPrefix(len, tree, request).value)
  {
    var es := Entries(tree, "");
    var k := SearchWinner(len, tree, request);
    forall p | Registered(tree, p) && p <= request
      ensures FindLongestPrefix(len, tree, request).Some?
      ensures es[k].loc.priority <= Find(tree, p).value.priority {
      var m := RegisteredMatch(tree, p, request);
      var j :| 0 <= j < |es| && es[j] == m;
    }
    if FindLongestPrefix(len, tree, request).Some? {
      MatchRegistered(tree, es[k]);
    }
  }

  /** The documented search: comparing full paths, the answer is the registered path of lowest priority
      and, among those, the one strictly longer than every other. */
  ghost predicate IsLongestPrefix(tree: Node, request: string, p: string)
  {
    && Registered(tree, p) && p <= request
    && forall q :: Registered(tree, q) && q <= request && q != p ==>
         var pr, qr := Find(tree, p).value.priority, Find(tree, q).value.priority;
         pr < qr || (pr == qr && |q| < |p|)
  }

  lemma PathSearchIsLongest(tree: Node, request: string)
    requires Routed(tree) && request != ""
    requires FindLongestPrefix(PathLength, tree, request).Some?
    ensures IsLongestPrefix(tree, request, FindLongestPrefix(PathLength, tree, request).value.full)
  {
    var es := Entries(tree, "");
    var k := SearchWinner(PathLength, tree, request);
    MatchRegistered(tree, es[k]);
    var p := es[k].full;
    forall q | Registered(tree, q) && q <= request && q != p
      ensures var pr, qr := Find(tree, p).value.priority, Find(tree, q).value.priority;
        pr < qr || (pr == qr && |q| < |p|)
    {
      var m := RegisteredMatch(tree, q, request);
      var j :| 0 <= j < |es| && es[j] == m;
      assert q == request[..|q|] && p == request[..|p|];
    }
  }

  /** The longest prefix is unique, so with full paths the answer depends only on what is registered,
      not on the order of insertion. */
  lemma OrderDoesNotMatter(t: Node, u: Node, request: string)
    requires Routed(t) && Routed(u) && request != ""
    requires forall p :: Registered(t, p) == Registered(u, p)
    requires forall p :: Registered(t, p) ==> Find(t, p) == Find(u, p)
    ensures var a, b := FindLongestPrefix(PathLength, t, request), FindLongestPrefix(PathLength, u, request);
      && (a.None? <==> b.None?)
      && (a.Some? ==> a.value.full == b.value.full && a.value.loc == b.value.loc)
  {
    SearchSound(PathLength, t, request);
    SearchSound(PathLength, u, request);
    if FindLongestPrefix(PathLength, t, request).Some? {
      PathSearchIsLongest(t, request);
      PathSearchIsLongest(u, request);
    }
  }

  // ---------------------------------------------------------------- when the code finds the longest prefix

  /** No stored path that begins `p` has a lower priority than the one stored at `p`. */
  ghost predicate Leads(es: seq<Match>, k: nat)
    requires k < |es|
  {
    es[k].loc.handler.Some?
    && forall j :: 0 <= j < |es| && Matches(es[j], es[k].full) ==> es[k].loc.priority <= es[j].loc.priority
  }

  /** A stored path begins another of the same priority, the longer one leading. */
  ghost predicate Rivals(es: seq<Match>, j: nat, k: nat)
    requires j < |es| && k < |es|
  {
    j != k && Matches(es[j], es[k].full) && Leads(es, k) && es[j].loc.priority == es[k].loc.priority
  }

  /** What registration must respect: among rivals the longer path has the longer own segment (as long
      a one suffices when it was reached first). */
  ghost predicate SegmentsFollowPaths(es: seq<Match>)
  {
    forall j, k :: 0 <= j < |es| && 0 <= k < |es| && Rivals(es, j, k) ==>
      |es[k].segment| > |es[j].segment| || (k < j && |es[k].segment| == |es[j].segment|)
  }

  /** The code's answer for a request is the documented one. */
  ghost predicate FindsLongest(tree: Node, request: string)
  {
    FindLongestPrefix(SegmentLength, tree, request) == FindLongestPrefix(PathLength, tree, request)
  }

  /** The longest match wins by segment length too, given the registration condition. */
  lemma {:induction false} LongestWinsBySegment(tree: Node, request: string, k: nat)
    requires Routed(tree) && SegmentsFollowPaths(Entries(tree, ""))
    requires Wins(PathLength, Entries(tree, ""), request, k)
    ensures Wins(SegmentLength, Entries(tree, ""), request, k)
  {
    var es := Entries(tree, "");
    forall j | 0 <= j < |es| && j != k && Matches(es[j], request)
      ensures es[k].loc.priority <= es[j].loc.priority
      ensures es[k].loc.priority == es[j].loc.priority ==> Rivals(es, j, k) {
      PrefixesOfOne(es[j].full, es[k].full, request);
      if es[k].loc.priority == es[j].loc.priority {
        assert |es[j].full| <= |es[k].full|;
        forall i | 0 <= i < |es| && Matches(es[i], es[k].full)
          ensures es[k].loc.priority <= es[i].loc.priority {
          assert Matches(es[i], request);
        }
      }
    }
  }

  lemma PrefixesOfOne(p: string, q: string, request: string)
    requires p <= request && q <= request
    ensures |p| <= |q| <==> p <= q
  {
  }

  /** A pair of rivals that breaks the condition shows on the request for the longer path itself. */
  lemma BrokenPairShows(tree: Node, j: nat, k: nat)
    requires Routed(tree) && j < |Entries(tree, "")| && k < |Entries(tree, "")|
    requires Rivals(Entries(tree, ""), j, k)
    requires var es := Entries(tree, "");
      !(|es[k].segment| > |es[j].segment| || (k < j && |es[k].segment| == |es[j].segment|))
    ensures Entries(tree, "")[k].full != "" && !FindsLongest(tree, Entries(tree, "")[k].full)
  {
    var es := Entries(tree, "");
    var request := es[k].full;
    DistinctPaths(tree, j, k);
    assert |es[j].full| < |es[k].full|;
    forall i | 0 <= i < |es| && i != k && Matches(es[i], request) ensures Better(PathLength, es[k], es[i]) {
      DistinctPaths(tree, i, k);
      PrefixesOfOne(es[i].full, es[k].full, request);
    }
    assert Wins(PathLength, es, request, k);
    var w := SearchWinner(PathLength, tree, request);
    WinnerUnique(PathLength, es, request, w, k);
    var v := SearchWinner(SegmentLength, tree, request);
    assert !Wins(SegmentLength, es, request, k);
    DistinctPaths(tree, v, k);
  }

  lemma DistinctPaths(tree: Node, i: nat, j: nat)
    requires Routed(tree) && i < |Entries(tree, "")| && j < |Entries(tree, "")| && i != j
    ensures Entries(tree, "")[i].full != Entries(tree, "")[j].full
  {
    EntriesDistinct(tree, "", if i < j then i else j, if i < j then j else i);
  }

  /** The search as written finds the documented answer on every request exactly when the registered
      segments follow the registered paths. */
  lemma FindsLongestIff(tree: Node)
    requires Routed(tree)
    ensures (forall request: string :: request != "" ==> FindsLongest(tree, request))
            <==> SegmentsFollowPaths(Entries(tree, ""))
  {
    var es := Entries(tree, "");
    if SegmentsFollowPaths(es) {
      forall request: string | request != "" ensures FindsLongest(tree, request) {
        var k := SearchWinner(PathLength, tree, request);
        var v := SearchWinner(SegmentLength, tree, request);
        if FindLongestPrefix(PathLength, tree, request).Some? {
          LongestWinsBySegment(tree, request, k);
          assert es[k] in es;
          WinnerUnique(SegmentLength, es, request, v, k);
        }
      }
    } else {
      var j, k :| 0 <= j < |es| && 0 <= k < |es| && Rivals(es, j, k)
        && !(|es[k].segment| > |es[j].segment| || (k < j && |es[k].segment| == |es[j].segment|));
      BrokenPairShows(tree, j, k);
    }
  }

  /** The condition fails on two nested locations: with "/api" and then "/api/v1" registered, a request
      below the second is answered by the first. */
  lemma NestedLocations(a: Handler, b: Handler, request: string)
    requires "/api/v1" <= request
    ensures var api := Location(Some(a), 4, "prefix", false);
      var v1 := Location(Some(b), 4, "prefix", false);
      var tree := InsertAll([Insertion("/api", api), Insertion("/api/v1", v1)]);
      && FindLongestPrefix(SegmentLength, tree, request) == Some(Match("/api", "/api", api))
      && FindLongestPrefix(PathLength, tree, request) == Some(Match("/api/v1", "/v1", v1))
  {
    var api, v1 := Location(Some(a), 4, "prefix", false), Location(Some(b), 4, "prefix", false);
    NestedTree(api, v1);
    NestedSearch(SegmentLength, api, v1, request);
    NestedSearch(PathLength, api, v1, request);
  }

  lemma NestedSearch(len: Measure, api: Location, v1: Location, request: string)
    requires "/api/v1" <= request && api.handler.Some? && v1.handler.Some?
    ensures FindLongestPrefix(len, Node("", NoLocation, [Node("/api", api, [Node("/v1", v1, [])])]), request)
            == Challenge(len, Some(Match("/api", "/api", api)), Match("/api/v1", "/v1", v1))
  {
    var inner := Node("/v1", v1, []);
    var outer := Node("/api", api, [inner]);
    var rest := request[4..];
    assert request[0..] == request && "/api" <= request && "/v1" <= rest;
    assert "/api" + "/v1" == "/api/v1";
    assert "" + "/api" == "/api" && "" + "" == "";
    var first := Some(Match("/api", "/api", api));
    assert Search(len, inner, "/api", rest, first) == Challenge(len, first, Match("/api/v1", "/v1", v1));
    assert SearchChildren(len, [inner], "/api", rest, first) == Search(len, inner, "/api", rest, first);
    assert Search(len, outer, "", request, None) == Search(len, inner, "/api", rest, first);
    assert SearchChildren(len, [outer], "", request, None) == Search(len, inner, "/api", rest, first);
  }

  lemma NestedTree(api: Location, v1: Location)
    requires api.handler.Some?
    ensures InsertAll([Insertion("/api", api), Insertion("/api/v1", v1)])
            == Node("", NoLocation, [Node("/api", api, [Node("/v1", v1, [])])])
  {
    var ops := [Insertion("/api", api), Insertion("/api/v1", v1)];
    var one := Node("", NoLocation, [Node("/api", api, [])]);
    assert ops[..1] == [Insertion("/api", api)] && ops[..1][..0] == [];
    assert InsertAll(ops[..1]) == one;
    NoSplit(one, "/api/v1", v1);
    assert "/api/v1"[0..] == "/api/v1" && "/api" <= "/api/v1" && "/api/v1"[4..] == "/v1";
    assert FirstMatch(one.children, "/api/v1") == 0;
    var child := one.children[0];
    NoSplit(child, "/api/v1", v1);
    assert [] + [Node("/v1", v1, [])] == [Node("/v1", v1, [])];
    assert InsertBelow(child, "/v1", v1) == Some(Node("/api", api, [Node("/v1", v1, [])]));
    assert one.children[0 := Node("/api", api, [Node("/v1", v1, [])])]
        == [Node("/api", api, [Node("/v1", v1, [])])];
    assert InsertBelow(one, "/api/v1", v1)
        == Some(Node("", NoLocation, [Node("/api", api, [Node("/v1", v1, [])])]));
  }
}
