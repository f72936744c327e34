/** Configuration includes: what flattening a configuration means, and exactly when it succeeds. */
module IncludeModel {
  import opened Wrappers

  type Path = string

  datatype Settings = Settings(servers: seq<string>, stream: seq<string>, variables: map<string, string>,
                               includes: seq<string>)

  /** A path is a directory or a file; the settings are None when the file cannot be read or parsed. */
  datatype Node = Directory | File(settings: Option<Settings>)

  /** `expand(file, pattern)` are the absolute paths an include pattern of that file matches, None when the
      pattern is malformed. */
  datatype FileSystem = FileSystem(files: map<Path, Node>, expand: (Path, string) -> Option<seq<Path>>)

  const MAX_INCLUDE_DEPTH: nat := 10

  // ---------------------------------------------------------------- the merging pass

  /** Append the lists; a variable already set keeps its value. */
  function Merge(cfg: Settings, included: Settings): Settings
  {
    Settings(cfg.servers + included.servers, cfg.stream + included.stream,
             included.variables + cfg.variables, cfg.includes)
  }

  /** Flattening as written; None is an error. `visited` are the files on the way down to this one. */
  function Process(fs: FileSystem, cfg: Settings, file: Path, depth: nat, visited: set<Path>): Option<Settings>
    decreases MAX_INCLUDE_DEPTH - depth, 2, 0
  {
    if depth >= MAX_INCLUDE_DEPTH then None
    else
      var r := ProcessPatterns(fs, cfg, file, cfg.includes, depth, visited);
      if r.None? then None else Some(r.value.(includes := []))
  }

  function ProcessPatterns(fs: FileSystem, cfg: Settings, file: Path, patterns: seq<string>, depth: nat,
                           visited: set<Path>): Option<Settings>
    requires depth < MAX_INCLUDE_DEPTH
    decreases MAX_INCLUDE_DEPTH - depth, 1, |patterns|
  {
    if patterns == [] then Some(cfg)
    else
      var matches := fs.expand(file, patterns[0]);
      if matches.None? || matches.value == [] then None
      else
        var r := ProcessMatches(fs, cfg, matches.value, depth, visited);
        if r.None? then None else ProcessPatterns(fs, r.value, file, patterns[1..], depth, visited)
  }

  function ProcessMatches(fs: FileSystem, cfg: Settings, matches: seq<Path>, depth: nat, visited: set<Path>)
    : Option<Settings>
    requires depth < MAX_INCLUDE_DEPTH
    decreases MAX_INCLUDE_DEPTH - depth, 0, |matches|
  {
    if matches == [] then Some(cfg)
    else
      var r := ProcessMatch(fs, cfg, matches[0], depth, visited);
      if r.None? then None else ProcessMatches(fs, r.value, matches[1..], depth, visited)
  }

  function ProcessMatch(fs: FileSystem, cfg: Settings, m: Path, depth: nat, visited: set<Path>): Option<Settings>
    requires depth < MAX_INCLUDE_DEPTH
    decreases MAX_INCLUDE_DEPTH - depth, 0, 0
  {
    if m in visited || m !in fs.files then None
    else
      match fs.files[m]
      case Directory => Some(cfg)
      case File(None) => None
      case File(Some(included)) =>
        var flat := if included.includes == [] then Some(included)
                    else Process(fs, included, m, depth + 1, visited + {m});
        if flat.None? then None else Some(Merge(cfg, flat.value))
  }

  // ---------------------------------------------------------------- include chains

  predicate IsFile(fs: FileSystem, p: Path)
  {
    p in fs.files && fs.files[p].File? && fs.files[p].settings.Some?
  }

  function SettingsOf(fs: FileSystem, p: Path): Settings
    requires IsFile(fs, p)
  {
    fs.files[p].settings.value
  }

  /** Some include of `p` matches `m`. */
  ghost predicate Includes(fs: FileSystem, p: Path, m: Path)
    requires IsFile(fs, p)
  {
    exists i :: 0 <= i < |SettingsOf(fs, p).includes| && Matched(fs, p, i, m)
  }

  predicate Matched(fs: FileSystem, p: Path, i: nat, m: Path)
    requires IsFile(fs, p) && i < |SettingsOf(fs, p).includes|
  {
    var ms := fs.expand(p, SettingsOf(fs, p).includes[i]);
    ms.Some? && m in ms.value
  }

  /** A way down the includes: each file includes the next. */
  ghost predicate IsChain(fs: FileSystem, c: seq<Path>)
  {
    && c != []
    && (forall i :: 0 <= i < |c| ==> IsFile(fs, c[i]))
    && (forall i :: 0 <= i < |c| - 1 ==> Includes(fs, c[i], c[i+1]))
  }

  /** The end of a chain is in order: if it includes anything it is not too deep, every one of its patterns
      matches something, and everything matched exists, is readable, and is not on the chain already. */
  ghost predicate EndsWell(fs: FileSystem, c: seq<Path>)
    requires IsChain(fs, c)
  {
    var last := c[|c|-1];
    SettingsOf(fs, last).includes != [] ==>
      && |c| <= 10
      && (forall i :: 0 <= i < |SettingsOf(fs, last).includes| ==>
            var ms := fs.expand(last, SettingsOf(fs, last).includes[i]); ms.Some? && ms.value != [])
      && (forall m :: Includes(fs, last, m) ==> Acceptable(fs, c, m))
  }

  predicate Acceptable(fs: FileSystem, c: seq<Path>, m: Path)
  {
    m !in c && m in fs.files && (fs.files[m].Directory? || IsFile(fs, m))
  }

  /** Every chain that continues `c` ends well. */
  ghost predicate AllWell(fs: FileSystem, c: seq<Path>)
  {
    forall d :: IsChain(fs, d) && c <= d ==> EndsWell(fs, d)
  }

  /** The flattened form of the last file of a chain. */
  function FlatFile(fs: FileSystem, c: seq<Path>): Option<Settings>
    requires c != [] && IsFile(fs, c[|c|-1])
  {
    var s := SettingsOf(fs, c[|c|-1]);
    if s.includes == [] then Some(s)
    else Process(fs, s, c[|c|-1], |c| - 1, set p | p in c)
  }

  // ---------------------------------------------------------------- success

  ghost predicate ChildrenWell(fs: FileSystem, c: seq<Path>)
    requires IsChain(fs, c)
  {
    forall m :: Includes(fs, c[|c|-1], m) && IsFile(fs, m) ==> AllWell(fs, c + [m])
  }

  lemma WellBelow(fs: FileSystem, c: seq<Path>)
    requires IsChain(fs, c) && AllWell(fs, c)
    ensures EndsWell(fs, c) && ChildrenWell(fs, c)
  {
    forall m | Includes(fs, c[|c|-1], m) && IsFile(fs, m) ensures AllWell(fs, c + [m]) {
      forall d | IsChain(fs, d) && c + [m] <= d ensures EndsWell(fs, d) {
        assert d[..|c|] == (c + [m])[..|c|] == c;
      }
    }
  }

  lemma WellAbove(fs: FileSystem, c: seq<Path>)
    requires IsChain(fs, c) && EndsWell(fs, c) && ChildrenWell(fs, c)
    ensures AllWell(fs, c)
  {
    forall d | IsChain(fs, d) && c <= d ensures EndsWell(fs, d) {
      if |d| == |c| {
        assert d == c;
      } else {
        assert Includes(fs, d[|c|-1], d[|c|-1+1]);
        assert c + [d[|c|]] <= d;
      }
    }
  }

  /** All is well below `c` exactly when `c` ends well and all is well below each included file. */
  lemma AllWellUnfold(fs: FileSystem, c: seq<Path>)
    requires IsChain(fs, c)
    ensures AllWell(fs, c) <==> EndsWell(fs, c) && ChildrenWell(fs, c)
  {
    if AllWell(fs, c) {
      WellBelow(fs, c);
    }
    if EndsWell(fs, c) && ChildrenWell(fs, c) {
      WellAbove(fs, c);
    }
  }

  /** Flattening a file succeeds exactly when every include chain from it ends well. */
  lemma {:induction false} FlatFileIff(fs: FileSystem, c: seq<Path>)
    requires IsChain(fs, c)
    ensures FlatFile(fs, c).Some? <==> AllWell(fs, c)
    decreases MAX_INCLUDE_DEPTH - (|c| - 1), 2, 0
  {
    var last := c[|c|-1];
    var s := SettingsOf(fs, last);
    AllWellUnfold(fs, c);
    if s.includes != [] && |c| <= MAX_INCLUDE_DEPTH {
      PatternsIff(fs, c, s, 0);
      assert s.includes[0..] == s.includes;
      PatternsWellMeans(fs, c);
    }
  }

  lemma PatternsWellMeans(fs: FileSystem, c: seq<Path>)
    requires IsChain(fs, c) && |c| <= MAX_INCLUDE_DEPTH
    requires SettingsOf(fs, c[|c|-1]).includes != []
    ensures PatternsWell(fs, c, 0) <==>
      EndsWell(fs, c) && ChildrenWell(fs, c)
  {
    var last := c[|c|-1];
    var s := SettingsOf(fs, last);
    if PatternsWell(fs, c, 0) {
      forall m | Includes(fs, last, m) ensures Acceptable(fs, c, m) && (IsFile(fs, m) ==> AllWell(fs, c + [m])) {
        var i :| 0 <= i < |s.includes| && Matched(fs, last, i, m);
        assert m in fs.expand(last, s.includes[i]).value;
      }
    }
    if EndsWell(fs, c) && ChildrenWell(fs, c) {
      forall k | 0 <= k < |s.includes| ensures MatchesWell(fs, c, fs.expand(last, s.includes[k]).value) {
        forall m | m in fs.expand(last, s.includes[k]).value
          ensures Acceptable(fs, c, m) && (IsFile(fs, m) ==> AllWell(fs, c + [m])) {
          assert Matched(fs, last, k, m);
        }
      }
    }
  }

  lemma ExtendChain(fs: FileSystem, c: seq<Path>, m: Path)
    requires IsChain(fs, c) && IsFile(fs, m) && Includes(fs, c[|c|-1], m)
    ensures IsChain(fs, c + [m]) && (set p | p in c + [m]) == (set p | p in c) + {m}
  {
    var d := c + [m];
    forall i | 0 <= i < |d| - 1 ensures Includes(fs, d[i], d[i+1]) {
      assert d[i] == c[i];
      assert i < |c| - 1 ==> d[i+1] == c[i+1];
    }
  }

  /** The patterns from `i` on are all expandable, and all they match is acceptable and well below. */
  ghost predicate PatternsWell(fs: FileSystem, c: seq<Path>, i: nat)
    requires IsChain(fs, c)
  {
    var s := SettingsOf(fs, c[|c|-1]);
    forall k :: i <= k < |s.includes| ==>
      var ms := fs.expand(c[|c|-1], s.includes[k]);
      ms.Some? && ms.value != [] && MatchesWell(fs, c, ms.value)
  }

  ghost predicate MatchesWell(fs: FileSystem, c: seq<Path>, ms: seq<Path>)
  {
    forall m :: m in ms ==> Acceptable(fs, c, m) && (IsFile(fs, m) ==> AllWell(fs, c + [m]))
  }

  lemma {:induction false} PatternsIff(fs: FileSystem, c: seq<Path>, cfg: Settings, i: nat)
    requires IsChain(fs, c) && |c| <= MAX_INCLUDE_DEPTH && i <= |SettingsOf(fs, c[|c|-1]).includes|
    ensures ProcessPatterns(fs, cfg, c[|c|-1], SettingsOf(fs, c[|c|-1]).includes[i..], |c| - 1, set p | p in c).Some?
      <==> PatternsWell(fs, c, i)
    decreases MAX_INCLUDE_DEPTH - (|c| - 1), 1, |SettingsOf(fs, c[|c|-1]).includes| - i
  {
    var last := c[|c|-1];
    var patterns := SettingsOf(fs, last).includes;
    if i < |patterns| {
      var ms := fs.expand(last, patterns[i]);
      assert patterns[i..][0] == patterns[i] && patterns[i..][1..] == patterns[i+1..];
      if ms.Some? && ms.value != [] {
        assert forall m :: m in ms.value ==> Matched(fs, last, i, m);
        MatchesIff(fs, c, cfg, ms.value);
        var r := ProcessMatches(fs, cfg, ms.value, |c| - 1, set p | p in c);
        if r.Some? {
          PatternsIff(fs, c, r.value, i + 1);
        }
      }
    }
  }

  lemma {:induction false} MatchesIff(fs: FileSystem, c: seq<Path>, cfg: Settings, ms: seq<Path>)
    requires IsChain(fs, c) && |c| <= MAX_INCLUDE_DEPTH
    requires forall m :: m in ms ==> Includes(fs, c[|c|-1], m)
    ensures ProcessMatches(fs, cfg, ms, |c| - 1, set p | p in c).Some? <==> MatchesWell(fs, c, ms)
    decreases MAX_INCLUDE_DEPTH - (|c| - 1), 0, |ms|
  {
    if ms != [] {
      var m := ms[0];
      var visited := set p | p in c;
      assert m in ms && Includes(fs, c[|c|-1], m);
      assert forall x :: x in ms <==> x == m || x in ms[1..];
      if Acceptable(fs, c, m) {
        if IsFile(fs, m) {
          ExtendChain(fs, c, m);
          FlatFileIff(fs, c + [m]);
        }
        var r := ProcessMatch(fs, cfg, m, |c| - 1, visited);
        if r.Some? {
          MatchesIff(fs, c, r.value, ms[1..]);
        }
      }
    }
  }

  // ---------------------------------------------------------------- what the result is

  /** The settings of all files reached from the last file of a chain, in pre-order. */
  function Listing(fs: FileSystem, c: seq<Path>): seq<Settings>
    requires c != [] && IsFile(fs, c[|c|-1])
    decreases MAX_INCLUDE_DEPTH + 1 - |c|, 2, 0
  {
    var s := SettingsOf(fs, c[|c|-1]);
    [s] + if |c| > MAX_INCLUDE_DEPTH then [] else ListPatterns(fs, c, s.includes)
  }

  function ListPatterns(fs: FileSystem, c: seq<Path>, patterns: seq<string>): seq<Settings>
    requires 0 < |c| <= MAX_INCLUDE_DEPTH
    decreases MAX_INCLUDE_DEPTH + 1 - |c|, 1, |patterns|
  {
    if patterns == [] then []
    else
      var ms := fs.expand(c[|c|-1], patterns[0]);
      (if ms.None? then [] else ListMatches(fs, c, ms.value)) + ListPatterns(fs, c, patterns[1..])
  }

  function ListMatches(fs: FileSystem, c: seq<Path>, ms: seq<Path>): seq<Settings>
    requires 0 < |c| <= MAX_INCLUDE_DEPTH
    decreases MAX_INCLUDE_DEPTH + 1 - |c|, 0, |ms|
  {
    if ms == [] then []
    else (if IsFile(fs, ms[0]) then Listing(fs, c + [ms[0]]) else []) + ListMatches(fs, c, ms[1..])
  }

  /** All servers and streams in order, and each variable as first defined. */
  function Flatten(list: seq<Settings>): Settings
  {
    if list == [] then Settings([], [], map[], [])
    else Merge(list[0].(includes := []), Flatten(list[1..]))
  }

  /** The servers, and the streams, of some settings, one after the other. */
  function AllServers(list: seq<Settings>): seq<string>
  {
    if list == [] then [] else list[0].servers + AllServers(list[1..])
  }

  function AllStreams(list: seq<Settings>): seq<string>
  {
    if list == [] then [] else list[0].stream + AllStreams(list[1..])
  }

  /** The flattened settings have the servers and streams of the whole list in its order, and no includes. */
  lemma {:induction false} FlattenedLists(list: seq<Settings>)
    ensures Flatten(list).servers == AllServers(list)
    ensures Flatten(list).stream == AllStreams(list)
    ensures Flatten(list).includes == []
  {
    if list != [] {
      FlattenedLists(list[1..]);
    }
  }

  lemma MergeAssociative(a: Settings, b: Settings, c: Settings)
    ensures Merge(Merge(a, b), c) == Merge(a, Merge(b, c))
  {
  }

  lemma MergeNothing(a: Settings)
    ensures Merge(a, Flatten([])) == a
  {
  }

  lemma {:induction false} FlattenConcat(a: seq<Settings>, b: seq<Settings>)
    ensures Flatten(a + b) == Merge(Flatten(a), Flatten(b))
  {
    if a == [] {
      assert a + b == b;
      FlattenNoIncludes(b);
    } else {
      assert (a + b)[1..] == a[1..] + b && (a + b)[0] == a[0];
      FlattenConcat(a[1..], b);
      MergeAssociative(a[0].(includes := []), Flatten(a[1..]), Flatten(b));
      FlattenCons(a);
      FlattenCons(a + b);
    }
  }

  lemma FlattenCons(list: seq<Settings>)
    requires list != []
    ensures Flatten(list) == Merge(list[0].(includes := []), Flatten(list[1..]))
  {
  }

  lemma FlattenNoIncludes(list: seq<Settings>)
    ensures Flatten(list).includes == []
    ensures Merge(Settings([], [], map[], []), Flatten(list)) == Flatten(list)
  {
    assert [] + Flatten(list).servers == Flatten(list).servers;
  }

  /** On success the merging pass yields the flattened pre-order listing. */
  lemma {:induction false} FlatFileIsListing(fs: FileSystem, c: seq<Path>)
    requires c != [] && IsFile(fs, c[|c|-1]) && FlatFile(fs, c).Some?
    ensures FlatFile(fs, c).value == Flatten(Listing(fs, c))
    decreases MAX_INCLUDE_DEPTH + 1 - |c|, 2, 0
  {
    var s := SettingsOf(fs, c[|c|-1]);
    var rest := if |c| > MAX_INCLUDE_DEPTH then [] else ListPatterns(fs, c, s.includes);
    assert ([s] + rest)[1..] == rest;
    if s.includes == [] {
      assert rest == [];
      MergeNothing(s);
    } else {
      PatternsAreListing(fs, c, s, s.includes);
    }
  }

  lemma {:induction false} PatternsAreListing(fs: FileSystem, c: seq<Path>, cfg: Settings, patterns: seq<string>)
    requires 0 < |c| <= MAX_INCLUDE_DEPTH
    requires ProcessPatterns(fs, cfg, c[|c|-1], patterns, |c| - 1, set p | p in c).Some?
    ensures ProcessPatterns(fs, cfg, c[|c|-1], patterns, |c| - 1, set p | p in c).value
            == Merge(cfg, Flatten(ListPatterns(fs, c, patterns)))
    decreases MAX_INCLUDE_DEPTH + 1 - |c|, 1, |patterns|
  {
    if patterns == [] {
      MergeNothing(cfg);
    } else {
      var ms := fs.expand(c[|c|-1], patterns[0]).value;
      var r := ProcessMatches(fs, cfg, ms, |c| - 1, set p | p in c).value;
      MatchesAreListing(fs, c, cfg, ms);
      PatternsAreListing(fs, c, r, patterns[1..]);
      var a, b := ListMatches(fs, c, ms), ListPatterns(fs, c, patterns[1..]);
      FlattenConcat(a, b);
      MergeAssociative(cfg, Flatten(a), Flatten(b));
    }
  }

  lemma {:induction false} MatchesAreListing(fs: FileSystem, c: seq<Path>, cfg: Settings, ms: seq<Path>)
    requires 0 < |c| <= MAX_INCLUDE_DEPTH
    requires ProcessMatches(fs, cfg, ms, |c| - 1, set p | p in c).Some?
    ensures ProcessMatches(fs, cfg, ms, |c| - 1, set p | p in c).value
            == Merge(cfg, Flatten(ListMatches(fs, c, ms)))
    decreases MAX_INCLUDE_DEPTH + 1 - |c|, 0, |ms|
  {
    if ms == [] {
      MergeNothing(cfg);
    } else {
      var m := ms[0];
      var a := if IsFile(fs, m) then Listing(fs, c + [m]) else [];
      var b := ListMatches(fs, c, ms[1..]);
      var r := ProcessMatch(fs, cfg, m, |c| - 1, set p | p in c).value;
      assert r == Merge(cfg, Flatten(a)) by {
        if IsFile(fs, m) {
          assert (set p | p in c + [m]) == (set p | p in c) + {m};
          FlatFileIsListing(fs, c + [m]);
        } else {
          MergeNothing(cfg);
        }
      }
      MatchesAreListing(fs, c, r, ms[1..]);
      FlattenConcat(a, b);
      MergeAssociative(cfg, Flatten(a), Flatten(b));
    }
  }

  /** A variable of the flattened settings has the value of its first definition in the listing. */
  lemma {:induction false} VariableFirstDefined(list: seq<Settings>, k: string) returns (i: nat)
    ensures k in Flatten(list).variables <==> i < |list|
    ensures i <= |list| && forall j :: 0 <= j < i ==> k !in list[j].variables
    ensures i < |list| ==> k in list[i].variables && Flatten(list).variables[k] == list[i].variables[k]
  {
    if list == [] || k in list[0].variables {
      i := 0;
    } else {
      i := VariableFirstDefined(list[1..], k);
      i := i + 1;
    }
  }

  /** The whole of loading: it succeeds exactly when every include chain from the root ends well, and then
      yields the flattened pre-order listing. */
  lemma LoadCorrect(fs: FileSystem, root: Path)
    requires IsFile(fs, root)
    ensures FlatFile(fs, [root]).Some? <==> forall c :: IsChain(fs, c) && c[0] == root ==> EndsWell(fs, c)
    ensures FlatFile(fs, [root]).Some? ==>
      var cfg, list := FlatFile(fs, [root]).value, Listing(fs, [root]);
      && cfg == Flatten(list)
      && cfg.servers == AllServers(list) && cfg.stream == AllStreams(list) && cfg.includes == []
  {
    FlatFileIff(fs, [root]);
    FlattenedLists(Listing(fs, [root]));
    assert forall c :: IsChain(fs, c) ==> (c[0] == root <==> [root] <= c);
    if FlatFile(fs, [root]).Some? {
      FlatFileIsListing(fs, [root]);
    }
  }

  /** And when it succeeds no include chain repeats a file. */
  lemma {:induction false} NoFileRepeats(fs: FileSystem, c: seq<Path>, i: nat, j: nat)
    requires IsChain(fs, c) && i < j < |c|
    requires forall d :: IsChain(fs, d) && d <= c ==> EndsWell(fs, d)
    ensures c[i] != c[j] && j <= 10
  {
    var d := c[..j];
    assert IsChain(fs, d) by {
      forall k | 0 <= k < |d| - 1 ensures Includes(fs, d[k], d[k+1]) {
        assert Includes(fs, c[k], c[k+1]);
      }
    }
    assert EndsWell(fs, d);
    assert Includes(fs, c[j-1], c[j-1+1]);
    assert d[|d|-1] == c[j-1] && d[i] == c[i];
    assert Acceptable(fs, d, c[j]);
  }

  /** The order in a small tree: a root with two includes, the first of which includes another file. */
  lemma {:induction false} NestedOrder(fs: FileSystem, main: Settings, a: Settings, b: Settings, c: Settings)
    requires IsFile(fs, "main") && SettingsOf(fs, "main") == main && main.includes == ["x", "y"]
    requires IsFile(fs, "a") && SettingsOf(fs, "a") == a && a.includes == ["z"]
    requires IsFile(fs, "b") && SettingsOf(fs, "b") == b && b.includes == []
    requires IsFile(fs, "c") && SettingsOf(fs, "c") == c && c.includes == []
    requires fs.expand("main", "x") == Some(["a"]) && fs.expand("main", "y") == Some(["b"])
    requires fs.expand("a", "z") == Some(["c"])
    ensures Listing(fs, ["main"]) == [main, a, c, b]
  {
    assert Listing(fs, ["main"] + ["b"]) == [b];
    assert Listing(fs, ["main"] + ["a"] + ["c"]) == [c];
    assert ListMatches(fs, ["main"] + ["a"], ["c"]) == [c] + ListMatches(fs, ["main"] + ["a"], []);
    assert ListPatterns(fs, ["main"] + ["a"], ["z"]) == [c] + ListPatterns(fs, ["main"] + ["a"], []);
    assert Listing(fs, ["main"] + ["a"]) == [a, c];
    assert ListMatches(fs, ["main"], ["a"]) == [a, c] + ListMatches(fs, ["main"], []);
    assert ListMatches(fs, ["main"], ["b"]) == [b] + ListMatches(fs, ["main"], []);
    assert main.includes[1..] == ["y"] && ["y"][1..] == [];
    assert ListPatterns(fs, ["main"], ["y"]) == [b] + ListPatterns(fs, ["main"], []);
    assert ListPatterns(fs, ["main"], main.includes) == [a, c] + [b];
  }
}
