/** Include processing over configuration objects merged in place and a shared visited set. */
module ConfigLoading {
  import opened Wrappers
  import opened IncludeModel

  class Config {
    var servers: seq<string>
    var stream: seq<string>
    var variables: map<string, string>
    var includes: seq<string>

    constructor (s: Settings)
      ensures Value() == s
    {
      servers, stream, variables, includes := s.servers, s.stream, s.variables, s.includes;
    }

    function Value(): Settings
      reads this
    {
      Settings(servers, stream, variables, includes)
    }

    /** Append another configuration's lists and take over the variables not set yet. */
    method Absorb(included: Config)
      requires included != this
      modifies this
      ensures Value() == Merge(old(Value()), included.Value())
    {
      servers := servers + included.servers;
      stream := stream + included.stream;
      variables := AddMissing(variables, included.variables);
    }
  }

  method AddMissing(mine: map<string, string>, theirs: map<string, string>) returns (r: map<string, string>)
    ensures r == theirs + mine
  {
    r := mine;
    var left := theirs.Keys;
    while left != {}
      invariant left <= theirs.Keys
      invariant r == (map k | k in theirs && k !in left :: theirs[k]) + mine
      decreases left
    {
      var k :| k in left;
      if k !in r {
        r := r[k := theirs[k]];
      }
      left := left - {k};
    }
  }

  class Loader {
    const fs: FileSystem
    /** The files on the way down to the one being processed. */
    var visited: set<Path>

    constructor (fs: FileSystem)
      ensures this.fs == fs && visited == {}
    {
      this.fs, visited := fs, {};
    }

    /** On success the configuration is flattened and the visited set is back to what it was. */
    method ProcessIncludes(cfg: Config, file: Path, depth: nat) returns (ok: bool)
      modifies this, cfg
      ensures ok <==> Process(fs, old(cfg.Value()), file, depth, old(visited)).Some?
      ensures ok ==> cfg.Value() == Process(fs, old(cfg.Value()), file, depth, old(visited)).value
      ensures ok ==> visited == old(visited)
      decreases MAX_INCLUDE_DEPTH - depth, 2
    {
      if depth >= MAX_INCLUDE_DEPTH {
        return false;
      }
      var patterns := cfg.includes;
      ghost var goal := ProcessPatterns(fs, cfg.Value(), file, patterns, depth, visited);
      assert patterns[0..] == patterns;
      for i := 0 to |patterns|
        invariant visited == old(visited)
        invariant ProcessPatterns(fs, cfg.Value(), file, patterns[i..], depth, visited) == goal
      {
        var matches := fs.expand(file, patterns[i]);
        assert patterns[i..][0] == patterns[i] && patterns[i..][1..] == patterns[i+1..];
        if matches.None? || |matches.value| == 0 {
          return false;
        }
        ok := IncludeMatches(cfg, matches.value, depth);
        if !ok {
          return;
        }
      }
      cfg.includes := [];
      return true;
    }

    method IncludeMatches(cfg: Config, matches: seq<Path>, depth: nat) returns (ok: bool)
      requires depth < MAX_INCLUDE_DEPTH
      modifies this, cfg
      ensures ok <==> ProcessMatches(fs, old(cfg.Value()), matches, depth, old(visited)).Some?
      ensures ok ==> cfg.Value() == ProcessMatches(fs, old(cfg.Value()), matches, depth, old(visited)).value
      ensures ok ==> visited == old(visited)
      decreases MAX_INCLUDE_DEPTH - depth, 1
    {
      ghost var goal := ProcessMatches(fs, cfg.Value(), matches, depth, visited);
      assert matches[0..] == matches;
      for j := 0 to |matches|
        invariant visited == old(visited)
        invariant ProcessMatches(fs, cfg.Value(), matches[j..], depth, visited) == goal
      {
        assert matches[j..][0] == matches[j] && matches[j..][1..] == matches[j+1..];
        ok := IncludeMatch(cfg, matches[j], depth);
        if !ok {
          return;
        }
      }
      return true;
    }

    /** One matched path: an ancestor is a cycle, a directory is skipped, a file is flattened and absorbed. */
    method IncludeMatch(cfg: Config, m: Path, depth: nat) returns (ok: bool)
      requires depth < MAX_INCLUDE_DEPTH
      modifies this, cfg
      ensures ok <==> ProcessMatch(fs, old(cfg.Value()), m, depth, old(visited)).Some?
      ensures ok ==> cfg.Value() == ProcessMatch(fs, old(cfg.Value()), m, depth, old(visited)).value
      ensures ok ==> visited == old(visited)
      decreases MAX_INCLUDE_DEPTH - depth, 0
    {
      if m in visited {
        return false;
      }
      visited := visited + {m};
      if m !in fs.files {
        return false;
      }
      if fs.files[m].Directory? {
        visited := visited - {m};
        return true;
      }
      if fs.files[m].settings.None? {
        return false;
      }
      var included := new Config(fs.files[m].settings.value);
      if |included.includes| > 0 {
        var flat := ProcessIncludes(included, m, depth + 1);
        if !flat {
          return false;
        }
      }
      cfg.Absorb(included);
      visited := visited - {m};
      return true;
    }

    /** Load the root file; nothing when it cannot be read or parsed. */
    method Load(root: Path) returns (cfg: Option<Settings>)
      modifies this
      ensures cfg == if IsFile(fs, root) then FlatFile(fs, [root]) else None
    {
      if !IsFile(fs, root) {
        return None;
      }
      var c := new Config(SettingsOf(fs, root));
      if |c.includes| > 0 {
        visited := {root};
        assert (set p | p in [root]) == {root};
        var ok := ProcessIncludes(c, root, 0);
        if !ok {
          return None;
        }
      }
      return Some(c.Value());
    }
  }
}
