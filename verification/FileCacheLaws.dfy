/** What the critical sections of the file cache leave for a path, and reading back across runs. */
module FileCacheLaws {
  import opened Wrappers
  import opened Recency
  import opened FileCacheModel

  /** What storing a file puts in the cache. */
  function Written(path: string, data: string, size: int, modTime: int, contentType: string, now: int): Record
  {
    Item(path, File(data, size, modTime, contentType, Some(now), now))
  }

  /** After a file is stored its path has exactly what was passed, replacing what it had; and with non-negative
      sizes it is there, most recent of all, if and only if it respects the byte limit - otherwise the cache is
      empty. */
  lemma SetLaw(l: Limits, rs: seq<Record>, path: string, data: string, size: int, modTime: int,
               contentType: string, now: int)
    requires DistinctKeys(rs)
    ensures var after := Step(l, rs, Set(path, data, size, modTime, contentType), now);
      && (forall x :: x in after && x.key == path ==> x == Written(path, data, size, modTime, contentType, now))
      && (NonNegative(rs) && size >= 0 ==>
            if l.maxSize <= 0 || size <= l.maxSize
            then after != [] && after[0] == Written(path, data, size, modTime, contentType, now)
            else after == [])
  {
    var r := Written(path, data, size, modTime, contentType, now);
    var all := Promote(rs, r);
    var k := LongestFitIsLongest(l, all);
    PromoteDistinct(rs, r);
    var after := Step(l, rs, Set(path, data, size, modTime, contentType), now);
    assert after == all[..k];
    forall x | x in after && x.key == path ensures x == r {
      var i :| 0 <= i < |after| && after[i] == x;
      assert all[i] == x && all[0] == r;
    }
    if NonNegative(rs) && size >= 0 {
      SetStores(l, rs, r);
    }
  }

  /** A deletion removes the path. */
  lemma DeleteLaw(l: Limits, rs: seq<Record>, path: string, now: int)
    ensures !Has(Step(l, rs, Delete(path), now), path)
    ensures !Has(rs, path) ==> Step(l, rs, Delete(path), now) == rs
  {
    AbsentWithout(rs, path);
    if !Has(rs, path) {
      assert forall i :: 0 <= i < |rs| ==> rs[i].key != path by {
        forall i | 0 <= i < |rs| ensures rs[i].key != path { }
      }
      WithoutAbsent(rs, path);
    }
  }

  /** The file at the front, the others behind it. */
  ghost predicate FrontedBy(after: seq<Record>, rs: seq<Record>, r: Record)
  {
    after == [r] + Without(rs, r.key)
  }

  /** A refresh stamps the stored file with the instant, as caching and as access time, changes nothing else in
      it, and makes it the most recent; a touch only changes the access time. */
  lemma RefreshLaw(l: Limits, rs: seq<Record>, path: string, now: int)
    requires Has(rs, path)
    ensures var f := Lookup(rs, path).body;
      && FrontedBy(Step(l, rs, Refresh(path), now), rs,
                   Item(path, File(f.data, f.size, f.modTime, f.contentType, Some(now), now)))
      && FrontedBy(Step(l, rs, Touch(path), now), rs,
                   Item(path, File(f.data, f.size, f.modTime, f.contentType, f.cachedAt, now)))
  {
  }

  /** A file is idle when it was last accessed longer ago than the limit: then expiring and migrating remove
      it; otherwise expiring leaves everything alone and migrating refreshes it. */
  lemma IdleLaw(l: Limits, rs: seq<Record>, path: string, now: int)
    requires Has(rs, path)
    ensures if now - Lookup(rs, path).body.lastAccess > l.inactive
            then !Has(Step(l, rs, Expire(path), now), path) && !Has(Step(l, rs, Migrate(path), now), path)
            else Step(l, rs, Expire(path), now) == rs
                 && Step(l, rs, Migrate(path), now) == Step(l, rs, Refresh(path), now)
  {
    AbsentWithout(rs, path);
  }

  /** Nothing but storing acts on a path that is not stored. */
  lemma AbsentLaw(l: Limits, rs: seq<Record>, op: Op, now: int)
    requires !op.Set? && !Has(rs, op.path)
    ensures Step(l, rs, op, now) == rs
  {
    DeleteLaw(l, rs, op.path, now);
  }

  // ---------------------------------------------------------------- across runs

  function RunFrom(l: Limits, rs: seq<Record>, ops: seq<Timed>): seq<Record>
  {
    if ops == [] then rs else Step(l, RunFrom(l, rs, ops[..|ops|-1]), ops[|ops|-1].op, ops[|ops|-1].now)
  }

  lemma {:induction false} OthersStay(l: Limits, rs: seq<Record>, ops: seq<Timed>, x: Record)
    requires forall i :: 0 <= i < |ops| ==> ops[i].op.path != x.key
    requires x in RunFrom(l, rs, ops)
    ensures x in rs
  {
    if ops != [] {
      OthersUntouched(l, RunFrom(l, rs, ops[..|ops|-1]), ops[|ops|-1].op, ops[|ops|-1].now, x);
      OthersStay(l, rs, ops[..|ops|-1], x);
    }
  }

  /** Read after write: after a file was stored, and whatever was done to other paths since, its path holds
      exactly that file, if it has not been evicted. */
  lemma {:induction false} ReadAfterSet(l: Limits, rs: seq<Record>, path: string, data: string, size: int,
                                        modTime: int, contentType: string, at: int, ops: seq<Timed>)
    requires DistinctKeys(rs) && forall i :: 0 <= i < |ops| ==> ops[i].op.path != path
    ensures var after := RunFrom(l, Step(l, rs, Set(path, data, size, modTime, contentType), at), ops);
      Has(after, path) ==> Lookup(after, path) == Written(path, data, size, modTime, contentType, at)
  {
    var stored := Step(l, rs, Set(path, data, size, modTime, contentType), at);
    var after := RunFrom(l, stored, ops);
    if Has(after, path) {
      var x := Lookup(after, path);
      assert x in after && x.key == path;
      OthersStay(l, stored, ops, x);
      SetLaw(l, rs, path, data, size, modTime, contentType, at);
    }
  }
}
