/** The file cache over its map, recency list and running size, updated in place. */
module FileCaches {
  import opened Wrappers
  import opened Recency
  import opened FileCacheModel

  /** Five seconds, in nanoseconds. */
  const ACCESS_UPDATE_INTERVAL := 5_000_000_000

  /** What the read-locked part of Get finds. */
  datatype Probe = Missing | Idle | NeedsMigration | Found(entry: Record)

  /** Map and list are in bijection with the records, and the running size is the sum of their sizes. */
  ghost predicate Stands(entries: map<string, Record>, lruList: seq<string>, size: int, rs: seq<Record>, now: int)
  {
    && lruList == Keys(rs) && entries == ByKey(rs) && size == Total(rs)
    && DistinctKeys(rs) && SortedByAccess(rs, now)
  }

  class FileCache {
    const limits: Limits
    var entries: map<string, Record>
    var lruList: seq<string>
    var currentSize: int
    /** The cached records, most recently used first, and the latest instant an operation has seen. */
    ghost var view: seq<Record>
    ghost var clock: int

    /** Map and list are in bijection and the running size is the sum of the live sizes. */
    ghost predicate Valid()
      reads this
    {
      Stands(entries, lruList, currentSize, view, clock)
    }

    constructor (limits: Limits)
      ensures Valid() && this.limits == limits && view == []
    {
      this.limits := limits;
      entries, lruList, currentSize, view, clock := map[], [], 0, [], 0;
    }

    method RemoveEntry(path: string)
      requires Valid() && path in entries
      modifies this
      ensures Valid() && clock == old(clock) && view == Without(old(view), path)
    {
      RemovalStands(entries, lruList, currentSize, view, clock, path);
      lruList := Unlink(lruList, path);
      currentSize := currentSize - entries[path].body.size;
      entries := entries - {path};
      view := Without(view, path);
    }

    /** Drop the least recently used entry, if any. */
    method EvictLRU()
      requires Valid()
      modifies this
      ensures Valid() && clock == old(clock)
      ensures view == if old(view) == [] then [] else old(view)[..|old(view)|-1]
    {
      KeysLength(view);
      if |lruList| == 0 {
        return;
      }
      LastWithout(view);
      Lookups(view, lruList[|lruList|-1]);
      RemoveEntry(lruList[|lruList|-1]);
    }

    /** Both loops end: an empty list has total size 0, which no positive limit forbids. */
    method EvictIfNeeded()
      requires Valid()
      modifies this
      ensures Valid() && clock == old(clock) && view == LongestFit(limits, old(view))
    {
      KeysLength(view);
      while |lruList| > limits.maxEntries && limits.maxEntries > 0
        invariant Valid() && clock == old(clock) && |lruList| == |view|
        invariant LongestFit(limits, view) == LongestFit(limits, old(view))
        decreases |view|
      {
        EvictLRU();
        KeysLength(view);
      }
      while currentSize > limits.maxSize && limits.maxSize > 0
        invariant Valid() && clock == old(clock) && CountFits(limits, view)
        invariant LongestFit(limits, view) == LongestFit(limits, old(view))
        decreases |view|
      {
        EvictLRU();
      }
    }

    /** Rewrite a stored entry with access time `now` and move it to the front. */
    method Rewrite(r: Record, now: int)
      requires Valid() && clock <= now == r.body.lastAccess && r.key in entries
      modifies this
      ensures Valid() && clock == now && view == Promote(old(view), r)
    {
      RewriteStands(entries, lruList, currentSize, view, clock, r, now);
      currentSize := currentSize - entries[r.key].body.size + r.body.size;
      entries := entries[r.key := r];
      lruList := [r.key] + Unlink(lruList, r.key);
      clock, view := now, Promote(view, r);
    }

    /** Put a new entry, accessed at `now`, at the front. */
    method Link(r: Record, now: int)
      requires Valid() && clock <= now == r.body.lastAccess && r.key !in entries
      modifies this
      ensures Valid() && clock == now && view == Promote(old(view), r)
    {
      LinkStands(entries, lruList, currentSize, view, clock, r, now);
      lruList := [r.key] + lruList;
      entries := entries[r.key := r];
      currentSize := currentSize + r.body.size;
      clock, view := now, Promote(view, r);
    }

    /** Store a file: afterwards the cache is the longest prefix that fits of the file followed by what
        else it held. */
    method Set(path: string, data: string, size: int, modTime: int, contentType: string, now: int)
      requires Valid() && clock <= now
      modifies this
      ensures Valid() && clock == now
      ensures view == Step(limits, old(view), FileCacheModel.Set(path, data, size, modTime, contentType), now)
    {
      var r := Item(path, File(data, size, modTime, contentType, Some(now), now));
      if path in entries {
        Rewrite(r, now);
      } else {
        Link(r, now);
      }
      EvictIfNeeded();
    }

    method Delete(path: string, now: int)
      requires Valid() && clock <= now
      modifies this
      ensures Valid() && clock == now
      ensures view == Step(limits, old(view), FileCacheModel.Delete(path), now)
    {
      clock := now;
      Lookups(view, path);
      if path in entries {
        RemoveEntry(path);
      } else {
        WithoutAbsent(view, path);
      }
    }

    method RefreshCachedAt(path: string, now: int)
      requires Valid() && clock <= now
      modifies this
      ensures Valid() && clock == now
      ensures view == Step(limits, old(view), Refresh(path), now)
    {
      Lookups(view, path);
      if path in entries {
        Rewrite(Restamped(entries[path], now), now);
      }
      clock := now;
    }

    /** The read-locked part of Get. */
    method GetRead(path: string, now: int) returns (p: Probe)
      requires Valid()
      ensures p == if !Has(view, path) then Missing
                   else if now - Lookup(view, path).body.lastAccess > limits.inactive then Idle
                   else if Lookup(view, path).body.cachedAt.None? then NeedsMigration
                   else Found(Lookup(view, path))
    {
      Lookups(view, path);
      if path !in entries {
        return Missing;
      }
      var entry := entries[path];
      if now - entry.body.lastAccess > limits.inactive {
        return Idle;
      }
      return if entry.body.cachedAt.None? then NeedsMigration else Found(entry);
    }

    /** The locked part of Get for an idle entry, which looks the entry up again. */
    method GetExpire(path: string, now: int)
      requires Valid() && clock <= now
      modifies this
      ensures Valid() && clock == now && view == Step(limits, old(view), Expire(path), now)
    {
      clock := now;
      Lookups(view, path);
      if path in entries && now - entries[path].body.lastAccess > limits.inactive {
        RemoveEntry(path);
      }
    }

    /** The locked part of Get for an entry without a caching time. */
    method GetMigrate(path: string, now: int) returns (entry: Option<Record>)
      requires Valid() && clock <= now
      modifies this
      ensures Valid() && clock == now && view == Step(limits, old(view), Migrate(path), now)
      ensures entry.Some? <==>
        Has(old(view), path) && now - Lookup(old(view), path).body.lastAccess <= limits.inactive
      ensures entry.Some? ==>
        entry.value == Restamped(Lookup(old(view), path), now) == view[0]
    {
      clock := now;
      Lookups(view, path);
      if path !in entries {
        return None;
      }
      if now - entries[path].body.lastAccess > limits.inactive {
        RemoveEntry(path);
        return None;
      }
      var r := Restamped(entries[path], now);
      Rewrite(r, now);
      return Some(r);
    }

    /** The locked recency update of Get, done only if the entry read before is still the one stored. */
    method GetTouch(path: string, sameEntry: bool, now: int)
      requires Valid() && clock <= now
      modifies this
      ensures Valid() && clock == now
      ensures view == if sameEntry then Step(limits, old(view), Touch(path), now) else old(view)
    {
      clock := now;
      Lookups(view, path);
      if path in entries && sameEntry {
        Rewrite(Accessed(entries[path], now), now);
      }
    }

    /** Get when nothing runs in between: `now` is the instant of the read, `later` of the locked part. */
    method Get(path: string, now: int, later: int) returns (entry: Option<Record>)
      requires Valid() && clock <= now <= later
      modifies this
      ensures Valid()
      ensures !Has(old(view), path) ==> entry.None? && view == old(view)
      ensures Has(old(view), path) ==>
        var r := Lookup(old(view), path);
        if now - r.body.lastAccess > limits.inactive then
          entry.None? && view == Without(old(view), path)
        else if r.body.cachedAt.None? then
          view == Step(limits, old(view), Migrate(path), later)
          && (entry.Some? <==> later - r.body.lastAccess <= limits.inactive)
        else
          entry.Some? && entry.value == r
          && view == if later - r.body.lastAccess > 5_000_000_000
                     then Step(limits, old(view), Touch(path), later) else old(view)
    {
      var p := GetRead(path, now);
      match p
      case Missing =>
        entry := None;
      case Idle =>
        GetExpire(path, later);
        entry := None;
      case NeedsMigration =>
        entry := GetMigrate(path, later);
      case Found(e) =>
        if later - e.body.lastAccess > ACCESS_UPDATE_INTERVAL {
          GetTouch(path, true, later);
        }
        entry := Some(e);
    }
  }

  /** Rewriting a stored record keeps map, list, total and records in step. */
  lemma RewriteStands(entries: map<string, Record>, lruList: seq<string>, size: int, rs: seq<Record>, was: int,
                      r: Record, now: int)
    requires Stands(entries, lruList, size, rs, was) && was <= now == r.body.lastAccess && r.key in entries
    ensures Stands(entries[r.key := r], [r.key] + Unlink(lruList, r.key),
                   size - entries[r.key].body.size + r.body.size, Promote(rs, r), now)
  {
    Lookups(rs, r.key);
    PromoteShape(rs, r);
    PromoteTotal(rs, r);
    PromoteKeeps(rs, r, was, now);
  }

  /** So does linking a new one. */
  lemma LinkStands(entries: map<string, Record>, lruList: seq<string>, size: int, rs: seq<Record>, was: int,
                   r: Record, now: int)
    requires Stands(entries, lruList, size, rs, was) && was <= now == r.body.lastAccess && r.key !in entries
    ensures Stands(entries[r.key := r], [r.key] + lruList, size + r.body.size, Promote(rs, r), now)
  {
    Lookups(rs, r.key);
    WithoutAbsent(rs, r.key);
    PushShape(rs, r);
    PromoteTotal(rs, r);
    PromoteKeeps(rs, r, was, now);
  }

  /** And removing one. */
  lemma {:induction false} RemovalStands(entries: map<string, Record>, lruList: seq<string>, size: int,
                                         rs: seq<Record>, now: int, path: string)
    requires Stands(entries, lruList, size, rs, now) && path in entries
    ensures Stands(entries - {path}, Unlink(lruList, path), size - entries[path].body.size, Without(rs, path), now)
  {
    Lookups(rs, path);
    KeysWithout(rs, path);
    ByKeyWithout(rs, path);
    TotalWithout(rs, path);
    WithoutDistinct(rs, path);
    WithoutSorted(rs, path, now);
  }

  /** Rewriting a stored record replaces its size in the total. */
  lemma PromoteTotal(rs: seq<Record>, r: Record)
    requires DistinctKeys(rs)
    ensures Total(Promote(rs, r))
            == Total(rs) - (if Has(rs, r.key) then Lookup(rs, r.key).body.size else 0) + r.body.size
  {
    TotalWithout(rs, r.key);
    TotalConcat([r], Without(rs, r.key));
    TotalOne(r);
  }
}
