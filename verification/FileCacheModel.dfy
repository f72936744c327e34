/** The file cache as a list of records, most recently used first, and what its operations keep. */
module FileCacheModel {
  import opened Wrappers
  import opened Recency

  /** `cachedAt` is None for the zero time. */
  datatype File = File(data: string, size: int, modTime: int, contentType: string, cachedAt: Option<int>,
                       lastAccess: int)

  type Record = Item<File>

  /** Non-positive limits mean "no limit". */
  datatype Limits = Limits(maxEntries: int, maxSize: int, inactive: int)

  function Total(rs: seq<Record>): int
  {
    if rs == [] then 0 else Total(rs[..|rs|-1]) + rs[|rs|-1].body.size
  }

  predicate CountFits(l: Limits, rs: seq<Record>)
  {
    l.maxEntries <= 0 || |rs| <= l.maxEntries
  }

  predicate Fits(l: Limits, rs: seq<Record>)
  {
    CountFits(l, rs) && (l.maxSize <= 0 || Total(rs) <= l.maxSize)
  }

  /** What eviction leaves: drop least recently used records until both limits hold. */
  function LongestFit(l: Limits, rs: seq<Record>): seq<Record>
  {
    if rs == [] || Fits(l, rs) then rs else LongestFit(l, rs[..|rs|-1])
  }

  /** Eviction keeps exactly the longest most-recent prefix that satisfies both limits. */
  lemma {:induction false} LongestFitIsLongest(l: Limits, rs: seq<Record>) returns (k: nat)
    ensures k <= |rs| && LongestFit(l, rs) == rs[..k] && Fits(l, rs[..k])
    ensures (l.maxEntries > 0 ==> k <= l.maxEntries) && (l.maxSize > 0 ==> Total(rs[..k]) <= l.maxSize)
    ensures forall j :: k < j <= |rs| ==>
      (l.maxEntries > 0 && j > l.maxEntries) || (l.maxSize > 0 && Total(rs[..j]) > l.maxSize)
  {
    if rs == [] || Fits(l, rs) {
      k := |rs|;
      assert rs[..k] == rs;
    } else {
      var front := rs[..|rs|-1];
      k := LongestFitIsLongest(l, front);
      assert rs[..|rs|] == rs;
      forall j | k < j <= |rs| ensures !Fits(l, rs[..j]) {
        if j < |rs| {
          assert rs[..j] == front[..j];
        }
      }
      assert rs[..k] == front[..k];
    }
  }

  // ---------------------------------------------------------------- recency

  /** Most recently accessed first, nothing accessed after `now`. */
  ghost predicate SortedByAccess(rs: seq<Record>, now: int)
  {
    && (forall i, j :: 0 <= i < j < |rs| ==> rs[i].body.lastAccess >= rs[j].body.lastAccess)
    && (forall i :: 0 <= i < |rs| ==> rs[i].body.lastAccess <= now)
  }

  /** The record with another access time, and with another caching time as well. */
  function Accessed(r: Record, now: int): Record
  {
    r.(body := r.body.(lastAccess := now))
  }

  function Restamped(r: Record, now: int): Record
  {
    r.(body := r.body.(cachedAt := Some(now), lastAccess := now))
  }

  // ---------------------------------------------------------------- the critical sections

  datatype Op =
    | Set(path: string, data: string, size: int, modTime: int, contentType: string)
    | Delete(path: string)
    | Refresh(path: string)
    | Expire(path: string)    // Get: the locked removal of an idle entry
    | Migrate(path: string)   // Get: the locked update of an entry without a caching time
    | Touch(path: string)     // Get: the locked recency update, the entry being the one read before

  function Step(l: Limits, rs: seq<Record>, op: Op, now: int): seq<Record>
  {
    match op
    case Set(path, data, size, modTime, contentType) =>
      LongestFit(l, Promote(rs, Item(path, File(data, size, modTime, contentType, Some(now), now))))
    case Delete(path) => Without(rs, path)
    case Refresh(path) =>
      if Has(rs, path) then Promote(rs, Restamped(Lookup(rs, path), now)) else rs
    case Expire(path) =>
      if Has(rs, path) && now - Lookup(rs, path).body.lastAccess > l.inactive then Without(rs, path) else rs
    case Migrate(path) =>
      if !Has(rs, path) then rs
      else if now - Lookup(rs, path).body.lastAccess > l.inactive then Without(rs, path)
      else Promote(rs, Restamped(Lookup(rs, path), now))
    case Touch(path) =>
      if Has(rs, path) then Promote(rs, Accessed(Lookup(rs, path), now)) else rs
  }

  lemma SortedSnoc(w: seq<Record>, last: Record, now: int)
    requires SortedByAccess(w, now) && last.body.lastAccess <= now
    requires forall i :: 0 <= i < |w| ==> w[i].body.lastAccess >= last.body.lastAccess
    ensures SortedByAccess(w + [last], now)
  {
  }

  lemma LastIsOldest(rs: seq<Record>, now: int)
    requires rs != [] && SortedByAccess(rs, now)
    ensures forall r :: r in rs[..|rs|-1] ==> r.body.lastAccess >= rs[|rs|-1].body.lastAccess
  {
  }

  lemma {:induction false} WithoutSorted(rs: seq<Record>, path: string, now: int)
    requires SortedByAccess(rs, now)
    ensures SortedByAccess(Without(rs, path), now)
  {
    if rs != [] {
      var front, last := rs[..|rs|-1], rs[|rs|-1];
      WithoutSorted(front, path, now);
      WithoutMembers(front, path);
      LastIsOldest(rs, now);
      SortedSnoc(Without(front, path), last, now);
    }
  }

  lemma PromoteKeeps(rs: seq<Record>, r: Record, now: int, later: int)
    requires DistinctKeys(rs) && SortedByAccess(rs, now) && now <= later == r.body.lastAccess
    ensures DistinctKeys(Promote(rs, r)) && SortedByAccess(Promote(rs, r), later)
  {
    PromoteDistinct(rs, r);
    WithoutSorted(rs, r.key, now);
  }

  lemma StepKeeps(l: Limits, rs: seq<Record>, op: Op, now: int, later: int)
    requires DistinctKeys(rs) && SortedByAccess(rs, now) && now <= later
    ensures DistinctKeys(Step(l, rs, op, later)) && SortedByAccess(Step(l, rs, op, later), later)
  {
    if op.Set? {
      var r := Item(op.path, File(op.data, op.size, op.modTime, op.contentType, Some(later), later));
      PromoteKeeps(rs, r, now, later);
      var k := LongestFitIsLongest(l, Promote(rs, r));
    } else {
      WithoutDistinct(rs, op.path);
      WithoutSorted(rs, op.path, now);
      if Has(rs, op.path) {
        PromoteKeeps(rs, Accessed(Lookup(rs, op.path), later), now, later);
        PromoteKeeps(rs, Restamped(Lookup(rs, op.path), later), now, later);
      }
    }
  }

  // ---------------------------------------------------------------- limits in every reachable state

  predicate NonNegative(rs: seq<Record>)
  {
    forall r :: r in rs ==> r.body.size >= 0
  }

  lemma {:induction false} TotalConcat(a: seq<Record>, b: seq<Record>)
    ensures Total(a + b) == Total(a) + Total(b)
  {
    if b == [] {
      assert a + b == a;
    } else {
      assert (a + b)[..|a + b|-1] == a + b[..|b|-1];
      TotalConcat(a, b[..|b|-1]);
    }
  }

  /** Removing a record takes its size off the total, and no more. */
  lemma {:induction false} TotalWithout(rs: seq<Record>, path: string)
    requires DistinctKeys(rs)
    ensures Total(Without(rs, path)) == Total(rs) - if Has(rs, path) then Lookup(rs, path).body.size else 0
    ensures |Without(rs, path)| == |rs| - if Has(rs, path) then 1 else 0
  {
    if rs != [] {
      var front, last := rs[..|rs|-1], rs[|rs|-1];
      assert rs == front + [last];
      TotalWithout(front, path);
      if Has(front, path) {
        assert rs[Position(front, path)].key == path;
      }
      if last.key == path {
        assert Position(rs, path) == |rs| - 1;
      } else if Has(rs, path) {
        assert front[Position(rs, path)].key == path;
      }
    }
  }

  lemma {:induction false} TotalNonNegative(rs: seq<Record>)
    requires NonNegative(rs)
    ensures Total(rs) >= 0
  {
    if rs != [] {
      TotalNonNegative(rs[..|rs|-1]);
    }
  }

  lemma WithoutFits(l: Limits, rs: seq<Record>, path: string)
    requires DistinctKeys(rs) && NonNegative(rs) && Fits(l, rs)
    ensures Fits(l, Without(rs, path)) && NonNegative(Without(rs, path))
  {
    TotalWithout(rs, path);
    WithoutMembers(rs, path);
    if Has(rs, path) {
      assert Lookup(rs, path) in rs;
    }
  }

  /** Moving a record to the front keeps the count and the total. */
  lemma MoveFits(l: Limits, rs: seq<Record>, r: Record)
    requires DistinctKeys(rs) && NonNegative(rs) && Fits(l, rs)
    requires Has(rs, r.key) && r.body.size == Lookup(rs, r.key).body.size
    ensures Fits(l, Promote(rs, r)) && NonNegative(Promote(rs, r))
  {
    TotalWithout(rs, r.key);
    WithoutMembers(rs, r.key);
    TotalConcat([r], Without(rs, r.key));
    TotalOne(r);
    assert Lookup(rs, r.key) in rs;
  }

  lemma StoreFits(l: Limits, rs: seq<Record>, r: Record)
    requires NonNegative(rs) && r.body.size >= 0
    ensures Fits(l, LongestFit(l, Promote(rs, r))) && NonNegative(LongestFit(l, Promote(rs, r)))
  {
    WithoutMembers(rs, r.key);
    var k := LongestFitIsLongest(l, Promote(rs, r));
    assert forall x :: x in Promote(rs, r) ==> x == r || x in Without(rs, r.key);
    assert NonNegative(Promote(rs, r));
  }

  /** With non-negative sizes every section keeps both limits. */
  lemma StepFits(l: Limits, rs: seq<Record>, op: Op, later: int)
    requires DistinctKeys(rs) && NonNegative(rs) && Fits(l, rs)
    requires op.Set? ==> op.size >= 0
    ensures Fits(l, Step(l, rs, op, later)) && NonNegative(Step(l, rs, op, later))
  {
    if op.Set? {
      StoreFits(l, rs, Item(op.path, File(op.data, op.size, op.modTime, op.contentType, Some(later), later)));
    } else {
      WithoutFits(l, rs, op.path);
      if Has(rs, op.path) {
        MoveFits(l, rs, Accessed(Lookup(rs, op.path), later));
        MoveFits(l, rs, Restamped(Lookup(rs, op.path), later));
      }
    }
  }

  lemma TotalOne(r: Record)
    ensures Total([r]) == r.body.size
  {
    assert [r][..0] == [];
  }

  /** A prefix that starts with a file is at least as large as it. */
  lemma FirstCounts(rs: seq<Record>, r: Record, k: nat)
    requires NonNegative(rs) && 0 < k <= |rs| + 1
    ensures Total(([r] + rs)[..k]) >= r.body.size
  {
    var rest := rs[..k-1];
    assert ([r] + rs)[..k] == [r] + rest;
    TotalOne(r);
    TotalConcat([r], rest);
    TotalNonNegative(rest);
  }

  /** With non-negative sizes, what was just stored stays exactly when it alone respects the byte limit;
      a larger file empties the cache of everything, itself included. */
  lemma SetStores(l: Limits, rs: seq<Record>, r: Record)
    requires DistinctKeys(rs) && NonNegative(rs) && r.body.size >= 0
    ensures l.maxSize <= 0 || r.body.size <= l.maxSize ==> r in LongestFit(l, Promote(rs, r))
    ensures !(l.maxSize <= 0 || r.body.size <= l.maxSize) ==> LongestFit(l, Promote(rs, r)) == []
  {
    var all := Promote(rs, r);
    var k := LongestFitIsLongest(l, all);
    TotalOne(r);
    assert all[..1] == [r];
    if k > 0 {
      WithoutMembers(rs, r.key);
      FirstCounts(Without(rs, r.key), r, k);
      assert all[..k][0] == r;
    }
  }

  /** A section touches the record of its own path only: no other record appears or changes, and only
      storing - by eviction - makes others disappear. */
  lemma OthersUntouched(l: Limits, rs: seq<Record>, op: Op, now: int, x: Record)
    requires x.key != op.path
    ensures x in Step(l, rs, op, now) ==> x in rs
    ensures x in rs && !op.Set? ==> x in Step(l, rs, op, now)
  {
    if op.Set? {
      var r := Item(op.path, File(op.data, op.size, op.modTime, op.contentType, Some(now), now));
      OtherMembers(rs, r, x);
      var k := LongestFitIsLongest(l, Promote(rs, r));
    } else {
      WithoutMembers(rs, op.path);
      if Has(rs, op.path) {
        OtherMembers(rs, Accessed(Lookup(rs, op.path), now), x);
        OtherMembers(rs, Restamped(Lookup(rs, op.path), now), x);
      }
    }
  }

  // ---------------------------------------------------------------- whole runs

  datatype Timed = Timed(op: Op, now: int)

  function Run(l: Limits, ops: seq<Timed>): seq<Record>
  {
    if ops == [] then [] else Step(l, Run(l, ops[..|ops|-1]), ops[|ops|-1].op, ops[|ops|-1].now)
  }

  ghost predicate TimeAdvances(ops: seq<Timed>)
  {
    forall i, j :: 0 <= i < j < |ops| ==> ops[i].now <= ops[j].now
  }

  /** Every interleaving of critical sections leaves distinct paths ordered by last access; with
      non-negative sizes both limits hold after every one of them. */
  lemma {:induction false} RunKeeps(l: Limits, ops: seq<Timed>, end: int)
    requires TimeAdvances(ops) && (ops != [] ==> ops[|ops|-1].now <= end)
    ensures DistinctKeys(Run(l, ops)) && SortedByAccess(Run(l, ops), end)
    ensures (forall t :: t in ops && t.op.Set? ==> t.op.size >= 0) ==>
      Fits(l, Run(l, ops)) && NonNegative(Run(l, ops))
  {
    if ops != [] {
      var last := ops[|ops|-1];
      var front := ops[..|ops|-1];
      RunKeeps(l, front, last.now);
      StepKeeps(l, Run(l, front), last.op, last.now, last.now);
      if forall t :: t in ops && t.op.Set? ==> t.op.size >= 0 {
        assert forall t :: t in front ==> t in ops;
        StepFits(l, Run(l, front), last.op, last.now);
      }
    }
  }
}
