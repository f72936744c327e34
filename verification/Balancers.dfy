/** The HTTP load balancers over their atomic counters and the targets' in-place state. */
module Balancers {
  import opened Targets
  import opened WeightedPicks

  /** The range of the 64-bit selection counter. */
  const COUNTER_RANGE: nat := 0x1_0000_0000_0000_0000

  // ---------------------------------------------------------------- candidates

  /** The members of the list that lie in the set, in list order. */
  ghost function Filtered(ts: seq<Target>, keep: set<Target>): seq<Target>
  {
    if ts == [] then []
    else
      var t := ts[|ts|-1];
      var front := Filtered(ts[..|ts|-1], keep);
      if t in keep then front + [t] else front
  }

  lemma {:induction false} FilteredMembers(ts: seq<Target>, keep: set<Target>)
    ensures forall i :: 0 <= i < |Filtered(ts, keep)| ==> Filtered(ts, keep)[i] in ts && Filtered(ts, keep)[i] in keep
    ensures forall i :: 0 <= i < |ts| && ts[i] in keep ==> ts[i] in Filtered(ts, keep)
  {
    if ts != [] {
      FilteredMembers(ts[..|ts|-1], keep);
      assert ts == ts[..|ts|-1] + [ts[|ts|-1]];
    }
  }

  /** Filtering keeps the list's order and how often each target is in it: what is left of two lists in a row is
      what is left of the first and then of the second, and a single target is left exactly if it is kept. */
  lemma {:induction false} FilteredInOrder(a: seq<Target>, b: seq<Target>, keep: set<Target>)
    ensures Filtered(a + b, keep) == Filtered(a, keep) + Filtered(b, keep)
    ensures forall t :: t in a ==> Filtered([t], keep) == if t in keep then [t] else []
  {
    if b == [] {
      assert a + b == a;
    } else {
      var front, last := b[..|b|-1], b[|b|-1];
      FilteredInOrder(a, front, keep);
      assert (a + b)[..|a + b|-1] == a + front && (a + b)[|a + b|-1] == last;
    }
    forall t | t in a ensures Filtered([t], keep) == if t in keep then [t] else [] {
      FilteredOne(t, keep);
    }
  }

  lemma FilteredOne(t: Target, keep: set<Target>)
    ensures Filtered([t], keep) == if t in keep then [t] else []
  {
    assert [t][..0] == [];
  }

  lemma FilteredSnoc(ts: seq<Target>, keep: set<Target>, n: nat)
    requires n < |ts|
    ensures Filtered(ts[..n+1], keep)
            == if ts[n] in keep then Filtered(ts[..n], keep) + [ts[n]] else Filtered(ts[..n], keep)
  {
    assert ts[..n+1][..n] == ts[..n];
  }

  /** Those of the list that are usable, of the given kind, and whose URL is not excluded. */
  ghost function Eligible(ts: seq<Target>, usable: set<Target>, excluded: set<string>, backup: bool): seq<Target>
  {
    Filtered(ts, (set t | t in usable && t.backup == backup && t.url !in excluded))
  }

  /** The primaries, or the backups when no primary is eligible. */
  ghost function Candidates(ts: seq<Target>, usable: set<Target>, excluded: set<string>): seq<Target>
  {
    var primaries := Eligible(ts, usable, excluded, false);
    if primaries != [] then primaries else Eligible(ts, usable, excluded, true)
  }

  ghost function Usable(ts: seq<Target>, now: int): set<Target>
    reads ts
  {
    set t | t in ts && t.Available(now)
  }

  /** May this target be a candidate? */
  ghost predicate Qualifies(ts: seq<Target>, usable: set<Target>, excluded: set<string>, t: Target)
  {
    t in ts && t in usable && t.url !in excluded
  }

  lemma EligibleMembers(ts: seq<Target>, usable: set<Target>, excluded: set<string>, backup: bool)
    ensures var es := Eligible(ts, usable, excluded, backup);
      && (forall i :: 0 <= i < |es| ==> Qualifies(ts, usable, excluded, es[i]) && es[i].backup == backup)
      && (forall i :: 0 <= i < |ts| && Qualifies(ts, usable, excluded, ts[i]) && ts[i].backup == backup ==>
            ts[i] in es)
  {
    FilteredMembers(ts, (set t | t in usable && t.backup == backup && t.url !in excluded));
  }

  /** A candidate is a usable target of the list that is not excluded, and a backup only when no primary
      qualifies; every qualifying target of the candidates' kind is one; there is no candidate exactly
      when nothing qualifies. */
  lemma CandidateMembers(ts: seq<Target>, usable: set<Target>, excluded: set<string>)
    ensures var cs := Candidates(ts, usable, excluded);
      && (forall i :: 0 <= i < |cs| ==> Qualifies(ts, usable, excluded, cs[i]))
      && (forall i, j :: 0 <= i < |cs| && 0 <= j < |ts| && Qualifies(ts, usable, excluded, ts[j]) ==>
            (cs[i].backup ==> ts[j].backup) && (cs[i].backup == ts[j].backup ==> ts[j] in cs))
      && (cs == [] <==> forall j :: 0 <= j < |ts| ==> !Qualifies(ts, usable, excluded, ts[j]))
  {
    EligibleMembers(ts, usable, excluded, false);
    EligibleMembers(ts, usable, excluded, true);
    var primaries, backups := Eligible(ts, usable, excluded, false), Eligible(ts, usable, excluded, true);
    if primaries != [] {
      assert primaries[0] in ts;
    } else if backups != [] {
      assert backups[0] in ts;
    }
  }

  lemma EligibleSnoc(ts: seq<Target>, usable: set<Target>, excluded: set<string>, backup: bool, n: nat)
    requires n < |ts|
    ensures Eligible(ts[..n+1], usable, excluded, backup)
            == if ts[n] in usable && ts[n].url !in excluded && ts[n].backup == backup
               then Eligible(ts[..n], usable, excluded, backup) + [ts[n]]
               else Eligible(ts[..n], usable, excluded, backup)
  {
    FilteredSnoc(ts, (set t | t in usable && t.backup == backup && t.url !in excluded), n);
  }

  /** The filtering loop that the selections share. */
  method Filter(targets: seq<Target>, excluded: seq<Target?>, now: int) returns (r: seq<Target>)
    modifies targets`failCount, targets`failedUntil
    ensures r == Candidates(targets, old(Usable(targets, now)), Urls(excluded))
  {
    ghost var usable := Usable(targets, now);
    var excludeSet := Urls(excluded);
    var available, backups := [], [];
    for n := 0 to |targets|
      invariant available == Eligible(targets[..n], usable, excludeSet, false)
      invariant backups == Eligible(targets[..n], usable, excludeSet, true)
      invariant forall t :: t in targets ==> (t.Available(now) <==> t in usable)
    {
      var t := targets[n];
      EligibleSnoc(targets, usable, excludeSet, false, n);
      EligibleSnoc(targets, usable, excludeSet, true, n);
      var ok := t.IsAvailable(now);
      if !ok || t.url in excludeSet {
        continue;
      }
      if t.backup {
        backups := backups + [t];
      } else {
        available := available + [t];
      }
    }
    assert targets[..|targets|] == targets;
    return if |available| > 0 then available else backups;
  }

  // ---------------------------------------------------------------- the balancers

  class RoundRobin {
    var counter: nat

    constructor ()
      ensures counter == 0
    {
      counter := 0;
    }

    method SelectExcluding(targets: seq<Target>, excluded: seq<Target?>, now: int) returns (r: Target?)
      requires counter < COUNTER_RANGE
      modifies this, targets`failCount, targets`failedUntil
      ensures var cs := Candidates(targets, old(Usable(targets, now)), Urls(excluded));
        && (r == null <==> cs == [])
        && (r != null ==> r == cs[old(counter) % |cs|])
        && counter == if cs == [] then old(counter) else (old(counter) + 1) % COUNTER_RANGE
    {
      var cs := Filter(targets, excluded, now);
      if |cs| == 0 {
        return null;
      }
      var idx := counter;
      counter := (counter + 1) % COUNTER_RANGE;
      return cs[idx % |cs|];
    }
  }

  function Shares(cs: seq<Target>): (ws: seq<nat>)
    ensures |ws| == |cs| && forall i :: 0 <= i < |cs| ==> ws[i] == Share(cs[i].weight)
    ensures cs != [] ==> Positive(ws)
  {
    seq(|cs|, i requires 0 <= i < |cs| => Share(cs[i].weight))
  }

  lemma PositiveSum(ws: seq<nat>)
    requires Positive(ws)
    ensures Sum(ws) > 0
  {
  }

  class WeightedRoundRobin {
    var counter: nat

    constructor ()
      ensures counter == 0
    {
      counter := 0;
    }

    /** The target picked is the one whose stretch of positions holds the counter value; see WeightedPicks
        for how often that is. The first selection excludes nothing. */
    method SelectExcluding(targets: seq<Target>, excluded: seq<Target?>, now: int) returns (r: Target?)
      requires counter < COUNTER_RANGE
      modifies this, targets`failCount, targets`failedUntil
      ensures var cs := Candidates(targets, old(Usable(targets, now)), Urls(excluded));
        && (r == null <==> cs == [])
        && (cs != [] ==> 0 < Sum(Shares(cs)))
        && (cs != [] ==> r == cs[PickIndex(Shares(cs), Mod(old(counter), Sum(Shares(cs))))])
        && counter == if cs == [] then old(counter) else (old(counter) + 1) % COUNTER_RANGE
    {
      var cs := Filter(targets, excluded, now);
      if |cs| == 0 {
        return null;
      }
      r := PickByWeight(cs);
    }

    method PickByWeight(cs: seq<Target>) returns (r: Target)
      requires counter < COUNTER_RANGE && |cs| > 0
      modifies this
      ensures 0 < Sum(Shares(cs)) && r == cs[PickIndex(Shares(cs), Mod(old(counter), Sum(Shares(cs))))]
      ensures counter == (old(counter) + 1) % COUNTER_RANGE
    {
      var totalWeight := TotalWeight(cs);
      PositiveSum(Shares(cs));
      var idx := counter;
      counter := (counter + 1) % COUNTER_RANGE;
      ModIsRemainder(idx, totalWeight);
      var pos := idx % totalWeight;
      r := AtPosition(cs, pos);
    }

    method TotalWeight(cs: seq<Target>) returns (total: nat)
      ensures total == Sum(Shares(cs))
    {
      total := 0;
      ghost var ws := Shares(cs);
      for i := 0 to |cs|
        invariant total == Sum(ws[..i])
      {
        SumStep(ws, i);
        if cs[i].weight <= 0 {
          total := total + 1;
        } else {
          total := total + cs[i].weight;
        }
      }
      assert ws[..|cs|] == ws;
    }

    /** The accumulation loop; it always returns from within. */
    method AtPosition(cs: seq<Target>, pos: nat) returns (r: Target)
      requires pos < Sum(Shares(cs))
      ensures r == cs[PickIndex(Shares(cs), pos)]
    {
      var currentWeight := 0;
      ghost var ws := Shares(cs);
      assert ws[..|cs|] == ws;
      for i := 0 to |cs|
        invariant currentWeight == Sum(ws[..i]) <= pos
      {
        var weight := cs[i].weight;
        if weight <= 0 {
          weight := 1;
        }
        SumStep(ws, i);
        currentWeight := currentWeight + weight;
        if pos < currentWeight {
          PickIff(ws, pos, i);
          return cs[i];
        }
      }
      assert false;
    }
  }

  /** Round robin is weighted round robin with equal shares. */
  lemma {:induction false} EqualShares(n: nat, pos: nat)
    requires pos < n
    ensures Sum(seq(n, i => 1)) == n && PickIndex(seq(n, i => 1), pos) == pos
  {
    var ws := seq(n, i => 1);
    assert ws[..n-1] == seq(n - 1, i => 1);
    if pos < n - 1 {
      EqualShares(n - 1, pos);
    } else {
      SumOfOnes(n - 1);
    }
  }

  lemma {:induction false} SumOfOnes(n: nat)
    ensures Sum(seq(n, i => 1)) == n
  {
    if n > 0 {
      assert seq(n, i => 1)[..n-1] == seq(n - 1, i => 1);
      SumOfOnes(n - 1);
    }
  }

  /** While the candidates stay the same, any run of total-weight many weighted selections that does not
      cross the counter's wrap-around picks each candidate exactly its weight (at least one) times. */
  lemma RunIsFair(cs: seq<Target>, j: nat, start: nat)
    requires cs != [] && j < |cs|
    ensures Sum(Shares(cs)) > 0
    ensures start + Sum(Shares(cs)) <= 0x1_0000_0000_0000_0000 ==>
      TimesPicked(Shares(cs), j, start, Sum(Shares(cs)), COUNTER_RANGE)
      == if cs[j].weight > 1 then cs[j].weight else 1
  {
    PositiveSum(Shares(cs));
    if start + Sum(Shares(cs)) <= COUNTER_RANGE {
      WindowExact(Shares(cs), j, start, COUNTER_RANGE);
    }
  }

  /** Across the wrap-around of the 64-bit counter two targets of weights 1 and 2 already are not picked fairly:
      the counter's range is no multiple of 3. */
  lemma UnfairAtWrapAround()
    ensures Sum([1, 2]) == 3
    ensures COUNTER_RANGE == 0x1_0000_0000_0000_0000
    ensures !FairFrom([1, 2], COUNTER_RANGE - 1, COUNTER_RANGE) || !FairFrom([1, 2], COUNTER_RANGE - 2, COUNTER_RANGE)
  {
    var ws: seq<nat> := [1, 2];
    assert ws[..1] == [1] && ws[..1][..0] == [];
    assert Sum(ws[..1]) == 1;
    ModIsRemainder(COUNTER_RANGE, 3);
    UnfairWindow(ws, COUNTER_RANGE);
  }

  /** The connection counts a selection sees. */
  ghost function Loads(ts: seq<Target>): map<Target, int>
    reads ts`connections
  {
    map t | t in ts :: t.connections
  }

  ghost function HealthyOnes(ts: seq<Target>): seq<Target>
    reads ts`healthy
  {
    Filtered(ts, (set t | t in ts && t.healthy))
  }

  /** Position `k` has the fewest connections and is the first that has. */
  ghost predicate LeastAt(cs: seq<Target>, load: map<Target, int>, k: nat)
    requires forall i :: 0 <= i < |cs| ==> cs[i] in load
  {
    && k < |cs|
    && (forall i :: 0 <= i < |cs| ==> load[cs[k]] <= load[cs[i]])
    && (forall i :: 0 <= i < k ==> load[cs[k]] < load[cs[i]])
  }

  /** The first of the list with the fewest connections; nobody when the list is empty. */
  ghost predicate IsFirstLeast(cs: seq<Target>, load: map<Target, int>, r: Target?)
  {
    && (forall i :: 0 <= i < |cs| ==> cs[i] in load)
    && if r == null then cs == [] else exists k: nat :: LeastAt(cs, load, k) && cs[k] == r
  }

  /** The comparison made for each target in turn. */
  lemma LeastSnoc(cs: seq<Target>, load: map<Target, int>, r: Target?, t: Target)
    requires IsFirstLeast(cs, load, r) && t in load
    ensures r != null ==> r in load
    ensures IsFirstLeast(cs + [t], load, if r == null || load[t] < load[r] then t else r)
  {
    var ds := cs + [t];
    if r == null {
      assert LeastAt(ds, load, 0) && ds[0] == t;
    } else {
      var k: nat :| LeastAt(cs, load, k) && cs[k] == r;
      if load[t] < load[r] {
        assert LeastAt(ds, load, |cs|) && ds[|cs|] == t;
      } else {
        assert LeastAt(ds, load, k) && ds[k] == r;
      }
    }
  }

  /** What the least loaded of a list is: none of its members has fewer connections, and all those before it
      have more. */
  lemma LeastLaw(cs: seq<Target>, load: map<Target, int>, r: Target?)
    requires IsFirstLeast(cs, load, r)
    ensures r == null <==> cs == []
    ensures forall i :: 0 <= i < |cs| ==> cs[i] in load
    ensures r != null ==> r in load && forall i :: 0 <= i < |cs| ==> load[r] <= load[cs[i]]
    ensures r != null ==>
      exists k :: 0 <= k < |cs| && cs[k] == r && forall i :: 0 <= i < k ==> load[r] < load[cs[i]]
  {
    if r != null {
      var k: nat :| LeastAt(cs, load, k) && cs[k] == r;
    }
  }

  /** Among the healthy targets of a list it is a healthy one that no healthy one undercuts, and nobody only when
      none is healthy. */
  lemma LeastHealthyLaw(ts: seq<Target>, r: Target?)
    requires IsFirstLeast(HealthyOnes(ts), Loads(ts), r)
    ensures r == null <==> forall i :: 0 <= i < |ts| ==> !ts[i].healthy
    ensures r != null ==>
      r in ts && r.healthy && forall i :: 0 <= i < |ts| && ts[i].healthy ==> r.connections <= ts[i].connections
  {
    FilteredMembers(ts, (set t | t in ts && t.healthy));
    LeastLaw(HealthyOnes(ts), Loads(ts), r);
  }

  class LeastConnections {
    constructor () {
    }

    /** Without exclusion the health flag alone counts. */
    method Select(targets: seq<Target>) returns (r: Target?)
      ensures IsFirstLeast(HealthyOnes(targets), Loads(targets), r)
    {
      r := null;
      ghost var healthy, load := (set t | t in targets && t.healthy), Loads(targets);
      for n := 0 to |targets|
        invariant IsFirstLeast(Filtered(targets[..n], healthy), load, r)
      {
        var t := targets[n];
        FilteredSnoc(targets, healthy, n);
        if !t.healthy {
          continue;
        }
        LeastSnoc(Filtered(targets[..n], healthy), load, r, t);
        r := Lighter(r, t);
      }
      assert targets[..|targets|] == targets;
    }

    /** One pass with two running minima; the answer is the least loaded candidate. */
    method SelectExcluding(targets: seq<Target>, excluded: seq<Target?>, now: int) returns (r: Target?)
      modifies targets`failCount, targets`failedUntil
      ensures IsFirstLeast(Candidates(targets, old(Usable(targets, now)), Urls(excluded)), Loads(targets), r)
    {
      ghost var usable, load := Usable(targets, now), Loads(targets);
      var excludeSet := Urls(excluded);
      var selected: Target?, selectedBackup: Target? := null, null;
      for n := 0 to |targets|
        invariant forall t :: t in targets ==> (t.Available(now) <==> t in usable)
        invariant IsFirstLeast(Eligible(targets[..n], usable, excludeSet, false), load, selected)
        invariant IsFirstLeast(Eligible(targets[..n], usable, excludeSet, true), load, selectedBackup)
      {
        var t := targets[n];
        EligibleSnoc(targets, usable, excludeSet, false, n);
        EligibleSnoc(targets, usable, excludeSet, true, n);
        LeastSnoc(Eligible(targets[..n], usable, excludeSet, t.backup), load,
                  if t.backup then selectedBackup else selected, t);
        var ok := t.IsAvailable(now);
        if !ok || t.url in excludeSet {
          continue;
        }
        if t.backup {
          selectedBackup := Lighter(selectedBackup, t);
        } else {
          selected := Lighter(selected, t);
        }
      }
      assert targets[..|targets|] == targets;
      return if selected != null then selected else selectedBackup;
    }
  }

  /** The strict comparison: on equal counts the earlier target stays. */
  function Lighter(r: Target?, t: Target): Target
    reads r, t
  {
    if r == null || t.connections < r.connections then t else r
  }
}
