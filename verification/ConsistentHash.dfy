/** Consistent hashing over the in-place ring; see module Ring for what its answers mean. */
module ConsistentHashing {
  import opened Wrappers
  import opened Targets
  import opened Ring
  import Decimal

  predicate Ordered(s: seq<Hash>)
  {
    forall i, j :: 0 <= i < j < |s| ==> s[i] <= s[j]
  }

  /** Ordered insertion; sorting by it stands for the library sort. */
  function Insert(x: Hash, s: seq<Hash>): (r: seq<Hash>)
    ensures multiset(r) == multiset(s) + multiset{x}
  {
    if s == [] || x <= s[0] then [x] + s
    else
      assert s == [s[0]] + s[1..];
      [s[0]] + Insert(x, s[1..])
  }

  lemma {:induction false} InsertOrdered(x: Hash, s: seq<Hash>)
    requires Ordered(s)
    ensures Ordered(Insert(x, s))
  {
    if s != [] && s[0] < x {
      InsertOrdered(x, s[1..]);
      var rest := Insert(x, s[1..]);
      forall k | 0 <= k < |rest| ensures s[0] <= rest[k] {
        assert rest[k] in multiset(rest);
        assert rest[k] == x || rest[k] in s[1..];
      }
    }
  }

  function Sort(s: seq<Hash>): (r: seq<Hash>)
    ensures Ordered(r) && multiset(r) == multiset(s)
  {
    if s == [] then []
    else
      assert s == [s[0]] + s[1..];
      InsertOrdered(s[0], Sort(s[1..]));
      Insert(s[0], Sort(s[1..]))
  }

  lemma SortMembers(s: seq<Hash>)
    ensures forall h :: h in Sort(s) <==> h in s
  {
    assert forall h :: h in Sort(s) <==> h in multiset(Sort(s));
    assert forall h :: h in s <==> h in multiset(s);
  }

  function VirtualKey(url: string, i: nat): string
  {
    url + "#" + Decimal.Digits(i)
  }

  /** A virtual node's key is the URL, a number sign, and its number in decimal, so that the keys of one URL
      are all different. */
  lemma VirtualKeysDiffer(url: string, i: nat, j: nat)
    ensures url + "#" <= VirtualKey(url, i)
    ensures i < 0x8000_0000_0000_0000 ==> Decimal.Parse(VirtualKey(url, i)[|url|+1..]) == Some(i)
    ensures VirtualKey(url, i) == VirtualKey(url, j) ==> i == j
  {
    var a, b := VirtualKey(url, i), VirtualKey(url, j);
    assert a[|url|+1..] == Decimal.Digits(i) && b[|url|+1..] == Decimal.Digits(j);
    if i < 0x8000_0000_0000_0000 {
      Decimal.ParseDigits(i);
    }
    if a == b {
      Decimal.DigitsInjective(i, j);
    }
  }

  /** What a rebuild reads of a target. */
  datatype Snapshot = Snapshot(target: Target, healthy: bool, hashes: seq<Hash>)

  function RingFrom(ss: seq<Snapshot>): seq<Entry<Target>>
  {
    if ss == [] then []
    else
      var s := ss[|ss|-1];
      var front := RingFrom(ss[..|ss|-1]);
      if s.healthy then front + [Entry(s.target, s.hashes)] else front
  }

  lemma RingSnoc(ss: seq<Snapshot>, n: nat)
    requires n < |ss|
    ensures RingFrom(ss[..n+1])
            == RingFrom(ss[..n]) + if ss[n].healthy then [Entry(ss[n].target, ss[n].hashes)] else []
  {
    assert ss[..n+1][..n] == ss[..n];
  }

  class ConsistentHash {
    const hash: string -> Hash
    const virtualNodes: nat
    var circle: map<Hash, Target>
    var sortedHashes: seq<Hash>
    var rebuilt: bool
    /** The ring as of the last rebuild. */
    ghost var ring: seq<Entry<Target>>

    ghost predicate Valid()
      reads this
    {
      && virtualNodes > 0
      && Represents(circle, sortedHashes, ring)
      && Ordered(sortedHashes)
    }

    constructor (hash: string -> Hash, virtualNodes: int)
      ensures Valid() && !rebuilt && ring == []
      ensures this.hash == hash
      ensures this.virtualNodes == if virtualNodes <= 0 then 150 else virtualNodes
    {
      this.hash := hash;
      this.virtualNodes := if virtualNodes <= 0 then 150 else virtualNodes;
      circle, sortedHashes, rebuilt, ring := map[], [], false, [];
    }

    /** The virtual nodes a target has, or gets the first time a rebuild meets it. */
    function HashesOf(t: Target): (hs: seq<Hash>)
      reads t`virtualHashes
    {
      if t.virtualHashes == [] then FreshHashes(t.url) else t.virtualHashes
    }

    function FreshHashes(url: string): (hs: seq<Hash>)
      ensures |hs| == virtualNodes
    {
      seq<Hash>(virtualNodes, (i: nat) => hash(VirtualKey(url, i)))
    }

    ghost function SnapshotOf(t: Target): Snapshot
      reads t
    {
      Snapshot(t, t.healthy, HashesOf(t))
    }

    ghost function Snapshots(ts: seq<Target>): (ss: seq<Snapshot>)
      reads ts
      ensures |ss| == |ts| && forall i :: 0 <= i < |ts| ==> ss[i] == SnapshotOf(ts[i])
    {
      seq(|ts|, i requires 0 <= i < |ts| reads ts => SnapshotOf(ts[i]))
    }

    /** The ring of the healthy targets of a list, in list order. */
    ghost function RingOf(ts: seq<Target>): seq<Entry<Target>>
      reads ts
    {
      RingFrom(Snapshots(ts))
    }

    method Rebuild(targets: seq<Target>)
      requires Valid()
      modifies this, targets`virtualHashes
      ensures Valid() && rebuilt && ring == old(RingOf(targets)) == RingOf(targets)
    {
      rebuilt := false;
      RebuildCircle(targets);
    }

    method EnsureRebuilt(targets: seq<Target>)
      requires Valid()
      modifies this, targets`virtualHashes
      ensures Valid() && rebuilt
      ensures ring == if old(rebuilt) then old(ring) else old(RingOf(targets))
      ensures RingOf(targets) == old(RingOf(targets))
    {
      if rebuilt {
        return;
      }
      RebuildCircle(targets);
    }

    method RebuildCircle(targets: seq<Target>)
      requires Valid()
      modifies this, targets`virtualHashes
      ensures Valid() && rebuilt && ring == old(RingOf(targets)) == RingOf(targets)
    {
      ghost var wanted := RingOf(targets);
      circle, sortedHashes, ring := map[], [], [];
      assert RingOf(targets) == wanted;
      FillCircle(targets);
      SortHashes();
      rebuilt := true;
    }

    method SortHashes()
      requires Represents(circle, sortedHashes, ring)
      modifies this`sortedHashes
      ensures Represents(circle, sortedHashes, ring)
      ensures Ordered(sortedHashes) && multiset(sortedHashes) == multiset(old(sortedHashes))
    {
      SortMembers(sortedHashes);
      sortedHashes := Sort(sortedHashes);
    }

    /** What a rebuild leaves in a target's hash field. */
    function HashesAfter(t: Target): seq<Hash>
      reads t
    {
      if t.healthy then HashesOf(t) else t.virtualHashes
    }

    method FillCircle(targets: seq<Target>)
      requires Represents(circle, sortedHashes, ring) && ring == []
      modifies this, targets`virtualHashes
      ensures Represents(circle, sortedHashes, ring)
      ensures RingOf(targets) == old(RingOf(targets)) && ring == RingOf(targets)
    {
      ghost var before := Snapshots(targets);
      for n := 0 to |targets|
        invariant Represents(circle, sortedHashes, ring)
        invariant Snapshots(targets) == before && ring == RingFrom(before[..n])
      {
        PlaceNext(targets, n, before);
      }
      assert before[..|targets|] == before;
    }

    /** One round of the rebuild loop. */
    method PlaceNext(targets: seq<Target>, n: nat, ghost before: seq<Snapshot>)
      requires n < |targets| && Snapshots(targets) == before
      requires Represents(circle, sortedHashes, ring) && ring == RingFrom(before[..n])
      modifies this, targets`virtualHashes
      ensures Represents(circle, sortedHashes, ring)
      ensures Snapshots(targets) == before && ring == RingFrom(before[..n+1])
    {
      assert SnapshotOf(targets[n]) == before[n];
      Place(targets[n]);
      RingSnoc(before, n);
    }

    method Place(target: Target)
      requires Represents(circle, sortedHashes, ring)
      modifies this, target`virtualHashes
      ensures Represents(circle, sortedHashes, ring)
      ensures ring == if target.healthy then old(ring) + [Entry(target, old(HashesOf(target)))] else old(ring)
      ensures target.virtualHashes == old(HashesAfter(target))
    {
      if !target.healthy {
        return;
      }
      if |target.virtualHashes| == 0 {
        FillVirtualHashes(target);
      }
      AddTarget(target);
    }

    method FillVirtualHashes(target: Target)
      modifies target`virtualHashes
      ensures target.virtualHashes == FreshHashes(target.url)
    {
      target.virtualHashes := [];
      for i := 0 to virtualNodes
        invariant target.virtualHashes == FreshHashes(target.url)[..i]
      {
        target.virtualHashes := target.virtualHashes + [hash(VirtualKey(target.url, i))];
      }
    }

    method AddTarget(target: Target)
      requires Represents(circle, sortedHashes, ring)
      modifies this
      ensures ring == old(ring) + [Entry(target, target.virtualHashes)]
      ensures Represents(circle, sortedHashes, ring)
    {
      ghost var before := circle;
      var hashes := target.virtualHashes;
      for j := 0 to |hashes|
        invariant ring == old(ring)
        invariant circle.Keys == before.Keys + HashSet(hashes[..j])
        invariant forall p :: p in circle ==>
          circle[p] == if p in hashes[..j] then target else before[p]
        invariant forall p :: p in sortedHashes <==> p in circle
      {
        circle := circle[hashes[j] := target];
        sortedHashes := sortedHashes + [hashes[j]];
        assert hashes[..j+1] == hashes[..j] + [hashes[j]];
      }
      assert hashes[..|hashes|] == hashes;
      ring := ring + [Entry(target, hashes)];
      assert ring[..|ring|-1] == old(ring);
    }

    /** Binary search for the first position whose hash is not below `h`. */
    method Search(h: Hash) returns (i: nat)
      requires Ordered(sortedHashes)
      ensures i <= |sortedHashes|
      ensures forall k :: 0 <= k < i ==> sortedHashes[k] < h
      ensures forall k :: i <= k < |sortedHashes| ==> h <= sortedHashes[k]
    {
      var j := |sortedHashes|;
      i := 0;
      while i < j
        invariant 0 <= i <= j <= |sortedHashes|
        invariant forall k :: 0 <= k < i ==> sortedHashes[k] < h
        invariant forall k :: j <= k < |sortedHashes| ==> h <= sortedHashes[k]
      {
        var m := (i + j) / 2;
        if sortedHashes[m] < h { i := m + 1; } else { j := m; }
      }
    }

    /** Plain selection answers with the owner of the key on the ring of the last rebuild. */
    method SelectByKey(targets: seq<Target>, key: string) returns (r: Target?)
      requires Valid()
      modifies this, targets`virtualHashes
      ensures Valid() && rebuilt
      ensures ring == if old(rebuilt) then old(ring) else old(RingOf(targets))
      ensures Maybe(r) == Owner(ring, hash(key))
    {
      EnsureRebuilt(targets);
      r := OwnerOf(hash(key));
    }

    /** The lookup on the ring as it is. */
    method OwnerOf(h: Hash) returns (r: Target?)
      requires Valid()
      ensures Maybe(r) == Owner(ring, h)
    {
      if |sortedHashes| == 0 {
        NoSlots();
        return null;
      }
      var idx := Search(h);
      if idx >= |sortedHashes| {
        idx := 0;
      }
      var p := sortedHashes[idx];
      assert forall q :: q in Slots(ring) ==> q in sortedHashes;
      assert IsSuccessor(Slots(ring), h, p);
      SuccessorUnique(Slots(ring), h, p, Successor(Slots(ring), h));
      return circle[p];
    }

    lemma NoSlots()
      requires Represents(circle, sortedHashes, ring)
      ensures |sortedHashes| == 0 <==> Slots(ring) == {}
    {
      if |sortedHashes| > 0 {
        assert sortedHashes[0] in Slots(ring);
      }
    }

    /** Failover selection answers with the clockwise walk over the ring of the last rebuild, stopping
        at targets whose URL is healthy now and not excluded. */
    method SelectExcludingByKey(targets: seq<Target>, excluded: seq<Target?>, key: string)
      returns (r: Target?)
      requires Valid()
      modifies this, targets`virtualHashes
      ensures Valid() && rebuilt
      ensures ring == if old(rebuilt) then old(ring) else old(RingOf(targets))
      ensures RingOf(targets) == old(RingOf(targets))
      ensures Maybe(r) == Walk(ring, Acceptable(Allowed(targets, excluded)), hash(key))
    {
      EnsureRebuilt(targets);
      var targetSet := TargetSet(targets, excluded);
      r := SelectAllowed(targetSet, key, Allowed(targets, excluded));
    }

    /** The selection once the allowed URLs are known. */
    method SelectAllowed(targetSet: map<string, bool>, key: string, ghost urls: set<string>)
      returns (r: Target?)
      requires Valid()
      requires forall u :: u in urls <==> u in targetSet && targetSet[u]
      ensures Maybe(r) == Walk(ring, Acceptable(urls), hash(key))
    {
      if |sortedHashes| == 0 {
        NoSlots();
        return null;
      }
      var h := hash(key);
      var idx := Search(h);
      r := WalkFrom(targetSet, idx, h, urls);
    }

    /** The failover walk proper. */
    method WalkFrom(targetSet: map<string, bool>, idx: nat, ghost h: Hash, ghost urls: set<string>)
      returns (r: Target?)
      requires Valid() && idx <= |sortedHashes|
      requires forall k :: 0 <= k < idx ==> sortedHashes[k] < h
      requires forall k :: idx <= k < |sortedHashes| ==> h <= sortedHashes[k]
      requires forall u :: u in urls <==> u in targetSet && targetSet[u]
      ensures Maybe(r) == Walk(ring, Acceptable(urls), h)
    {
      ghost var keep := Acceptable(urls);
      for i := 0 to |sortedHashes|
        invariant NoneBefore(keep, idx, i)
      {
        var targetIdx := (idx + i) % |sortedHashes|;
        StepPosition(idx, i, |sortedHashes|);
        var target := circle[sortedHashes[targetIdx]];
        if target.url in targetSet && targetSet[target.url] {
          FirstLive(keep, h, idx, i, targetIdx);
          return target;
        }
      }
      NoneLive(keep, idx);
      return null;
    }

    /** The first `i` steps of the walk from position `idx` met no acceptable target. */
    ghost predicate NoneBefore(keep: Target -> bool, idx: nat, i: nat)
      requires Represents(circle, sortedHashes, ring)
      reads this
    {
      forall j :: 0 <= j < |sortedHashes| && (idx <= j < idx + i || j < idx + i - |sortedHashes|) ==>
        !keep(circle[sortedHashes[j]])
    }

    /** The walk's `i`-th step is the first acceptable slot clockwise from `h`. */
    lemma FirstLive(keep: Target -> bool, h: Hash, idx: nat, i: nat, at: nat)
      requires Valid() && i < |sortedHashes| && idx <= |sortedHashes|
      requires forall k :: 0 <= k < idx ==> sortedHashes[k] < h
      requires forall k :: idx <= k < |sortedHashes| ==> h <= sortedHashes[k]
      requires NoneBefore(keep, idx, i)
      requires at == if idx + i < |sortedHashes| then idx + i else idx + i - |sortedHashes|
      requires keep(circle[sortedHashes[at]])
      ensures Walk(ring, keep, h) == Some(circle[sortedHashes[at]])
    {
      var live, p := LiveSlots(ring, keep), sortedHashes[at];
      assert p in circle;
      forall q | q in live ensures (at >= idx && h <= q ==> p <= q) && (at < idx ==> q < h && p <= q) {
        var j := PositionOf(q);
        assert keep(circle[q]);
      }
      assert IsSuccessor(live, h, p);
      SuccessorUnique(live, h, p, Successor(live, h));
    }

    lemma PositionOf(q: Hash) returns (j: nat)
      requires Represents(circle, sortedHashes, ring) && q in Slots(ring)
      ensures j < |sortedHashes| && sortedHashes[j] == q
    {
      assert q in sortedHashes;
      j :| 0 <= j < |sortedHashes| && sortedHashes[j] == q;
    }

    lemma NoneLive(keep: Target -> bool, idx: nat)
      requires Valid() && idx <= |sortedHashes| && NoneBefore(keep, idx, |sortedHashes|)
      ensures LiveSlots(ring, keep) == {}
    {
      forall q | q in Slots(ring) ensures !keep(circle[q]) {
        var j := PositionOf(q);
      }
    }
  }

  lemma StepPosition(idx: nat, k: nat, n: nat)
    requires idx <= n && k < n
    ensures (idx + k) % n == if idx + k < n then idx + k else idx + k - n
  {
    if idx + k >= n {
      assert idx + k == n + (idx + k - n);
    }
  }

  /** The map and the hash list hold exactly the slots of the ring, each with its owner. */
  ghost predicate Represents(circle: map<Hash, Target>, hashes: seq<Hash>, ring: seq<Entry<Target>>)
  {
    && circle.Keys == Slots(ring)
    && (forall p :: p in circle ==> circle[p] == SlotOwner(ring, p))
    && (forall p :: p in hashes <==> p in circle)
  }

  function Maybe(t: Target?): Option<Target>
  {
    if t == null then None else Some(t)
  }

  /** The URLs a failover selection may return: healthy in the list and not excluded. */
  ghost function Allowed(targets: seq<Target>, excluded: seq<Target?>): set<string>
    reads targets`healthy
  {
    (set i | 0 <= i < |targets| && targets[i].healthy :: targets[i].url) - Urls(excluded)
  }

  ghost function Acceptable(urls: set<string>): Target -> bool
  {
    (t: Target) => t.url in urls
  }

  /** The lookup table of the walk: excluded URLs are entered last, so exclusion wins. */
  method TargetSet(targets: seq<Target>, excluded: seq<Target?>) returns (m: map<string, bool>)
    ensures forall u :: u in Allowed(targets, excluded) <==> u in m && m[u]
  {
    m := map[];
    for i := 0 to |targets|
      invariant forall u :: (u in m && m[u]) <==> u in Allowed(targets[..i], [])
      invariant forall u :: u in m ==> m[u]
    {
      if targets[i].healthy {
        m := m[targets[i].url := true];
      }
      AllowedSnoc(targets, i);
    }
    assert targets[..|targets|] == targets;
    for i := 0 to |excluded|
      invariant forall u :: (u in m && m[u]) <==> u in Allowed(targets, excluded[..i])
    {
      if excluded[i] != null {
        m := m[excluded[i].url := false];
      }
      UrlsSnoc(excluded, i);
    }
    assert excluded[..|excluded|] == excluded;
  }

  lemma AllowedSnoc(targets: seq<Target>, i: nat)
    requires i < |targets|
    ensures Allowed(targets[..i+1], [])
            == Allowed(targets[..i], []) + if targets[i].healthy then {targets[i].url} else {}
  {
    var now, then' := targets[..i], targets[..i+1];
    assert forall k :: 0 <= k < i ==> now[k] == then'[k];
    assert then'[i] == targets[i];
  }

  lemma UrlsSnoc(excluded: seq<Target?>, i: nat)
    requires i < |excluded|
    ensures Urls(excluded[..i+1])
            == Urls(excluded[..i]) + if excluded[i] != null then {(excluded[i] as Target).url} else {}
  {
    var now, then' := excluded[..i], excluded[..i+1];
    assert forall k :: 0 <= k < i ==> now[k] == then'[k];
    assert then'[i] == excluded[i];
  }

  /** The targets of a list whose URL is not excluded, in order. */
  ghost function Without(targets: seq<Target>, excluded: seq<Target?>): seq<Target>
  {
    if targets == [] then []
    else
      var t := targets[|targets|-1];
      var front := Without(targets[..|targets|-1], excluded);
      if t.url in Urls(excluded) then front else front + [t]
  }

  /** Filtering the ring of a list is building the ring of the filtered list. */
  lemma {:induction false} FilteredRing(c: ConsistentHash, targets: seq<Target>, excluded: seq<Target?>,
                                        urls: set<string>)
    requires Allowed(targets, excluded) <= urls && urls !! Urls(excluded)
    ensures Keep(c.RingOf(targets), Acceptable(urls)) == c.RingOf(Without(targets, excluded))
  {
    if targets != [] {
      var front, t := targets[..|targets|-1], targets[|targets|-1];
      AllowedPrefix(targets, excluded);
      FilteredRing(c, front, excluded, urls);
      RingOfSnoc(c, front, t);
      assert targets == front + [t];
      RingOfSnoc(c, Without(front, excluded), t);
      var r := c.RingOf(targets);
      if t.healthy {
        assert r[..|r|-1] == c.RingOf(front) && r[|r|-1] == Entry(t, c.HashesOf(t));
      } else {
        assert r == c.RingOf(front);
      }
      assert Without(targets, excluded)
          == if t.url in Urls(excluded) then Without(front, excluded) else Without(front, excluded) + [t];
    }
  }

  lemma AllowedPrefix(targets: seq<Target>, excluded: seq<Target?>)
    requires targets != []
    ensures Allowed(targets[..|targets|-1], excluded) <= Allowed(targets, excluded)
    ensures targets[|targets|-1].healthy ==>
      targets[|targets|-1].url in Allowed(targets, excluded) || targets[|targets|-1].url in Urls(excluded)
  {
    var front := targets[..|targets|-1];
    assert forall k :: 0 <= k < |front| ==> front[k] == targets[k];
  }

  lemma RingOfSnoc(c: ConsistentHash, front: seq<Target>, t: Target)
    ensures c.RingOf(front + [t])
            == c.RingOf(front) + if t.healthy then [Entry(t, c.HashesOf(t))] else []
  {
    var ts := front + [t];
    assert c.Snapshots(ts)[..|front|] == c.Snapshots(front);
    RingSnoc(c.Snapshots(ts), |front|);
    assert c.Snapshots(ts)[..|ts|] == c.Snapshots(ts);
  }

  /** The ring of a list: one entry after the other for its healthy targets, each with the virtual nodes it has
      or, when it has none yet, with the hashes of its URL's numbered keys; a later target takes over the slots
      it shares with earlier ones. */
  lemma RingGrows(c: ConsistentHash, front: seq<Target>, t: Target)
    ensures c.RingOf([]) == []
    ensures !t.healthy ==> c.RingOf(front + [t]) == c.RingOf(front)
    ensures t.healthy ==>
      var e := c.RingOf(front + [t]);
      && |e| == |c.RingOf(front)| + 1 && e[..|e|-1] == c.RingOf(front)
      && e[|e|-1].owner == t
      && (t.virtualHashes != [] ==> e[|e|-1].hashes == t.virtualHashes)
      && (t.virtualHashes == [] ==>
            |e[|e|-1].hashes| == c.virtualNodes
            && forall i :: 0 <= i < c.virtualNodes ==> e[|e|-1].hashes[i] == c.hash(VirtualKey(t.url, i)))
      && (forall p :: p in Slots(e) ==>
            SlotOwner(e, p) == if p in e[|e|-1].hashes then t else SlotOwner(c.RingOf(front), p))
  {
    RingOfSnoc(c, front, t);
    assert c.Snapshots([]) == [];
  }

  /** The failover theorem. On a ring built from the list at hand with no hash value shared between
      targets, skipping the excluded targets selects for every key what a ring rebuilt from the list
      minus those targets selects, and nothing exactly when all its targets are excluded. */
  lemma SkippingIsRebuilding(c: ConsistentHash, targets: seq<Target>, excluded: seq<Target?>, h: Hash)
    requires c.virtualNodes > 0
    requires NoSharedHash(c.RingOf(targets))
    ensures var keep := Acceptable(Allowed(targets, excluded));
      && Walk(c.RingOf(targets), keep, h) == Owner(c.RingOf(Without(targets, excluded)), h)
      && (Walk(c.RingOf(targets), keep, h).None?
          <==> forall t :: t in targets && t.healthy ==> t.url in Urls(excluded))
  {
    var ring, urls := c.RingOf(targets), Allowed(targets, excluded);
    FailoverIsRebuild(ring, Acceptable(urls), h);
    FilteredRing(c, targets, excluded, urls);
    RingMembers(c, targets);
    if forall i :: 0 <= i < |ring| && ring[i].hashes != [] ==> !Acceptable(urls)(ring[i].owner) {
      forall t | t in targets && t.healthy ensures t.url in Urls(excluded) {
        var i :| 0 <= i < |ring| && ring[i].owner == t;
        var j :| 0 <= j < |targets| && targets[j] == t;
        assert targets[j].url !in urls;
      }
    }
  }

  /** Whatever the ring, a failover selection never answers with an excluded or unhealthy URL. */
  lemma WalkAvoidsExcluded(ring: seq<Entry<Target>>, targets: seq<Target>, excluded: seq<Target?>, h: Hash)
    requires Walk(ring, Acceptable(Allowed(targets, excluded)), h).Some?
    ensures var t := Walk(ring, Acceptable(Allowed(targets, excluded)), h).value;
      t.url !in Urls(excluded) && exists i :: 0 <= i < |targets| && targets[i].healthy && targets[i].url == t.url
  {
    var keep := Acceptable(Allowed(targets, excluded));
    var p := Successor(LiveSlots(ring, keep), h);
    assert keep(SlotOwner(ring, p));
  }

  /** Minimal disruption for lists: rebuilding without some targets moves only the keys those targets
      owned, collisions or not; read backwards, adding targets moves keys only to the newcomers. */
  lemma RebuildMovesOnlyTheirKeys(c: ConsistentHash, targets: seq<Target>, gone: seq<Target?>, h: Hash)
    requires c.virtualNodes > 0
    ensures var before, after := Owner(c.RingOf(targets), h), Owner(c.RingOf(Without(targets, gone)), h);
      before != after ==> before.Some? && before.value.url in Urls(gone)
  {
    var ring, urls := c.RingOf(targets), Allowed(targets, gone);
    FilteredRing(c, targets, gone, urls);
    var before := Owner(ring, h);
    if before.None? {
      LiveIsKept(ring, Acceptable(urls));
    } else if before.value.url !in Urls(gone) {
      var i := SlotHasEntry(ring, Successor(Slots(ring), h));
      RingMembers(c, targets);
      var j :| 0 <= j < |targets| && targets[j] == before.value;
      assert targets[j].url in urls;
      MinimalDisruption(ring, Acceptable(urls), h);
    }
  }

  lemma {:induction false} RingMembers(c: ConsistentHash, targets: seq<Target>)
    requires c.virtualNodes > 0
    ensures var ring := c.RingOf(targets);
      && (forall i :: 0 <= i < |ring| ==> ring[i].owner in targets && ring[i].owner.healthy && ring[i].hashes != [])
      && (forall t :: t in targets && t.healthy ==> exists i :: 0 <= i < |ring| && ring[i].owner == t)
  {
    if targets != [] {
      var front, last := targets[..|targets|-1], targets[|targets|-1];
      assert targets == front + [last];
      RingMembers(c, front);
      RingOfSnoc(c, front, last);
      var ring, less := c.RingOf(targets), c.RingOf(front);
      forall t | t in targets && t.healthy ensures exists i :: 0 <= i < |ring| && ring[i].owner == t {
        if t == last {
          assert ring[|ring|-1].owner == t;
        } else {
          assert t in front;
          var i :| 0 <= i < |less| && less[i].owner == t;
          assert ring[i] == less[i];
        }
      }
    }
  }
}
