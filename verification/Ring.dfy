/**
 The hash ring as a mathematical object: which target owns a key, what the clockwise
 failover walk answers, and how the two relate.
 */
module Ring {
  import opened Wrappers

  type Hash = nat

  /** A target together with its virtual nodes. */
  datatype Entry<T> = Entry(owner: T, hashes: seq<Hash>)

  function HashSet(hashes: seq<Hash>): set<Hash>
  {
    set h | h in hashes
  }

  /** The occupied slots of the ring. */
  function Slots<T>(ring: seq<Entry<T>>): set<Hash>
  {
    if ring == [] then {}
    else Slots(ring[..|ring|-1]) + HashSet(ring[|ring|-1].hashes)
  }

  /** On a collision the target added last wins the slot. */
  function SlotOwner<T>(ring: seq<Entry<T>>, p: Hash): T
    requires p in Slots(ring)
  {
    var last := ring[|ring|-1];
    if p in last.hashes then last.owner else SlotOwner(ring[..|ring|-1], p)
  }

  /** `p` is the first slot clockwise from `h`: the least slot not below `h`, or, when every slot is
      below `h`, the least slot of all. */
  ghost predicate IsSuccessor(slots: set<Hash>, h: Hash, p: Hash)
  {
    && p in slots
    && ((h <= p && forall q :: q in slots && h <= q ==> p <= q)
        || (forall q :: q in slots ==> q < h && p <= q))
  }

  lemma SuccessorUnique(slots: set<Hash>, h: Hash, p: Hash, q: Hash)
    requires IsSuccessor(slots, h, p) && IsSuccessor(slots, h, q)
    ensures p == q
  {
  }

  lemma {:induction false} LeastExists(s: set<Hash>) returns (m: Hash)
    requires s != {}
    ensures m in s && forall q :: q in s ==> m <= q
    decreases s
  {
    m :| m in s;
    var rest := s - {m};
    assert s == rest + {m};
    if rest != {} {
      var n := LeastExists(rest);
      if n < m { m := n; }
    }
  }

  lemma SuccessorExists(slots: set<Hash>, h: Hash)
    requires slots != {}
    ensures exists p :: IsSuccessor(slots, h, p)
  {
    var above := set q | q in slots && h <= q;
    assert forall q :: q in slots && h <= q ==> q in above;
    if above != {} {
      var p := LeastExists(above);
      assert IsSuccessor(slots, h, p);
    } else {
      var p := LeastExists(slots);
      assert IsSuccessor(slots, h, p);
    }
  }

  /** The slot a key with hash `h` falls on. */
  ghost function Successor(slots: set<Hash>, h: Hash): (p: Hash)
    requires slots != {}
    ensures IsSuccessor(slots, h, p)
  {
    SuccessorExists(slots, h);
    var p :| IsSuccessor(slots, h, p);
    p
  }

  /** The reference definition of plain selection. */
  ghost function Owner<T>(ring: seq<Entry<T>>, h: Hash): Option<T>
  {
    if Slots(ring) == {} then None else Some(SlotOwner(ring, Successor(Slots(ring), h)))
  }

  // ---------------------------------------------------------------- leaving targets out

  /** The ring rebuilt without the targets that `keep` rejects, the order of the others unchanged. */
  function Keep<T>(ring: seq<Entry<T>>, keep: T -> bool): seq<Entry<T>>
  {
    if ring == [] then []
    else
      var front := Keep(ring[..|ring|-1], keep);
      if keep(ring[|ring|-1].owner) then front + [ring[|ring|-1]] else front
  }

  /** The slots of the full ring at which the failover walk may stop. */
  ghost function LiveSlots<T>(ring: seq<Entry<T>>, keep: T -> bool): set<Hash>
  {
    set p | p in Slots(ring) && keep(SlotOwner(ring, p))
  }

  /** What the failover walk answers: the owner of the first acceptable slot clockwise from `h`. */
  ghost function Walk<T>(ring: seq<Entry<T>>, keep: T -> bool, h: Hash): Option<T>
  {
    if LiveSlots(ring, keep) == {} then None
    else Some(SlotOwner(ring, Successor(LiveSlots(ring, keep), h)))
  }

  /** A slot that some kept target hashes to but that a left-out target has taken over. */
  ghost predicate Shadowed<T>(ring: seq<Entry<T>>, keep: T -> bool, p: Hash)
  {
    p in Slots(Keep(ring, keep)) && p !in LiveSlots(ring, keep)
  }

  /** No two positions of the ring share a hash value. */
  ghost predicate NoSharedHash<T>(ring: seq<Entry<T>>)
  {
    forall i, j, h :: 0 <= i < j < |ring| && h in ring[i].hashes ==> h !in ring[j].hashes
  }

  lemma {:induction false} KeptSlot<T>(ring: seq<Entry<T>>, keep: T -> bool, p: Hash)
    requires p in LiveSlots(ring, keep)
    ensures p in Slots(Keep(ring, keep))
    ensures SlotOwner(Keep(ring, keep), p) == SlotOwner(ring, p)
  {
    var front, last := ring[..|ring|-1], ring[|ring|-1];
    if p !in last.hashes {
      KeptSlot(front, keep, p);
    }
    if keep(last.owner) {
      KeepSnoc(front, last, keep);
    }
  }

  lemma KeepSnoc<T>(front: seq<Entry<T>>, last: Entry<T>, keep: T -> bool)
    requires keep(last.owner)
    ensures Slots(Keep(front, keep) + [last]) == Slots(Keep(front, keep)) + HashSet(last.hashes)
    ensures forall p :: p in Slots(Keep(front, keep) + [last]) ==>
      SlotOwner(Keep(front, keep) + [last], p)
      == if p in last.hashes then last.owner else SlotOwner(Keep(front, keep), p)
  {
    var kept := Keep(front, keep) + [last];
    assert kept[..|kept|-1] == Keep(front, keep);
  }

  lemma {:induction false} KeptSlotInRing<T>(ring: seq<Entry<T>>, keep: T -> bool, p: Hash)
    requires p in Slots(Keep(ring, keep))
    ensures p in Slots(ring)
    ensures keep(SlotOwner(Keep(ring, keep), p))
  {
    var front, last := ring[..|ring|-1], ring[|ring|-1];
    if keep(last.owner) {
      KeepSnoc(front, last, keep);
    }
    if !(keep(last.owner) && p in last.hashes) {
      KeptSlotInRing(front, keep, p);
    }
  }

  /** Minimal disruption. Leaving targets out never moves a key whose owner stays. */
  lemma MinimalDisruption<T>(ring: seq<Entry<T>>, keep: T -> bool, h: Hash)
    requires Owner(ring, h).Some? && keep(Owner(ring, h).value)
    ensures Owner(Keep(ring, keep), h) == Owner(ring, h)
  {
    var p := Successor(Slots(ring), h);
    KeptSlot(ring, keep, p);
    forall q | q in Slots(Keep(ring, keep)) ensures q in Slots(ring) {
      KeptSlotInRing(ring, keep, q);
    }
    assert IsSuccessor(Slots(Keep(ring, keep)), h, p);
    SuccessorUnique(Slots(Keep(ring, keep)), h, p, Successor(Slots(Keep(ring, keep)), h));
  }

  /** Removing one target changes the owner of a key only when that target owned it; read from right to
      left, adding one moves keys only to the newcomer. Hash collisions are allowed. */
  lemma RemovalMovesOnlyItsKeys<T>(ring: seq<Entry<T>>, gone: T, h: Hash)
    ensures var rest := Keep(ring, t => t != gone);
      Owner(rest, h) != Owner(ring, h) ==> Owner(ring, h) == Some(gone)
  {
    var keep := t => t != gone;
    if Owner(ring, h).Some? && Owner(ring, h).value != gone {
      MinimalDisruption(ring, keep, h);
    } else if Owner(ring, h).None? {
      if Slots(Keep(ring, keep)) != {} {
        var q :| q in Slots(Keep(ring, keep));
        KeptSlotInRing(ring, keep, q);
      }
    }
  }

  // ---------------------------------------------------------------- failover equals rebuild

  lemma LiveIsKept<T>(ring: seq<Entry<T>>, keep: T -> bool)
    ensures LiveSlots(ring, keep) <= Slots(Keep(ring, keep)) <= Slots(ring)
  {
    forall p | p in LiveSlots(ring, keep) ensures p in Slots(Keep(ring, keep)) {
      KeptSlot(ring, keep, p);
    }
    forall p | p in Slots(Keep(ring, keep)) ensures p in Slots(ring) {
      KeptSlotInRing(ring, keep, p);
    }
  }

  /** The walk from `h` stops at the very slot a ring rebuilt without the left-out targets would pick. */
  ghost predicate StopsWhereRebuilt<T>(ring: seq<Entry<T>>, keep: T -> bool, h: Hash)
    requires Slots(Keep(ring, keep)) != {}
  {
    && LiveSlots(ring, keep) != {}
    && Successor(LiveSlots(ring, keep), h) == Successor(Slots(Keep(ring, keep)), h)
  }

  /** For one key that happens exactly when the rebuilt ring's slot is not shadowed; and then the two
      answers are the same target. */
  lemma WalkStopsAtRebuiltSlot<T>(ring: seq<Entry<T>>, keep: T -> bool, h: Hash)
    requires Slots(Keep(ring, keep)) != {}
    ensures StopsWhereRebuilt(ring, keep, h)
            <==> !Shadowed(ring, keep, Successor(Slots(Keep(ring, keep)), h))
    ensures StopsWhereRebuilt(ring, keep, h) ==> Walk(ring, keep, h) == Owner(Keep(ring, keep), h)
  {
    var p := Successor(Slots(Keep(ring, keep)), h);
    var live := LiveSlots(ring, keep);
    LiveIsKept(ring, keep);
    if p in live {
      assert IsSuccessor(live, h, p);
      SuccessorUnique(live, h, p, Successor(live, h));
      KeptSlot(ring, keep, p);
    }
  }

  /** Skipping targets agrees slot for slot with rebuilding without them, for every key, exactly when
      no slot is shadowed. */
  lemma SlotsAgreeIff<T>(ring: seq<Entry<T>>, keep: T -> bool)
    requires Slots(Keep(ring, keep)) != {}
    ensures (forall h: Hash :: StopsWhereRebuilt(ring, keep, h))
            <==> (forall p: Hash :: !Shadowed(ring, keep, p))
  {
    var kept := Slots(Keep(ring, keep));
    if forall p: Hash :: !Shadowed(ring, keep, p) {
      forall h: Hash ensures StopsWhereRebuilt(ring, keep, h) {
        WalkStopsAtRebuiltSlot(ring, keep, h);
      }
    } else {
      var p: Hash :| Shadowed(ring, keep, p);
      assert IsSuccessor(kept, p, p);
      SuccessorUnique(kept, p, p, Successor(kept, p));
      assert !StopsWhereRebuilt(ring, keep, p);
    }
  }

  /** A shadowed slot does no harm when the next slot at which the walk may stop belongs to the very target the
      slot would have on the rebuilt ring. */
  ghost predicate Harmless<T>(ring: seq<Entry<T>>, keep: T -> bool, p: Hash)
    requires p in Slots(Keep(ring, keep))
  {
    && LiveSlots(ring, keep) != {}
    && SlotOwner(ring, Successor(LiveSlots(ring, keep), p)) == SlotOwner(Keep(ring, keep), p)
  }

  lemma SuccessorOfSuccessor(live: set<Hash>, kept: set<Hash>, h: Hash)
    requires live != {} && live <= kept
    ensures Successor(live, Successor(kept, h)) == Successor(live, h)
  {
    var p := Successor(kept, h);
    var q := Successor(live, p);
    assert IsSuccessor(kept, h, p) && IsSuccessor(live, p, q);
    assert IsSuccessor(live, h, q);
    SuccessorUnique(live, h, q, Successor(live, h));
  }

  /** Skipping targets and rebuilding without them pick the same target for every key exactly when every
      shadowed slot is harmless. */
  lemma FailoverIsRebuildIff<T>(ring: seq<Entry<T>>, keep: T -> bool)
    ensures (forall h: Hash :: Walk(ring, keep, h) == Owner(Keep(ring, keep), h))
            <==> (forall p: Hash :: Shadowed(ring, keep, p) ==> Harmless(ring, keep, p))
  {
    var kept, live := Slots(Keep(ring, keep)), LiveSlots(ring, keep);
    LiveIsKept(ring, keep);
    if forall p: Hash :: Shadowed(ring, keep, p) ==> Harmless(ring, keep, p) {
      forall h: Hash ensures Walk(ring, keep, h) == Owner(Keep(ring, keep), h) {
        if kept != {} {
          WalkStopsAtRebuiltSlot(ring, keep, h);
          if Shadowed(ring, keep, Successor(kept, h)) {
            SuccessorOfSuccessor(live, kept, h);
          }
        }
      }
    } else {
      var p: Hash :| Shadowed(ring, keep, p) && !Harmless(ring, keep, p);
      assert IsSuccessor(kept, p, p);
      SuccessorUnique(kept, p, p, Successor(kept, p));
      assert Walk(ring, keep, p) != Owner(Keep(ring, keep), p);
    }
  }

  /** A shadowed slot can be harmless: target 0 has lost slot 5 to target 1 but owns the next one, and all
      answers agree. */
  lemma HarmlessCollision()
    ensures var ring := [Entry(0, [5, 7]), Entry(1, [5])];
      var keep := (t: int) => t != 1;
      && Shadowed(ring, keep, 5)
      && forall h: Hash :: Walk(ring, keep, h) == Owner(Keep(ring, keep), h)
  {
    var ring := [Entry(0, [5, 7]), Entry(1, [5])];
    var keep := (t: int) => t != 1;
    HarmlessRing();
    assert Successor({7}, 5) == 7;
    forall p: Hash | Shadowed(ring, keep, p) ensures Harmless(ring, keep, p) {
      assert p == 5;
    }
    FailoverIsRebuildIff(ring, keep);
  }

  lemma HarmlessRing()
    ensures var ring := [Entry(0, [5, 7]), Entry(1, [5])];
      var keep := (t: int) => t != 1;
      && Slots(Keep(ring, keep)) == {5, 7} && LiveSlots(ring, keep) == {7}
      && SlotOwner(ring, 7) == 0 && SlotOwner(Keep(ring, keep), 5) == 0
  {
    var first, second := Entry(0, [5, 7]), Entry(1, [5]);
    var keep := (t: int) => t != 1;
    OneMore([], first, keep);
    assert [] + [first] == [first];
    OneMore([first], second, keep);
    assert [first] + [second] == [first, second];
    assert HashSet([5, 7]) == {5, 7} && HashSet([5]) == {5};
  }

  /** A ring with one more entry. */
  lemma OneMore<T>(front: seq<Entry<T>>, last: Entry<T>, keep: T -> bool)
    ensures var ring := front + [last];
      && Slots(ring) == Slots(front) + HashSet(last.hashes)
      && (forall p :: p in Slots(ring) ==>
            SlotOwner(ring, p) == if p in last.hashes then last.owner else SlotOwner(front, p))
      && Keep(ring, keep) == if keep(last.owner) then Keep(front, keep) + [last] else Keep(front, keep)
  {
    assert (front + [last])[..|front|] == front;
  }

  /** The walk answers with acceptable targets only. */
  lemma WalkKept<T>(ring: seq<Entry<T>>, keep: T -> bool, h: Hash)
    requires Walk(ring, keep, h).Some?
    ensures keep(Walk(ring, keep, h).value)
  {
    assert Successor(LiveSlots(ring, keep), h) in LiveSlots(ring, keep);
  }

  lemma {:induction false} SharedHashOwner<T>(ring: seq<Entry<T>>, i: nat, p: Hash)
    requires NoSharedHash(ring) && i < |ring| && p in ring[i].hashes
    ensures p in Slots(ring) && SlotOwner(ring, p) == ring[i].owner
  {
    var front := ring[..|ring|-1];
    if i < |ring| - 1 {
      assert ring[i] == front[i];
      SharedHashOwner(front, i, p);
    }
  }

  lemma {:induction false} SlotHasEntry<T>(ring: seq<Entry<T>>, p: Hash) returns (i: nat)
    requires p in Slots(ring)
    ensures i < |ring| && p in ring[i].hashes && SlotOwner(ring, p) == ring[i].owner
  {
    if p in ring[|ring|-1].hashes {
      i := |ring| - 1;
    } else {
      i := SlotHasEntry(ring[..|ring|-1], p);
    }
  }

  lemma {:induction false} KeepEntries<T>(ring: seq<Entry<T>>, keep: T -> bool, e: Entry<T>)
    ensures e in Keep(ring, keep) <==> e in ring && keep(e.owner)
  {
    if ring != [] {
      KeepEntries(ring[..|ring|-1], keep, e);
      assert ring == ring[..|ring|-1] + [ring[|ring|-1]];
    }
  }

  lemma NoSharedHashNoShadow<T>(ring: seq<Entry<T>>, keep: T -> bool, p: Hash)
    requires NoSharedHash(ring)
    ensures !Shadowed(ring, keep, p)
  {
    if p in Slots(Keep(ring, keep)) {
      var k := SlotHasEntry(Keep(ring, keep), p);
      var e := Keep(ring, keep)[k];
      KeepEntries(ring, keep, e);
      var i :| 0 <= i < |ring| && ring[i] == e;
      SharedHashOwner(ring, i, p);
    }
  }

  /** With no shared hash value, skipping targets and rebuilding without them pick the same target for
      every key; and the walk finds nothing exactly when every target that has a virtual node is left
      out. */
  lemma {:induction false} FailoverIsRebuild<T>(ring: seq<Entry<T>>, keep: T -> bool, h: Hash)
    requires NoSharedHash(ring)
    ensures Walk(ring, keep, h) == Owner(Keep(ring, keep), h)
    ensures Walk(ring, keep, h).None? <==>
      forall i :: 0 <= i < |ring| && ring[i].hashes != [] ==> !keep(ring[i].owner)
  {
    LiveIsKept(ring, keep);
    if Slots(Keep(ring, keep)) != {} {
      NoSharedHashNoShadow(ring, keep, Successor(Slots(Keep(ring, keep)), h));
      WalkStopsAtRebuiltSlot(ring, keep, h);
    }
    WalkNil(ring, keep, h);
  }

  lemma WalkNil<T>(ring: seq<Entry<T>>, keep: T -> bool, h: Hash)
    requires NoSharedHash(ring)
    ensures Walk(ring, keep, h).None? <==>
      forall i :: 0 <= i < |ring| && ring[i].hashes != [] ==> !keep(ring[i].owner)
  {
    if Walk(ring, keep, h).None? {
      forall i | 0 <= i < |ring| && ring[i].hashes != [] ensures !keep(ring[i].owner) {
        SharedHashOwner(ring, i, ring[i].hashes[0]);
        assert ring[i].hashes[0] !in LiveSlots(ring, keep);
      }
    } else {
      var p :| p in LiveSlots(ring, keep);
      var i := SlotHasEntry(ring, p);
    }
  }

  /** Without that hypothesis the answers can differ: here targets 0 and 1 collide on slot 5, target 1
      is skipped, and the walk hands the key to target 2 while a rebuilt ring hands it to target 0. */
  lemma CollisionBreaksFailover()
    ensures var ring := [Entry(0, [5]), Entry(2, [7]), Entry(1, [5])];
      var keep := (t: int) => t != 1;
      Walk(ring, keep, 5) == Some(2) && Owner(Keep(ring, keep), 5) == Some(0)
  {
    var ring := [Entry(0, [5]), Entry(2, [7]), Entry(1, [5])];
    var keep := (t: int) => t != 1;
    var two := [Entry(0, [5]), Entry(2, [7])];
    OneMore([], Entry(0, [5]), keep);
    assert [] + [Entry(0, [5])] == [Entry(0, [5])];
    OneMore([Entry(0, [5])], Entry(2, [7]), keep);
    assert [Entry(0, [5])] + [Entry(2, [7])] == two;
    OneMore(two, Entry(1, [5]), keep);
    assert two + [Entry(1, [5])] == ring;
    assert HashSet([5]) == {5} && HashSet([7]) == {7};
    assert LiveSlots(ring, keep) == {7};
    assert IsSuccessor({7}, 5, 7) && IsSuccessor({5, 7}, 5, 5);
    SuccessorUnique({7}, 5, 7, Successor({7}, 5));
    SuccessorUnique({5, 7}, 5, 5, Successor({5, 7}, 5));
  }
}
