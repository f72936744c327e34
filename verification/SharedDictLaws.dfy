/** What the operations of the shared dictionary answer and leave, key by key, and across runs. */
module SharedDictLaws {
  import opened Wrappers
  import opened Recency
  import opened SharedDictModel

  /** Reading a stored key: expired if and only if it has a deadline and the deadline has passed, and then the
      key is gone and everything else stays; otherwise the value, the key becoming the most recent. */
  lemma GetLaw(items: seq<Slot>, maxItems: int, key: string, now: int)
    requires Has(items, key)
    ensures var slot, r := Lookup(items, key), Step(items, maxItems, Get(key), now);
      && (r.answer == WasExpired
          <==> slot.body.expiredAt.Some? && now > slot.body.expiredAt.value)
      && (r.answer == WasExpired ==> !Has(r.items, key) && r.items == Without(items, key))
      && (r.answer != WasExpired ==>
            r.answer == Value(slot.body.value) && r.items == [slot] + Without(items, key))
  {
    AbsentWithout(items, key);
  }

  /** Reading a key that is not stored. */
  lemma GetMissing(items: seq<Slot>, maxItems: int, key: string, now: int)
    requires !Has(items, key)
    ensures Step(items, maxItems, Get(key), now) == Outcome(items, Missing)
  {
  }

  /** What is stored: the value, with a deadline exactly for a positive time to live. */
  function Stored(key: string, value: string, ttl: int, now: int): Slot
  {
    Item(key, Entry(value, if ttl > 0 then Some(now + ttl) else None))
  }

  /** Setting a key succeeds exactly when it is stored already or the capacity is positive; then what was
      passed is stored, as the most recent. */
  lemma SetLaw(items: seq<Slot>, maxItems: int, key: string, value: string, ttl: int, now: int)
    requires Inv(items, maxItems)
    ensures var r := Step(items, maxItems, Set(key, value, ttl), now);
      && r.answer == Ok(Has(items, key) || maxItems > 0)
      && (r.answer == Ok(true) ==>
            r.items != [] && r.items[0] == Stored(key, value, ttl, now)
            && Has(r.items, key) && Lookup(r.items, key) == r.items[0])
  {
    var k := MakeRoomRemovesLittle(items, maxItems, now);
  }

  /** Adding does the same for a key that is not stored, and nothing for one that is, expired or not. */
  lemma AddLaw(items: seq<Slot>, maxItems: int, key: string, value: string, ttl: int, now: int)
    requires Inv(items, maxItems)
    ensures var r := Step(items, maxItems, Add(key, value, ttl), now);
      if Has(items, key) then r == Outcome(items, Ok(false))
      else r == Step(items, maxItems, Set(key, value, ttl), now)
  {
  }

  /** An increment keeps the deadline of a stored count and makes it the most recent; a count it creates has
      no deadline. */
  lemma IncrLaw(items: seq<Slot>, maxItems: int, key: string, increment: int, now: int)
    requires Inv(items, maxItems)
    requires Step(items, maxItems, Incr(key, increment), now).answer.Number? && (Has(items, key) || maxItems > 0)
    ensures var r := Step(items, maxItems, Incr(key, increment), now);
      && r.items != [] && r.items[0].key == key
      && r.items[0].body.value == Decimal.Numeral(r.answer.n)
      && r.items[0].body.expiredAt == if Has(items, key) then Lookup(items, key).body.expiredAt else None
  {
    if !Has(items, key) {
      InsertKeeps(items, maxItems, Item(key, Entry("0", None)), now);
    }
  }

  /** Deleting, flushing all and flushing what has expired. */
  lemma RemovalLaw(items: seq<Slot>, maxItems: int, key: string, now: int)
    ensures var r := Step(items, maxItems, Delete(key), now);
      !Has(r.items, key) && (!Has(items, key) ==> r.items == items)
    ensures Step(items, maxItems, FlushAll, now).items == []
    ensures var r := Step(items, maxItems, FlushExpired, now);
      |r.items| <= |items| && r.items == items[..|r.items|] && r.answer == Removed(|items| - |r.items|)
      && (forall i :: |r.items| <= i < |items| ==>
            items[i].body.expiredAt.Some? && now > items[i].body.expiredAt.value)
      && (r.items != [] ==>
            var last := r.items[|r.items|-1]; last.body.expiredAt.None? || now <= last.body.expiredAt.value)
  {
    AbsentWithout(items, key);
    if !Has(items, key) {
      NotThere(items, key);
      WithoutAbsent(items, key);
    }
    var k := SweepIsMaximalTail(items, now);
    assert forall i :: k <= i < |items| ==> Expired(items[i], now);
  }

  // ---------------------------------------------------------------- across runs

  function RunFrom(items: seq<Slot>, maxItems: int, ops: seq<Timed>): seq<Slot>
    decreases |ops|
  {
    if ops == [] then items else RunFrom(Step(items, maxItems, ops[0].op, ops[0].now).items, maxItems, ops[1..])
  }

  /** The key stays stored throughout and is neither set nor incremented. */
  ghost predicate Kept(items: seq<Slot>, maxItems: int, key: string, ops: seq<Timed>)
    decreases |ops|
  {
    && Has(items, key)
    && (ops != [] ==>
          !Writes(ops[0].op, key)
          && Kept(Step(items, maxItems, ops[0].op, ops[0].now).items, maxItems, key, ops[1..]))
  }

  lemma {:induction false} KeptSlot(items: seq<Slot>, maxItems: int, key: string, ops: seq<Timed>)
    requires Inv(items, maxItems) && Kept(items, maxItems, key, ops)
    ensures var after := RunFrom(items, maxItems, ops);
      Has(after, key) && Lookup(after, key) == Lookup(items, key)
    decreases |ops|
  {
    if ops != [] {
      StepKeepsInv(items, maxItems, ops[0].op, ops[0].now);
      SlotStays(items, maxItems, key, ops[0].op, ops[0].now);
      KeptSlot(Step(items, maxItems, ops[0].op, ops[0].now).items, maxItems, key, ops[1..]);
    }
  }

  /** Read after write: whatever happens to other keys, a value that was set is read back until its time to live
      is over, and from then on the key is reported as expired. */
  lemma {:induction false} ReadAfterSet(items: seq<Slot>, maxItems: int, key: string, value: string, ttl: int,
                                        at: int, ops: seq<Timed>, now: int)
    requires Inv(items, maxItems)
    requires Step(items, maxItems, Set(key, value, ttl), at).answer == Ok(true)
    requires Kept(Step(items, maxItems, Set(key, value, ttl), at).items, maxItems, key, ops)
    ensures var after := RunFrom(Step(items, maxItems, Set(key, value, ttl), at).items, maxItems, ops);
      Step(after, maxItems, Get(key), now).answer
      == if ttl <= 0 || now <= at + ttl then Value(value) else WasExpired
  {
    var written := Step(items, maxItems, Set(key, value, ttl), at).items;
    SetLaw(items, maxItems, key, value, ttl, at);
    StepKeepsInv(items, maxItems, Set(key, value, ttl), at);
    KeptSlot(written, maxItems, key, ops);
    GetLaw(RunFrom(written, maxItems, ops), maxItems, key, now);
  }
}
