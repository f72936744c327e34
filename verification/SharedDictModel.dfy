/** The Lua shared dictionary as a recency list: what its operations do and what its evictions remove. */
module SharedDictModel {
  import opened Wrappers
  import opened Recency
  import Decimal

  /** `expiredAt` is None for "never". */
  datatype Entry = Entry(value: string, expiredAt: Option<int>)

  type Slot = Item<Entry>

  predicate Expired(s: Slot, now: int)
  {
    s.body.expiredAt.Some? && now > s.body.expiredAt.value
  }

  function Deadline(ttl: int, now: int): Option<int>
  {
    if ttl > 0 then Some(now + ttl) else None
  }

  // ---------------------------------------------------------------- eviction

  /** Sweeping expired slots from the least recently used end, stopping at the first live one. */
  function DropExpiredTail(items: seq<Slot>, now: int): seq<Slot>
  {
    if items == [] || !Expired(items[|items|-1], now) then items
    else DropExpiredTail(items[..|items|-1], now)
  }

  /** The sweep removes exactly the maximal all-expired tail. */
  lemma {:induction false} SweepIsMaximalTail(items: seq<Slot>, now: int) returns (k: nat)
    ensures k <= |items| && DropExpiredTail(items, now) == items[..k]
    ensures forall i :: k <= i < |items| ==> Expired(items[i], now)
    ensures k > 0 ==> !Expired(items[k-1], now)
  {
    if items == [] || !Expired(items[|items|-1], now) {
      k := |items|;
      assert items[..k] == items;
    } else {
      k := SweepIsMaximalTail(items[..|items|-1], now);
      assert items[..|items|-1][..k] == items[..k];
    }
  }

  predicate ExpiredFormTail(items: seq<Slot>, now: int)
  {
    forall i, j :: 0 <= i < j < |items| && Expired(items[i], now) ==> Expired(items[j], now)
  }

  /** So a flush clears every expired slot - which is what it is documented to do - exactly when no expired
      slot was used more recently than a live one. */
  lemma {:induction false} FlushClearsAllIff(items: seq<Slot>, now: int)
    ensures (forall s :: s in DropExpiredTail(items, now) ==> !Expired(s, now)) <==> ExpiredFormTail(items, now)
  {
    var k := SweepIsMaximalTail(items, now);
    if ExpiredFormTail(items, now) {
      forall s | s in items[..k] ensures !Expired(s, now) {
        var i :| 0 <= i < k && items[i] == s;
      }
    } else {
      var i, j :| 0 <= i < j < |items| && Expired(items[i], now) && !Expired(items[j], now);
      assert i < j < k;
      assert items[i] in items[..k];
    }
  }

  /** Room for one new slot: nothing happens unless the dictionary is full; then the expired tail goes, and
      only if it is still full the least recently used slot. None when there is nothing to remove. */
  function MakeRoom(items: seq<Slot>, maxItems: int, now: int): Option<seq<Slot>>
  {
    if |items| < maxItems then Some(items)
    else
      var swept := DropExpiredTail(items, now);
      if |swept| < maxItems then Some(swept)
      else if swept == [] then None
      else Some(swept[..|swept|-1])
  }

  ghost predicate Inv(items: seq<Slot>, maxItems: int)
  {
    DistinctKeys(items) && |items| <= if maxItems > 0 then maxItems else 0
  }

  /** Making room succeeds exactly when the capacity is positive; it keeps a prefix, live slots are lost only
      if no expired tail could go, and then just one. */
  lemma MakeRoomRemovesLittle(items: seq<Slot>, maxItems: int, now: int) returns (k: nat)
    requires Inv(items, maxItems)
    ensures MakeRoom(items, maxItems, now).Some? <==> maxItems > 0
    ensures maxItems > 0 ==> k <= |items| && MakeRoom(items, maxItems, now) == Some(items[..k]) && k < maxItems
    ensures |items| < maxItems ==> k == |items|
    ensures maxItems > 0 && |items| == maxItems ==>
      if Expired(items[|items|-1], now)
      then (forall i :: k <= i < |items| ==> Expired(items[i], now)) && (k > 0 ==> !Expired(items[k-1], now))
      else k == |items| - 1
  {
    if |items| < maxItems {
      k := |items|;
      assert items[..k] == items;
    } else if maxItems > 0 {
      k := SweepIsMaximalTail(items, now);
      if k == |items| {
        k := |items| - 1;
      }
    } else {
      k := 0;
    }
  }

  // ---------------------------------------------------------------- the operations

  datatype Op =
    | Get(key: string)
    | Set(key: string, value: string, ttl: int)
    | Add(key: string, value: string, ttl: int)
    | Incr(key: string, increment: int)
    | Delete(key: string)
    | FlushAll
    | FlushExpired

  datatype Answer = Value(value: string) | Missing | WasExpired | Ok(ok: bool) | Number(n: int) | NotANumber
                  | Removed(count: nat) | Done

  datatype Outcome = Outcome(items: seq<Slot>, answer: Answer)

  function Insert(items: seq<Slot>, maxItems: int, slot: Slot, now: int): Option<seq<Slot>>
  {
    var room := MakeRoom(items, maxItems, now);
    if room.None? then None else Some([slot] + room.value)
  }

  /** Add to the number a slot holds; a value that is no numeral is refused. */
  function Bump(items: seq<Slot>, key: string, increment: int): Outcome
    requires Has(items, key)
  {
    var slot := Lookup(items, key);
    var current := Decimal.Parse(slot.body.value);
    if current.None? then Outcome(items, NotANumber)
    else
      var n := Decimal.Wrap(current.value + increment);
      Outcome(Promote(items, slot.(body := slot.body.(value := Decimal.Numeral(n)))), Number(n))
  }

  function Step(items: seq<Slot>, maxItems: int, op: Op, now: int): Outcome
  {
    match op
    case Get(key) =>
      if !Has(items, key) then Outcome(items, Missing)
      else if Expired(Lookup(items, key), now) then Outcome(Without(items, key), WasExpired)
      else Outcome(Promote(items, Lookup(items, key)), Value(Lookup(items, key).body.value))
    case Set(key, value, ttl) =>
      var slot := Item(key, Entry(value, Deadline(ttl, now)));
      if Has(items, key) then Outcome(Promote(items, slot), Ok(true))
      else
        var r := Insert(items, maxItems, slot, now);
        if r.None? then Outcome(DropExpiredTail(items, now), Ok(false)) else Outcome(r.value, Ok(true))
    case Add(key, value, ttl) =>
      if Has(items, key) then Outcome(items, Ok(false))
      else
        var r := Insert(items, maxItems, Item(key, Entry(value, Deadline(ttl, now))), now);
        if r.None? then Outcome(DropExpiredTail(items, now), Ok(false)) else Outcome(r.value, Ok(true))
    case Incr(key, increment) =>
      if Has(items, key) then Bump(items, key, increment)
      else
        var r := Insert(items, maxItems, Item(key, Entry("0", None)), now);
        if r.None? then Outcome(DropExpiredTail(items, now), Number(0)) else Bump(r.value, key, increment)
    case Delete(key) => Outcome(Without(items, key), Done)
    case FlushAll => Outcome([], Done)
    case FlushExpired =>
      var swept := DropExpiredTail(items, now);
      Outcome(swept, Removed(if |swept| <= |items| then |items| - |swept| else 0))
  }

  lemma InsertKeeps(items: seq<Slot>, maxItems: int, slot: Slot, now: int)
    requires Inv(items, maxItems) && !Has(items, slot.key)
    ensures Insert(items, maxItems, slot, now).Some? <==> maxItems > 0
    ensures Insert(items, maxItems, slot, now).Some? ==>
      var r := Insert(items, maxItems, slot, now).value;
      Inv(r, maxItems) && r[0] == slot && Position(r, slot.key) == 0
  {
    var k := MakeRoomRemovesLittle(items, maxItems, now);
    if maxItems > 0 {
      NotThere(items, slot.key);
      DistinctFront(items, k);
      WithoutAbsent(items[..k], slot.key);
      PromoteDistinct(items[..k], slot);
    }
  }

  lemma NotThere(items: seq<Slot>, key: string)
    requires !Has(items, key)
    ensures forall i :: 0 <= i < |items| ==> items[i].key != key
  {
  }

  lemma DistinctFront(items: seq<Slot>, k: nat)
    requires DistinctKeys(items) && k <= |items|
    ensures DistinctKeys(items[..k])
  {
  }

  lemma {:induction false} WithoutSize(items: seq<Slot>, key: string)
    requires DistinctKeys(items)
    ensures |Without(items, key)| == |items| - if Has(items, key) then 1 else 0
  {
    if items != [] {
      var front, last := items[..|items|-1], items[|items|-1];
      WithoutSize(front, key);
      PositionSnoc(front, last, key);
      assert items == front + [last];
    }
  }

  lemma PromoteInv(items: seq<Slot>, maxItems: int, slot: Slot)
    requires Inv(items, maxItems) && Has(items, slot.key)
    ensures Inv(Promote(items, slot), maxItems)
  {
    PromoteDistinct(items, slot);
    WithoutSize(items, slot.key);
  }

  /** Every operation keeps the keys distinct and the size within the capacity. */
  lemma StepKeepsInv(items: seq<Slot>, maxItems: int, op: Op, now: int)
    requires Inv(items, maxItems)
    ensures Inv(Step(items, maxItems, op, now).items, maxItems)
  {
    var k := SweepIsMaximalTail(items, now);
    DistinctFront(items, k);
    match op
    case Get(key) =>
      if Has(items, key) { RemoveInv(items, maxItems, key); PromoteInv(items, maxItems, Lookup(items, key)); }
    case Delete(key) => RemoveInv(items, maxItems, key);
    case Set(key, value, ttl) => StoreInv(items, maxItems, Item(key, Entry(value, Deadline(ttl, now))), now);
    case Add(key, value, ttl) => StoreInv(items, maxItems, Item(key, Entry(value, Deadline(ttl, now))), now);
    case Incr(key, increment) => IncrInv(items, maxItems, key, increment, now);
    case _ =>
  }

  lemma RemoveInv(items: seq<Slot>, maxItems: int, key: string)
    requires Inv(items, maxItems)
    ensures Inv(Without(items, key), maxItems)
  {
    WithoutDistinct(items, key);
    WithoutSize(items, key);
  }

  lemma StoreInv(items: seq<Slot>, maxItems: int, slot: Slot, now: int)
    requires Inv(items, maxItems)
    ensures if Has(items, slot.key) then Inv(Promote(items, slot), maxItems)
            else Insert(items, maxItems, slot, now).Some? ==> Inv(Insert(items, maxItems, slot, now).value, maxItems)
  {
    if Has(items, slot.key) {
      PromoteInv(items, maxItems, slot);
    } else {
      InsertKeeps(items, maxItems, slot, now);
    }
  }

  lemma IncrInv(items: seq<Slot>, maxItems: int, key: string, increment: int, now: int)
    requires Inv(items, maxItems)
    ensures Inv(Step(items, maxItems, Incr(key, increment), now).items, maxItems)
  {
    var k := SweepIsMaximalTail(items, now);
    DistinctFront(items, k);
    var zero := Item(key, Entry("0", None));
    StoreInv(items, maxItems, zero, now);
    var from := if Has(items, key) then Some(items) else Insert(items, maxItems, zero, now);
    if from.Some? {
      if !Has(items, key) { InsertKeeps(items, maxItems, zero, now); }
      BumpInv(from.value, maxItems, key, increment);
    }
  }

  lemma BumpInv(items: seq<Slot>, maxItems: int, key: string, increment: int)
    requires Inv(items, maxItems) && Has(items, key)
    ensures Inv(Bump(items, key, increment).items, maxItems)
  {
    var slot := Lookup(items, key);
    var n := Decimal.Wrap(Decimal.Parse(slot.body.value).GetOr(0) + increment);
    PromoteInv(items, maxItems, slot.(body := slot.body.(value := Decimal.Numeral(n))));
  }

  // ---------------------------------------------------------------- whole runs

  datatype Timed = Timed(op: Op, now: int)

  function Run(maxItems: int, ops: seq<Timed>): seq<Slot>
  {
    if ops == [] then []
    else Step(Run(maxItems, ops[..|ops|-1]), maxItems, ops[|ops|-1].op, ops[|ops|-1].now).items
  }

  lemma {:induction false} RunKeepsInv(maxItems: int, ops: seq<Timed>)
    ensures Inv(Run(maxItems, ops), maxItems)
  {
    if ops != [] {
      RunKeepsInv(maxItems, ops[..|ops|-1]);
      StepKeepsInv(Run(maxItems, ops[..|ops|-1]), maxItems, ops[|ops|-1].op, ops[|ops|-1].now);
    }
  }

  /** A flush that leaves an expired slot behind: stored after a lasting one, it is the more recent of the two
      and so out of the sweep's reach. */
  lemma {:induction false} FlushLeavesExpired(maxItems: int, a: string, b: string, v: string, now: int)
    requires a != b && maxItems >= 2 && now > 1
    ensures var lasting, expired := Item(a, Entry(v, None)), Item(b, Entry(v, Some(1)));
      && Run(maxItems, [Timed(Set(a, v, 0), 0), Timed(Set(b, v, 1), 0), Timed(FlushExpired, now)])
         == [expired, lasting]
      && Expired(expired, now)
  {
    var lasting, expired := Item(a, Entry(v, None)), Item(b, Entry(v, Some(1)));
    var ops := [Timed(Set(a, v, 0), 0), Timed(Set(b, v, 1), 0), Timed(FlushExpired, now)];
    assert ops[..2][..1] == ops[..1] && ops[..1][..0] == [];
    assert Run(maxItems, ops[..1]) == [lasting];
    assert !Has([lasting], b);
    assert [expired] + [lasting] == [expired, lasting];
    assert Run(maxItems, ops[..2]) == [expired, lasting];
  }

  // ---------------------------------------------------------------- the counter

  /** What a counter holding `total` answers to a sequence of increments: running sums, in 64 bits, until one
      is negative; from then on refusals. */
  function Tally(total: int, increments: seq<int>): seq<Answer>
    decreases |increments|
  {
    if increments == [] then []
    else if total < 0 then [NotANumber] + Tally(total, increments[1..])
    else
      var next := Decimal.Wrap(total + increments[0]);
      [Number(next)] + Tally(next, increments[1..])
  }

  function Sum(increments: seq<int>): int
  {
    if increments == [] then 0 else increments[0] + Sum(increments[1..])
  }

  /** The sums up to each increment lie within the non-negative 64-bit integers. */
  ghost predicate InRange(total: int, increments: seq<int>)
    decreases |increments|
  {
    0 <= total < Decimal.HALF_RANGE && (increments != [] ==> InRange(total + increments[0], increments[1..]))
  }

  /** The exact running sums. */
  function Sums(total: int, increments: seq<int>): seq<Answer>
    decreases |increments|
  {
    if increments == [] then []
    else [Number(total + increments[0])] + Sums(total + increments[0], increments[1..])
  }

  lemma Associative(a: seq<Answer>, b: seq<Answer>, c: seq<Answer>)
    ensures a + (b + c) == (a + b) + c
  {
  }

  /** As long as the sums stay in range they are the answers, exactly, and counting goes on from the last. */
  lemma {:induction false} TallyIsSums(total: int, increments: seq<int>, rest: seq<int>)
    requires InRange(total, increments)
    ensures Tally(total, increments + rest) == Sums(total, increments) + Tally(total + Sum(increments), rest)
    decreases |increments|
  {
    var all := increments + rest;
    if increments == [] {
      assert all == rest && [] + Tally(total, rest) == Tally(total, rest);
    } else {
      var first, tail := increments[0], increments[1..];
      var next := total + first;
      assert all == [first] + (tail + rest);
      TallyFirst(total, first, tail + rest);
      TallyIsSums(next, tail, rest);
      Associative([Number(next)], Sums(next, tail), Tally(next + Sum(tail), rest));
    }
  }

  /** The next answer is still the exact sum if and only if it fits; and the one after it is a refusal if and
      only if that sum has left the range, below zero or beyond 64 bits. */
  lemma LeavingRange(total: int, increment: int, later: int)
    requires 0 <= total < 0x8000_0000_0000_0000 && Decimal.IsInt64(increment)
    ensures var answers, sum := Tally(total, [increment, later]), total + increment;
      && |answers| == 2
      && (answers[0] == Number(sum) <==> sum < 0x8000_0000_0000_0000)
      && (answers[1] == NotANumber <==> !(0 <= sum < 0x8000_0000_0000_0000))
  {
    Decimal.WrappedSum(total, increment);
    var next := Decimal.Wrap(total + increment);
    assert [increment, later] == [increment] + [later] && [later] == [later] + [];
    TallyFirst(total, increment, [later]);
    TallyFirst(next, later, []);
  }

  /** May the operation write a value under the key, the key being stored? */
  predicate Writes(op: Op, key: string)
  {
    (op.Set? || op.Incr?) && op.key == key
  }

  lemma InsertSlots(items: seq<Slot>, maxItems: int, slot: Slot, now: int, s: Slot)
    requires Inv(items, maxItems)
    ensures Insert(items, maxItems, slot, now).Some? && s in Insert(items, maxItems, slot, now).value ==>
      s == slot || s in items
  {
    var k := MakeRoomRemovesLittle(items, maxItems, now);
  }

  lemma IncrSlots(items: seq<Slot>, maxItems: int, key: string, increment: int, now: int, s: Slot)
    requires Inv(items, maxItems) && s in Step(items, maxItems, Incr(key, increment), now).items
    ensures s in items || s.key == key
  {
    var k := SweepIsMaximalTail(items, now);
    var zero := Item(key, Entry("0", None));
    InsertSlots(items, maxItems, zero, now, s);
    if Has(items, key) {
      BumpSlots(items, key, increment, s);
    } else {
      InsertKeeps(items, maxItems, zero, now);
      if Insert(items, maxItems, zero, now).Some? {
        BumpSlots(Insert(items, maxItems, zero, now).value, key, increment, s);
      }
    }
  }

  lemma BumpSlots(items: seq<Slot>, key: string, increment: int, s: Slot)
    requires Has(items, key) && s in Bump(items, key, increment).items
    ensures s in items || s.key == key
  {
    assert Lookup(items, key).key == key;
    WithoutMembers(items, key);
  }

  lemma StoreSlots(items: seq<Slot>, maxItems: int, op: Op, now: int, s: Slot)
    requires Inv(items, maxItems) && (op.Set? || op.Add?) && s in Step(items, maxItems, op, now).items
    ensures s in items || Writes(op, s.key) || (op.Add? && op.key == s.key && !Has(items, op.key))
  {
    var slot := Item(op.key, Entry(op.value, Deadline(op.ttl, now)));
    if Has(items, op.key) {
      if op.Set? && s != slot {
        OtherItems(items, slot, s);
      }
    } else {
      var k := SweepIsMaximalTail(items, now);
      InsertSlots(items, maxItems, slot, now, s);
    }
  }

  lemma OtherItems(items: seq<Slot>, slot: Slot, s: Slot)
    requires s in Promote(items, slot) && s != slot
    ensures s in items
  {
    assert s in Without(items, slot.key);
    KeptMember(items, slot.key, s);
  }

  lemma RemovalSlots(items: seq<Slot>, maxItems: int, op: Op, now: int, s: Slot)
    requires Inv(items, maxItems) && !op.Set? && !op.Add? && !op.Incr? && s in Step(items, maxItems, op, now).items
    ensures s in items
  {
    var k := SweepIsMaximalTail(items, now);
    if (op.Get? || op.Delete?) && s in Without(items, op.key) {
      KeptMember(items, op.key, s);
    } else if op.Get? && Has(items, op.key) {
      assert Lookup(items, op.key) in items;
    }
  }

  /** A slot that an operation leaves was there before, or is under the key the operation stores. */
  lemma {:induction false} SlotsAfter(items: seq<Slot>, maxItems: int, op: Op, now: int, s: Slot)
    requires Inv(items, maxItems) && s in Step(items, maxItems, op, now).items
    ensures s in items || Writes(op, s.key) || (op.Add? && op.key == s.key && !Has(items, op.key))
  {
    if op.Set? || op.Add? {
      StoreSlots(items, maxItems, op, now, s);
    } else if op.Incr? {
      IncrSlots(items, maxItems, op.key, op.increment, now, s);
    } else {
      RemovalSlots(items, maxItems, op, now, s);
    }
  }

  /** So while a key stays, only Set and Incr on that very key change its slot. */
  lemma {:induction false} SlotStays(items: seq<Slot>, maxItems: int, key: string, op: Op, now: int)
    requires Inv(items, maxItems) && Has(items, key) && !Writes(op, key)
    requires Has(Step(items, maxItems, op, now).items, key)
    ensures Lookup(Step(items, maxItems, op, now).items, key) == Lookup(items, key)
  {
    var after := Step(items, maxItems, op, now).items;
    var s := Lookup(after, key);
    assert s in after && s.key == key;
    SlotsAfter(items, maxItems, op, now, s);
    var i :| 0 <= i < |items| && items[i] == s;
    assert items[Position(items, key)].key == items[i].key;
  }

  /** What a run of operations answers to the increments of one key, and what these increments are. */
  function Answers(items: seq<Slot>, maxItems: int, key: string, ops: seq<Timed>): seq<Answer>
    decreases |ops|
  {
    if ops == [] then []
    else
      var r := Step(items, maxItems, ops[0].op, ops[0].now);
      var rest := Answers(r.items, maxItems, key, ops[1..]);
      if ops[0].op.Incr? && ops[0].op.key == key then [r.answer] + rest else rest
  }

  function Increments(key: string, ops: seq<Timed>): seq<int>
    decreases |ops|
  {
    if ops == [] then []
    else if ops[0].op.Incr? && ops[0].op.key == key then [ops[0].op.increment] + Increments(key, ops[1..])
    else Increments(key, ops[1..])
  }

  /** The key is stored all along - not evicted, deleted or found expired - and not overwritten. */
  ghost predicate Undisturbed(items: seq<Slot>, maxItems: int, key: string, ops: seq<Timed>)
    decreases |ops|
  {
    && Has(items, key)
    && (ops != [] ==>
          && !(ops[0].op.Set? && ops[0].op.key == key)
          && Undisturbed(Step(items, maxItems, ops[0].op, ops[0].now).items, maxItems, key, ops[1..]))
  }

  /** A stored count answers its running sums, and is left alone once it has gone below zero - whatever
      happens to other keys in between. */
  lemma {:induction false} CounterCounts(items: seq<Slot>, maxItems: int, key: string, total: int,
                                         ops: seq<Timed>)
    requires Inv(items, maxItems) && Undisturbed(items, maxItems, key, ops)
    requires Decimal.IsInt64(total) && Lookup(items, key).body.value == Decimal.Numeral(total)
    ensures Answers(items, maxItems, key, ops) == Tally(total, Increments(key, ops))
    decreases |ops|
  {
    if ops != [] {
      var op, now := ops[0].op, ops[0].now;
      var r := Step(items, maxItems, op, now);
      StepKeepsInv(items, maxItems, op, now);
      if op.Incr? && op.key == key {
        Decimal.NumeralRoundTrip(total);
        CounterCounts(r.items, maxItems, key, if total < 0 then total else Decimal.Wrap(total + op.increment),
                      ops[1..]);
        TallyFirst(total, op.increment, Increments(key, ops[1..]));
      } else {
        SlotStays(items, maxItems, key, op, now);
        CounterCounts(r.items, maxItems, key, total, ops[1..]);
      }
    }
  }

  lemma TallyFirst(total: int, increment: int, rest: seq<int>)
    ensures Tally(total, [increment] + rest)
            == if total < 0 then [NotANumber] + Tally(total, rest)
               else
                 var next := Decimal.Wrap(total + increment);
                 [Number(next)] + Tally(next, rest)
  {
    assert ([increment] + rest)[1..] == rest;
  }

  /** A new counter starts from zero. */
  lemma {:induction false} FreshCounterCounts(items: seq<Slot>, maxItems: int, key: string, increment: int,
                                              now: int, ops: seq<Timed>)
    requires Inv(items, maxItems) && !Has(items, key) && maxItems > 0
    requires Undisturbed(Step(items, maxItems, Incr(key, increment), now).items, maxItems, key, ops)
    ensures Answers(items, maxItems, key, [Timed(Incr(key, increment), now)] + ops)
            == Tally(0, [increment] + Increments(key, ops))
  {
    var all := [Timed(Incr(key, increment), now)] + ops;
    assert all[1..] == ops;
    var zero := Item(key, Entry("0", None));
    InsertKeeps(items, maxItems, zero, now);
    assert Decimal.Numeral(0) == "0";
    Decimal.NumeralRoundTrip(0);
    StepKeepsInv(items, maxItems, Incr(key, increment), now);
    CounterCounts(Step(items, maxItems, Incr(key, increment), now).items, maxItems, key,
                  Decimal.Wrap(increment), ops);
    TallyFirst(0, increment, Increments(key, ops));
  }
}
