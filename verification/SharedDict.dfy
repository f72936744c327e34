/** The shared dictionary over its map and recency list, and the decimal loops of its counters. */
module SharedDicts {
  import opened Wrappers
  import opened Recency
  import SDM = SharedDictModel
  import opened SharedDictModel
  import opened Decimal

  function Reversed(s: string): (r: string)
    ensures |r| == |s|
  {
    if s == [] then [] else [s[|s|-1]] + Reversed(s[..|s|-1])
  }

  lemma {:induction false} ReversedAt(s: string)
    ensures forall i :: 0 <= i < |s| ==> Reversed(s)[i] == s[|s|-1-i]
  {
    if s != [] {
      ReversedAt(s[..|s|-1]);
    }
  }

  /** The in-place reversal. */
  method ReverseInPlace(buf: array<char>)
    modifies buf
    ensures buf[..] == Reversed(old(buf[..]))
  {
    var i, j := 0, buf.Length - 1;
    while i < j
      invariant 0 <= i && j == buf.Length - 1 - i && i <= buf.Length / 2
      invariant forall k :: 0 <= k < buf.Length && (k < i || k > j) ==> buf[k] == old(buf[buf.Length-1-k])
      invariant forall k :: i <= k <= j ==> buf[k] == old(buf[k])
    {
      buf[i], buf[j] := buf[j], buf[i];
      i, j := i + 1, j - 1;
    }
    ReversedAt(old(buf[..]));
    assert buf[..] == Reversed(old(buf[..]));
  }

  function Leading(rest: int): string
  {
    if rest > 0 then Digits(rest) else ""
  }

  /** Moving the last digit over changes nothing of the whole. */
  lemma MoveDigit(rest: nat, digits: string)
    requires rest > 0
    ensures Leading(rest) + Reversed(digits)
            == Leading(rest / 10) + Reversed(digits + [DigitChar(rest % 10)])
  {
    var more := digits + [DigitChar(rest % 10)];
    assert more[..|more|-1] == digits;
    assert Reversed(more) == [DigitChar(rest % 10)] + Reversed(digits);
    assert Leading(rest) == Leading(rest / 10) + [DigitChar(rest % 10)];
  }

  /** The digits of a number, least significant first; none for a number that is not positive. */
  method DigitsBackwards(n: int) returns (digits: string)
    ensures Reversed(digits) == Leading(n)
  {
    digits := [];
    var rest := n;
    while rest > 0
      invariant Leading(rest) + Reversed(digits) == Leading(n)
    {
      MoveDigit(rest, digits);
      digits := digits + [DigitChar(rest % 10)];
      rest := rest / 10;
    }
    assert "" + Reversed(digits) == Reversed(digits);
  }

  /** The digits are produced least significant first, the sign added, and then everything turned around. */
  method IntToStr(n: int) returns (s: string)
    requires IsInt64(n)
    ensures s == Numeral(n)
  {
    if n == 0 {
      return "0";
    }
    var negative := n < 0;
    var digits := DigitsBackwards(if negative then Wrap(-n) else n);
    if negative {
      assert (digits + ['-'])[..|digits|] == digits;
      digits := digits + ['-'];
    }
    var buf := new char[|digits|](i requires 0 <= i < |digits| => digits[i]);
    assert buf[..] == digits;
    ReverseInPlace(buf);
    s := buf[..];
  }

  /** The digit loop; None when a character is not a digit. */
  method ParseValue(s: string) returns (r: Option<int>)
    ensures r == Parse(s)
  {
    var current := 0;
    for i := 0 to |s|
      invariant Parse(s[..i]) == Some(current)
    {
      if !IsDigit(s[i]) {
        ParseNonDigit(s, i);
        return None;
      }
      assert s[..i+1][..i] == s[..i];
      current := Wrap(current * 10 + DigitValue(s[i]));
    }
    assert s[..|s|] == s;
    return Some(current);
  }

  class SharedDict {
    const maxItems: int
    var data: map<string, Slot>
    var lruList: seq<string>
    /** The stored slots, most recently used first. */
    ghost var view: seq<Slot>

    /** Map and list are in bijection, and the capacity is respected. */
    ghost predicate Valid()
      reads this
    {
      lruList == Keys(view) && data == ByKey(view) && Inv(view, maxItems)
    }

    constructor (maxItems: int)
      ensures Valid() && view == [] && this.maxItems == maxItems
    {
      this.maxItems := maxItems;
      data, lruList, view := map[], [], [];
    }

    method DeleteEntry(key: string)
      requires Valid() && key in data
      modifies this
      ensures Valid() && view == Without(old(view), key)
    {
      KeysWithout(view, key);
      ByKeyWithout(view, key);
      RemoveInv(view, maxItems, key);
      lruList := Unlink(lruList, key);
      data := data - {key};
      view := Without(view, key);
    }

    /** Every key of the list is in the map, so the source's branches for inconsistent data never run. */
    lemma LastStored()
      requires Valid() && |lruList| > 0
      ensures |lruList| == |view| && lruList[|lruList|-1] == view[|view|-1].key
      ensures lruList[|lruList|-1] in data && data[lruList[|lruList|-1]] == view[|view|-1]
      ensures Without(view, lruList[|lruList|-1]) == view[..|view|-1]
    {
      KeysLength(view);
      LastWithout(view);
    }

    method DeleteLast()
      requires Valid() && |lruList| > 0
      modifies this
      ensures Valid() && old(view) != [] && view == old(view)[..|old(view)|-1]
    {
      LastStored();
      DeleteEntry(lruList[|lruList|-1]);
    }

    method EvictExpired(now: int) returns (count: nat)
      requires Valid()
      modifies this
      ensures Valid() && view == DropExpiredTail(old(view), now) && count == |old(view)| - |view|
    {
      count := 0;
      KeysLength(view);
      while |lruList| > 0
        invariant Valid() && |lruList| == |view|
        invariant DropExpiredTail(view, now) == DropExpiredTail(old(view), now)
        invariant count == |old(view)| - |view|
        decreases |view|
      {
        var elem := lruList[|lruList|-1];
        LastStored();
        if data[elem].body.expiredAt.Some? && now > data[elem].body.expiredAt.value {
          DeleteLast();
          KeysLength(view);
          count := count + 1;
        } else {
          break;
        }
      }
    }

    method EvictLRU() returns (ok: bool)
      requires Valid()
      modifies this
      ensures Valid() && (ok <==> old(view) != [])
      ensures view == if ok then old(view)[..|old(view)|-1] else []
    {
      KeysLength(view);
      if |lruList| == 0 {
        return false;
      }
      DeleteLast();
      return true;
    }

    /** The capacity check that Set, Add and Incr share. */
    method Reserve(now: int) returns (ok: bool)
      requires Valid()
      modifies this
      ensures Valid() && (ok <==> MakeRoom(old(view), maxItems, now).Some?)
      ensures view == if ok then MakeRoom(old(view), maxItems, now).value else DropExpiredTail(old(view), now)
    {
      MapSize(view);
      if |data| >= maxItems {
        var n := EvictExpired(now);
        MapSize(view);
        if |data| >= maxItems {
          ok := EvictLRU();
          return;
        }
      }
      return true;
    }

    method Push(slot: Slot)
      requires Valid() && slot.key !in data && Inv([slot] + view, maxItems)
      modifies this
      ensures Valid() && view == [slot] + old(view)
    {
      Lookups(view, slot.key);
      PushShape(view, slot);
      lruList := [slot.key] + lruList;
      data := data[slot.key := slot];
      view := [slot] + view;
    }

    /** Rewrite a stored slot and move it to the front. */
    method Rewrite(slot: Slot)
      requires Valid() && slot.key in data
      modifies this
      ensures Valid() && view == Promote(old(view), slot)
    {
      Lookups(view, slot.key);
      PromoteShape(view, slot);
      PromoteInv(view, maxItems, slot);
      lruList := [slot.key] + Unlink(lruList, slot.key);
      data := data[slot.key := slot];
      view := Promote(view, slot);
    }

    /** Store a new slot if there is, or can be made, room. */
    method PutNew(slot: Slot, now: int) returns (ok: bool)
      requires Valid() && slot.key !in data
      modifies this
      ensures Valid() && (ok <==> Insert(old(view), maxItems, slot, now).Some?)
      ensures view == if ok then Insert(old(view), maxItems, slot, now).value else DropExpiredTail(old(view), now)
    {
      Lookups(view, slot.key);
      InsertKeeps(view, maxItems, slot, now);
      ghost var k := MakeRoomRemovesLittle(view, maxItems, now);
      ghost var before := view;
      ok := Reserve(now);
      if ok {
        Lookups(view, slot.key);
        Push(slot);
      }
    }

    method Get(key: string, now: int) returns (a: Answer)
      requires Valid()
      modifies this
      ensures Valid() && Outcome(view, a) == Step(old(view), maxItems, SDM.Get(key), now)
    {
      Lookups(view, key);
      if key !in data {
        return Missing;
      }
      var entry := data[key];
      if entry.body.expiredAt.Some? && now > entry.body.expiredAt.value {
        DeleteEntry(key);
        return WasExpired;
      }
      Rewrite(entry);
      return Value(entry.body.value);
    }

    method Set(key: string, value: string, ttl: int, now: int) returns (ok: bool)
      requires Valid()
      modifies this
      ensures Valid() && Outcome(view, Ok(ok)) == Step(old(view), maxItems, SDM.Set(key, value, ttl), now)
    {
      Lookups(view, key);
      var slot := Item(key, Entry(value, if ttl > 0 then Some(now + ttl) else None));
      if key in data {
        Rewrite(slot);
        return true;
      }
      ok := PutNew(slot, now);
    }

    method Add(key: string, value: string, ttl: int, now: int) returns (ok: bool)
      requires Valid()
      modifies this
      ensures Valid() && Outcome(view, Ok(ok)) == Step(old(view), maxItems, SDM.Add(key, value, ttl), now)
    {
      Lookups(view, key);
      if key in data {
        return false;
      }
      ok := PutNew(Item(key, Entry(value, if ttl > 0 then Some(now + ttl) else None)), now);
    }

    method Incr(key: string, increment: int, now: int) returns (a: Answer)
      requires Valid()
      modifies this
      ensures Valid() && Outcome(view, a) == Step(old(view), maxItems, SDM.Incr(key, increment), now)
    {
      Lookups(view, key);
      if key !in data {
        var ok := CreateZero(key, now);
        if !ok {
          return Number(0);
        }
      }
      a := BumpStored(key, increment);
    }

    method CreateZero(key: string, now: int) returns (ok: bool)
      requires Valid() && !Has(view, key)
      modifies this
      ensures var r := Insert(old(view), maxItems, Item(key, Entry("0", None)), now);
        && (ok <==> r.Some?)
        && view == if ok then r.value else DropExpiredTail(old(view), now)
      ensures Valid() && (ok ==> Has(view, key))
    {
      Lookups(view, key);
      InsertKeeps(view, maxItems, Item(key, Entry("0", None)), now);
      ok := PutNew(Item(key, Entry("0", None)), now);
    }

    method BumpStored(key: string, increment: int) returns (a: Answer)
      requires Valid() && Has(view, key)
      modifies this
      ensures Valid() && Outcome(view, a) == Bump(old(view), key, increment)
    {
      Lookups(view, key);
      var entry := data[key];
      var current := ParseValue(entry.body.value);
      if current.None? {
        return NotANumber;
      }
      var newValue := Wrap(current.value + increment);
      var text := IntToStr(newValue);
      Rewrite(entry.(body := entry.body.(value := text)));
      return Number(newValue);
    }

    method Delete(key: string, now: int)
      requires Valid()
      modifies this
      ensures Valid() && Outcome(view, Done) == Step(old(view), maxItems, SDM.Delete(key), now)
    {
      Lookups(view, key);
      if key in data {
        DeleteEntry(key);
      } else {
        WithoutAbsent(view, key);
      }
    }

    method FlushAll(now: int)
      requires Valid()
      modifies this
      ensures Valid() && Outcome(view, Done) == Step(old(view), maxItems, SDM.FlushAll, now)
    {
      data, lruList, view := map[], [], [];
    }

    method FlushExpired(now: int) returns (count: nat)
      requires Valid()
      modifies this
      ensures Valid() && Outcome(view, Removed(count)) == Step(old(view), maxItems, SDM.FlushExpired, now)
    {
      count := EvictExpired(now);
    }

    method FreeSlots() returns (n: int)
      requires Valid()
      ensures n == maxItems - |view| && (maxItems > 0 ==> n >= 0)
    {
      MapSize(view);
      return maxItems - |data|;
    }
  }
}
