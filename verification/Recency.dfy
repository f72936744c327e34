/**
 Recency lists: items under distinct keys, most recently used first, and the key list and map that the
 caches keep for them.
 */
module Recency {
  datatype Item<T> = Item(key: string, body: T)

  ghost predicate DistinctKeys<T>(items: seq<Item<T>>)
  {
    forall i, j :: 0 <= i < j < |items| ==> items[i].key != items[j].key
  }

  function Position<T>(items: seq<Item<T>>, key: string): (i: nat)
    ensures i <= |items|
    ensures i < |items| ==> items[i].key == key
    ensures forall k :: 0 <= k < i ==> items[k].key != key
  {
    if items == [] || items[0].key == key then 0 else 1 + Position(items[1..], key)
  }

  predicate Has<T>(items: seq<Item<T>>, key: string)
  {
    Position(items, key) < |items|
  }

  function Lookup<T>(items: seq<Item<T>>, key: string): Item<T>
    requires Has(items, key)
  {
    items[Position(items, key)]
  }

  function Without<T>(items: seq<Item<T>>, key: string): seq<Item<T>>
  {
    if items == [] then []
    else
      var front := Without(items[..|items|-1], key);
      if items[|items|-1].key == key then front else front + [items[|items|-1]]
  }

  /** Store an item as the most recently used one. */
  function Promote<T>(items: seq<Item<T>>, item: Item<T>): seq<Item<T>>
  {
    [item] + Without(items, item.key)
  }

  /** The keys of the recency list, and the map, that a list of items stands for. */
  function Keys<T>(items: seq<Item<T>>): seq<string>
  {
    if items == [] then [] else Keys(items[..|items|-1]) + [items[|items|-1].key]
  }

  function ByKey<T>(items: seq<Item<T>>): map<string, Item<T>>
  {
    if items == [] then map[] else ByKey(items[..|items|-1])[items[|items|-1].key := items[|items|-1]]
  }

  /** A list of keys without one of them. */
  function Unlink(keys: seq<string>, key: string): seq<string>
  {
    if keys == [] then []
    else
      var front := Unlink(keys[..|keys|-1], key);
      if keys[|keys|-1] == key then front else front + [keys[|keys|-1]]
  }

  // ---------------------------------------------------------------- members

  lemma {:induction false} WithoutMembers<T>(items: seq<Item<T>>, key: string)
    ensures var w := Without(items, key);
      && (forall i :: 0 <= i < |w| ==> w[i] in items && w[i].key != key)
      && (forall i :: 0 <= i < |items| && items[i].key != key ==> items[i] in w)
  {
    if items != [] {
      WithoutMembers(items[..|items|-1], key);
      assert items == items[..|items|-1] + [items[|items|-1]];
    }
  }

  lemma KeptMember<T>(items: seq<Item<T>>, key: string, x: Item<T>)
    requires x in Without(items, key)
    ensures x in items && x.key != key
  {
    WithoutMembers(items, key);
    var w := Without(items, key);
    var i :| 0 <= i < |w| && w[i] == x;
  }

  lemma AbsentWithout<T>(items: seq<Item<T>>, key: string)
    ensures !Has(Without(items, key), key)
  {
    WithoutMembers(items, key);
  }

  lemma {:induction false} WithoutAbsent<T>(items: seq<Item<T>>, key: string)
    requires forall i :: 0 <= i < |items| ==> items[i].key != key
    ensures Without(items, key) == items
  {
    if items != [] {
      WithoutAbsent(items[..|items|-1], key);
      assert items == items[..|items|-1] + [items[|items|-1]];
    }
  }

  /** Without the key of its last item a list is its front. */
  lemma LastWithout<T>(items: seq<Item<T>>)
    requires DistinctKeys(items) && items != []
    ensures Without(items, items[|items|-1].key) == items[..|items|-1]
  {
    WithoutAbsent(items[..|items|-1], items[|items|-1].key);
  }

  lemma DistinctSnoc<T>(items: seq<Item<T>>, last: Item<T>)
    requires DistinctKeys(items) && forall i :: 0 <= i < |items| ==> items[i].key != last.key
    ensures DistinctKeys(items + [last])
  {
  }

  lemma {:induction false} WithoutDistinct<T>(items: seq<Item<T>>, key: string)
    requires DistinctKeys(items)
    ensures DistinctKeys(Without(items, key))
  {
    if items != [] {
      var front, last := items[..|items|-1], items[|items|-1];
      WithoutDistinct(front, key);
      WithoutMembers(front, key);
      var w := Without(front, key);
      forall i | 0 <= i < |w| ensures w[i].key != last.key {
        assert w[i] in front;
      }
      DistinctSnoc(w, last);
    }
  }

  lemma PromoteDistinct<T>(items: seq<Item<T>>, item: Item<T>)
    requires DistinctKeys(items)
    ensures DistinctKeys(Promote(items, item))
  {
    WithoutDistinct(items, item.key);
    WithoutMembers(items, item.key);
    var p := Promote(items, item);
    assert forall i :: 1 <= i < |p| ==> p[i] == Without(items, item.key)[i-1];
  }

  /** Items under other keys are those there were. */
  lemma OtherMembers<T>(items: seq<Item<T>>, item: Item<T>, x: Item<T>)
    requires x.key != item.key
    ensures x in Without(items, item.key) <==> x in items
    ensures x in Promote(items, item) <==> x in items
  {
    WithoutMembers(items, item.key);
    var w := Without(items, item.key);
    if x in w {
      var i :| 0 <= i < |w| && w[i] == x;
      assert Promote(items, item)[i+1] == x;
    }
  }

  // ---------------------------------------------------------------- lists, maps and items

  lemma {:induction false} KeysLength<T>(items: seq<Item<T>>)
    ensures |Keys(items)| == |items|
    ensures forall i :: 0 <= i < |items| ==> Keys(items)[i] == items[i].key
  {
    if items != [] {
      KeysLength(items[..|items|-1]);
    }
  }

  lemma {:induction false} PositionSnoc<T>(front: seq<Item<T>>, last: Item<T>, key: string)
    ensures Position(front + [last], key) ==
      if Has(front, key) then Position(front, key)
      else if last.key == key then |front| else |front| + 1
  {
    if front != [] && front[0].key != key {
      assert (front + [last])[1..] == front[1..] + [last];
      PositionSnoc(front[1..], last, key);
    }
  }

  /** Removing a key removes it and nothing else: the other keys keep their items and their order. */
  lemma {:induction false} WithoutLaw<T>(items: seq<Item<T>>, key: string, a: string, b: string)
    requires a != key && b != key
    ensures !Has(Without(items, key), key)
    ensures Has(Without(items, key), a) <==> Has(items, a)
    ensures Has(items, a) ==> Lookup(Without(items, key), a) == Lookup(items, a)
    ensures Has(items, a) && Has(items, b) ==>
      (Position(Without(items, key), a) < Position(Without(items, key), b)
       <==> Position(items, a) < Position(items, b))
  {
    if items != [] {
      var front, last := items[..|items|-1], items[|items|-1];
      assert items == front + [last];
      WithoutLaw(front, key, a, b);
      WithoutLaw(front, key, b, a);
      PositionSnoc(front, last, a);
      PositionSnoc(front, last, b);
      PositionSnoc(Without(front, key), last, key);
      PositionSnoc(Without(front, key), last, a);
      PositionSnoc(Without(front, key), last, b);
    }
  }

  /** The map answers what the list holds. */
  lemma {:induction false} Lookups<T>(items: seq<Item<T>>, key: string)
    requires DistinctKeys(items)
    ensures key in ByKey(items) <==> Has(items, key)
    ensures key in ByKey(items) ==> ByKey(items)[key] == Lookup(items, key)
    ensures !Has(items, key) ==> forall i :: 0 <= i < |items| ==> items[i].key != key
  {
    if items != [] {
      var front, last := items[..|items|-1], items[|items|-1];
      Lookups(front, key);
      PositionSnoc(front, last, key);
      assert items == front + [last];
    }
  }

  /** Map and list have the same size. */
  lemma {:induction false} MapSize<T>(items: seq<Item<T>>)
    requires DistinctKeys(items)
    ensures |ByKey(items)| == |items|
  {
    if items != [] {
      var front, last := items[..|items|-1], items[|items|-1];
      MapSize(front);
      Lookups(front, last.key);
      assert forall i :: 0 <= i < |front| ==> front[i].key != last.key;
    }
  }

  lemma SnocFront<T>(front: seq<Item<T>>, last: Item<T>)
    ensures (front + [last])[..|front + [last]| - 1] == front
    ensures Keys(front + [last]) == Keys(front) + [last.key]
    ensures ByKey(front + [last]) == ByKey(front)[last.key := last]
  {
  }

  lemma {:induction false} KeysWithout<T>(items: seq<Item<T>>, key: string)
    ensures Keys(Without(items, key)) == Unlink(Keys(items), key)
  {
    if items != [] {
      var front, last := items[..|items|-1], items[|items|-1];
      KeysWithout(front, key);
      assert Keys(items)[..|Keys(items)|-1] == Keys(front);
      SnocFront(Without(front, key), last);
    }
  }

  lemma {:induction false} ByKeyWithout<T>(items: seq<Item<T>>, key: string)
    ensures ByKey(Without(items, key)) == ByKey(items) - {key}
  {
    if items != [] {
      var front, last := items[..|items|-1], items[|items|-1];
      ByKeyWithout(front, key);
      SnocFront(Without(front, key), last);
    }
  }

  lemma {:induction false} PushShape<T>(rest: seq<Item<T>>, item: Item<T>)
    requires forall i :: 0 <= i < |rest| ==> rest[i].key != item.key
    ensures Keys([item] + rest) == [item.key] + Keys(rest)
    ensures ByKey([item] + rest) == ByKey(rest)[item.key := item]
  {
    if rest == [] {
      assert [item] + rest == [item] && [item][..0] == [];
    } else {
      var front := rest[..|rest|-1];
      assert ([item] + rest)[..|rest|] == [item] + front;
      PushShape(front, item);
    }
  }

  /** Promoting an item moves its key to the front of the list and stores it in the map. */
  lemma PromoteShape<T>(items: seq<Item<T>>, item: Item<T>)
    ensures Keys(Promote(items, item)) == [item.key] + Unlink(Keys(items), item.key)
    ensures ByKey(Promote(items, item)) == ByKey(items)[item.key := item]
  {
    KeysWithout(items, item.key);
    ByKeyWithout(items, item.key);
    WithoutMembers(items, item.key);
    PushShape(Without(items, item.key), item);
    assert (ByKey(items) - {item.key})[item.key := item] == ByKey(items)[item.key := item];
  }
}
