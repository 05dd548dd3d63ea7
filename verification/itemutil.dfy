/** Inventory bookkeeping of the item HUDs: stacks grouped by item kind into
    storages, two groupings subtracted from each other, counting one kind in
    the player's inventory, and expiring timed entries. */
module ItemUtil {
  import opened Base

  /** An item stack: its kind (items are singletons, so identity is the kind),
      its count, and the rest of its data (damage, tags), kept opaque. */
  datatype ItemStack = ItemStack(item: int, size: int, data: int)

  /** A kind of item with a counter; the stored stack is a copy of size 1. */
  datatype ItemStorage = ItemStorage(stack: ItemStack, times: int)

  /** An item storage stamped with the time it was last refreshed. */
  datatype TimedItemStorage = TimedItemStorage(storage: ItemStorage, start: real)

  /** The `ItemStorage` constructor. */
  function MakeStorage(stack: ItemStack, times: int): (s: ItemStorage)
    ensures s.stack.size == 1
    ensures s.stack.item == stack.item && s.stack.data == stack.data
    ensures s.times == times
  {
    ItemStorage(stack.(size := 1), times)
  }

  /** `ItemStorage.copy`. */
  function CopyStorage(s: ItemStorage): (c: ItemStorage)
    ensures c.stack.size == 1 && c.stack.item == s.stack.item && c.times == s.times
    ensures s.stack.size == 1 ==> c == s
  {
    MakeStorage(s.stack, s.times)
  }

  function KindOf(s: ItemStorage): int { s.stack.item }

  /** The kinds a list of storages holds. */
  function Kinds(list: seq<ItemStorage>): set<int> {
    set s | s in list :: KindOf(s)
  }

  lemma KindsConcat(a: seq<ItemStorage>, b: seq<ItemStorage>)
    ensures Kinds(a + b) == Kinds(a) + Kinds(b)
  {
    forall k | k in Kinds(a + b) ensures k in Kinds(a) + Kinds(b) {
      var s :| s in a + b && KindOf(s) == k;
      assert s in a || s in b;
    }
    forall k | k in Kinds(a) + Kinds(b) ensures k in Kinds(a + b) {
      if k in Kinds(a) {
        var s :| s in a && KindOf(s) == k;
        assert s in a + b;
      } else {
        var s :| s in b && KindOf(s) == k;
        assert s in a + b;
      }
    }
  }

  /** The kinds of the non-null stacks. */
  function StackKinds(items: seq<Option<ItemStack>>): set<int> {
    set o | o in items && o.Some? :: o.value.item
  }

  // ---------------------------------------------------------------------------
  // Lookup
  // ---------------------------------------------------------------------------

  /** The position of the first storage holding `item`. */
  function FindIndex(item: int, list: seq<ItemStorage>): (r: Option<nat>)
    ensures r.None? <==> forall j :: 0 <= j < |list| ==> KindOf(list[j]) != item
    ensures r.Some? ==> r.value < |list| && KindOf(list[r.value]) == item
    ensures r.Some? ==> forall j :: 0 <= j < r.value ==> KindOf(list[j]) != item
  {
    if |list| == 0 then None
    else if KindOf(list[0]) == item then Some(0)
    else match FindIndex(item, list[1..])
      case None => None
      case Some(i) => Some(i + 1)
  }

  /** `getItemFromItem`: the first storage of the same kind as `item`. */
  function GetItemFromItem(item: ItemStack, list: seq<ItemStorage>): (r: Option<ItemStorage>)
    ensures r.None? <==> forall j :: 0 <= j < |list| ==> KindOf(list[j]) != item.item
    ensures r.Some? ==> exists i :: 0 <= i < |list| && list[i] == r.value
                          && KindOf(list[i]) == item.item
                          && forall j :: 0 <= j < i ==> KindOf(list[j]) != item.item
  {
    match FindIndex(item.item, list)
    case None => None
    case Some(i) => Some(list[i])
  }

  // ---------------------------------------------------------------------------
  // Totals per kind
  // ---------------------------------------------------------------------------

  /** Sum of the counters of the storages of kind `k`. */
  function CountOf(list: seq<ItemStorage>, k: int): int
  {
    if |list| == 0 then 0
    else (if KindOf(list[0]) == k then list[0].times else 0) + CountOf(list[1..], k)
  }

  /** No kind appears twice. */
  predicate Unique(list: seq<ItemStorage>) {
    forall i, j :: 0 <= i < j < |list| ==> KindOf(list[i]) != KindOf(list[j])
  }

  /** Every stored stack has size 1 and a positive counter. */
  predicate Normalised(list: seq<ItemStorage>) {
    forall i :: 0 <= i < |list| ==> list[i].stack.size == 1 && list[i].times > 0
  }

  lemma {:induction false} CountConcat(a: seq<ItemStorage>, b: seq<ItemStorage>, k: int)
    ensures CountOf(a + b, k) == CountOf(a, k) + CountOf(b, k)
  {
    if |a| > 0 {
      assert (a + b)[1..] == a[1..] + b;
      CountConcat(a[1..], b, k);
    } else {
      assert a + b == b;
    }
  }

  /** In a list without repeated kinds, the total of a kind is the counter of
      its one storage, or 0 when it has none. */
  lemma {:induction false} CountUnique(list: seq<ItemStorage>, k: int)
    requires Unique(list)
    ensures CountOf(list, k) == match FindIndex(k, list) case None => 0 case Some(i) => list[i].times
  {
    if |list| > 0 {
      CountUnique(list[1..], k);
      if KindOf(list[0]) == k {
        assert forall j :: 0 <= j < |list[1..]| ==> KindOf(list[1..][j]) != k by {
          forall j | 0 <= j < |list[1..]| ensures KindOf(list[1..][j]) != k {
            assert list[1..][j] == list[j + 1];
          }
        }
      }
    }
  }

  lemma {:induction false} CountUpdate(list: seq<ItemStorage>, i: nat, e: ItemStorage, k: int)
    requires i < |list|
    ensures CountOf(list[i := e], k) == CountOf(list, k)
              - (if KindOf(list[i]) == k then list[i].times else 0)
              + (if KindOf(e) == k then e.times else 0)
  {
    if i > 0 {
      assert list[i := e][1..] == list[1..][i - 1 := e];
      CountUpdate(list[1..], i - 1, e, k);
    } else {
      assert list[i := e][1..] == list[1..];
    }
  }

  // ---------------------------------------------------------------------------
  // Grouping stacks
  // ---------------------------------------------------------------------------

  /** Sum of the sizes of the non-null stacks of kind `k`. */
  function SumSizes(items: seq<Option<ItemStack>>, k: int): int
  {
    if |items| == 0 then 0
    else SumSizes(items[..|items| - 1], k)
         + (var last := items[|items| - 1]; if last.Some? && last.value.item == k then last.value.size else 0)
  }

  /** One step of `storageFromItem`: a stack of a known kind increments that
      storage, a new kind is appended. */
  function AddStack(storage: seq<ItemStorage>, item: ItemStack): (r: seq<ItemStorage>)
    ensures |storage| <= |r| <= |storage| + 1
    ensures forall j :: 0 <= j < |storage| ==> KindOf(r[j]) == KindOf(storage[j])
  {
    match FindIndex(item.item, storage)
    case Some(i) => storage[i := storage[i].(times := storage[i].times + item.size)]
    case None => storage + [MakeStorage(item, item.size)]
  }

  /** `storageFromItem`: the non-null stacks grouped by kind, in order of
      first appearance. */
  function StorageFromItems(items: seq<Option<ItemStack>>): (r: seq<ItemStorage>)
    ensures Unique(r)
    ensures forall i :: 0 <= i < |r| ==> r[i].stack.size == 1
    ensures forall k :: CountOf(r, k) == SumSizes(items, k)
    ensures Kinds(r) == StackKinds(items)
  {
    if |items| == 0 then []
    else
      var prefix := items[..|items| - 1];
      var before := StorageFromItems(prefix);
      var last := items[|items| - 1];
      if last.None? then before
      else
        var r := AddStack(before, last.value);
        AddStackFacts(before, last.value);
        KindsGrow(items, before, r);
        r
  }

  lemma KindsGrow(items: seq<Option<ItemStack>>, before: seq<ItemStorage>, r: seq<ItemStorage>)
    requires |items| > 0 && items[|items| - 1].Some?
    requires Kinds(before) == StackKinds(items[..|items| - 1])
    requires Kinds(r) == Kinds(before) + {items[|items| - 1].value.item}
    ensures Kinds(r) == StackKinds(items)
  {
    var prefix, last := items[..|items| - 1], items[|items| - 1];
    assert items == prefix + [last];
    forall k | k in StackKinds(items) ensures k in StackKinds(prefix) + {last.value.item} {
      var o :| o in items && o.Some? && o.value.item == k;
      assert o in prefix || o == last;
    }
    forall k | k in StackKinds(prefix) + {last.value.item} ensures k in StackKinds(items) {
      if k in StackKinds(prefix) {
        var o :| o in prefix && o.Some? && o.value.item == k;
        assert o in items;
      } else {
        assert last in items;
      }
    }
  }

  lemma AddStackFacts(storage: seq<ItemStorage>, item: ItemStack)
    requires Unique(storage)
    requires forall i :: 0 <= i < |storage| ==> storage[i].stack.size == 1
    ensures var r := AddStack(storage, item);
            && Unique(r)
            && (forall i :: 0 <= i < |r| ==> r[i].stack.size == 1)
            && Kinds(r) == Kinds(storage) + {item.item}
            && forall k :: CountOf(r, k) == CountOf(storage, k) + (if item.item == k then item.size else 0)
  {
    var r := AddStack(storage, item);
    forall k ensures CountOf(r, k) == CountOf(storage, k) + (if item.item == k then item.size else 0) {
      match FindIndex(item.item, storage)
      case Some(i) => CountUpdate(storage, i, storage[i].(times := storage[i].times + item.size), k);
      case None =>
        CountConcat(storage, [MakeStorage(item, item.size)], k);
        assert [MakeStorage(item, item.size)][1..] == [];
    }
    match FindIndex(item.item, storage)
    case Some(i) =>
      var e := storage[i].(times := storage[i].times + item.size);
      KindsUpdate(storage, i, e);
      assert storage[i] in storage;
    case None =>
      var m := MakeStorage(item, item.size);
      KindsConcat(storage, [m]);
      assert Kinds([m]) == {item.item} by { assert m in [m]; }
  }

  /** Changing a storage's counter keeps the set of kinds. */
  lemma KindsUpdate(list: seq<ItemStorage>, i: nat, e: ItemStorage)
    requires i < |list| && KindOf(e) == KindOf(list[i])
    ensures Kinds(list[i := e]) == Kinds(list)
  {
    var r := list[i := e];
    forall k | k in Kinds(r) ensures k in Kinds(list) {
      var s :| s in r && KindOf(s) == k;
      var j :| 0 <= j < |r| && r[j] == s;
      if j == i { assert list[i] in list; } else { assert list[j] in list; }
    }
    forall k | k in Kinds(list) ensures k in Kinds(r) {
      var s :| s in list && KindOf(s) == k;
      var j :| 0 <= j < |list| && list[j] == s;
      if j == i { assert r[i] in r; } else { assert r[j] in r; }
    }
  }

  // ---------------------------------------------------------------------------
  // Totals in the inventory
  // ---------------------------------------------------------------------------

  /** `getTotal`: how many items of the kind of `stack` the player carries.
      `None` for the inventory stands for "no player", `None` for a slot or
      for `stack` for null. */
  function GetTotal(inventory: Option<seq<Option<ItemStack>>>, stack: Option<ItemStack>): (n: int)
    ensures inventory.None? || stack.None? ==> n == 0
    ensures inventory.Some? && stack.Some? ==> n == SumSizes(inventory.value, stack.value.item)
  {
    if inventory.None? then 0
    else CountMatching(inventory.value, stack)
  }

  /** The counting loop, walked front to back. */
  function CountMatching(items: seq<Option<ItemStack>>, stack: Option<ItemStack>): (n: int)
    ensures stack.None? ==> n == 0
    ensures stack.Some? ==> n == SumSizes(items, stack.value.item)
  {
    if |items| == 0 then 0
    else
      var here := if items[0].Some? && stack.Some? && items[0].value.item == stack.value.item
                  then items[0].value.size else 0;
      var n := here + CountMatching(items[1..], stack);
      SumSizesFront(items, if stack.Some? then stack.value.item else 0);
      n
  }

  /** `SumSizes` read from the front. */
  lemma {:induction false} SumSizesFront(items: seq<Option<ItemStack>>, k: int)
    requires |items| > 0
    ensures SumSizes(items, k) ==
      (if items[0].Some? && items[0].value.item == k then items[0].value.size else 0) + SumSizes(items[1..], k)
    decreases |items|
  {
    if |items| > 1 {
      var init := items[..|items| - 1];
      SumSizesFront(init, k);
      assert init[1..] == items[1..][..|items[1..]| - 1];
      assert init[0] == items[0];
      assert items[1..][|items[1..]| - 1] == items[|items| - 1];
    } else {
      assert items[1..] == [];
      assert items[..0] == [];
    }
  }

  /** The total the counter shows agrees with the grouped storages. */
  lemma TotalMatchesStorage(inventory: seq<Option<ItemStack>>, stack: ItemStack)
    ensures GetTotal(Some(inventory), Some(stack)) == CountOf(StorageFromItems(inventory), stack.item)
  {
  }

  // ---------------------------------------------------------------------------
  // Comparing two groupings
  // ---------------------------------------------------------------------------

  /** What `compare` emits for one storage of the first list. */
  function CompareOne(current: ItemStorage, list2: seq<ItemStorage>): (r: seq<ItemStorage>)
    ensures |r| <= 1
    ensures Kinds(r) <= {KindOf(current)}
    ensures forall i :: 0 <= i < |r| ==> r[i].stack.size == 1
  {
    match GetItemFromItem(current.stack, list2)
    case Some(other) =>
      if current.times - other.times <= 0 then [] else [MakeStorage(other.stack, current.times - other.times)]
    case None => [CopyStorage(current)]
  }

  /** `compare`: what `list1` has beyond `list2`, kind by kind, in the order
      of `list1`. */
  function Compare(list1: seq<ItemStorage>, list2: seq<ItemStorage>): (r: seq<ItemStorage>)
    ensures |r| <= |list1|
    ensures forall i :: 0 <= i < |r| ==> r[i].stack.size == 1
    ensures Kinds(r) <= Kinds(list1)
  {
    if |list1| == 0 then []
    else
      var head := CompareOne(list1[0], list2);
      var tail := Compare(list1[1..], list2);
      CompareKinds(list1, head, tail);
      head + tail
  }

  lemma CompareKinds(list1: seq<ItemStorage>, head: seq<ItemStorage>, tail: seq<ItemStorage>)
    requires |list1| > 0
    requires Kinds(head) <= {KindOf(list1[0])}
    requires Kinds(tail) <= Kinds(list1[1..])
    ensures Kinds(head + tail) <= Kinds(list1)
  {
    assert list1 == [list1[0]] + list1[1..];
    KindsConcat(head, tail);
    KindsConcat([list1[0]], list1[1..]);
    assert Kinds([list1[0]]) == {KindOf(list1[0])} by {
      assert list1[0] in [list1[0]];
    }
  }

  /** `compare` works storage by storage: comparing a concatenation is
      concatenating the comparisons, so the order of `list1` is kept. */
  lemma {:induction false} CompareConcat(a: seq<ItemStorage>, b: seq<ItemStorage>, list2: seq<ItemStorage>)
    ensures Compare(a + b, list2) == Compare(a, list2) + Compare(b, list2)
  {
    if |a| > 0 {
      assert (a + b)[0] == a[0];
      assert (a + b)[1..] == a[1..] + b;
      CompareConcat(a[1..], b, list2);
    } else {
      assert a + b == b;
    }
  }

  /** A kind missing from `list2` is copied unchanged. */
  lemma CompareMissing(current: ItemStorage, list2: seq<ItemStorage>)
    requires forall j :: 0 <= j < |list2| ==> KindOf(list2[j]) != KindOf(current)
    ensures Compare([current], list2) == [CopyStorage(current)]
  {
    assert [current][1..] == [];
  }

  /** A kind present in `list2` (first at position `j`) survives only with a
      larger counter, reduced by the other counter. */
  lemma CompareFound(current: ItemStorage, list2: seq<ItemStorage>, j: nat)
    requires j < |list2| && KindOf(list2[j]) == KindOf(current)
    requires forall i :: 0 <= i < j ==> KindOf(list2[i]) != KindOf(current)
    ensures Compare([current], list2) ==
              if current.times > list2[j].times
              then [MakeStorage(list2[j].stack, current.times - list2[j].times)] else []
  {
    assert [current][1..] == [];
    var f := FindIndex(current.stack.item, list2);
    assert f == Some(j);
  }

  /** Truncated subtraction. */
  function Monus(a: int, b: int): int { if a > b then a - b else 0 }

  /** What one storage of `list1` contributes to the count of kind `k`. */
  lemma CompareOneCount(cur: ItemStorage, list2: seq<ItemStorage>, k: int)
    requires cur.times > 0
    requires Unique(list2) && Normalised(list2)
    ensures CountOf(CompareOne(cur, list2), k) == if KindOf(cur) == k then Monus(cur.times, CountOf(list2, k)) else 0
  {
    var head := CompareOne(cur, list2);
    CountUnique(list2, k);
    assert CountOf(head, k) == (if |head| == 1 && KindOf(head[0]) == k then head[0].times else 0) by {
      if |head| == 1 {
        assert head[1..] == [];
      }
    }
    if KindOf(cur) == k {
      match FindIndex(k, list2)
      case None =>
      case Some(i) =>
        assert GetItemFromItem(cur.stack, list2) == Some(list2[i]);
    } else if |head| == 1 {
      assert head[0] in head;
    }
  }

  /** On groupings with one storage per kind and positive counters, `compare`
      is multiset difference: each kind's count is what `list1` has beyond
      `list2`, and nothing is left of a kind `list2` has at least as much of. */
  lemma {:induction false} CompareIsDifference(list1: seq<ItemStorage>, list2: seq<ItemStorage>, k: int)
    requires Unique(list1) && Normalised(list1)
    requires Unique(list2) && Normalised(list2)
    ensures CountOf(Compare(list1, list2), k) == Monus(CountOf(list1, k), CountOf(list2, k))
  {
    CountUnique(list2, k);
    if |list1| > 0 {
      var cur := list1[0];
      var rest := list1[1..];
      assert Unique(rest) && Normalised(rest) by {
        forall i | 0 <= i < |rest| ensures rest[i] == list1[i + 1] { }
      }
      CompareIsDifference(rest, list2, k);
      var head := CompareOne(cur, list2);
      assert Compare(list1, list2) == head + Compare(rest, list2);
      CountConcat(head, Compare(rest, list2), k);
      CompareOneCount(cur, list2, k);
      assert CountOf(list1, k) == (if KindOf(cur) == k then cur.times else 0) + CountOf(rest, k);
      CountUnique(list2, k);
      assert CountOf(list2, k) >= 0;
      if KindOf(cur) == k {
        CountUnique(rest, k);
        assert FindIndex(k, rest).None? by {
          forall j | 0 <= j < |rest| ensures KindOf(rest[j]) != k {
            assert rest[j] == list1[j + 1];
          }
        }
      }
    }
  }

  // ---------------------------------------------------------------------------
  // Expiry
  // ---------------------------------------------------------------------------

  /** `getPassedTime`, with the game clock as a parameter. */
  function PassedTime(s: TimedItemStorage, now: real): real { now - s.start }

  /** `removeOld`: the entries at most `time` old, in their original order. */
  function RemoveOld(list: seq<TimedItemStorage>, time: int, now: real): (r: seq<TimedItemStorage>)
    ensures |r| <= |list|
    ensures forall x :: x in r <==> x in list && PassedTime(x, now) <= time as real
  {
    if |list| == 0 then []
    else
      var rest := RemoveOld(list[1..], time, now);
      assert forall x :: x in list <==> x == list[0] || x in list[1..];
      if PassedTime(list[0], now) <= time as real then [list[0]] + rest else rest
  }

  /** Filtering works piece by piece, so the kept entries stay in order. */
  lemma {:induction false} RemoveOldConcat(a: seq<TimedItemStorage>, b: seq<TimedItemStorage>, time: int, now: real)
    ensures RemoveOld(a + b, time, now) == RemoveOld(a, time, now) + RemoveOld(b, time, now)
  {
    if |a| > 0 {
      assert (a + b)[0] == a[0];
      assert (a + b)[1..] == a[1..] + b;
      RemoveOldConcat(a[1..], b, time, now);
    } else {
      assert a + b == b;
    }
  }

  /** Expiring twice at the same moment removes nothing more. */
  lemma {:induction false} RemoveOldIdempotent(list: seq<TimedItemStorage>, time: int, now: real)
    ensures RemoveOld(RemoveOld(list, time, now), time, now) == RemoveOld(list, time, now)
  {
    if |list| > 0 {
      RemoveOldIdempotent(list[1..], time, now);
      var rest := RemoveOld(list[1..], time, now);
      if PassedTime(list[0], now) <= time as real {
        assert ([list[0]] + rest)[1..] == rest;
      }
    }
  }
}
