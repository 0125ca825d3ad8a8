/**
 The queue ordering of the sorter: `BuildableComparitor.compare`, which
 orders items by descending effective priority, and `sortBuildableItems`,
 which sorts the buildable list stably with that comparator.
 */
module QueueSort {
  import opened JavaInt
  import opened Items
  import opened Priority
  import StableSort

  /**
   `compare(a, b)`: compares the priority of `b` with that of `a`, so an
   item with a higher effective priority compares as smaller and comes first.
   */
  function Compare(a: Item, b: Item, w: Weights): (r: int)
    ensures -1 <= r <= 1
    ensures r < 0 <==> GetPriority(a, w) > GetPriority(b, w)
    ensures r == 0 <==> GetPriority(a, w) == GetPriority(b, w)
    ensures r > 0 <==> GetPriority(a, w) < GetPriority(b, w)
  {
    CompareTo(GetPriority(b, w), GetPriority(a, w))
  }

  /** The comparator is a total preorder: reflexive, antisymmetric in sign, total, transitive, and items comparing equal compare alike against every other item. */
  lemma CompareIsTotalPreorder(a: Item, b: Item, c: Item, w: Weights)
    ensures Compare(a, a, w) == 0
    ensures Compare(a, b, w) == -Compare(b, a, w)
    ensures Compare(a, b, w) <= 0 || Compare(b, a, w) <= 0
    ensures Compare(a, b, w) <= 0 && Compare(b, c, w) <= 0 ==> Compare(a, c, w) <= 0
    ensures Compare(a, b, w) < 0 && Compare(b, c, w) < 0 ==> Compare(a, c, w) < 0
    ensures Compare(a, b, w) == 0 ==> Compare(a, c, w) == Compare(b, c, w)
  {
  }

  /** The sort key: an item's effective priority under one snapshot of the weights. */
  function PriorityKey(w: Weights): Item -> int
  {
    x => GetPriority(x, w)
  }

  /**
   `sortBuildableItems`: a stable sort of the queue by the comparator. The
   result holds the same items, every item compares no later than its
   successors, and items of equal priority keep their input order.
   */
  function SortBuildableItems(items: seq<Item>, w: Weights): (r: seq<Item>)
    ensures multiset(r) == multiset(items)
    ensures |r| == |items|
    ensures forall i, j :: 0 <= i < j < |r| ==> GetPriority(r[i], w) >= GetPriority(r[j], w)
    ensures forall i, j :: 0 <= i < j < |r| ==> Compare(r[i], r[j], w) <= 0
    ensures forall k :: StableSort.WithKey(r, k, PriorityKey(w)) == StableSort.WithKey(items, k, PriorityKey(w))
  {
    var key := PriorityKey(w);
    var r := StableSort.Sort(items, key);
    assert forall i, j :: 0 <= i < j < |r| ==> key(r[i]) >= key(r[j]);
    forall k
      ensures StableSort.WithKey(r, k, key) == StableSort.WithKey(items, k, key)
    {
      StableSort.SortIsStable(items, k, key);
    }
    r
  }

  /** Sorting a queue that is already in priority order leaves it unchanged. */
  lemma SortedQueueUnchanged(items: seq<Item>, w: Weights)
    requires forall i, j :: 0 <= i < j < |items| ==> GetPriority(items[i], w) >= GetPriority(items[j], w)
    ensures SortBuildableItems(items, w) == items
  {
    var key := PriorityKey(w);
    assert StableSort.Sorted(items, key);
    StableSort.SortOfSortedIsIdentity(items, key);
  }

  /**
   Any ordering of the queue that is in priority order and keeps equal-priority
   items in input order is exactly `SortBuildableItems`: the library's stable
   merge sort and this insertion sort produce the same queue.
   */
  lemma AnyStableSortAgrees(items: seq<Item>, r: seq<Item>, w: Weights)
    requires forall i, j :: 0 <= i < j < |r| ==> GetPriority(r[i], w) >= GetPriority(r[j], w)
    requires forall k :: StableSort.WithKey(r, k, PriorityKey(w)) == StableSort.WithKey(items, k, PriorityKey(w))
    ensures r == SortBuildableItems(items, w)
  {
    var key := PriorityKey(w);
    assert StableSort.Sorted(r, key);
    StableSort.StableSortIsUnique(items, r, key);
  }
}
