/**
 A stable sort into non-increasing order of an integer key, standing for
 `Collections.sort` with a comparator that compares keys in reverse. It is
 an insertion sort over sequences; the lemmas establish that its result is a
 permutation, is ordered, keeps the input order within each key class, and
 is the only list with those properties.
 */
module StableSort {

  /** Non-increasing by `key`. */
  predicate Sorted<T>(s: seq<T>, key: T -> int)
  {
    forall i, j :: 0 <= i < j < |s| ==> key(s[i]) >= key(s[j])
  }

  /** The elements of `s` whose key is `k`, in their order in `s`. */
  function WithKey<T>(s: seq<T>, k: int, key: T -> int): seq<T>
  {
    if s == [] then []
    else if key(s[0]) == k then [s[0]] + WithKey(s[1..], k, key)
    else WithKey(s[1..], k, key)
  }

  /**
   Places `x` in front of the first element of `s` whose key is not greater
   than its own, so that `x` precedes every element with an equal key.
   */
  function Insert<T>(x: T, s: seq<T>, key: T -> int): (r: seq<T>)
    ensures multiset(r) == multiset{x} + multiset(s)
    ensures |r| == |s| + 1
    decreases |s|
  {
    if s == [] || key(x) >= key(s[0]) then [x] + s
    else
      assert s == [s[0]] + s[1..];
      [s[0]] + Insert(x, s[1..], key)
  }

  /** An upper bound on the keys of `x` and of `s` bounds the keys of `Insert(x, s)`. */
  lemma {:induction false} InsertKeepsBound<T>(x: T, s: seq<T>, key: T -> int, bound: int)
    requires key(x) <= bound
    requires forall i :: 0 <= i < |s| ==> key(s[i]) <= bound
    ensures forall i :: 0 <= i < |Insert(x, s, key)| ==> key(Insert(x, s, key)[i]) <= bound
    decreases |s|
  {
    if s != [] && key(x) < key(s[0]) {
      InsertKeepsBound(x, s[1..], key, bound);
    }
  }

  lemma {:induction false} InsertKeepsSorted<T>(x: T, s: seq<T>, key: T -> int)
    requires Sorted(s, key)
    ensures Sorted(Insert(x, s, key), key)
    decreases |s|
  {
    if s != [] && key(x) < key(s[0]) {
      var tail := Insert(x, s[1..], key);
      InsertKeepsSorted(x, s[1..], key);
      InsertKeepsBound(x, s[1..], key, key(s[0]));
      var r := [s[0]] + tail;
      assert forall j :: 0 < j < |r| ==> r[j] == tail[j - 1];
    }
  }

  /** Inserting `x` into a sorted list puts it at the head of its key class and changes no other class. */
  lemma {:induction false} InsertKeepsClasses<T>(x: T, s: seq<T>, k: int, key: T -> int)
    requires Sorted(s, key)
    ensures WithKey(Insert(x, s, key), k, key)
         == if key(x) == k then [x] + WithKey(s, k, key) else WithKey(s, k, key)
    decreases |s|
  {
    if s == [] || key(x) >= key(s[0]) {
      assert ([x] + s)[1..] == s;
    } else {
      var r := [s[0]] + Insert(x, s[1..], key);
      assert r[1..] == Insert(x, s[1..], key);
      InsertKeepsClasses(x, s[1..], k, key);
    }
  }

  /** Insertion sort: the result holds the same elements in non-increasing key order. */
  function Sort<T>(s: seq<T>, key: T -> int): (r: seq<T>)
    ensures multiset(r) == multiset(s)
    ensures |r| == |s|
    ensures Sorted(r, key)
    decreases |s|
  {
    if s == [] then []
    else
      var rest := Sort(s[1..], key);
      InsertKeepsSorted(s[0], rest, key);
      assert s == [s[0]] + s[1..];
      Insert(s[0], rest, key)
  }

  /** Stability: within each key class the sorted list keeps the input order. */
  lemma {:induction false} SortIsStable<T>(s: seq<T>, k: int, key: T -> int)
    ensures WithKey(Sort(s, key), k, key) == WithKey(s, k, key)
    decreases |s|
  {
    if s != [] {
      SortIsStable(s[1..], k, key);
      InsertKeepsClasses(s[0], Sort(s[1..], key), k, key);
    }
  }

  /** Sorting a list that is already in order returns it unchanged. */
  lemma {:induction false} SortOfSortedIsIdentity<T>(s: seq<T>, key: T -> int)
    requires Sorted(s, key)
    ensures Sort(s, key) == s
    decreases |s|
  {
    if s != [] {
      assert Sorted(s[1..], key);
      SortOfSortedIsIdentity(s[1..], key);
      assert s == [s[0]] + s[1..];
    }
  }

  /** In a sorted list, a non-empty key class has a key no greater than the head's. */
  lemma {:induction false} ClassBoundedByHead<T>(s: seq<T>, k: int, key: T -> int)
    requires Sorted(s, key)
    requires WithKey(s, k, key) != []
    ensures s != [] && key(s[0]) >= k
    decreases |s|
  {
    if s != [] && key(s[0]) != k {
      ClassBoundedByHead(s[1..], k, key);
    }
  }

  lemma HeadInOwnClass<T>(s: seq<T>, key: T -> int)
    requires s != []
    ensures WithKey(s, key(s[0]), key) != []
  {
  }

  /** A sorted list is determined by the contents and order of its key classes. */
  lemma {:induction false} SortedIsDeterminedByClasses<T>(a: seq<T>, b: seq<T>, key: T -> int)
    requires Sorted(a, key) && Sorted(b, key)
    requires forall k :: WithKey(a, k, key) == WithKey(b, k, key)
    ensures a == b
    decreases |a|
  {
    if a == [] {
      if b != [] {
        HeadInOwnClass(b, key);
      }
    } else if b == [] {
      HeadInOwnClass(a, key);
    } else {
      var ka, kb := key(a[0]), key(b[0]);
      assert WithKey(a, ka, key) != [];
      ClassBoundedByHead(b, ka, key);
      assert WithKey(b, kb, key) != [];
      ClassBoundedByHead(a, kb, key);
      assert ka == kb;
      assert WithKey(a, ka, key)[0] == a[0] && WithKey(b, ka, key)[0] == b[0];
      assert a[0] == b[0];
      forall k
        ensures WithKey(a[1..], k, key) == WithKey(b[1..], k, key)
      {
        var wa, wb := WithKey(a[1..], k, key), WithKey(b[1..], k, key);
        assert WithKey(a, k, key) == WithKey(b, k, key);
        if k == ka {
          assert ([a[0]] + wa)[1..] == wa && ([b[0]] + wb)[1..] == wb;
        }
      }
      assert Sorted(a[1..], key) && Sorted(b[1..], key);
      SortedIsDeterminedByClasses(a[1..], b[1..], key);
      assert a == [a[0]] + a[1..] && b == [b[0]] + b[1..];
    }
  }

  /**
   Any sorted list that keeps the input order within every key class is
   exactly this sort's result: every stable sort agrees with it.
   */
  lemma StableSortIsUnique<T>(s: seq<T>, r: seq<T>, key: T -> int)
    requires Sorted(r, key)
    requires forall k :: WithKey(r, k, key) == WithKey(s, k, key)
    ensures r == Sort(s, key)
  {
    var t := Sort(s, key);
    forall k
      ensures WithKey(r, k, key) == WithKey(t, k, key)
    {
      SortIsStable(s, k, key);
    }
    SortedIsDeterminedByClasses(r, t, key);
  }
}
