/** Grouping a list by a key, as a dictionary of lists does it. */
module Buckets {
  import opened Basics

  /** The items with one key, in order. */
  function Bucket<K(==), T>(items: seq<T>, key: T -> K, k: K): (b: seq<T>)
    ensures forall i | 0 <= i < |b| :: key(b[i]) == k && b[i] in items
  {
    if items == [] then []
    else
      var last := items[|items| - 1];
      Bucket(items[..|items| - 1], key, k) + (if key(last) == k then [last] else [])
  }

  /** The items whose key is not among the given ones, in order. */
  function Outside<K, T>(items: seq<T>, key: T -> K, keys: set<K>): seq<T> {
    if items == [] then []
    else
      var last := items[|items| - 1];
      Outside(items[..|items| - 1], key, keys) + (if key(last) in keys then [] else [last])
  }

  function BucketTotal<K(==), T>(keys: seq<K>, items: seq<T>, key: T -> K): nat {
    if keys == [] then 0 else BucketTotal(keys[..|keys| - 1], items, key) + |Bucket(items, key, keys[|keys| - 1])|
  }

  lemma {:induction false} OneMoreItem<K, T>(keys: seq<K>, items: seq<T>, key: T -> K, item: T)
    requires Distinct(keys)
    ensures BucketTotal(keys, items + [item], key)
         == BucketTotal(keys, items, key) + (if key(item) in keys then 1 else 0)
  {
    assert (items + [item])[..|items|] == items;
    if keys != [] {
      var n := |keys| - 1;
      assert keys == keys[..n] + [keys[n]];
      OneMoreItem(keys[..n], items, key, item);
      assert key(item) == keys[n] ==> key(item) !in keys[..n];
    }
  }

  lemma {:induction false} NothingToCount<K, T>(keys: seq<K>, key: T -> K)
    ensures BucketTotal(keys, [], key) == 0
  {
    if keys != [] {
      NothingToCount(keys[..|keys| - 1], key);
    }
  }

  /** Every item is in exactly one bucket or outside all of them. */
  lemma {:induction false} BucketsPartition<K, T>(keys: seq<K>, items: seq<T>, key: T -> K)
    requires Distinct(keys)
    ensures BucketTotal(keys, items, key) + |Outside(items, key, Members(keys))| == |items|
  {
    if items == [] {
      NothingToCount(keys, key);
    } else {
      var n := |items| - 1;
      BucketsPartition(keys, items[..n], key);
      OneMoreItem(keys, items[..n], key, items[n]);
      assert items[..n] + [items[n]] == items;
    }
  }
}
