/** Python dictionaries as insertion-ordered association lists.

    A Python `dict` iterates its items in insertion order, and assigning to a key
    that is already present keeps that key's position.  A dictionary is modelled
    as a sequence of items with pairwise distinct keys; `Put` is `d[k] = v` and
    `Get` is `d.get(k, default)`. */
module Dicts {

  datatype Item<K, V> = Item(key: K, val: V)

  /** Position of the first item whose key is `k`, or `|d|` when there is none. */
  function Find<K(==), V>(d: seq<Item<K, V>>, k: K): (i: nat)
    ensures i <= |d|
    ensures i < |d| ==> d[i].key == k
    ensures forall j :: 0 <= j < i ==> d[j].key != k
  {
    if |d| == 0 then 0 else if d[0].key == k then 0 else 1 + Find(d[1..], k)
  }

  /** `k in d` */
  predicate Has<K(==), V>(d: seq<Item<K, V>>, k: K) {
    Find(d, k) < |d|
  }

  /** `d.get(k, dflt)` */
  function Get<K(==), V>(d: seq<Item<K, V>>, k: K, dflt: V): V {
    if Has(d, k) then d[Find(d, k)].val else dflt
  }

  /** `d[k] = v`: overwrite the value in place when `k` is present, append otherwise. */
  function Put<K(==), V>(d: seq<Item<K, V>>, k: K, v: V): (r: seq<Item<K, V>>)
    ensures |r| == if Has(d, k) then |d| else |d| + 1
  {
    if Has(d, k) then d[Find(d, k) := Item(k, v)] else d + [Item(k, v)]
  }

  /** The keys of `d`, in iteration order (`list(d)`). */
  function Keys<K, V>(d: seq<Item<K, V>>): (ks: seq<K>)
    ensures |ks| == |d|
    ensures forall i :: 0 <= i < |d| ==> ks[i] == d[i].key
  {
    if |d| == 0 then [] else [d[0].key] + Keys(d[1..])
  }

  /** The invariant of a Python dict: no key occurs twice. */
  ghost predicate DistinctKeys<K, V>(d: seq<Item<K, V>>) {
    forall i, j :: 0 <= i < j < |d| ==> d[i].key != d[j].key
  }

  /** The mapping a dictionary denotes, forgetting the order of insertion. */
  function AsMap<K(==), V>(d: seq<Item<K, V>>): map<K, V> {
    if |d| == 0 then map[] else AsMap(d[1..])[d[0].key := d[0].val]
  }

  lemma HasIff<K, V>(d: seq<Item<K, V>>, k: K)
    ensures Has(d, k) <==> exists i :: 0 <= i < |d| && d[i].key == k
  {
    if Has(d, k) {
      assert d[Find(d, k)].key == k;
    }
  }

  lemma FindDistinct<K, V>(d: seq<Item<K, V>>, i: nat)
    requires DistinctKeys(d) && i < |d|
    ensures Find(d, d[i].key) == i
  {
  }

  /** What a `Put` does to every key, and that it keeps the keys distinct. */
  lemma PutFacts<K, V>(d: seq<Item<K, V>>, k: K, v: V)
    requires DistinctKeys(d)
    ensures DistinctKeys(Put(d, k, v))
    ensures forall j :: Has(Put(d, k, v), j) <==> j == k || Has(d, j)
    ensures forall j, x :: Get(Put(d, k, v), j, x) == if j == k then v else Get(d, j, x)
  {
    var r := Put(d, k, v);
    if Has(d, k) {
      var f := Find(d, k);
      assert forall i :: 0 <= i < |r| ==> r[i].key == d[i].key;
      forall j | true
        ensures Has(r, j) <==> j == k || Has(d, j)
        ensures forall x :: Get(r, j, x) == if j == k then v else Get(d, j, x)
      {
        HasIff(r, j);
        HasIff(d, j);
        if Has(d, j) {
          FindDistinct(r, Find(d, j));
        }
      }
    } else {
      HasIff(d, k);
      assert forall i :: 0 <= i < |d| ==> r[i] == d[i];
      assert r[|d|].key == k;
      forall j | true
        ensures Has(r, j) <==> j == k || Has(d, j)
        ensures forall x :: Get(r, j, x) == if j == k then v else Get(d, j, x)
      {
        HasIff(r, j);
        HasIff(d, j);
        if Has(d, j) {
          FindDistinct(r, Find(d, j));
        }
      }
    }
  }

  lemma ItemsAssoc<K, V>(x: seq<Item<K, V>>, y: seq<Item<K, V>>, z: seq<Item<K, V>>)
    ensures (x + y) + z == x + (y + z)
  {
  }

  /** A key is in the mapping exactly when it is in the dictionary, with the stored value. */
  lemma {:induction false} AsMapFacts<K, V>(d: seq<Item<K, V>>, k: K)
    ensures k in AsMap(d) <==> Has(d, k)
    ensures Has(d, k) ==> AsMap(d)[k] == d[Find(d, k)].val
  {
    if |d| > 0 && d[0].key != k {
      AsMapFacts(d[1..], k);
    }
  }
}
