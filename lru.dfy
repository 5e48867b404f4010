/**
 * The answer cache of app.py: `LRU`, an `OrderedDict` subclass bounded by
 * `maxsize`. The dictionary is modelled by its key order (least recently used
 * first) and its key-to-value map.
 */
module Lru {
  import opened Wrappers

  predicate Distinct<K(==)>(ks: seq<K>) {
    forall i, j :: 0 <= i < j < |ks| ==> ks[i] != ks[j]
  }

  /** `ks` with `k` taken out; every other key stays, in the same order. */
  function Removed<K(==)>(ks: seq<K>, k: K): (r: seq<K>)
    ensures forall x :: x in r ==> x in ks && x != k
    ensures forall x :: x in ks && x != k ==> x in r
    ensures Distinct(ks) ==> Distinct(r)
    ensures k !in ks ==> r == ks
    ensures Distinct(ks) && k in ks ==> |r| == |ks| - 1
  {
    if ks == [] then []
    else if ks[0] == k then Removed(ks[1..], k)
    else
      var rest := Removed(ks[1..], k);
      assert Distinct(ks) ==> ks[0] !in rest by {
        if Distinct(ks) {
          forall j | 0 <= j < |ks| - 1 ensures ks[1..][j] != ks[0] {
            assert ks[1..][j] == ks[j + 1];
          }
        }
      }
      [ks[0]] + rest
  }

  /** Taking out the key at position `p` closes the gap and keeps the relative order of the rest. */
  lemma {:induction false} RemovedAt<K>(ks: seq<K>, p: nat)
    requires Distinct(ks) && p < |ks|
    ensures Removed(ks, ks[p]) == ks[..p] + ks[p + 1..]
    decreases p
  {
    if p == 0 {
      assert ks[0] !in ks[1..];
    } else {
      assert ks[0] != ks[p];
      assert ks[1..][p - 1] == ks[p];
      RemovedAt(ks[1..], p - 1);
      assert ks[1..][..p - 1] + ks[1..][p..] == ks[1..p] + ks[p + 1..];
      assert [ks[0]] + ks[1..p] == ks[..p];
    }
  }

  class LRU<K(==), V> {
    /** Keys in recency order: `order[0]` is the least recently used. */
    var order: seq<K>
    var entries: map<K, V>
    const maxsize: int

    /** The ordered-dictionary invariant: each key once, keys and map agree. */
    ghost predicate IsOrderedDict()
      reads this
    {
      && Distinct(order)
      && (forall k :: k in entries ==> k in order)
      && (forall k :: k in order ==> k in entries)
    }

    /** The cache invariant: an ordered dictionary holding at most `maxsize` entries. */
    ghost predicate Valid()
      reads this
    {
      IsOrderedDict() && (|order| <= maxsize || order == [])
    }

    /** `LRU(maxsize)`: an empty cache. */
    constructor (maxsize: int)
      ensures Valid()
      ensures this.maxsize == maxsize && order == [] && entries == map[]
    {
      this.maxsize := maxsize;
      order := [];
      entries := map[];
    }

    /** `OrderedDict.pop(k)` on a present key. */
    method Pop(k: K) returns (v: V)
      requires IsOrderedDict() && k in entries
      modifies this
      ensures IsOrderedDict()
      ensures v == old(entries)[k]
      ensures entries == old(entries) - {k}
      ensures order == Removed(old(order), k)
    {
      v := entries[k];
      entries := entries - {k};
      order := Removed(order, k);
    }

    /** `OrderedDict.__setitem__`: a new key goes to the most recent end, a present key keeps its place. */
    method SetItem(k: K, v: V)
      requires IsOrderedDict()
      modifies this
      ensures IsOrderedDict()
      ensures entries == old(entries)[k := v]
      ensures order == if k in old(entries) then old(order) else old(order) + [k]
    {
      if k !in entries {
        order := order + [k];
      }
      entries := entries[k := v];
    }

    /** `OrderedDict.popitem(last=False)`: removes the least recently used entry; `None` where Python raises `KeyError`. */
    method PopFirst() returns (r: Option<(K, V)>)
      requires IsOrderedDict()
      modifies this
      ensures IsOrderedDict()
      ensures r.None? <==> old(order) == []
      ensures r.None? ==> order == old(order) && entries == old(entries)
      ensures r.Some? ==> r.value == (old(order)[0], old(entries)[old(order)[0]])
      ensures r.Some? ==> order == old(order)[1..] && entries == old(entries) - {old(order)[0]}
    {
      if order == [] {
        r := None;
      } else {
        var k := order[0];
        r := Some((k, entries[k]));
        entries := entries - {k};
        order := order[1..];
      }
    }

    /**
     * `LRU.get(k)`: on a hit, the stored value, and `k` becomes the most
     * recently used key; on a miss, `None` and nothing changes.
     */
    method Get(k: K) returns (r: Option<V>)
      requires Valid()
      modifies this
      ensures Valid()
      ensures r.Some? <==> k in old(entries)
      ensures r.Some? ==> r.value == old(entries)[k]
      ensures entries == old(entries)
      ensures order == if k in old(entries) then Removed(old(order), k) + [k] else old(order)
    {
      if k in entries {
        var v := Pop(k);
        SetItem(k, v);
        assert entries == old(entries);
        r := Some(v);
      } else {
        r := None;
      }
    }

    /**
     * `LRU.put(k, v)`. A present key gets the new value and moves to the most
     * recent end; a new key evicts the least recently used entry when the cache
     * is full, then is appended. `ok` is false exactly where Python raises
     * `KeyError`: a new key, a full cache and nothing to evict, which happens
     * only when `maxsize < 1`; the cache is then unchanged.
     */
    method Put(k: K, v: V) returns (ok: bool)
      requires Valid()
      modifies this
      ensures Valid()
      ensures ok <==> maxsize >= 1
      ensures !ok ==> order == old(order) && entries == old(entries)
      ensures ok ==> k in entries && entries[k] == v && order[|order| - 1] == k
      ensures ok && k in old(entries) ==>
        order == Removed(old(order), k) + [k] && entries == old(entries)[k := v]
      ensures ok && k !in old(entries) && |old(order)| < maxsize ==>
        order == old(order) + [k] && entries == old(entries)[k := v]
      ensures ok && k !in old(entries) && |old(order)| >= maxsize ==>
        order == old(order)[1..] + [k] && entries == (old(entries) - {old(order)[0]})[k := v]
    {
      if k in entries {
        var _ := Pop(k);
        assert k !in entries && |order| < |old(order)|;
      } else if |order| >= maxsize {
        var evicted := PopFirst();
        if evicted.None? {
          return false;
        }
        assert k != old(order)[0];
        assert k !in entries && |order| < maxsize;
      }
      assert k !in entries && |order| < maxsize;
      SetItem(k, v);
      ok := true;
    }
  }

  /** Capacity 2: put 1, put 2, get 1, then put 3 evicts 2, the least recently used key. */
  method EvictionExample()
  {
    var cache := new LRU<int, string>(2);
    var ok := cache.Put(1, "one");
    ok := cache.Put(2, "two");
    assert cache.order == [1, 2];
    var a := cache.Get(1);
    assert a == Some("one");
    assert cache.order == [2, 1];
    ok := cache.Put(3, "three");
    assert cache.order == [1, 3];
    var b := cache.Get(2);
    assert b == None;
    var c := cache.Get(3);
    assert c == Some("three");
  }

  /** Putting an existing key again replaces its value and leaves the entry count alone. */
  method OverwriteExample()
  {
    var cache := new LRU<string, string>(64);
    var ok := cache.Put("A", "1");
    ok := cache.Put("A", "2");
    assert |cache.order| == 1;
    var a := cache.Get("A");
    assert a == Some("2");
  }
}
