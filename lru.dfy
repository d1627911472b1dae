/**
 * The bounded least-recently-used cache both caches of the viewer follow: a map from key
 * to value plus a recency list, oldest first. A hit moves its key to the back; inserting a
 * new key into a full cache first evicts the front key.
 */
module Lru {
  import opened Seqs

  /** The most entries a cache of the given capacity holds (a zero capacity still keeps one). */
  function Bound(capacity: nat): (r: nat)
    ensures r >= 1 && (capacity >= 1 ==> r == capacity)
  {
    if capacity == 0 then 1 else capacity
  }

  /** The map and the recency list hold the same keys, each once, and no more than the bound. */
  ghost predicate LruValid<K(!new), V>(cache: map<K, V>, order: seq<K>, capacity: nat) {
    (forall k :: k in cache <==> k in order) && NoDuplicates(order) && |order| <= Bound(capacity)
  }

  /** `key` made the most recently used. */
  function Touch<K(==,!new)>(order: seq<K>, key: K): seq<K> {
    Without(order, key) + [key]
  }

  /** The cache after inserting `key`: make room if the key is new and the cache full, then store. */
  function Inserted<K(==,!new), V>(cache: map<K, V>, order: seq<K>, capacity: nat, key: K, value: V): (map<K, V>, seq<K>) {
    if key in cache then (cache[key := value], Touch(order, key))
    else if |cache| >= capacity && order != [] then ((cache - {order[0]})[key := value], order[1..] + [key])
    else (cache[key := value], order + [key])
  }

  /** The cache never holds more entries than its bound, and the recency list is as long as the map. */
  lemma LruSize<K(!new), V>(cache: map<K, V>, order: seq<K>, capacity: nat)
    requires LruValid(cache, order, capacity)
    ensures |cache| == |order| <= Bound(capacity)
  {
    MapCardOfKeys(cache, order);
  }

  /** A hit keeps the cache valid: the key moves to the back and nothing is lost. */
  lemma TouchValid<K(!new), V>(cache: map<K, V>, order: seq<K>, capacity: nat, key: K)
    requires LruValid(cache, order, capacity) && key in cache
    ensures LruValid(cache, Touch(order, key), capacity)
  {
    WithoutKeepsDistinct(order, key);
    Snoc(Without(order, key), key);
  }

  /** Touching the key that is already the most recent changes nothing. */
  lemma {:induction false} TouchLast<K(!new)>(order: seq<K>, key: K)
    requires NoDuplicates(order) && order != [] && order[|order| - 1] == key
    ensures Touch(order, key) == order
  {
    var init := order[..|order| - 1];
    assert key !in init by {
      forall j | 0 <= j < |init| ensures init[j] != key {
        assert init[j] == order[j];
      }
    }
    assert order == init + [key];
    WithoutSnocSelf(init, key);
  }

  lemma {:induction false} WithoutSnocSelf<K(!new)>(s: seq<K>, x: K)
    ensures Without(s + [x], x) == Without(s, x)
  {
    if s == [] {
      assert Without([x], x) == Without([x][1..], x);
    } else {
      assert (s + [x])[1..] == s[1..] + [x];
      WithoutSnocSelf(s[1..], x);
    }
  }

  /** A new key in a full cache evicts exactly the least recent key. */
  lemma EvictValid<K(!new), V>(cache: map<K, V>, order: seq<K>, capacity: nat, key: K, value: V)
    requires LruValid(cache, order, capacity) && key !in cache && |cache| >= capacity && order != []
    ensures LruValid((cache - {order[0]})[key := value], order[1..] + [key], capacity)
    ensures ((cache - {order[0]})[key := value]).Keys == cache.Keys - {order[0]} + {key}
  {
    LruSize(cache, order, capacity);
    DropFront(order);
    Snoc(order[1..], key);
  }

  /** A new key in a cache with room is appended and nothing is evicted. */
  lemma AddValid<K(!new), V>(cache: map<K, V>, order: seq<K>, capacity: nat, key: K, value: V)
    requires LruValid(cache, order, capacity) && key !in cache && (|cache| < capacity || order == [])
    ensures LruValid(cache[key := value], order + [key], capacity)
  {
    LruSize(cache, order, capacity);
    Snoc(order, key);
  }

  /**
   * Inserting keeps the cache valid and bounded and stores the value under the key, as
   * the most recent entry. An existing key is replaced without eviction; a new key in a
   * full cache evicts exactly the least recent key; in a cache with room nothing is evicted.
   */
  lemma InsertedValid<K(!new), V>(cache: map<K, V>, order: seq<K>, capacity: nat, key: K, value: V)
    requires LruValid(cache, order, capacity)
    ensures var r := Inserted(cache, order, capacity, key, value);
      LruValid(r.0, r.1, capacity) && |r.0| <= Bound(capacity) && key in r.0 && r.0[key] == value &&
      r.1 != [] && r.1[|r.1| - 1] == key &&
      (key in cache ==> r.0.Keys == cache.Keys) &&
      (key !in cache && |cache| >= capacity && capacity > 0 ==> r.0.Keys == cache.Keys - {order[0]} + {key}) &&
      (key !in cache && |cache| < capacity ==> r.0.Keys == cache.Keys + {key})
  {
    LruSize(cache, order, capacity);
    var r := Inserted(cache, order, capacity, key, value);
    if key in cache {
      assert r == (cache[key := value], Touch(order, key));
      TouchValid(cache, order, capacity, key);
      assert r.0.Keys == cache.Keys;
    } else if |cache| >= capacity && order != [] {
      assert r == ((cache - {order[0]})[key := value], order[1..] + [key]);
      EvictValid(cache, order, capacity, key, value);
    } else {
      assert r == (cache[key := value], order + [key]);
      AddValid(cache, order, capacity, key, value);
      assert |cache| >= capacity ==> capacity == 0;
    }
    LruSize(r.0, r.1, capacity);
  }

  /** Dropping the front of a repetition-free list removes exactly that element. */
  lemma DropFront<K(!new)>(s: seq<K>)
    requires NoDuplicates(s) && s != []
    ensures NoDuplicates(s[1..]) && s[0] !in s[1..]
    ensures forall k :: k in s[1..] <==> k in s && k != s[0]
  {
    forall k | k in s && k != s[0] ensures k in s[1..] {
      var i :| 0 <= i < |s| && s[i] == k;
      assert s[1..][i - 1] == k;
    }
    assert s[0] !in s[1..] by {
      forall j | 0 <= j < |s| - 1 ensures s[1..][j] != s[0] {
        assert s[1..][j] == s[j + 1];
      }
    }
  }

  /** Appending a new element keeps a list free of repetitions. */
  lemma Snoc<K(!new)>(s: seq<K>, k: K)
    requires NoDuplicates(s) && k !in s
    ensures NoDuplicates(s + [k])
  {
    forall i, j | 0 <= i < j < |s + [k]| ensures (s + [k])[i] != (s + [k])[j] {
      if j == |s| {
        assert (s + [k])[i] == s[i];
      } else {
        assert (s + [k])[i] == s[i] && (s + [k])[j] == s[j];
      }
    }
  }
}
