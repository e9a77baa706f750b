/** `LRUCache<K, V>`: a `Map` whose insertion order doubles as recency order.
    `order` lists the keys from least to most recently used; it is the key
    iteration order of the JavaScript `Map`. */
module LruCache {
  import opened Prelude

  datatype Cache<K(==,!new), V> = Cache(capacity: int, order: seq<K>, values: map<K, V>)
  {
    /** `size` */
    function Size(): nat { |order| }

    /** `has(key)` */
    predicate Has(key: K) { key in values }

    /** Every stored key appears exactly once in the recency order. */
    ghost predicate Valid() {
      NoDup(order) && (forall k :: k in order <==> k in values)
    }
  }

  datatype Lookup<K(==,!new), V> = Lookup(cache: Cache<K, V>, value: Option<V>)
  datatype Deleted<K(==,!new), V> = Deleted(cache: Cache<K, V>, existed: bool)

  function New<K(==,!new), V>(capacity: int): Cache<K, V> {
    Cache(capacity, [], map[])
  }

  /** A new cache is well formed, empty, and keeps the capacity it was given. */
  lemma NewIsEmpty<K(!new), V>(c: Cache<K, V>, capacity: int)
    requires c == New(capacity)
    ensures c.Valid() && c.Size() == 0 && c.capacity == capacity
  {
  }

  /** `get(key)`: a hit moves `key` to the most recent end. */
  function Get<K(==,!new), V>(c: Cache<K, V>, key: K): (r: Lookup<K, V>)
    ensures key !in c.values ==> r == Lookup(c, None)
    ensures key in c.values ==>
              && r.value == Some(c.values[key])
              && r.cache.values == c.values
              && r.cache.order == Without(c.order, key) + [key]
  {
    if key !in c.values then Lookup(c, None)
    else Lookup(c.(order := Without(c.order, key) + [key]), Some(c.values[key]))
  }

  /** The key `set` evicts: the least recently used one, when `key` is new and the
      cache is full. */
  function Victim<K(==,!new), V>(c: Cache<K, V>, key: K): (r: Option<K>)
    ensures r.Some? <==> key !in c.values && c.Size() >= c.capacity && c.Size() > 0
    ensures r.Some? ==> r.value == c.order[0]
  {
    if key in c.values then None
    else if |c.order| >= c.capacity && |c.order| > 0 then Some(c.order[0])
    else None
  }

  /** `set(key, value)` */
  function Set<K(==,!new), V>(c: Cache<K, V>, key: K, value: V): (r: Cache<K, V>)
    ensures r.capacity == c.capacity
    ensures r.values.Keys == (match Victim(c, key)
                                case None => c.values.Keys
                                case Some(v) => c.values.Keys - {v}) + {key}
    ensures r.values[key] == value
    ensures |r.order| > 0 && r.order[|r.order| - 1] == key
    ensures Victim(c, key).None? ==> r.order == Without(c.order, key) + [key]
    ensures c.Valid() && Victim(c, key).Some? ==> r.order == c.order[1..] + [key]
  {
    WithoutFirst(c.order);
    var kept := match Victim(c, key)
                  case None => c
                  case Some(v) => c.(order := Without(c.order, v), values := c.values - {v});
    kept.(order := Without(kept.order, key) + [key], values := kept.values[key := value])
  }

  /** In a duplicate-free order, removing the first key leaves the rest in place. */
  lemma WithoutFirst<K>(s: seq<K>)
    ensures |s| > 0 && NoDup(s) ==> Without(s, s[0]) == s[1..]
  {
    if |s| > 0 && NoDup(s) {
      assert s[0] !in s[1..];
    }
  }

  /** `delete(key)` */
  function Delete<K(==,!new), V>(c: Cache<K, V>, key: K): (r: Deleted<K, V>)
    ensures r.existed <==> key in c.values
    ensures r.cache.values == c.values - {key} && !r.cache.Has(key)
    ensures r.cache.order == Without(c.order, key)
    ensures r.cache.capacity == c.capacity
  {
    Deleted(c.(order := Without(c.order, key), values := c.values - {key}), key in c.values)
  }

  /** `clear()` */
  function Clear<K(==,!new), V>(c: Cache<K, V>): (r: Cache<K, V>)
    ensures r.Valid() && r.Size() == 0 && r.capacity == c.capacity
  {
    New(c.capacity)
  }

  lemma GetKeepsValid<K(!new), V>(c: Cache<K, V>, key: K)
    requires c.Valid()
    ensures Get(c, key).cache.Valid()
    ensures Get(c, key).cache.Size() == c.Size()
  {
  }

  lemma SetKeepsValid<K(!new), V>(c: Cache<K, V>, key: K, value: V)
    requires c.Valid()
    ensures Set(c, key, value).Valid()
  {
  }

  lemma DeleteKeepsValid<K(!new), V>(c: Cache<K, V>, key: K)
    requires c.Valid()
    ensures Delete(c, key).cache.Valid()
  {
  }

  /** A value just set is what `get` returns, whatever the capacity. */
  lemma SetThenGet<K(!new), V>(c: Cache<K, V>, key: K, value: V)
    ensures Get(Set(c, key, value), key).value == Some(value)
  {
  }

  /** `set` leaves every other surviving entry untouched. */
  lemma SetKeepsOthers<K(!new), V>(c: Cache<K, V>, key: K, value: V, other: K)
    requires other != key && other in c.values && Victim(c, key) != Some(other)
    ensures other in Set(c, key, value).values
    ensures Set(c, key, value).values[other] == c.values[other]
  {
  }

  /** The size never exceeds the capacity (a capacity below one still admits the
      entry just set). */
  lemma SetRespectsCapacity<K(!new), V>(c: Cache<K, V>, key: K, value: V)
    requires c.Valid() && c.Size() <= Max(c.capacity, 1)
    ensures Set(c, key, value).Size() <= Max(c.capacity, 1)
  {
    var r := Set(c, key, value);
    SetKeepsValid(c, key, value);
    if key in c.values {
      assert r.order == Without(c.order, key) + [key];
    } else if Victim(c, key).Some? {
      var v := c.order[0];
      assert v in c.order;
      assert |Without(c.order, v)| == |c.order| - 1;
    }
  }

  /** Reading a key protects it: after `get(a)`, inserting a new key into a full
      cache evicts some other key, never `a`. */
  lemma GetProtectsFromEviction<K(!new), V>(c: Cache<K, V>, a: K, key: K, value: V)
    requires c.Valid() && a in c.values && key !in c.values && c.Size() >= 2
    ensures a in Set(Get(c, a).cache, key, value).values
  {
    var g := Get(c, a).cache;
    GetKeepsValid(c, a);
    assert g.order[0] in Without(c.order, a);
  }
}
