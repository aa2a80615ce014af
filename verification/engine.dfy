/**
 * The sequential behaviour of `CustomCache`: a separate-chaining hash table whose
 * entries are also threaded on one sentinel-anchored ordering list.
 *
 * Each `read` is one atomic step. An entry is identified by its key (no key is ever
 * live twice), its final `value` is kept in `values`, and the two linked structures
 * are read as sequences from their heads:
 *  - `order` is the ordering list from `head.nextInList` onwards, so the most recently
 *    inserted (FIFO) or used (LRU) key comes first and `head.prevInList`, the eviction
 *    victim, comes last;
 *  - `buckets[i]` is the chain `cache[i]`, `cache[i].nextInBucket`, ...
 */
module CustomCache {
  import opened Bits
  import opened Sizing
  import opened Lists
  import opened Outcomes

  /** A Java key reference: `null` or an object. */
  datatype Key<T> = Null | Ref(obj: T)

  /** `key == null ? 0 : key.hashCode()`. */
  function HashOf<T>(hashCode: T -> Int32, key: Key<T>): Int32
  {
    match key
    case Null => 0
    case Ref(o) => hashCode(o)
  }

  /** The final fields of a `CustomCache` instance, fixed by the constructor. */
  datatype Config<!T, V> = Config(
    dataSource: Key<T> -> V,     // the generator, total and pure
    hashCode: T -> Int32,        // `Object.hashCode` of the key objects
    capacity: Int32,             // the requested, un-rounded capacity
    indexMask: Int32,            // bucket-array length minus one
    lru: bool)                   // LRU when true, FIFO when false

  /** A `CustomCache` instance: its final fields and its mutable state. */
  datatype Cache<!T(==), V> = Cache(
    config: Config<T, V>,
    order: seq<Key<T>>,          // the ordering list, head first, victim last
    buckets: seq<seq<Key<T>>>,   // the bucket array, each chain head first
    values: map<Key<T>, V>,      // the value stored in each live entry
    used: int)                   // the live-entry counter

  /** The result of `read`: the cache after the step and the value handed back. */
  datatype Step<!T(==), V> = Step(cache: Cache<T, V>, value: V)

  /**
   * The bucket `makeIndex(key == null ? 0 : key.hashCode())` picks for a key, as at
   * every hashing site of the cache: always a slot of the array, slot 0 for `null`.
   */
  function Index<T, V>(cfg: Config<T, V>, key: Key<T>): (i: int)
    requires cfg.indexMask >= 0
    ensures 0 <= i <= cfg.indexMask
    ensures key.Null? ==> i == 0
  {
    MakeIndex(HashOf(cfg.hashCode, key), cfg.indexMask)
  }

  /** With a power-of-two array, a key's bucket is its hash modulo the array length. */
  lemma IndexIsModulo<T, V>(cfg: Config<T, V>, key: Key<T>)
    requires cfg.indexMask >= 0 && IsPowerOfTwo(cfg.indexMask + 1)
    requires cfg.indexMask < SaturationThreshold
    ensures key.Null? ==> Index(cfg, key) == 0
    ensures key.Ref? ==> Index(cfg, key) == cfg.hashCode(key.obj) % (cfg.indexMask + 1)
  {
    MakeIndexIsModulo(HashOf(cfg.hashCode, key), cfg.indexMask + 1);
  }

  /**
   * The two linked structures agree: the array is sized by `toNearPowerOfTwo`, no key
   * occurs twice on the ordering list or in a chain, every chained key sits in the
   * bucket its hash selects, the chains together hold exactly the keys of the
   * ordering list, and every stored value is the generator's value for its key.
   */
  ghost predicate Linked<T, V>(c: Cache<T, V>)
  {
    && NearPowerOfTwo(c.config.capacity).Ok?
    && NearPowerOfTwo(c.config.capacity).value == |c.buckets|
    && c.config.indexMask == |c.buckets| - 1
    && NoDup(c.order)
    && (forall i :: 0 <= i < |c.buckets| ==> NoDup(c.buckets[i]))
    && (forall i, k :: 0 <= i < |c.buckets| && k in c.buckets[i] ==> Index(c.config, k) == i && k in c.order)
    && (forall k :: k in c.order ==> k in c.buckets[Index(c.config, k)])
    && (forall k :: k in c.values ==> k in c.order)
    && (forall k :: k in c.order ==> k in c.values)
    && (forall k :: k in c.values ==> c.values[k] == c.config.dataSource(k))
  }

  /** The representation invariant: linked structures agree and `used` counts the entries, within capacity. */
  ghost predicate Valid<T, V>(c: Cache<T, V>)
  {
    Linked(c) && c.used == |c.order| && 0 <= c.used <= c.config.capacity
  }

  /**
   * The constructor: an empty cache whose bucket array has `toNearPowerOfTwo(capacity)`
   * slots; a negative capacity throws and a capacity of 0 never returns.
   */
  function New<T(==), V>(dataSource: Key<T> -> V, hashCode: T -> Int32, capacity: Int32, lru: bool)
    : (r: Result<Cache<T, V>, SizeError>)
    ensures capacity < 0 ==> r.Err? && r.error == NegativeCapacity
    ensures capacity == 0 ==> r.Err? && r.error == NoTermination
    ensures capacity > 0 ==>
              && r.Ok? && Valid(r.value)
              && r.value.order == [] && r.value.used == 0 && r.value.values == map[]
              && r.value.config.capacity == capacity && r.value.config.lru == lru
              && r.value.config.dataSource == dataSource && r.value.config.hashCode == hashCode
              && (capacity < SaturationThreshold ==>
                    IsPowerOfTwo(|r.value.buckets|) && capacity <= |r.value.buckets| < 2 * capacity)
  {
    match NearPowerOfTwo(capacity)
    case Err(e) => Err(e)
    case Ok(size) =>
      Ok(Cache(Config(dataSource, hashCode, capacity, size - 1, lru), [], seq(size, _ => []), map[], 0))
  }

  /**
   * `tryExisted`: walk the chain of the key's bucket. The walk finds the key exactly
   * when it is live, and then yields the value stored when the entry was created.
   */
  function TryExisted<T(==), V>(c: Cache<T, V>, key: Key<T>): (r: Option<V>)
    requires Valid(c)
    ensures r.Some? <==> key in c.order
    ensures r.Some? ==> key in c.values && r.value == c.values[key] == c.config.dataSource(key)
  {
    var chain := c.buckets[Index(c.config, key)];
    match FindInChain(chain, key)
    case None => None
    case Some(p) => Some(c.values[chain[p]])
  }

  /**
   * `updateAccess`: `collapseList` unlinks the entry from the ordering list and
   * `afterList(head)` relinks it right after the sentinel. Only the order changes.
   */
  function UpdateAccess<T(==), V>(c: Cache<T, V>, key: Key<T>): (r: Cache<T, V>)
    requires Valid(c) && key in c.order
    ensures Valid(r) && r.config == c.config && |r.buckets| == |c.buckets|
    ensures r.order == [key] + Remove(c.order, key)
    ensures |r.order| == |c.order| && (forall k :: k in r.order ==> k in c.order) && (forall k :: k in c.order ==> k in r.order)
    ensures r.buckets == c.buckets && r.values == c.values && r.used == c.used
  {
    var r := c.(order := [key] + Remove(c.order, key));
    NoDupCons(key, Remove(c.order, key));
    ReorderKeepsValid(c, r);
    r
  }

  /** Replacing the ordering list by a duplicate-free permutation of it keeps the invariant. */
  lemma ReorderKeepsValid<T, V>(c: Cache<T, V>, r: Cache<T, V>)
    requires Valid(c) && r == c.(order := r.order)
    requires NoDup(r.order) && |r.order| == |c.order|
    requires forall k :: k in r.order ==> k in c.order
    requires forall k :: k in c.order ==> k in r.order
    ensures Valid(r)
  {
    forall i, k | 0 <= i < |r.buckets| && k in r.buckets[i]
      ensures Index(r.config, k) == i && k in r.order
    {
      assert k in c.buckets[i];
    }
    forall k | k in r.order
      ensures k in r.buckets[Index(r.config, k)]
    {
      assert k in c.order;
    }
  }

  /**
   * The eviction branch of `makeNewEntry`: the victim `head.prevInList` is unlinked from
   * the ordering list and from its chain (the bucket slot moves on to the victim's
   * successor when the victim was first). `used` is left as it is.
   */
  function Evict<T(==), V>(c: Cache<T, V>): (r: Cache<T, V>)
    requires Valid(c) && c.used >= c.config.capacity
    ensures Linked(r) && r.config == c.config && |r.buckets| == |c.buckets| && r.used == c.used
    ensures |c.order| >= 1 && r.order == c.order[..|c.order| - 1]
    ensures c.order[|c.order| - 1] !in r.order && c.order[|c.order| - 1] !in r.values
    ensures var victim := c.order[|c.order| - 1];
            r.buckets[Index(c.config, victim)] == Remove(c.buckets[Index(c.config, victim)], victim)
    ensures forall i :: 0 <= i < |c.buckets| && i != Index(c.config, c.order[|c.order| - 1]) ==>
              r.buckets[i] == c.buckets[i]
  {
    var n := |c.order|;
    var victim := c.order[n - 1];
    var i := Index(c.config, victim);
    var r := c.(order := c.order[..n - 1],
                buckets := c.buckets[i := Remove(c.buckets[i], victim)],
                values := c.values - {victim});
    EvictKeepsLinked(c, r, victim, i);
    r
  }

  lemma EvictKeepsLinked<T, V>(c: Cache<T, V>, r: Cache<T, V>, victim: Key<T>, vi: int)
    requires Valid(c) && |c.order| >= 1 && victim == c.order[|c.order| - 1]
    requires vi == Index(c.config, victim)
    requires r == c.(order := c.order[..|c.order| - 1],
                     buckets := c.buckets[vi := Remove(c.buckets[vi], victim)],
                     values := c.values - {victim})
    ensures Linked(r) && victim !in r.order
  {
    NoDupDropLast(c.order);
    assert c.order == r.order + [victim];
    EvictKeepsChains(c, r, victim, vi);
    EvictKeepsValues(c, r, victim);
  }

  lemma EvictKeepsValues<T, V>(c: Cache<T, V>, r: Cache<T, V>, victim: Key<T>)
    requires Valid(c) && |c.order| >= 1
    requires r.config == c.config && c.order == r.order + [victim] && victim !in r.order
    requires r.values == c.values - {victim}
    ensures forall k :: k in r.values ==> k in r.order
    ensures forall k :: k in r.order ==> k in r.values
    ensures forall k :: k in r.values ==> r.values[k] == r.config.dataSource(k)
  {
    forall k | k in r.values
      ensures k in r.order && r.values[k] == r.config.dataSource(k)
    {
      assert k in c.order && k != victim;
    }
    forall k | k in r.order
      ensures k in r.values
    {
      assert k in c.order && k != victim;
    }
  }

  lemma EvictKeepsChains<T, V>(c: Cache<T, V>, r: Cache<T, V>, victim: Key<T>, vi: int)
    requires Valid(c) && |c.order| >= 1 && victim == c.order[|c.order| - 1]
    requires vi == Index(c.config, victim)
    requires r.config == c.config && r.order == c.order[..|c.order| - 1]
    requires r.buckets == c.buckets[vi := Remove(c.buckets[vi], victim)]
    requires c.order == r.order + [victim] && victim !in r.order
    ensures forall i :: 0 <= i < |r.buckets| ==> NoDup(r.buckets[i])
    ensures forall i, k :: 0 <= i < |r.buckets| && k in r.buckets[i] ==> Index(r.config, k) == i && k in r.order
    ensures forall k :: k in r.order ==> k in r.buckets[Index(r.config, k)]
  {
    forall i | 0 <= i < |r.buckets|
      ensures NoDup(r.buckets[i])
    {
      assert NoDup(c.buckets[i]);
    }
    forall i, k | 0 <= i < |r.buckets| && k in r.buckets[i]
      ensures Index(r.config, k) == i && k in r.order
    {
      assert k in c.buckets[i] && k != victim;
      assert k in c.order;
    }
    forall k | k in r.order
      ensures k in r.buckets[Index(r.config, k)]
    {
      assert k in c.order && k != victim;
      assert k in c.buckets[Index(c.config, k)];
    }
  }

  /**
   * The linking part of `makeNewEntry`: the new entry becomes the first of its bucket
   * chain (the `Entry` constructor plus the store into `cache[]`) and the first of the
   * ordering list (`afterList(head)`), carrying the generator's value for the key.
   */
  function Link<T(==), V>(c: Cache<T, V>, key: Key<T>): (r: Cache<T, V>)
    requires Linked(c) && key !in c.order
    ensures Linked(r) && r.config == c.config && |r.buckets| == |c.buckets| && r.used == c.used
    ensures r.order == [key] + c.order
    ensures r.buckets[Index(c.config, key)] == [key] + c.buckets[Index(c.config, key)]
    ensures forall i :: 0 <= i < |c.buckets| && i != Index(c.config, key) ==> r.buckets[i] == c.buckets[i]
    ensures key in r.values && r.values[key] == c.config.dataSource(key)
    ensures forall k :: k in c.values ==> k in r.values && r.values[k] == c.values[k]
  {
    var i := Index(c.config, key);
    var r := c.(order := [key] + c.order,
                buckets := c.buckets[i := [key] + c.buckets[i]],
                values := c.values[key := c.config.dataSource(key)]);
    LinkKeepsLinked(c, r, key, i);
    r
  }

  lemma LinkKeepsLinked<T, V>(c: Cache<T, V>, r: Cache<T, V>, key: Key<T>, ki: int)
    requires Linked(c) && key !in c.order && ki == Index(c.config, key)
    requires r == c.(order := [key] + c.order,
                     buckets := c.buckets[ki := [key] + c.buckets[ki]],
                     values := c.values[key := c.config.dataSource(key)])
    ensures Linked(r)
  {
    NoDupCons(key, c.order);
    assert key !in c.buckets[ki];
    NoDupCons(key, c.buckets[ki]);
    forall i, k | 0 <= i < |r.buckets| && k in r.buckets[i]
      ensures Index(r.config, k) == i && k in r.order
    {
      if i != ki {
        assert r.buckets[i] == c.buckets[i];
        assert k in c.buckets[i];
        assert k in c.order;
      } else if k != key {
        assert k in c.buckets[i];
      }
    }
    forall k | k in r.order
      ensures k in r.buckets[Index(r.config, k)]
    {
      if k != key {
        assert k in c.order;
        assert k in c.buckets[Index(c.config, k)];
      }
    }
  }

  /**
   * Chain `i` after `makeNewEntry` on `key`: at capacity the victim is first cut out
   * of its chain in place (the slot moves on to its successor, or `collapseBucket`
   * bridges over it); then the new entry goes in front of the key's chain as it is by
   * then. Every other chain is as it was.
   */
  ghost function ChainAfterMiss<T, V>(c: Cache<T, V>, key: Key<T>, i: int): seq<Key<T>>
    requires Valid(c) && 0 <= i < |c.buckets|
  {
    var cut :=
      if c.used < c.config.capacity then c.buckets[i]
      else
        var victim := c.order[|c.order| - 1];
        if i == Index(c.config, victim) then Remove(c.buckets[i], victim) else c.buckets[i];
    if i == Index(c.config, key) then [key] + cut else cut
  }

  /** The whole bucket array after `makeNewEntry` on `key`, chain by chain. */
  ghost predicate MissChains<T, V>(c: Cache<T, V>, key: Key<T>, after: seq<seq<Key<T>>>)
    requires Valid(c)
  {
    && |after| == |c.buckets|
    && forall i :: 0 <= i < |after| ==> after[i] == ChainAfterMiss(c, key, i)
  }

  /**
   * `makeNewEntry`: a full cache first evicts its victim, keeping `used`; otherwise
   * `used` grows by one. Then the new entry is linked at the head of its chain and of
   * the ordering list. Every chain other than the victim's and the key's is unchanged.
   */
  function MakeNewEntry<T(==), V>(c: Cache<T, V>, key: Key<T>): (r: Cache<T, V>)
    requires Valid(c) && key !in c.order
    ensures Valid(r) && r.config == c.config && |r.buckets| == |c.buckets|
    ensures |r.order| >= 1 && r.order[0] == key
    ensures |r.buckets[Index(c.config, key)]| >= 1 && r.buckets[Index(c.config, key)][0] == key
    ensures key in r.values && r.values[key] == c.config.dataSource(key)
    ensures c.used < c.config.capacity ==> r.used == c.used + 1 && r.order[1..] == c.order
    ensures c.used >= c.config.capacity ==>
              && r.used == c.used
              && r.order[1..] == c.order[..|c.order| - 1]
              && c.order[|c.order| - 1] !in r.values
    ensures MissChains(c, key, r.buckets)
  {
    if c.used >= c.config.capacity then
      EvictThenLink(c, key);
      Link(Evict(c), key)
    else
      GrowThenLink(c, key);
      Link(c.(used := c.used + 1), key)
  }

  /** The eviction branch of `makeNewEntry`: the new key replaces the victim at the other end. */
  lemma EvictThenLink<T, V>(c: Cache<T, V>, key: Key<T>)
    requires Valid(c) && key !in c.order && c.used >= c.config.capacity
    ensures var r := Link(Evict(c), key);
            && Valid(r) && r.used == c.used
            && r.order[1..] == c.order[..|c.order| - 1]
            && c.order[|c.order| - 1] !in r.values
            && MissChains(c, key, r.buckets)
  {
    var e := Evict(c);
    var r := Link(e, key);
    assert r.order[1..] == e.order;
  }

  /** The growing branch of `makeNewEntry`: `used` counts the new key. */
  lemma GrowThenLink<T, V>(c: Cache<T, V>, key: Key<T>)
    requires Valid(c) && key !in c.order && c.used < c.config.capacity
    ensures var r := Link(c.(used := c.used + 1), key);
            && Valid(r) && r.used == c.used + 1 && r.order[1..] == c.order
            && MissChains(c, key, r.buckets)
  {
    var e := c.(used := c.used + 1);
    var r := Link(e, key);
    assert r.order[1..] == e.order;
  }

  /**
   * `read`: a hit returns the stored value, and under LRU also moves the entry to the
   * head of the ordering list; a miss creates the entry with `makeNewEntry`. Either
   * way the value returned is the generator's value for the key.
   */
  function Read<T(==), V>(c: Cache<T, V>, key: Key<T>): (r: Step<T, V>)
    requires Valid(c)
    ensures Valid(r.cache) && r.cache.config == c.config && |r.cache.buckets| == |c.buckets|
    ensures r.value == c.config.dataSource(key)
    ensures key in r.cache.order
    ensures key in c.order && !c.config.lru ==> r.cache == c
    ensures key in c.order && c.config.lru ==>
              && r.cache.order == [key] + Remove(c.order, key)
              && r.cache.buckets == c.buckets && r.cache.values == c.values && r.cache.used == c.used
    ensures key !in c.order ==> r.cache.order[0] == key && r.cache.buckets[Index(c.config, key)][0] == key
    ensures key !in c.order && c.used < c.config.capacity ==>
              r.cache.used == c.used + 1 && r.cache.order == [key] + c.order
    ensures key !in c.order && c.used >= c.config.capacity ==>
              r.cache.used == c.used && r.cache.order == [key] + c.order[..|c.order| - 1]
    ensures key !in c.order ==> MissChains(c, key, r.cache.buckets)
  {
    match TryExisted(c, key)
    case Some(v) =>
      if c.config.lru then Step(UpdateAccess(c, key), v) else Step(c, v)
    case None =>
      var d := MakeNewEntry(c, key);
      assert d.order == [d.order[0]] + d.order[1..];
      Step(d, d.values[key])
  }

  /**
   * `get`: look only at the first entry of the key's bucket, without comparing keys.
   * It is absent exactly when no live key shares the bucket, and otherwise it is the
   * value of some live key in that bucket, not necessarily this key's.
   */
  function Get<T(==), V>(c: Cache<T, V>, key: Key<T>): (r: Option<V>)
    requires Valid(c)
    ensures r.None? <==> (forall k :: k in c.order ==> Index(c.config, k) != Index(c.config, key))
    ensures r.Some? ==> exists k :: k in c.order && Index(c.config, k) == Index(c.config, key) && r.value == c.config.dataSource(k)
  {
    var chain := c.buckets[Index(c.config, key)];
    if chain == [] then None
    else
      assert chain[0] in c.order;
      Some(c.values[chain[0]])
  }

  /** A live key that shares its bucket with no other live key is what `get` reports. */
  lemma GetAloneInBucket<T, V>(c: Cache<T, V>, key: Key<T>)
    requires Valid(c) && key in c.order
    requires forall k :: k in c.order && k != key ==> Index(c.config, k) != Index(c.config, key)
    ensures Get(c, key) == Some(c.config.dataSource(key))
  {
    var chain := c.buckets[Index(c.config, key)];
    assert key in chain;
    assert chain[0] in c.order && Index(c.config, chain[0]) == Index(c.config, key);
  }

  /** `usage`: the live-entry counter, which counts the entries and never exceeds the capacity. */
  function Usage<T(==), V>(c: Cache<T, V>): (n: int)
    requires Valid(c)
    ensures 0 <= n <= c.config.capacity
    ensures n == |c.order| == |c.values|
  {
    assert c.values.Keys == Elems(c.order);
    ElemsOfNoDup(c.order);
    c.used
  }
}
