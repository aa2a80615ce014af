/**
 * Sequences of `read` calls: what the ordering list holds after a whole trace.
 */
module Traces {
  import opened Bits
  import opened Lists
  import opened CustomCache

  /** Reads the keys one after another, left to right; every intermediate state keeps the invariant. */
  function ReadAll<T(==), V>(c: Cache<T, V>, keys: seq<Key<T>>): (r: Cache<T, V>)
    requires Valid(c)
    ensures Valid(r) && r.config == c.config && |r.buckets| == |c.buckets|
    ensures 0 <= r.used <= c.config.capacity
    ensures keys != [] ==> keys[|keys| - 1] in r.order
    decreases |keys|
  {
    if keys == [] then c
    else Read(ReadAll(c, keys[..|keys| - 1]), keys[|keys| - 1]).cache
  }

  /** The distinct keys of a trace, most recently read first. */
  function Recency<K(==)>(t: seq<K>): (r: seq<K>)
    ensures NoDup(r)
    ensures forall k :: k in r ==> k in t
    ensures forall k :: k in t ==> k in r
    decreases |t|
  {
    if t == [] then []
    else
      var k := t[|t| - 1];
      var rest := Recency(t[..|t| - 1]);
      NoDupCons(k, Remove(rest, k));
      assert forall x :: x in t ==> x in t[..|t| - 1] || x == k;
      [k] + Remove(rest, k)
  }

  /** Reading one more key puts it in front of the recency list. */
  lemma RecencyStep<K>(t: seq<K>, k: K)
    ensures Recency(t + [k]) == [k] + Remove(Recency(t), k)
  {
    assert (t + [k])[..|t|] == t;
  }

  function Min(a: int, b: int): int
  {
    if a <= b then a else b
  }

  /**
   * Under LRU, a cache created empty holds, after any trace, exactly the `capacity`
   * most recently read distinct keys, ordered by recency: the victim is always the
   * least recently used key.
   */
  lemma {:induction false} LruKeepsMostRecent<T, V>(c: Cache<T, V>, t: seq<Key<T>>)
    requires Valid(c) && c.config.lru && c.order == []
    ensures var R := Recency(t);
            ReadAll(c, t).order == R[..Min(c.config.capacity, |R|)]
    decreases |t|
  {
    if t != [] {
      var t' := t[..|t| - 1];
      var k := t[|t| - 1];
      var d := ReadAll(c, t');
      var R' := Recency(t');
      LruKeepsMostRecent(c, t');
      LruStep(d, k, R');
      assert Recency(t) == [k] + Remove(R', k);
      assert ReadAll(c, t) == Read(d, k).cache;
    }
  }

  /** One LRU read moves the window of most recent keys forward by one key. */
  lemma LruStep<T, V>(d: Cache<T, V>, k: Key<T>, R': seq<Key<T>>)
    requires Valid(d) && d.config.lru && NoDup(R')
    requires d.order == R'[..Min(d.config.capacity, |R'|)]
    ensures var R := [k] + Remove(R', k);
            Read(d, k).cache.order == R[..Min(d.config.capacity, |R|)]
  {
    var C := d.config.capacity;
    if k in d.order {
      LruHitCase(d, k, R');
    } else if d.used < C {
      LruGrowCase(d, k, R');
    } else {
      LruEvictCase(d, k, R');
    }
  }

  lemma LruHitCase<T, V>(d: Cache<T, V>, k: Key<T>, R': seq<Key<T>>)
    requires Valid(d) && d.config.lru && NoDup(R') && k in d.order
    requires d.order == R'[..Min(d.config.capacity, |R'|)]
    ensures var R := [k] + Remove(R', k);
            Read(d, k).cache.order == R[..Min(d.config.capacity, |R|)]
  {
    var m' := Min(d.config.capacity, |R'|);
    LruHitStep(R', k, m');
    assert Read(d, k).cache.order == [k] + Remove(R'[..m'], k);
  }

  lemma LruGrowCase<T, V>(d: Cache<T, V>, k: Key<T>, R': seq<Key<T>>)
    requires Valid(d) && NoDup(R') && k !in d.order && d.used < d.config.capacity
    requires d.order == R'[..Min(d.config.capacity, |R'|)]
    ensures var R := [k] + Remove(R', k);
            Read(d, k).cache.order == R[..Min(d.config.capacity, |R|)]
  {
    assert d.order == R';
    assert Read(d, k).cache.order == [k] + R';
  }

  lemma LruEvictCase<T, V>(d: Cache<T, V>, k: Key<T>, R': seq<Key<T>>)
    requires Valid(d) && NoDup(R') && k !in d.order && d.used >= d.config.capacity
    requires d.order == R'[..Min(d.config.capacity, |R'|)]
    ensures var R := [k] + Remove(R', k);
            Read(d, k).cache.order == R[..Min(d.config.capacity, |R|)]
  {
    var C := d.config.capacity;
    LruMissStep(R', k, C);
    assert Read(d, k).cache.order == [k] + R'[..C][..C - 1];
  }

  /** A hit on one of the first m keys moves it to the front; the first m keys stay the same set. */
  lemma LruHitStep<K>(R: seq<K>, k: K, m: nat)
    requires NoDup(R) && 1 <= m <= |R| && k in R[..m]
    ensures |[k] + Remove(R, k)| == |R|
    ensures ([k] + Remove(R, k))[..m] == [k] + Remove(R[..m], k)
  {
    RemoveInPrefix(R, k, m);
  }

  /** A key outside the first C goes in front and the C-th key drops out of the window. */
  lemma LruMissStep<K>(R: seq<K>, k: K, C: nat)
    requires 1 <= C <= |R| && k !in R[..C]
    ensures |[k] + Remove(R, k)| >= C
    ensures ([k] + Remove(R, k))[..C] == [k] + R[..C][..C - 1]
  {
    assert R[..C - 1] == R[..C][..C - 1];
    RemoveBeyondPrefix(R, k, C - 1);
  }

  /**
   * Under FIFO, reading keys that are all live changes nothing at all: insertion
   * order is independent of how often a key is read afterwards.
   */
  lemma {:induction false} FifoHitsChangeNothing<T, V>(c: Cache<T, V>, t: seq<Key<T>>)
    requires Valid(c) && !c.config.lru
    requires forall k :: k in t ==> k in c.order
    ensures ReadAll(c, t) == c
    decreases |t|
  {
    if t != [] {
      FifoHitsChangeNothing(c, t[..|t| - 1]);
    }
  }

  /**
   * Reference FIFO queue without a hash table: distinct keys, newest first; a key
   * already queued is left where it is, a new key goes in front and the oldest is
   * dropped once `capacity` keys are queued.
   */
  function FifoQueue<K(==)>(capacity: nat, t: seq<K>): (q: seq<K>)
    requires capacity >= 1
    ensures |q| <= capacity
    decreases |t|
  {
    if t == [] then []
    else
      var q := FifoQueue(capacity, t[..|t| - 1]);
      var k := t[|t| - 1];
      if k in q then q
      else if |q| < capacity then [k] + q
      else [k] + q[..|q| - 1]
  }

  /** Reading one more key updates the reference queue once. */
  lemma FifoQueueStep<K>(capacity: nat, t: seq<K>, k: K)
    requires capacity >= 1
    ensures var q := FifoQueue(capacity, t);
            FifoQueue(capacity, t + [k]) ==
              if k in q then q
              else if |q| < capacity then [k] + q
              else [k] + q[..|q| - 1]
  {
    assert (t + [k])[..|t|] == t;
  }

  /** Under FIFO, the ordering list of a cache created empty follows the reference queue. */
  lemma {:induction false} FifoMatchesQueue<T, V>(c: Cache<T, V>, t: seq<Key<T>>)
    requires Valid(c) && !c.config.lru && c.order == []
    ensures ReadAll(c, t).order == FifoQueue(c.config.capacity, t)
    decreases |t|
  {
    if t != [] {
      var t', k := t[..|t| - 1], t[|t| - 1];
      FifoMatchesQueue(c, t');
      FifoStep(ReadAll(c, t'), k);
    }
  }

  /** One FIFO read moves the ordering list exactly as the reference queue moves. */
  lemma FifoStep<T, V>(d: Cache<T, V>, k: Key<T>)
    requires Valid(d) && !d.config.lru && d.config.capacity >= 1
    ensures var q := d.order;
            Read(d, k).cache.order ==
              if k in q then q
              else if |q| < d.config.capacity then [k] + q
              else [k] + q[..|q| - 1]
  {
  }

  /** The keys of `s` that `makeIndex` sends to bucket `i`, in the order of `s`. */
  function InBucket<T(==), V>(cfg: Config<T, V>, s: seq<Key<T>>, i: int): (r: seq<Key<T>>)
    requires cfg.indexMask >= 0
    ensures forall k :: k in r ==> k in s && Index(cfg, k) == i
    ensures forall k :: k in s && Index(cfg, k) == i ==> k in r
    decreases |s|
  {
    if s == [] then []
    else (if Index(cfg, s[0]) == i then [s[0]] else []) + InBucket(cfg, s[1..], i)
  }

  /** A key put in front of the list goes in front of its own bucket's keys. */
  lemma InBucketCons<T, V>(cfg: Config<T, V>, k: Key<T>, s: seq<Key<T>>, i: int)
    requires cfg.indexMask >= 0
    ensures InBucket(cfg, [k] + s, i) == (if Index(cfg, k) == i then [k] else []) + InBucket(cfg, s, i)
  {
    assert ([k] + s)[1..] == s;
  }

  /** Dropping the last key of the list drops it from the end of its bucket's keys. */
  lemma {:induction false} InBucketDropLast<T, V>(cfg: Config<T, V>, s: seq<Key<T>>, i: int)
    requires cfg.indexMask >= 0 && |s| >= 1
    ensures var x := s[|s| - 1];
            InBucket(cfg, s, i) == InBucket(cfg, s[..|s| - 1], i) + (if Index(cfg, x) == i then [x] else [])
    decreases |s|
  {
    if |s| > 1 {
      var t := s[1..];
      InBucketDropLast(cfg, t, i);
      assert t[..|t| - 1] == s[..|s| - 1][1..];
      assert s[..|s| - 1] == [s[0]] + s[..|s| - 1][1..];
      InBucketCons(cfg, s[0], s[..|s| - 1][1..], i);
    }
  }

  /** The first of a bucket's keys is the first key of the list that falls into the bucket. */
  lemma {:induction false} InBucketHead<T, V>(cfg: Config<T, V>, s: seq<Key<T>>, i: int) returns (j: nat)
    requires cfg.indexMask >= 0 && InBucket(cfg, s, i) != []
    ensures j < |s| && InBucket(cfg, s, i)[0] == s[j] && Index(cfg, s[j]) == i
    ensures forall j' :: 0 <= j' < j ==> Index(cfg, s[j']) != i
    decreases |s|
  {
    if Index(cfg, s[0]) == i {
      j := 0;
    } else {
      var j1 := InBucketHead(cfg, s[1..], i);
      j := j1 + 1;
      forall j' | 0 <= j' < j
        ensures Index(cfg, s[j']) != i
      {
        if j' > 0 {
          assert s[j'] == s[1..][j' - 1];
        }
      }
    }
  }

  /**
   * Every bucket chain lists its keys in the order of the ordering list. This holds
   * under FIFO, where both are insertion order, newest first.
   */
  ghost predicate ChainsFollowOrder<T, V>(c: Cache<T, V>)
  {
    && c.config.indexMask >= 0
    && forall i :: 0 <= i < |c.buckets| ==> c.buckets[i] == InBucket(c.config, c.order, i)
  }

  /** One FIFO read keeps every chain in the order of the ordering list. */
  lemma FifoReadKeepsChainOrder<T, V>(d: Cache<T, V>, k: Key<T>)
    requires Valid(d) && !d.config.lru && ChainsFollowOrder(d)
    ensures ChainsFollowOrder(Read(d, k).cache)
  {
    if k !in d.order {
      if d.used < d.config.capacity {
        FifoGrowKeepsChainOrder(d, k, Read(d, k).cache);
      } else {
        FifoEvictKeepsChainOrder(d, k, Read(d, k).cache);
      }
    }
  }

  lemma FifoGrowKeepsChainOrder<T, V>(d: Cache<T, V>, k: Key<T>, r: Cache<T, V>)
    requires Valid(d) && ChainsFollowOrder(d) && k !in d.order && d.used < d.config.capacity
    requires r.config == d.config && r.order == [k] + d.order && MissChains(d, k, r.buckets)
    ensures ChainsFollowOrder(r)
  {
    forall i | 0 <= i < |r.buckets|
      ensures r.buckets[i] == InBucket(r.config, r.order, i)
    {
      InBucketCons(d.config, k, d.order, i);
    }
  }

  lemma FifoEvictKeepsChainOrder<T, V>(d: Cache<T, V>, k: Key<T>, r: Cache<T, V>)
    requires Valid(d) && ChainsFollowOrder(d) && k !in d.order && d.used >= d.config.capacity
    requires r.config == d.config && r.order == [k] + d.order[..|d.order| - 1] && MissChains(d, k, r.buckets)
    ensures ChainsFollowOrder(r)
  {
    var n := |d.order|;
    var victim := d.order[n - 1];
    assert victim !in d.order[..n - 1] by {
      NoDupDropLast(d.order);
    }
    forall i | 0 <= i < |r.buckets|
      ensures r.buckets[i] == InBucket(r.config, r.order, i)
    {
      FifoEvictedChain(d, k, r, i);
    }
  }

  lemma FifoEvictedChain<T, V>(d: Cache<T, V>, k: Key<T>, r: Cache<T, V>, i: int)
    requires Valid(d) && d.used >= d.config.capacity && 0 <= i < |d.buckets|
    requires d.buckets[i] == InBucket(d.config, d.order, i)
    requires d.order[|d.order| - 1] !in d.order[..|d.order| - 1]
    requires r.config == d.config && r.order == [k] + d.order[..|d.order| - 1]
    requires |r.buckets| == |d.buckets| && r.buckets[i] == ChainAfterMiss(d, k, i)
    ensures r.buckets[i] == InBucket(r.config, r.order, i)
  {
    EvictedChainFollows(d.config, d.order, k, d.buckets[i], r.buckets[i], i);
  }

  /** One chain after an eviction followed by a link still lists its keys in list order. */
  lemma EvictedChainFollows<T, V>(cfg: Config<T, V>, order: seq<Key<T>>, k: Key<T>,
                                  before: seq<Key<T>>, after: seq<Key<T>>, i: int)
    requires cfg.indexMask >= 0 && |order| >= 1 && order[|order| - 1] !in order[..|order| - 1]
    requires before == InBucket(cfg, order, i)
    requires var victim := order[|order| - 1];
             var ki, vi := Index(cfg, k), Index(cfg, victim);
             after == if i == ki then [k] + (if vi == ki then Remove(before, victim) else before)
                      else if i == vi then Remove(before, victim)
                      else before
    ensures after == InBucket(cfg, [k] + order[..|order| - 1], i)
  {
    var victim := order[|order| - 1];
    var rest := order[..|order| - 1];
    InBucketCons(cfg, k, rest, i);
    InBucketDropLast(cfg, order, i);
    if Index(cfg, victim) == i {
      RemoveLast(InBucket(cfg, rest, i), victim);
    }
  }

  /** A freshly constructed cache has only empty chains, which trivially follow its empty ordering list. */
  lemma NewChainsFollowOrder<T, V>(dataSource: Key<T> -> V, hashCode: T -> Int32, capacity: Int32, lru: bool)
    requires capacity > 0
    ensures ChainsFollowOrder(New(dataSource, hashCode, capacity, lru).value)
  {
  }

  /** Under FIFO, once every chain follows the ordering list, it keeps doing so through any trace. */
  lemma {:induction false} FifoChainsFollowOrder<T, V>(c: Cache<T, V>, t: seq<Key<T>>)
    requires Valid(c) && !c.config.lru && ChainsFollowOrder(c)
    ensures ChainsFollowOrder(ReadAll(c, t))
    decreases |t|
  {
    if t != [] {
      FifoChainsFollowOrder(c, t[..|t| - 1]);
      FifoReadKeepsChainOrder(ReadAll(c, t[..|t| - 1]), t[|t| - 1]);
    }
  }

  /**
   * When chains follow the ordering list, `get` reports the value of the first live
   * key in the ordering list that shares the key's bucket.
   */
  lemma GetFirstInBucket<T, V>(c: Cache<T, V>, key: Key<T>)
    requires Valid(c) && ChainsFollowOrder(c)
    ensures Get(c, key).Some? ==>
              exists j :: 0 <= j < |c.order| && Index(c.config, c.order[j]) == Index(c.config, key)
                          && (forall j' :: 0 <= j' < j ==> Index(c.config, c.order[j']) != Index(c.config, key))
                          && Get(c, key).value == c.config.dataSource(c.order[j])
  {
    var i := Index(c.config, key);
    if Get(c, key).Some? {
      var j := InBucketHead(c.config, c.order, i);
      assert c.buckets[i][0] == c.order[j];
      assert c.order[j] in c.values;
    }
  }

  /**
   * Under FIFO, after any trace read into a freshly constructed cache (or any cache whose
   * chains follow its ordering list), `get` reports the value of the most recently
   * inserted live key that shares the key's bucket.
   */
  lemma FifoGetReportsNewestInBucket<T, V>(c: Cache<T, V>, t: seq<Key<T>>, key: Key<T>)
    requires Valid(c) && !c.config.lru && ChainsFollowOrder(c)
    ensures var d := ReadAll(c, t);
            Get(d, key).Some? ==>
              exists j :: 0 <= j < |d.order| && Index(c.config, d.order[j]) == Index(c.config, key)
                          && (forall j' :: 0 <= j' < j ==> Index(c.config, d.order[j']) != Index(c.config, key))
                          && Get(d, key).value == c.config.dataSource(d.order[j])
  {
    FifoChainsFollowOrder(c, t);
    GetFirstInBucket(ReadAll(c, t), key);
  }
}
