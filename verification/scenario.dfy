/**
 * The single-threaded scenario of the test harness: capacity 3, generator
 * `Object::toString` on `Integer` keys, reads of 1, 2, 1, 3, 4.
 */
module Scenario {
  import opened Bits
  import opened Sizing
  import opened Lists
  import opened Outcomes
  import opened CustomCache
  import opened Traces

  /** Decimal digits of a natural number, as `Integer.toString` prints them. */
  function Digits(n: nat): string
    decreases n
  {
    if n < 10 then [(n + '0' as int) as char]
    else Digits(n / 10) + [((n % 10) + '0' as int) as char]
  }

  /** `Integer.toString`. */
  function Decimal(n: int): string
  {
    if n < 0 then "-" + Digits(-n) else Digits(n)
  }

  /**
   * `Object::toString` on an `Integer` key. Java's method reference throws on `null`;
   * the test never reads `null`, and the model gives it the text `"null"` only so that
   * the generator is total.
   */
  function ToString(k: Key<Int32>): string
  {
    match k
    case Null => "null"
    case Ref(n) => Decimal(n)
  }

  /** `Integer.hashCode` is the value itself. */
  function IntegerHash(n: Int32): Int32
  {
    n
  }

  /** The `Integer` keys 1 to 4. */
  const Key1: Key<Int32> := Ref(1)
  const Key2: Key<Int32> := Ref(2)
  const Key3: Key<Int32> := Ref(3)
  const Key4: Key<Int32> := Ref(4)

  /** The keys the harness reads, in order. */
  const Trace: seq<Key<Int32>> := [Key1, Key2, Key1, Key3, Key4]

  /** A fresh harness cache of capacity 3. */
  function Fresh(lru: bool): (c: Cache<Int32, string>)
    ensures Valid(c) && c.order == [] && c.config.lru == lru && c.config.capacity == 3
    ensures c.config.dataSource == ToString && c.config.hashCode == IntegerHash
    ensures c.config.indexMask == 3
  {
    PowerInWindow(3, 4);
    New(ToString, IntegerHash, 3, lru).value
  }

  /** Keys 1, 2, 3, 4 land in buckets 1, 2, 3, 0 of the four-slot array. */
  lemma HarnessBuckets(cfg: Config<Int32, string>)
    requires cfg.hashCode == IntegerHash && cfg.indexMask == 3
    ensures Index(cfg, Key1) == 1 && Index(cfg, Key2) == 2
    ensures Index(cfg, Key3) == 3 && Index(cfg, Key4) == 0
  {
    assert IsPowerOfTwo(4);
    MakeIndexIsModulo(1, 4);
    MakeIndexIsModulo(2, 4);
    MakeIndexIsModulo(3, 4);
    MakeIndexIsModulo(4, 4);
  }

  /** The reference FIFO queue after the first 1 harness read. */
  lemma HarnessFifo1()
    ensures FifoQueue(3, [Key1]) == [Key1]
  {
    FifoQueueStep(3, [], Key1);
    assert [] + [Key1] == [Key1];
  }

  /** The reference FIFO queue after the first 2 harness reads. */
  lemma HarnessFifo2()
    ensures FifoQueue(3, [Key1, Key2]) == [Key2, Key1]
  {
    HarnessFifo1();
    FifoQueueStep(3, [Key1], Key2);
    assert [Key1] + [Key2] == [Key1, Key2];
    assert Key2 !in [Key1];
  }

  /** The reference FIFO queue after the first 3 harness reads. */
  lemma HarnessFifo3()
    ensures FifoQueue(3, [Key1, Key2, Key1]) == [Key2, Key1]
  {
    HarnessFifo2();
    FifoQueueStep(3, [Key1, Key2], Key1);
    assert [Key1, Key2] + [Key1] == [Key1, Key2, Key1];
    assert Key1 in [Key2, Key1];
  }

  /** The reference FIFO queue after the first 4 harness reads. */
  lemma HarnessFifo4()
    ensures FifoQueue(3, [Key1, Key2, Key1, Key3]) == [Key3, Key2, Key1]
  {
    HarnessFifo3();
    FifoQueueStep(3, [Key1, Key2, Key1], Key3);
    assert [Key1, Key2, Key1] + [Key3] == [Key1, Key2, Key1, Key3];
    assert Key3 !in [Key2, Key1];
  }

  /** The reference FIFO queue after the first 5 harness reads. */
  lemma HarnessFifo5()
    ensures FifoQueue(3, Trace) == [Key4, Key3, Key2]
  {
    HarnessFifo4();
    FifoQueueStep(3, [Key1, Key2, Key1, Key3], Key4);
    assert [Key1, Key2, Key1, Key3] + [Key4] == Trace;
    assert Key4 !in [Key3, Key2, Key1];
    assert [Key3, Key2, Key1][..2] == [Key3, Key2];
  }

  /** The recency list after the first 1 harness read. */
  lemma HarnessRecency1()
    ensures Recency([Key1]) == [Key1]
  {
    RecencyStep([], Key1);
    assert [] + [Key1] == [Key1];
  }

  /** The recency list after the first 2 harness reads. */
  lemma HarnessRecency2()
    ensures Recency([Key1, Key2]) == [Key2, Key1]
  {
    HarnessRecency1();
    RecencyStep([Key1], Key2);
    assert [Key1] + [Key2] == [Key1, Key2];
    assert Key2 !in [Key1];
  }

  /** The recency list after the first 3 harness reads. */
  lemma HarnessRecency3()
    ensures Recency([Key1, Key2, Key1]) == [Key1, Key2]
  {
    HarnessRecency2();
    RecencyStep([Key1, Key2], Key1);
    assert [Key1, Key2] + [Key1] == [Key1, Key2, Key1];
    assert Key1 in [Key2, Key1];
  }

  /** The recency list after the first 4 harness reads. */
  lemma HarnessRecency4()
    ensures Recency([Key1, Key2, Key1, Key3]) == [Key3, Key1, Key2]
  {
    HarnessRecency3();
    RecencyStep([Key1, Key2, Key1], Key3);
    assert [Key1, Key2, Key1] + [Key3] == [Key1, Key2, Key1, Key3];
    assert Key3 !in [Key1, Key2];
  }

  /** The recency list after the first 5 harness reads. */
  lemma HarnessRecency5()
    ensures Recency(Trace) == [Key4, Key3, Key1, Key2]
  {
    HarnessRecency4();
    RecencyStep([Key1, Key2, Key1, Key3], Key4);
    assert [Key1, Key2, Key1, Key3] + [Key4] == Trace;
    assert Key4 !in [Key3, Key1, Key2];
    assert Remove([Key3, Key1, Key2], Key4) == [Key3, Key1, Key2];
  }

  /** A harness cache: capacity 3, four buckets, `Integer` hashing and `toString` values. */
  ghost predicate HarnessCache(c: Cache<Int32, string>)
  {
    && Valid(c) && c.config.hashCode == IntegerHash && c.config.indexMask == 3
    && c.config.dataSource == ToString
  }

  /** A live key whose bucket holds no other of the three live keys is reported with its own value. */
  lemma GetOfThree<T, V>(c: Cache<T, V>, key: Key<T>, b: Key<T>, d: Key<T>)
    requires Valid(c) && key in c.order
    requires forall k :: k in c.order ==> k == key || k == b || k == d
    requires Index(c.config, b) != Index(c.config, key) && Index(c.config, d) != Index(c.config, key)
    ensures Get(c, key) == Some(c.config.dataSource(key))
  {
    GetAloneInBucket(c, key);
  }

  /** A key whose bucket holds none of the three live keys is reported absent. */
  lemma GetNoneOfThree<T, V>(c: Cache<T, V>, key: Key<T>, a: Key<T>, b: Key<T>, d: Key<T>)
    requires Valid(c)
    requires forall k :: k in c.order ==> k == a || k == b || k == d
    requires Index(c.config, a) != Index(c.config, key)
    requires Index(c.config, b) != Index(c.config, key) && Index(c.config, d) != Index(c.config, key)
    ensures Get(c, key) == None
  {
  }

  /** `Integer.toString` of the harness keys. */
  lemma KeyNames()
    ensures ToString(Key1) == "1" && ToString(Key2) == "2" && ToString(Key3) == "3"
  {
    assert Decimal(1) == "1" && Decimal(2) == "2" && Decimal(3) == "3";
  }

  /** What the harness observes when keys 4, 3, 2 are live. */
  lemma FifoObservations(c: Cache<Int32, string>)
    requires HarnessCache(c) && c.order == [Key4, Key3, Key2]
    ensures Usage(c) == 3
    ensures Get(c, Key1) == None
    ensures Get(c, Key2) == Some("2") && Get(c, Key3) == Some("3")
  {
    HarnessBuckets(c.config);
    KeyNames();
    GetNoneOfThree(c, Key1, Key4, Key3, Key2);
    GetOfThree(c, Key2, Key4, Key3);
    GetOfThree(c, Key3, Key4, Key2);
  }

  /** What the harness observes when keys 4, 3, 1 are live. */
  lemma LruObservations(c: Cache<Int32, string>)
    requires HarnessCache(c) && c.order == [Key4, Key3, Key1]
    ensures Usage(c) == 3
    ensures Get(c, Key2) == None
    ensures Get(c, Key1) == Some("1") && Get(c, Key3) == Some("3")
  {
    HarnessBuckets(c.config);
    KeyNames();
    GetNoneOfThree(c, Key2, Key4, Key3, Key1);
    GetOfThree(c, Key1, Key4, Key3);
    GetOfThree(c, Key3, Key4, Key1);
  }

  /** Under FIFO the re-read of 1 changes nothing, so 1, the first inserted, is evicted by 4. */
  lemma FifoScenario(c0: Cache<Int32, string>)
    requires HarnessCache(c0) && !c0.config.lru && c0.config.capacity == 3 && c0.order == []
    ensures var c := ReadAll(c0, Trace);
            && Usage(c) == 3
            && Get(c, Key1) == None
            && Get(c, Key2) == Some("2")
            && Get(c, Key3) == Some("3")
  {
    FifoMatchesQueue(c0, Trace);
    HarnessFifo5();
    FifoObservations(ReadAll(c0, Trace));
  }

  /** After a trace of four distinct keys, a cache of capacity 3 holds the three most recent. */
  lemma LruCut<T, V>(c: Cache<T, V>, t: seq<Key<T>>, recent: seq<Key<T>>)
    requires Valid(c) && c.config.lru && c.order == [] && c.config.capacity == 3
    requires Recency(t) == recent && |recent| == 4
    ensures ReadAll(c, t).order == recent[..3]
    ensures ReadAll(c, t).order == [recent[0], recent[1], recent[2]]
  {
    LruKeepsMostRecent(c, t);
    assert recent[..3] == [recent[0], recent[1], recent[2]];
  }

  /** Under LRU the re-read of 1 refreshes it, so 2, the least recently used, is evicted by 4. */
  lemma LruScenario(c0: Cache<Int32, string>)
    requires HarnessCache(c0) && c0.config.lru && c0.config.capacity == 3 && c0.order == []
    ensures var c := ReadAll(c0, Trace);
            && Usage(c) == 3
            && Get(c, Key2) == None
            && Get(c, Key1) == Some("1")
            && Get(c, Key3) == Some("3")
  {
    HarnessRecency5();
    LruCut(c0, Trace, [Key4, Key3, Key1, Key2]);
    LruObservations(ReadAll(c0, Trace));
  }

  /** The caches the harness builds, `Cache.make("custom", Object::toString, 3, lru)`, are such caches. */
  lemma FreshIsHarness(lru: bool)
    ensures HarnessCache(Fresh(lru)) && Fresh(lru).config.lru == lru
    ensures Fresh(lru).config.capacity == 3 && Fresh(lru).order == []
  {
  }

  /** Every key hashes to 0. */
  function ZeroHash(n: Int32): Int32
  {
    0
  }

  /**
   * `get` does not compare keys: with two keys in one bucket it reports the value of
   * whichever key was inserted last, even when asked about the other one.
   */
  lemma GetIgnoresKey()
    ensures var c0 := New(ToString, ZeroHash, 2, false).value;
            var c := Read(Read(c0, Key1).cache, Key2).cache;
            Get(c, Key1) == Some("2") && ToString(Key1) == "1"
  {
    PowerInWindow(2, 2);
    var c0 := New(ToString, ZeroHash, 2, false).value;
    assert Index(c0.config, Key1) == Index(c0.config, Key2);
    GetReportsNewest(c0, Key1, Key2);
    KeyNames();
  }

  /**
   * Two distinct keys read into an empty cache that share a bucket: `get` on the first
   * reports the value of the second, whether the first is still live or was evicted.
   */
  lemma GetReportsNewest<T, V>(c: Cache<T, V>, a: Key<T>, b: Key<T>)
    requires Valid(c) && c.order == []
    requires a != b && Index(c.config, a) == Index(c.config, b)
    ensures Get(Read(Read(c, a).cache, b).cache, a) == Some(c.config.dataSource(b))
  {
    var c1 := Read(c, a).cache;
    assert c1.order == [a];
    var c2 := Read(c1, b).cache;
    var i := Index(c.config, a);
    assert c2.buckets[i] == ChainAfterMiss(c1, b, i);
    assert c2.buckets[i][0] == b;
    assert b in c2.order;
  }
}
