# CustomCache in Dafny

A model of the single-threaded behaviour of `CustomCache`, a bounded, read-through
cache. A `read(key)` hands back the generator's value for `key`. It computes that value
and stores it on the first request. Once `capacity` entries are stored, it evicts one
entry per new key. The victim is the oldest inserted key (FIFO) or the least recently
read key (LRU).

The cache keeps each entry on two intrusive linked structures:

- **the bucket array.** It is a separate-chaining hash table whose length is
  `toNearPowerOfTwo(capacity)`. A bucket index is `hashCode & indexMask`.
- **the ordering list.** It is a circular doubly linked list anchored at a sentinel
  `head`. A new or refreshed entry goes right after `head`, and the victim is
  `head.prevInList`.

The model reads both structures as sequences from their heads:

- `order` is the ordering list, most recent first, victim last.
- `buckets[i]` is the chain of slot `i`.
- `values` maps each live key to the value stored in its entry.
- `used` is the live-entry counter.

Files:

- `outcomes.dfy`: `Option` and `Result`.
- `bits.dfy`: 32-bit `int` ranges, powers of two, and Java's `&` on non-negative
  operands written out as a recursive function.
- `sizing.dfy`: `toNearPowerOfTwo` (a reference function and the bit-scanning loop as
  written), and `makeIndex`.
- `lists.dfy`: duplicate-free sequences, removal (what `collapseList` and
  `collapseBucket` do to a list) and the chain walk of `tryExisted`.
- `engine.dfy`: the cache state, its representation invariant, and the constructor,
  `read`, `tryExisted`, `updateAccess`, `makeNewEntry`, `get` and `usage`.
- `traces.dfy`: whole sequences of reads, compared with independent reference
  definitions of the LRU and FIFO orders.
- `scenario.dfy`: the single-thread test of `CacheTester`. It uses capacity 3, reads
  `1, 2, 1, 3, 4`, and covers both policies.

Each `read` is one atomic step. The generator is a pure total function of the key
(`dataSource`). `Object.hashCode` of the key objects is a function parameter
(`hashCode`). A `null` key is `Key.Null` and hashes to 0, like the source's
`key == null ? 0 : key.hashCode()`.

The constructor's sizing has three edge cases:

- A negative capacity is the `NegativeCapacity` error. This is the source's
  `RuntimeException`.
- Capacity 0 is the `NoTermination` error. In the source, the scan `while ((v & 0) == 0)`
  shifts `v` down to 0 and then never stops, so the constructor never returns.
- A capacity of `2^30` or more (including exactly `2^30`) gives `Integer.MAX_VALUE`,
  which is not a power of two. Its mask `0x7FFFFFFE` clears bit 0, so only even slots
  are ever used.

In `makeNewEntry`, the eviction (lines 180-189, which may write `cache[]` at line 186)
and the `used++` (lines 191-192) happen before `dataSource.apply` runs at line 196. The
new entry reaches `cache[]` only at line 199, after the generator has returned. Its
`nextInBucket` is the key's chain as it is after the eviction (line 195). The model
applies the same steps in the same order. Since the generator here is total, a
generator that throws part-way through is outside the model.

## Model

| member | source | states |
|---|---|---|
| Bits.And | CustomCache.java:77 | Java `&` on non-negative values: the result is no larger than either operand |
| Bits.AndInt | CustomCache.java:83 | `hash & mask` for a 32-bit hash and a non-negative mask always lies in `[0, mask]`, even for negative hashes |
| Bits.AndSingleBit | CustomCache.java:77 | `p & x == 0` for a power of two `p` holds exactly when the bit of `x` at `p` is clear, which is what the scan tests |
| Bits.AndLowMask | CustomCache.java:82-84 | masking with `p - 1` for a power of two `p` is the remainder modulo `p` |
| Sizing.CeilPow2 | CustomCache.java:67-80 | reference sizing: a power of two, at least `n`, and below `2n` for positive `n` |
| Sizing.CeilPow2IsLeast | CustomCache.java:76-79 | no power of two at or above `n` is smaller than the reference size |
| Sizing.ToNearPowerOfTwo | CustomCache.java:67-80 | the loop as written agrees with the reference; negative input gives the error exactly; 0 gives non-termination exactly; `0 < value < 2^30` gives the smallest power of two at least `value` (in `[value, 2·value)`); `value >= 2^30` gives `Integer.MAX_VALUE` |
| Sizing.HighestBit | CustomCache.java:76-77 | the downward scan from bit 29 stops at the highest set bit of a positive `value < 2^30` |
| Sizing.ZeroRequestNeverStops | CustomCache.java:77 | for capacity 0 the loop guard `(v & 0) == 0` is true for every `v`, so the scan never exits |
| Sizing.SaturatedSizeNotPowerOfTwo | CustomCache.java:72-74 | the saturated size `Integer.MAX_VALUE` is not a power of two, and a request of exactly `2^30` already saturates |
| Sizing.MakeIndex | CustomCache.java:82-84 | a bucket index is always within `[0, indexMask]` |
| Sizing.MakeIndexInRange | CustomCache.java:82-93 | for every capacity the constructor accepts, every hash (negative ones included) indexes inside the bucket array |
| Sizing.MakeIndexIsModulo | CustomCache.java:82-92 | with a power-of-two array, the index is the hash modulo the array length |
| Sizing.SaturatedIndexIsEven | CustomCache.java:72-92 | with the saturated size, every index is even |
| Lists.Remove | CustomCache.java:38-54 | unlinking a key from a list: the list shrinks by one when the key is present and is unchanged otherwise; every other element keeps its membership; no duplicate appears and the key is gone |
| Lists.FindInChain | CustomCache.java:161-168 | reference chain search: nothing exactly when the key is not on the chain, and otherwise its first occurrence |
| Lists.WalkChain | CustomCache.java:164-166 | the `while` loop of `tryExisted` stops at the first entry whose key matches, or runs off the end exactly when the key is not on the chain; it agrees with the reference search |
| CustomCache.Index | CustomCache.java:82-84 | `makeIndex(key == null ? 0 : key.hashCode())`, as at every hashing site (lines 151, 162, 183, 195, 198): always a slot of the bucket array, and slot 0 for a `null` key |
| CustomCache.IndexIsModulo | CustomCache.java:82-84 | with a power-of-two array, a key's slot is its `hashCode` modulo the array length, and 0 for `null` |
| CustomCache.New | CustomCache.java:87-96 | a negative capacity and capacity 0 fail as the sizing does; any positive capacity yields an empty cache that satisfies the invariant; below `2^30` the array length is a power of two in `[capacity, 2·capacity)` |
| CustomCache.TryExisted | CustomCache.java:161-169 | the lookup succeeds exactly when the key is live, and then yields the generator's value for that key |
| CustomCache.UpdateAccess | CustomCache.java:171-174 | the refreshed key moves to the front of the ordering list and the rest keeps its relative order (`collapseList` then `afterList(head)`, lines 38-45 and 56-63); the buckets, values and counter are untouched; the invariant holds |
| CustomCache.Evict | CustomCache.java:180-189 | the victim is the last key of the ordering list; it leaves the list and the stored values; its chain becomes the old chain with only the victim cut out, the rest kept in order (the slot moving on at line 186, `collapseBucket` at lines 47-54); every other chain and the counter are unchanged |
| CustomCache.Link | CustomCache.java:195-199 | the new entry heads both its bucket chain (the `Entry` constructor, lines 27-36) and the ordering list (`afterList`, lines 56-63) with the generator's value; other chains and stored values are unchanged |
| CustomCache.MakeNewEntry | CustomCache.java:176-201 | below capacity `used` grows by one and the key is prepended to the ordering list; at capacity `used` stays and the last key is evicted first; chain by chain (`MissChains`): the victim's chain loses only the victim, the key's chain becomes the key followed by its chain as it is after the eviction (lines 195-199), and every other chain is unchanged; the invariant holds |
| CustomCache.Read | CustomCache.java:99-146 | the invariant is preserved; the value returned is always `dataSource(key)` and the key is live afterwards; a FIFO hit changes nothing; an LRU hit moves the key to the front and changes nothing else; a miss prepends the key to the ordering list, growing `used` below capacity and otherwise evicting the last key, and changes the chains exactly as `makeNewEntry` does (`MissChains`) |
| CustomCache.Get | CustomCache.java:148-153 | absent exactly when no live key shares the key's bucket; otherwise it is the value of some live key in that bucket, which may be a different key |
| CustomCache.GetAloneInBucket | CustomCache.java:148-153 | a live key alone in its bucket is reported with its own value |
| CustomCache.Usage | CustomCache.java:155-159 | the counter equals the number of live entries and stays within `[0, capacity]` |
| Traces.ReadAll | CustomCache.java:99-146 | any sequence of reads keeps the invariant and the capacity bound, and leaves the last key read live |
| Traces.LruKeepsMostRecent | CustomCache.java:99-146 | under LRU, starting empty, the ordering list holds exactly the `capacity` most recently read distinct keys, most recent first |
| Traces.FifoHitsChangeNothing | CustomCache.java:103-121 | under FIFO, reads of live keys leave the cache exactly as it was |
| Traces.FifoMatchesQueue | CustomCache.java:99-146 | under FIFO, starting empty, the ordering list equals a plain insertion-order queue that drops its oldest key when full |
| Traces.FifoReadKeepsChainOrder | CustomCache.java:176-201 | under FIFO, one `read` keeps every bucket chain listing its keys in the order of the ordering list (both newest first) |
| Traces.NewChainsFollowOrder | CustomCache.java:87-96 | the constructor's empty chains follow the empty ordering list |
| Traces.FifoChainsFollowOrder | CustomCache.java:99-146 | under FIFO, from such a cache, every chain follows the ordering list after any trace |
| Traces.GetFirstInBucket | CustomCache.java:148-153 | when chains follow the ordering list, a `get` that finds a value reports that of the first key in the ordering list that shares the key's bucket |
| Traces.FifoGetReportsNewestInBucket | CustomCache.java:148-153 | under FIFO, after any trace from a freshly built cache, a `get` that finds a value reports that of the most recently inserted live key in the key's bucket |
| Scenario.FreshIsHarness | CacheTester.java:26 | the cache the test builds (capacity 3, `Object::toString`, `Integer` hashing) is empty, has four buckets and satisfies the invariant |
| Scenario.FifoScenario | CacheTester.java:25-33 | FIFO, any such empty cache, reads `1,2,1,3,4`: usage is 3, `get(1)` is null, `get(2)` is `"2"`, `get(3)` is `"3"` |
| Scenario.LruScenario | CacheTester.java:25-33 | LRU, any such empty cache, reads `1,2,1,3,4`: usage is 3, `get(2)` is null, `get(1)` is `"1"`, `get(3)` is `"3"` |
| Scenario.GetReportsNewest | CustomCache.java:150-152 | for two distinct keys that share a bucket, read into an empty cache of any capacity, `get` on the first reports the second key's value, whether the first is still live or was evicted |
| Scenario.GetIgnoresKey | CustomCache.java:148-153 | when keys 1 and 2 share a bucket, `get(1)` reports `"2"`, the value of the key inserted last |

## Left out

- Concurrency is not modelled: the `StampedLock`, the optimistic read, the read-to-write lock upgrade and the `volatile` counter are left out, and every `read` is one atomic step. The `concurrentTest` of `CacheTester` is left out too.
- Exceptions thrown by the generator are not modelled, because the generator is a total function. The failure atomicity of `makeNewEntry` is therefore also not modelled.
- The contracts of `Object.hashCode` and `Objects.equals` are modelled only as a `hashCode` parameter and Dafny equality on keys. Keys with custom `equals` are not modelled.
- Stale link fields are not modelled: an evicted entry's own link fields are never cleared, and the model has no object graph to hold them.
- Memory is not modelled, including the allocation of an `Integer.MAX_VALUE`-slot array for a saturated capacity.
- `JDKCache`, the `Cache` interface and its `Cache.make` factory are not modelled. They are separate back ends, not the custom engine.
- The tester's `Object::toString` is modelled only for the integer keys of the scenario, via `Scenario.ToString`, not for objects in general.
- Sizing.ToNearPowerOfTwo: for capacity 0 the model returns `NoTermination` rather than looping forever. The loop itself is proved to run only for `0 < value < 2^30`, and `Sizing.ZeroRequestNeverStops` records why 0 never leaves it.
- CustomCache.Get: the contract leaves open which live key of the bucket is reported, because `get` returns whatever entry heads the chain. Under FIFO, `Traces.FifoGetReportsNewestInBucket` pins it down; under LRU it is left open.
- CustomCache.Get: values are not nullable. Java's `get` returns `null` both for an empty bucket and for a head entry whose stored value is `null` (line 152), which a `Function` may return and line 196 stores. The model returns `Some(v)` in the second case, so its "absent exactly when the bucket is empty" does not cover a generator that yields `null`.
