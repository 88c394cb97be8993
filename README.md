# GenericHashMap in Dafny

A model of `GenericHashMap<K, V>`. It is a hash map with separate chaining over a fixed number of buckets. The number of buckets (`capacity`) is chosen at construction and never changes. Each bucket is a list of key/value pairs kept in insertion order. A key lives in the bucket that its hash code selects.

The map keeps three counters:

- `size`: the number of stored pairs;
- `modCount`: a revision counter;
- `capacity`: the number of buckets.

The entry iterator walks the buckets in index order, and each bucket in list order. It is fail-fast: every `next` first compares the `modCount` it recorded at creation with the map's current one. If they differ, it fails with a concurrent-modification error. The key and value iterators are projections of the entry iterator. `containsValue` and `putAll` are built on these iterators.

The project has four modules.

- `Wrappers`: `Option` (Java's `null` return) and `Result` (an exception thrown by `next`).
- `Buckets`: the bucket table as a value, `seq<seq<Pair<K, V>>>`. It holds:
  - the bucket-index arithmetic;
  - search in one bucket;
  - the iteration order (`Flatten`, `Suffix`);
  - the abstract map a table represents (`AsMap`);
  - the table invariant (`WellFormed`: every pair sits in the bucket its key selects, and no key appears twice in a bucket);
  - the value-level effect of put, remove and a sequence of puts (`PutBuckets`, `RemoveBuckets`, `PutEach`).

  The lemmas here prove what these operations do to the abstract map and to the invariant.
- `HashMap`: the class `GenericHashMap`. The buckets are an `array<seq<Pair<K, V>>>` whose elements are replaced in place. `size` and `modCount` are mutable fields. The module also holds the iterator classes `EntrySetIterator`, `KeyIterator` and `ValueIterator`. Each method is proved against the `Buckets` functions through the ghost views:
  - `Buckets()`: the table;
  - `Entries()`: the iteration order;
  - `Contents()`: the abstract map.

  The iterator keeps a ghost record, `Yielded`, of what it has returned. While the map is unchanged, its invariant is that `Yielded` followed by the rest of the iteration is the whole of `Entries()`.
- `Scenarios`: client methods that replay the situations of the repository's unit tests (`HashMapTest.java`). They are proved from the class contracts and the Buckets lemmas, for every hash function.

The key's `hashCode()` is a parameter of the map (`hash: K -> int`). Key equality (`equals`) is Dafny's `==`.

`put` advances `modCount` on every call, including a call that only replaces the value of a key already present (`GenericHashMap.java:330`). `java.util.HashMap` counts only structural changes in its `modCount`; this code counts every `put`, and the model follows the code. So a value update during an iteration makes the iterator's next step fail. `Scenarios.ValueUpdateInvalidatesIterator` shows this, and the repository's own test `testValueModification` expects it.

## Model

| member | source | states |
|---|---|---|
| Buckets.JavaRemainder | GenericHashMap/src/GenericHashMap/GenericHashMap.java:432-434 | Java's truncating `%`: the remainder differs from the dividend by a multiple of `n`, lies strictly between `-n` and `n`, and takes the sign of the dividend (non-negative for a non-negative dividend, non-positive for a non-positive one) |
| Buckets.NegativeHashSelectsNoBucket | GenericHashMap/src/GenericHashMap/GenericHashMap.java:432-434 | with the code's operator, a negative hash code that is not a multiple of the capacity gives a negative bucket index |
| Buckets.BucketIndex | GenericHashMap/src/GenericHashMap/GenericHashMap.java:432-434 | the bucket a hash selects is always a valid index in `[0, capacity)`, and it equals the code's `hashCode() % capacity` whenever the hash code is non-negative |
| Buckets.IndexOfKey | GenericHashMap/src/GenericHashMap/GenericHashMap.java:413-425 | the result is -1 exactly when no pair in the bucket has the key; otherwise it is the first position holding the key |
| Buckets.Lookup | GenericHashMap/src/GenericHashMap/GenericHashMap.java:289-294 | a bucket yields a value exactly when some pair has the key; in a bucket with distinct keys, that value is the value of that pair |
| Buckets.MapGetExtensional | GenericHashMap/src/GenericHashMap/GenericHashMap.java:289-294 | two maps on which `get` agrees for every key are equal |
| Buckets.Flatten | GenericHashMap/src/GenericHashMap/GenericHashMap.java:186-208 | the iteration order has exactly as many pairs as all the buckets together |
| Buckets.InFlatten | GenericHashMap/src/GenericHashMap/GenericHashMap.java:186-208 | a pair is visited by the iteration exactly when it is stored in some bucket |
| Buckets.MapOfKey | GenericHashMap/src/GenericHashMap/GenericHashMap.java:248-252 | a key is in the map built from a pair list exactly when some pair has that key |
| Buckets.MapOfPair | GenericHashMap/src/GenericHashMap/GenericHashMap.java:289-294 | the value the built map gives a key comes from a pair of the list holding that key |
| Buckets.MapOfValue | GenericHashMap/src/GenericHashMap/GenericHashMap.java:289-294 | in a list with distinct keys, every pair's key maps to that pair's value |
| Buckets.MapOfSize | GenericHashMap/src/GenericHashMap/GenericHashMap.java:388-390 | a list with distinct keys builds a map with as many keys as the list has pairs |
| Buckets.MapOfValues | GenericHashMap/src/GenericHashMap/GenericHashMap.java:261-271 | in a list with distinct keys, a value is among the map's values exactly when some pair holds it |
| Buckets.SeparatedEntriesDistinct | GenericHashMap/src/GenericHashMap/GenericHashMap.java:186-208 | when no key is in two buckets or twice in one, the iteration visits no key twice |
| Buckets.EntriesKeysDistinct | GenericHashMap/src/GenericHashMap/GenericHashMap.java:186-208 | under the table invariant, the iteration visits each key at most once |
| Buckets.ContentsSize | GenericHashMap/src/GenericHashMap/GenericHashMap.java:388-390 | under the table invariant, the number of stored pairs is the number of distinct keys in the map |
| Buckets.ContentsValues | GenericHashMap/src/GenericHashMap/GenericHashMap.java:261-271 | under the table invariant, a value is held by some key exactly when some visited pair carries it |
| Buckets.StoredPairInContents | GenericHashMap/src/GenericHashMap/GenericHashMap.java:452-454 | every stored pair is an entry of the abstract map |
| Buckets.LookupContents | GenericHashMap/src/GenericHashMap/GenericHashMap.java:289-294 | under the table invariant, searching only the bucket the key selects gives the abstract map's answer for that key |
| Buckets.EmptyTotalLength | GenericHashMap/src/GenericHashMap/GenericHashMap.java:232-239 | a table of empty buckets holds no pairs |
| Buckets.EmptyTable | GenericHashMap/src/GenericHashMap/GenericHashMap.java:32-40 | a non-empty table of empty buckets satisfies the invariant, holds no pairs and represents the empty map |
| Buckets.TotalLengthUpdate | GenericHashMap/src/GenericHashMap/GenericHashMap.java:325-344 | replacing one bucket changes the pair count by the difference in that bucket's length |
| Buckets.PutInBucket | GenericHashMap/src/GenericHashMap/GenericHashMap.java:333-341 | put on one bucket: the new pair `(k, v)` is in the result, and the bucket grows by one exactly when the key was absent (otherwise the pair is replaced where it stands); its effect on lookups and distinctness is stated by `Buckets.LookupPutInBucket` |
| Buckets.PutBuckets | GenericHashMap/src/GenericHashMap/GenericHashMap.java:325-344 | put keeps the number of buckets |
| Buckets.LookupPutInBucket | GenericHashMap/src/GenericHashMap/GenericHashMap.java:334-341 | put on a bucket keeps its keys distinct and adds no pair other than `(k, v)`; afterwards `k` maps to `v` and every other key keeps its value |
| Buckets.PutWellFormed | GenericHashMap/src/GenericHashMap/GenericHashMap.java:325-344 | put preserves the table invariant |
| Buckets.PutContents | GenericHashMap/src/GenericHashMap/GenericHashMap.java:325-344 | put changes the abstract map to `m[k := v]` |
| Buckets.PutTotalLength | GenericHashMap/src/GenericHashMap/GenericHashMap.java:339-341 | put adds one pair when the key was absent and none when it was present |
| Buckets.PutEach | GenericHashMap/src/GenericHashMap/GenericHashMap.java:355-359 | a sequence of puts keeps the number of buckets |
| Buckets.UpdateAfterMerge | GenericHashMap/src/GenericHashMap/GenericHashMap.java:355-359 | putting a pair after a merge is the same as merging a map that already holds the pair |
| Buckets.PutEachContents | GenericHashMap/src/GenericHashMap/GenericHashMap.java:355-359 | putting every pair of a list, in order, preserves the invariant and yields the receiver's map overridden by the list's map (later pairs win) |
| Buckets.RemoveFromBucket | GenericHashMap/src/GenericHashMap/GenericHashMap.java:372-376 | remove on one bucket: an absent key leaves the bucket unchanged, a present one shortens it by one; its effect on lookups and distinctness is stated by `Buckets.LookupRemoveFromBucket` |
| Buckets.RemoveBuckets | GenericHashMap/src/GenericHashMap/GenericHashMap.java:368-381 | remove keeps the number of buckets |
| Buckets.LookupRemoveFromBucket | GenericHashMap/src/GenericHashMap/GenericHashMap.java:372-376 | remove on a bucket keeps its keys distinct and adds no pair; afterwards `k` is absent and every other key keeps its value |
| Buckets.RemoveAtShape | GenericHashMap/src/GenericHashMap/GenericHashMap.java:375 | deleting position `i` of a list shortens it by one and shifts the later pairs down by one |
| Buckets.RemoveAtDistinct | GenericHashMap/src/GenericHashMap/GenericHashMap.java:375 | deleting position `i` keeps the keys distinct, and every remaining pair was in the list and has a different key |
| Buckets.RemoveAtLookup | GenericHashMap/src/GenericHashMap/GenericHashMap.java:375 | deleting position `i` leaves the lookup of every other key unchanged |
| Buckets.RemoveWellFormed | GenericHashMap/src/GenericHashMap/GenericHashMap.java:368-381 | remove preserves the table invariant |
| Buckets.RemoveContents | GenericHashMap/src/GenericHashMap/GenericHashMap.java:368-381 | remove changes the abstract map to `m - {k}` |
| Buckets.RemoveTotalLength | GenericHashMap/src/GenericHashMap/GenericHashMap.java:372-377 | remove deletes one pair when the key was present and none otherwise |
| Buckets.SkipEmptyBuckets | GenericHashMap/src/GenericHashMap/GenericHashMap.java:216-223 | empty buckets contribute nothing to the iteration |
| Buckets.SuffixAfterEmptyBuckets | GenericHashMap/src/GenericHashMap/GenericHashMap.java:163-166 | positioned at the first non-empty bucket at or after `i`, the iteration still has everything from bucket `i` on to yield |
| Buckets.SuffixStep | GenericHashMap/src/GenericHashMap/GenericHashMap.java:197-205 | the pair at the current position comes next, followed by the rest of its bucket, or by the later buckets when it is the last of its bucket |
| Buckets.IterationStep | GenericHashMap/src/GenericHashMap/GenericHashMap.java:186-208 | one step of `next` keeps "yielded so far + still to yield = the whole iteration" and leaves the position valid |
| HashMap.GenericHashMap.constructor | GenericHashMap/src/GenericHashMap/GenericHashMap.java:32-40 | `capacity` empty buckets, size 0 and modCount 0; the invariant holds and the map is empty |
| HashMap.GenericHashMap.IdxOfKeyInHash | GenericHashMap/src/GenericHashMap/GenericHashMap.java:432-434 | the key's bucket is a valid index, and equals `hashCode() % capacity` for a non-negative hash code |
| HashMap.GenericHashMap.IdxOfKeyInList | GenericHashMap/src/GenericHashMap/GenericHashMap.java:413-425 | the loop returns the first position of the key in the bucket, or -1 exactly when the key is absent from it |
| HashMap.GenericHashMap.GetPairFromHash | GenericHashMap/src/GenericHashMap/GenericHashMap.java:452-454 | the pair at a position sits in the bucket its key selects and is an entry of the map |
| HashMap.GenericHashMap.GetVal | GenericHashMap/src/GenericHashMap/GenericHashMap.java:442-444 | the value at a position is what the bucket and the map hold for that pair's key |
| HashMap.GenericHashMap.Get | GenericHashMap/src/GenericHashMap/GenericHashMap.java:289-294 | returns the map's value for the key, or None when it is absent; it finds a value exactly when the key's bucket holds the key |
| HashMap.GenericHashMap.ContainsKey | GenericHashMap/src/GenericHashMap/GenericHashMap.java:248-252 | true exactly when the key is in the map, and exactly when the key's bucket holds it |
| HashMap.GenericHashMap.Size | GenericHashMap/src/GenericHashMap/GenericHashMap.java:388-390 | the `size` field is the number of keys in the map and the number of pairs the iteration visits |
| HashMap.GenericHashMap.IsEmpty | GenericHashMap/src/GenericHashMap/GenericHashMap.java:302-304 | true exactly when the map is empty, and exactly when the iteration visits nothing |
| HashMap.GenericHashMap.Put | GenericHashMap/src/GenericHashMap/GenericHashMap.java:325-344 | returns the previous value or None; the map becomes `m[key := value]`; the buckets become `PutBuckets` of the old ones; size grows by one only for a new key; modCount always grows by one; the invariant is kept |
| HashMap.GenericHashMap.Remove | GenericHashMap/src/GenericHashMap/GenericHashMap.java:368-381 | returns the removed value or None; the map becomes `m - {key}`; the buckets become `RemoveBuckets` of the old ones; size and modCount change only when the key was present; the invariant is kept |
| HashMap.GenericHashMap.Clear | GenericHashMap/src/GenericHashMap/GenericHashMap.java:232-239 | every bucket is emptied, size becomes 0, modCount grows by one, and the map is empty |
| HashMap.GenericHashMap.FindNextIdxInHash | GenericHashMap/src/GenericHashMap/GenericHashMap.java:216-223 | returns the first non-empty bucket at or after the start, or `capacity` when there is none; every bucket skipped is empty |
| HashMap.GenericHashMap.ContainsValue | GenericHashMap/src/GenericHashMap/GenericHashMap.java:261-271 | the walk over the value iterator answers true exactly when some stored pair holds the value, which is exactly when the value is among the map's values |
| HashMap.GenericHashMap.PutAll | GenericHashMap/src/GenericHashMap/GenericHashMap.java:355-359 | the buckets are those produced by putting each of the argument's entries in its iteration order; modCount grows by one per entry; the map becomes the receiver's map overridden by the argument's map |
| HashMap.EntrySetIterator.constructor | GenericHashMap/src/GenericHashMap/GenericHashMap.java:163-166 | the iterator records the current modCount, yields nothing yet, and is positioned so that the whole iteration lies ahead |
| HashMap.EntrySetIterator.HasNext | GenericHashMap/src/GenericHashMap/GenericHashMap.java:174-176 | while the map is unchanged, true exactly when not every entry has been yielded; what was yielded is a prefix of the iteration, and all of it once this is false |
| HashMap.EntrySetIterator.Next | GenericHashMap/src/GenericHashMap/GenericHashMap.java:186-208 | fails with a concurrent modification when modCount changed; otherwise fails with no-such-element when everything was yielded; otherwise returns the next entry of the iteration and records it |
| HashMap.KeyIterator.constructor | GenericHashMap/src/GenericHashMap/GenericHashMap.java:113-115 | wraps a fresh entry iterator over the map |
| HashMap.KeyIterator.HasNext | GenericHashMap/src/GenericHashMap/GenericHashMap.java:118-120 | as the entry iterator's `hasNext` |
| HashMap.KeyIterator.Next | GenericHashMap/src/GenericHashMap/GenericHashMap.java:123-125 | the key of the entry that the entry iterator's `next` returns, with the same failures |
| HashMap.ValueIterator.constructor | GenericHashMap/src/GenericHashMap/GenericHashMap.java:69-71 | wraps a fresh entry iterator over the map |
| HashMap.ValueIterator.HasNext | GenericHashMap/src/GenericHashMap/GenericHashMap.java:74-76 | as the entry iterator's `hasNext` |
| HashMap.ValueIterator.Next | GenericHashMap/src/GenericHashMap/GenericHashMap.java:79-81 | the value of the entry that the entry iterator's `next` returns, with the same failures |
| Scenarios.TwoEntries | GenericHashMap/src/GenericHashMap/HashMapTest.java:139-141 | the shared setup of most tests: a fresh capacity-10 map after putting "evya" -> 31 and "evy" -> 30 holds exactly those two keys in two pairs |
| Scenarios.TwoOtherEntries | GenericHashMap/src/GenericHashMap/HashMapTest.java:396-397 | the argument map of testPutAll: after putting "evyat" -> 35 and "ev" -> 30 it holds exactly those two keys |
| Scenarios.TwoIntKeys | GenericHashMap/src/GenericHashMap/HashMapTest.java:245-247 | the integer-key setup of testKeyModification: after putting 31 -> "evy" and 30 -> "evya" the map holds exactly those two keys in two pairs |
| Scenarios.SizeAndRemove | GenericHashMap/src/GenericHashMap/HashMapTest.java:112-130 | after two puts the size is 2; removing a key returns its value; a second remove and a get return None; the size is then 1 and the map is not empty |
| Scenarios.PutReturnsPrevious | GenericHashMap/src/GenericHashMap/HashMapTest.java:84-93 | put returns None for a new key and the previous value for a known key, and get sees the new value |
| Scenarios.ContainsStoredValue | GenericHashMap/src/GenericHashMap/HashMapTest.java:133-149 | containsValue finds a value that a key holds |
| Scenarios.ContainsValueAfterRemove | GenericHashMap/src/GenericHashMap/HashMapTest.java:133-149 | after removing the only key holding a value, containsValue misses that value and still finds the other one |
| Scenarios.ValueUpdateInvalidatesIterator | GenericHashMap/src/GenericHashMap/HashMapTest.java:271-300 | a value-only put during a value iteration makes the next step fail with a concurrent modification |
| Scenarios.NewKeyInvalidatesIterator | GenericHashMap/src/GenericHashMap/HashMapTest.java:238-268 | putting a new key during a key iteration makes the next step fail with a concurrent modification |
| Scenarios.ClearInvalidatesIterator | GenericHashMap/src/GenericHashMap/HashMapTest.java:350-377 | clear during an entry iteration makes the next step fail with a concurrent modification |
| Scenarios.TwoPairs | GenericHashMap/src/GenericHashMap/HashMapTest.java:168-188 | two pairs with distinct keys that represent the two-key map are exactly those two pairs, in some order |
| Scenarios.IterateAll | GenericHashMap/src/GenericHashMap/HashMapTest.java:168-188 | draining a fresh entry iterator over an unchanged map yields exactly `Entries()`, after which `next` reports no such element |
| Scenarios.IterateToExhaustion | GenericHashMap/src/GenericHashMap/HashMapTest.java:168-188 | iterating the two-entry map (as testEntrySet's loop does) yields two pairs, both entries once each, then reports no such element |
| Scenarios.MergedEntries | GenericHashMap/src/GenericHashMap/HashMapTest.java:380-410 | merging the two two-key maps of the putAll test gives four keys, keeping the value of each side's key |
| Scenarios.MergedMap | GenericHashMap/src/GenericHashMap/HashMapTest.java:380-410 | after putAll the receiver holds four keys, with "evya" -> 31 and "evyat" -> 35 |
| Scenarios.PutAllMerges | GenericHashMap/src/GenericHashMap/HashMapTest.java:380-410 | after putAll, size is 4 and get returns both sides' values |

## Left out

- Null keys and values: the model has none. `get`, `put` and `remove` return `None` where the code returns `null`. So the fault `containsValue` raises on a stored `null` value (`val.equals(value)`) is not modelled.
- `hashCode()` and `equals` of arbitrary key types are not modelled: the hash is a parameter and key equality is `==`. The pair class `GenericPair` (`equals`, `hashCode`, `toString`) is not part of this model; its `getKey` and `getValue` become the fields of `Buckets.Pair`, and the `setValue` that `put` calls is modelled by replacing the pair in its bucket (`Buckets.PutInBucket`).
- Aliasing of the pair objects: in the code, `put` on a present key calls `setValue` on the stored pair, and an entry returned by the entry iterator is that same object. The model replaces the pair in its bucket by a new value. So a caller holding an earlier entry does not see the update, and `setValue` called through an entry is not modelled.
- Integer overflow of `size` and `modCount` after 2^31 operations is not modelled: both are unbounded integers.
- The constructor requires `capacity > 0`. In the code a negative capacity makes `new ArrayList<>(capacity)` (line 33) throw `IllegalArgumentException`. A capacity of 0 gets through construction; `size`, `isEmpty`, `clear` and iteration then work on the empty map, and only the key operations fail, at the `%` on line 433. The zero-capacity map is not modelled.
- HashMap.GenericHashMap.PutAll: requires that the argument is another map with its own bucket array. `putAll(this)` on a map with at least two entries fails in the code with a concurrent modification, because `put` advances `modCount` during the iteration (with one entry, the first `next` already moves the iterator past the last bucket, so the loop ends without a fault); the model does not cover that call. The argument is a `GenericHashMap`; the code accepts any `java.util.Map`.
- The `entrySet()`, `keySet()` and `values()` view objects, and their `size()`, which returns the map's `size` field (lines 62-64, 106-108, 150-152), are not modelled separately. The iterators are built over the map directly, and `Size` is the same field. The inherited `Map`/`AbstractCollection` methods are not part of this model.
- HashMap.GenericHashMap.Put and HashMap.GenericHashMap.Remove: the change to the single bucket of the key is stated through `Buckets.PutBuckets` and `Buckets.RemoveBuckets`. Their bucket-level effect is proved in `Buckets.LookupPutInBucket` and `Buckets.LookupRemoveFromBucket` rather than spelled out in the methods' own contracts.
- Scenarios.MergedMap and Scenarios.PutAllMerges: check size 4 and two of the four keys; testPutAll's value sum of 126 is not replayed, because summation over the iteration is left out.
- The sum-of-values tests `testEntrySet`, `testValues` and `testKeys` are not replayed, for the same reason; `Scenarios.IterateToExhaustion` states which pairs the iteration yields instead.
- `testIsEmpty`, `testGet`, `testGetNotExist`, `testContainsKey` and `testClear` have no scenario of their own. They follow directly from the contracts of `IsEmpty`, `Get`, `ContainsKey` and `Clear`.

## Findings

| source | as written | input that shows it | evidently intended | confidence | as-written member | corrected member |
|---|---|---|---|---|---|---|
| GenericHashMap/src/GenericHashMap/GenericHashMap.java:432-434 | the bucket index is `key.hashCode() % capacity` with Java's truncating remainder | a key whose `hashCode()` is -1 with capacity 10 gives bucket -1, so `myHash.get(-1)` in `get`, `put`, `remove` and `containsKey` fails with an out-of-bounds fault | a bucket index in `[0, capacity)` for every hash code (floor modulo) | high; follows from Java's `%` semantics, not executed | Buckets.JavaRemainder | Buckets.BucketIndex |
