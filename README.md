# SBTree index: an ordered-map model

OrientDB's `OSBTree<Integer>` is a disk-backed B+Tree index from `int` keys to
record ids. Its test class `SBTreeTest` exercises the index through point
operations (`put`, `get`, `remove`, `clear`) and three capped range scans:
`getValuesMajor`, `getValuesMinor` and `getValuesBetween`. The scans are
checked against a `java.util.TreeMap` reference.

This project models the index as its callers observe it, and proves the test's
assertions about that model.

- `ordered_maps.dfy` (module `OrderedMaps`) defines the vocabulary:
  - entries, strictly key-sorted entry sequences, and the map such a sequence
    denotes (`ToMap`);
  - the ascending enumeration of a map (`Ascending`);
  - the three reference range views of a sorted map: `TailMap`
    (`tailMap(from, incl)`), `HeadMapDescending`
    (`headMap(to, incl).descendingMap()`) and `SubMap`
    (`subMap(from, fi, to, ti)`, except that a range whose lower key lies above
    its upper key is empty here, where `TreeMap.subMap` throws);
  - lemmas that insert, overwrite and delete entries of a sorted sequence, and
    that link a scan of a sorted sequence to the reference views.
- `sbtree.dfy` (module `SBTrees`) is the index: a class `SBTree<V>` whose
  state is the leaf level of the tree, held as one strictly key-sorted `seq` of
  entries. Its ghost `Contents()` is the map every operation is specified
  against. A binary search (`LowerBound`) finds positions. `Put` and `Remove`
  insert, overwrite or delete at that position. The range methods walk forward
  or backward from it, collecting values until the cap is reached or the range
  ends. Each range method is proved to return the values of the first
  min(maxCount, |range|) entries of its reference view, in that view's order.
- `sbtree_test.dfy` (module `SBTreeTests`) is the test class written as client
  code:
  - every test method runs on a shared tree that is empty on entry, which is
    what the class fixture and its `clear()` after every method give;
  - every assertion of the test is an `assert` that the verifier proves;
  - the checkers `assertMajorValues`, `assertMinorValues` and
    `assertBetweenValues` run their drain loop (remove each expected value from
    the fetched set, count, and check the cap) as the ghost method
    `CheckFetched`, because the reference views are ghost;
  - the checkers `AssertMajorValue`, `AssertMinorValue` and
    `AssertBetweenValue` return the fetched record ids. Each is proved to
    return the first record ids of its range in scan order (`FetchedFirst`),
    which is what a passing drain loop establishes. The loops over query keys
    return one such result per key;
  - the read-back loops `CheckStored` and `CheckThirdsRemoved` return what
    each `get` read back.

## Model

| member | source | states |
|---|---|---|
| `SBTrees.SBTree.constructor` | core/src/test/java/com/orientechnologies/orient/core/index/sbtree/local/SBTreeTest.java:46-47 | a newly created tree is well formed and holds no entries |
| `SBTrees.SBTree.Get` | core/src/test/java/com/orientechnologies/orient/core/index/sbtree/local/SBTreeTest.java:67-72 | returns the value stored under the key, or absence exactly when the key is not in the map |
| `SBTrees.SBTree.Put` | core/src/test/java/com/orientechnologies/orient/core/index/sbtree/local/SBTreeTest.java:63-65 | keeps the entries strictly sorted; the new map is the old one with the key bound to the value, overwriting an existing binding |
| `SBTrees.SBTree.Remove` | core/src/test/java/com/orientechnologies/orient/core/index/sbtree/local/SBTreeTest.java:174-177 | returns the value the key held (absence if none); the new map is the old one without that key and nothing else changes |
| `SBTrees.SBTree.Clear` | core/src/test/java/com/orientechnologies/orient/core/index/sbtree/local/SBTreeTest.java:50-53 | leaves the tree well formed and empty |
| `SBTrees.SBTree.GetValuesMajor` | core/src/test/java/com/orientechnologies/orient/core/index/sbtree/local/SBTreeTest.java:280-297 | the result is exactly the values of the first min(maxCount, size) entries of the tail map past `fromKey`, in ascending key order |
| `SBTrees.SBTree.GetValuesMinor` | core/src/test/java/com/orientechnologies/orient/core/index/sbtree/local/SBTreeTest.java:319-336 | the result is exactly the values of the first min(maxCount, size) entries of the head map short of `toKey`, in descending key order |
| `SBTrees.SBTree.GetValuesBetween` | core/src/test/java/com/orientechnologies/orient/core/index/sbtree/local/SBTreeTest.java:375-391 | the result is exactly the values of the first min(maxCount, size) entries of the sub map between the two bounds, in ascending key order, for all four inclusive/exclusive combinations |
| `OrderedMaps.Ascending` | core/src/test/java/com/orientechnologies/orient/core/index/sbtree/local/SBTreeTest.java:216-224 | the enumeration of a TreeMap is strictly ascending and denotes exactly that map |
| `OrderedMaps.SortedUnique` | core/src/test/java/com/orientechnologies/orient/core/index/sbtree/local/SBTreeTest.java:284 | two strictly sorted entry sequences that denote the same map are equal, so the iteration order of a sorted map is determined by its contents |
| `OrderedMaps.TailMapIsTail` | core/src/test/java/com/orientechnologies/orient/core/index/sbtree/local/SBTreeTest.java:284 | the tail view is strictly ascending and holds an entry exactly when the map binds its key to its value and the key is past `fromKey` |
| `OrderedMaps.HeadMapDescendingIsHead` | core/src/test/java/com/orientechnologies/orient/core/index/sbtree/local/SBTreeTest.java:323 | the descending head view is strictly descending and holds an entry exactly when the map binds its key to its value and the key is short of `toKey` |
| `OrderedMaps.SubMapIsBetween` | core/src/test/java/com/orientechnologies/orient/core/index/sbtree/local/SBTreeTest.java:378 | the sub view is strictly ascending and holds an entry exactly when the map binds its key to its value and the key lies between both bounds |
| `OrderedMaps.SubMapEmptyWhenReversed` | core/src/test/java/com/orientechnologies/orient/core/index/sbtree/local/SBTreeTest.java:370-371 | a two-sided range whose lower key lies above its upper key is empty, the case the test avoids by raising the upper key |
| `OrderedMaps.SliceOfSorted` | core/src/test/java/com/orientechnologies/orient/core/index/sbtree/local/SBTreeTest.java:284 | a run `s[lo..hi]` of a sorted sequence, with every key inside it in range and every key outside it out of range, is exactly the ascending enumeration of the range |
| `OrderedMaps.TailScan` | core/src/test/java/com/orientechnologies/orient/core/index/sbtree/local/SBTreeTest.java:280-292 | a forward walk that starts at the first key past `fromKey` and stops at the end or at the cap yields the capped tail view |
| `OrderedMaps.HeadScan` | core/src/test/java/com/orientechnologies/orient/core/index/sbtree/local/SBTreeTest.java:319-331 | a backward walk that starts at the last key short of `toKey` and stops at the front or at the cap yields the capped descending head view |
| `OrderedMaps.BetweenScan` | core/src/test/java/com/orientechnologies/orient/core/index/sbtree/local/SBTreeTest.java:375-386 | a forward walk from the lower bound that stops at the first key not short of the upper bound, at the end or at the cap yields the capped sub view |
| `OrderedMaps.InsertAt` | core/src/test/java/com/orientechnologies/orient/core/index/sbtree/local/SBTreeTest.java:64 | inserting a new key at its sorted position keeps the entries strictly sorted and adds exactly that binding to the map |
| `OrderedMaps.ReplaceAt` | core/src/test/java/com/orientechnologies/orient/core/index/sbtree/local/SBTreeTest.java:219-223 | putting a key that is already present keeps the entries strictly sorted and overwrites only that key's value |
| `OrderedMaps.DeleteAt` | core/src/test/java/com/orientechnologies/orient/core/index/sbtree/local/SBTreeTest.java:124 | deleting an entry keeps the entries strictly sorted and removes exactly its key from the map |
| `SBTreeTests.JavaRem` | core/src/test/java/com/orientechnologies/orient/core/index/sbtree/local/SBTreeTest.java:64 | Java's `%` with a positive divisor: the remainder takes the sign of the dividend and is smaller than the divisor in magnitude |
| `SBTreeTests.OwnIdsDistinct` | core/src/test/java/com/orientechnologies/orient/core/index/sbtree/local/SBTreeTest.java:282 | the record ids `RecordId(key % 32000, key)` of distinct keys are distinct, so the test's set comparison loses nothing |
| `SBTreeTests.CheckFetched` | core/src/test/java/com/orientechnologies/orient/core/index/sbtree/local/SBTreeTest.java:282-297 | when the fetched values are the capped prefix of the expected ones, every expected value up to the cap is in the fetched set and is removed from it; if expected values remain, exactly the cap was fetched; nothing fetched is left over |
| `SBTreeTests.PutBelow` | core/src/test/java/com/orientechnologies/orient/core/index/sbtree/local/SBTreeTest.java:63-65 | after putting keys 0 .. n-1 the tree holds exactly those keys, each with its own record id |
| `SBTreeTests.TestKeyPut` | core/src/test/java/com/orientechnologies/orient/core/index/sbtree/local/SBTreeTest.java:62-74 | keys 0 .. n-1 read back their record ids (asserted), keys n .. 2n-1 read back absence (asserted), and the final map is exactly keys 0 .. n-1 |
| `SBTreeTests.CheckStored` | core/src/test/java/com/orientechnologies/orient/core/index/sbtree/local/SBTreeTest.java:88-89 | every stored key reads back its own record id (asserted); this is also the final loop at lines 111-112 |
| `SBTreeTests.PutDrawnKeys` | core/src/test/java/com/orientechnologies/orient/core/index/sbtree/local/SBTreeTest.java:100-109 | every drawn key (negative ones skipped when asked) is put and reads back at once (asserted); the loop stops only when `keysCount` keys are stored or the draws run out, so unless the count is reached every admissible draw is stored; the tree then holds exactly the stored keys, all of them draws |
| `SBTreeTests.TestKeyPutRandomUniform` | core/src/test/java/com/orientechnologies/orient/core/index/sbtree/local/SBTreeTest.java:76-90 | every put key reads back at once and again after all puts (asserted); the tree stores each key's own record id, holds only drawn keys, and holds `keysCount` keys or else every draw |
| `SBTreeTests.TestKeyPutRandomGaussian` | core/src/test/java/com/orientechnologies/orient/core/index/sbtree/local/SBTreeTest.java:92-113 | as the uniform test, with negative draws skipped: the tree holds only non-negative draws, and `keysCount` keys or else every non-negative draw |
| `SBTreeTests.RemoveThirds` | core/src/test/java/com/orientechnologies/orient/core/index/sbtree/local/SBTreeTest.java:122-125 | removing every key divisible by three, in any order, leaves exactly the other keys with their record ids |
| `SBTreeTests.CheckThirdsRemoved` | core/src/test/java/com/orientechnologies/orient/core/index/sbtree/local/SBTreeTest.java:127-133 | every key of the set is read back: absence for a key divisible by three, its own record id otherwise (asserted); this is also the loop at lines 160-166 |
| `SBTreeTests.TestKeyDeleteRandomUniform` | core/src/test/java/com/orientechnologies/orient/core/index/sbtree/local/SBTreeTest.java:115-134 | after the removals, keys divisible by three are absent and all others read back their record ids (asserted) |
| `SBTreeTests.TestKeyDeleteRandomGaussian` | core/src/test/java/com/orientechnologies/orient/core/index/sbtree/local/SBTreeTest.java:136-167 | returns the stored key set: non-negative draws, `keysCount` of them or else every non-negative draw; the tree then holds exactly the non-thirds of that set with their record ids (asserted by the check loop) |
| `SBTreeTests.RemoveIfThird` | core/src/test/java/com/orientechnologies/orient/core/index/sbtree/local/SBTreeTest.java:174-177 | removing a key divisible by three returns its record id (asserted) and drops only that key |
| `SBTreeTests.TestKeyDelete` | core/src/test/java/com/orientechnologies/orient/core/index/sbtree/local/SBTreeTest.java:169-185 | each removal returns the stored record id, and afterwards only the keys not divisible by three read back (asserted) |
| `SBTreeTests.AddedKeys` | core/src/test/java/com/orientechnologies/orient/core/index/sbtree/local/SBTreeTest.java:198-200 | the keys added in the first i rounds are exactly n + j for even j < i |
| `SBTreeTests.PutAndGetBelow` | core/src/test/java/com/orientechnologies/orient/core/index/sbtree/local/SBTreeTest.java:188-192 | each key 0 .. n-1 reads back right after its put (asserted); the tree then holds exactly those keys |
| `SBTreeTests.RemoveRound` | core/src/test/java/com/orientechnologies/orient/core/index/sbtree/local/SBTreeTest.java:195-196 | round i drops key i from the held keys exactly when i is divisible by three |
| `SBTreeTests.AddRound` | core/src/test/java/com/orientechnologies/orient/core/index/sbtree/local/SBTreeTest.java:198-200 | round i adds key n + i to the held keys exactly when i is even |
| `SBTreeTests.AddDeleteRound` | core/src/test/java/com/orientechnologies/orient/core/index/sbtree/local/SBTreeTest.java:195-200 | one round removes key i when it is a third (returning its record id, asserted) and adds key n + i when i is even; the held keys move from round i to round i + 1 |
| `SBTreeTests.AddDeleteRounds` | core/src/test/java/com/orientechnologies/orient/core/index/sbtree/local/SBTreeTest.java:194-201 | after rounds 0 .. n-1 the tree holds the keys below n not divisible by three plus the added keys, each with its own record id |
| `SBTreeTests.TestKeyAddDelete` | core/src/test/java/com/orientechnologies/orient/core/index/sbtree/local/SBTreeTest.java:187-213 | the final state equals the operations applied in order: thirds absent, other old keys and all added keys read back (asserted) |
| `SBTreeTests.FillDrawnKeys` | core/src/test/java/com/orientechnologies/orient/core/index/sbtree/local/SBTreeTest.java:219-224 | the tree and the reference map are filled in lockstep and stay equal; the reference stores each key's own record id, only for drawn keys, and holds `keysCount` keys or else every draw |
| `SBTreeTests.FirstValuesFetched` | core/src/test/java/com/orientechnologies/orient/core/index/sbtree/local/SBTreeTest.java:287-297 | the capped prefix, in scan order, of a sorted range view of a map that stores own record ids holds at most the cap of distinct ids, each the own id of a key in range, and is closed towards the scan's start: a key in range met before a fetched key is fetched, and all keys in range are fetched when fewer than the cap are |
| `SBTreeTests.AssertMajorValue` | core/src/test/java/com/orientechnologies/orient/core/index/sbtree/local/SBTreeTest.java:279-297 | the forward scan from `fromKey` returns the first record ids, in ascending key order, of the keys past `fromKey`, capped at 10000, which is what the drain loop asserts |
| `SBTreeTests.AssertMajorValues` | core/src/test/java/com/orientechnologies/orient/core/index/sbtree/local/SBTreeTest.java:262-299 | every query key's forward scan passes that check; one result per query key |
| `SBTreeTests.AssertMinorValue` | core/src/test/java/com/orientechnologies/orient/core/index/sbtree/local/SBTreeTest.java:318-336 | the backward scan from `toKey` returns the first record ids, in descending key order, of the keys short of `toKey`, capped at 10000 |
| `SBTreeTests.AssertMinorValues` | core/src/test/java/com/orientechnologies/orient/core/index/sbtree/local/SBTreeTest.java:301-338 | every query key's backward scan passes that check; one result per query key |
| `SBTreeTests.ClampedUpper` | core/src/test/java/com/orientechnologies/orient/core/index/sbtree/local/SBTreeTest.java:370-371 | the upper key after the clamp is the larger of the two keys |
| `SBTreeTests.AssertBetweenValue` | core/src/test/java/com/orientechnologies/orient/core/index/sbtree/local/SBTreeTest.java:370-391 | after the clamp, the scan between the keys returns the first record ids, in ascending key order, of the keys between both bounds, capped at 10000 |
| `SBTreeTests.AssertBetweenValues` | core/src/test/java/com/orientechnologies/orient/core/index/sbtree/local/SBTreeTest.java:340-393 | every drawn pair of keys passes that check under the given inclusive flags; one result per pair |
| `SBTreeTests.TestValuesMajor` | core/src/test/java/com/orientechnologies/orient/core/index/sbtree/local/SBTreeTest.java:215-228 | after the fill, every inclusive and exclusive forward scan passes the checker (asserted); the tree keeps the filled keys |
| `SBTreeTests.TestValuesMinor` | core/src/test/java/com/orientechnologies/orient/core/index/sbtree/local/SBTreeTest.java:230-243 | after the fill, every inclusive and exclusive backward scan passes the checker (asserted); the tree keeps the filled keys |
| `SBTreeTests.TestValuesBetween` | core/src/test/java/com/orientechnologies/orient/core/index/sbtree/local/SBTreeTest.java:245-260 | after the fill, every bounded scan passes the checker in all four inclusive/exclusive combinations (asserted); the tree keeps the filled keys |

## Left out

- The database fixture and lifecycle (lines 32-60): creating, opening and dropping the `plocal:` database, the `buildDirectory` property, and `delete()`. These are I/O and environment. A test method starts from an empty tree instead, which is what the fixture and `clear()` provide.
- The paged B+Tree itself (node layout, split, merge, borrow, the sibling chain, the page store, write-ahead logging). It is not part of this model. Its leaf level is represented by one sorted sequence, and a scan walks that sequence where the engine walks the leaf chain.
- The key serializer `OIntegerSerializer`: keys are plain integers with their natural order.
- `MersenneTwisterFast` and its uniform and Gaussian distributions (floating point). Each random key stream is a finite `draws` sequence given as a parameter, so a random test stops when the draws run out. The Java loop runs until enough distinct keys are drawn.
- The random choice of the query keys (lines 263-277, 302-316, 342-368), including the ceiling/floor snapping and the overflow handling (`lastKey() + 5000`, `toKey < 0`). The query keys are parameters, and the checkers are proved for every key. Only the final clamp `if (fromKey > toKey) toKey = fromKey` is modelled.
- The concrete `KEYS_COUNT` of 500000: it is a parameter `keysCount`.
- Java `int` width: keys are unbounded integers, so `KEYS_COUNT + i` and the other sums cannot overflow in the model.
- `HashSet` iteration order: the loops over a key set take keys in an arbitrary order, and what they prove holds for every order.
- `SBTrees.SBTree.GetValuesMajor`, `SBTrees.SBTree.GetValuesMinor` and `SBTrees.SBTree.GetValuesBetween`: `maxCount` is a `nat`, so negative caps are not modelled. The engine's handling of them is not part of this model, and the test always passes 10000.
- `SBTrees.SBTree.Put`: the previous value that `put` returns is not modelled, because the test only calls `put` as a statement.
- The reference views (`TailMap`, `HeadMapDescending`, `SubMap`) are ghost, so the checkers' drain loop runs in the verifier only (`CheckFetched`). The fetched values themselves are computed by the compiled range methods.
- `System.out` logging of seeds, and concurrency and locking (the test is single-threaded).
