# LruCache in Dafny

A Dafny model of the two least-recently-used caches in the LruCache repository, with proofs about them.

- **The keyed cache** (`src/main/java/com/thorrism/LruCache.java`). A `HashMap` maps each value to its node. A doubly-linked list runs from `head` (least recently used, evicted next) to `tail` (most recently used). Operations: `add`, `get(key)`, `evict`, the two peeks, `toArray`, `toReverseArray` and `fromArray`.
- **The legacy cache** (`src/main/java/LruCache.java`). A singly-linked list with a `size` counter and positional `get(index)`. The JUnit tests in `src/test/java/CacheTests.java` exercise this class.

Files:

- `lru_spec.dfy` (module `LruSpec`) is the abstract view of a cache: its order list, as a sequence of values from head to tail. It defines what each operation does to that list (`Remove`, `Promote`, `Trim`, `KeyedAdd`, `KeyedAddAll`, `LegacyAdd`) and proves the laws the caches rely on.
- `keyed_cache.dfy` (module `KeyedCache`) and `legacy_cache.dfy` (module `LegacyCache`) hold the two caches as classes. Their fields are those of the Java classes. Their methods change the fields step by step, in the order the Java code does.
  - Nodes live in an arena, the sequence `nodes`.
  - A Java reference is a slot number (`Option<nat>`, `None` for `null`).
  - `new Node(...)` appends a slot.
  - Reference comparisons (`oldValue == tail`, `current == head`) compare slot numbers.
- `outcomes.dfy` (module `Outcomes`) holds `Option`, `Result` and `Outcome`. They stand for Java's `null` results and thrown exceptions (`NullPointer`, `IndexOutOfBounds`).
- `scenarios.dfy` (module `CacheScenarios`) replays every JUnit test, plus some runs of the keyed cache. Each is a method whose postcondition lists the observed values.

Each class has two invariants:

- `Valid()` says the arena is well-formed. Every operation keeps it in every state.
- `Consistent()` (keyed) or `Intact()` (legacy) is the textbook invariant. The ghost field `order` lists the list's slots from head to tail, and the list follows them. In the keyed cache, the map indexes exactly those slots. In the legacy cache, `size` is their number. `Values()` is then the cached values in list order.

Almost every method states its literal effect on the fields for every input. On top of that, it states its effect on `Values()` wherever the source keeps the invariant. There are two exceptions, each listed under "## Left out":

- Keyed `InsertNew`, `InsertNode` and `Add`, when a new value meets a non-empty, inconsistent list. For them, only `Valid()` and the condition under which they throw are stated.
- `FromArray` and its loop `AddEach`, which state the final values only for a consistent cache whose capacity is not 1.

The source breaks that invariant in several places. Each time, the code departs from the LRU behaviour its documentation describes. The model follows the code in every case:

- **Keyed `add` of a present key on a full cache.** It evicts the head before it looks the key up. `KeyedAdd(s, v, c)` is therefore `Promote(Trim(s, c), v)`.
- **Keyed `add` of the current tail on a full cache.** It is not a no-op. The head is evicted first (`KeyedAddTailWhenFull`).
- **Keyed `get` of the tail.** It takes the map entry out before testing for the tail. The node stays at the tail, but its value is no longer indexed. A second `get` of the same key therefore answers null instead of repeating the first answer.
- **Keyed `evict` never clears `tail`.** If the head's value is not in the map, it dereferences `null`, which gives `Err(NullPointer)`.
- **Keyed cache with capacity 1.** The evicting `add` empties the list and then links the new node behind the stale tail. The head is lost, and the next `add` starts a second list, so `getSize()` reaches 2.
- **Legacy `get(index)`.**
  - It guards with `index > size`, so `get(size)` gets past the guard. On an intact list it then returns null. On a list that an earlier `get` made cyclic, the walk never falls off, so it can return a value.
  - It moves the found node behind the tail without unlinking it from its predecessor and without clearing its `next`. Taking any entry but the last closes the list into a cycle (`RequeueIntact`).
  - Every re-insertion increments `size`, so `size` drifts away from the list's length.
  - The loop counter `idx` is a Java `int`, and the model keeps it one: `++idx` wraps from 2^31 - 1 to -2^31. A negative index is therefore reached after `Steps(index)` = 2^32 + `index` steps.
    - On an intact list the walk falls off long before that, so the answer is null.
    - On a list that a walk never leaves, the counter does reach the index. `LongWalkNeverEnds` proves by pigeonhole that a walk still on a node after `|nodes|` steps is such a walk.
    - So on a list made cyclic by an earlier `get`, `get(-1)` returns a value (`NegativeIndex`).
- **Legacy cache with capacity 1.** The evicting `add` empties the list, links the new node behind the stale tail, and keeps `size` at 1, so `head` is null.

## Model

| member | source | states |
|---|---|---|
| LruSpec.KeyedAdd | src/main/java/com/thorrism/LruCache.java:79-97 | a keyed add always leaves `v` as the tail of a non-empty list |
| LruSpec.KeyedAddAll | src/main/java/com/thorrism/LruCache.java:266-273 | adding no values changes nothing; otherwise the last value added is the tail |
| LruSpec.LegacyAdd | src/main/java/LruCache.java:53-65 | a legacy add on an intact list leaves `v` as the tail; the length stays when the list was full and grows by one otherwise |
| LruSpec.Remove | src/main/java/com/thorrism/LruCache.java:110-122 | unlinking an absent value changes nothing; unlinking a present one shortens the list by one |
| LruSpec.Promote | src/main/java/com/thorrism/LruCache.java:83-97 | the promoted value is the last entry, and the length grows by one exactly when the value was absent |
| LruSpec.Trim | src/main/java/com/thorrism/LruCache.java:80-82 | a full, non-empty list loses one entry; any other list keeps its length |
| LruSpec.RemoveMembers | src/main/java/com/thorrism/LruCache.java:110-122 | unlinking `x` from a list without repeats leaves exactly the other entries, still without repeats |
| LruSpec.PromoteAt | src/main/java/com/thorrism/LruCache.java:83-97 | promoting entry `k` keeps the other entries in their relative order and appends `s[k]` |
| LruSpec.PromoteMembers | src/main/java/com/thorrism/LruCache.java:83-97 | after promotion the list holds the old entries plus the value, with no repeats |
| LruSpec.PromoteTail | src/main/java/com/thorrism/LruCache.java:86-88 | promoting the current tail changes nothing |
| LruSpec.PromoteTwice | src/main/java/com/thorrism/LruCache.java:83-97 | promotion is idempotent |
| LruSpec.TrimMembers | src/main/java/com/thorrism/LruCache.java:80-82 | eviction keeps a list free of repeats and adds no entry |
| LruSpec.KeyedAddMembers | src/main/java/com/thorrism/LruCache.java:79-97 | after a keyed add the list has no repeats and holds exactly `v` and what the eviction kept |
| LruSpec.KeyedAddFreshWhenFull | src/main/java/com/thorrism/LruCache.java:79-97 | a fresh value on a full list evicts the head and becomes the tail (`s[1..] + [v]`) |
| LruSpec.KeyedAddFreshWithRoom | src/main/java/com/thorrism/LruCache.java:83-97 | a fresh value on a list with room is appended |
| LruSpec.KeyedAddPresentWithRoom | src/main/java/com/thorrism/LruCache.java:83-97 | re-adding a present value with room keeps the length and moves it from its place to the tail |
| LruSpec.KeyedAddTailWhenFull | src/main/java/com/thorrism/LruCache.java:80-88 | re-adding the tail of a full list still evicts the head, so the list shrinks to `s[1..]` |
| LruSpec.KeyedAddBounded | src/main/java/com/thorrism/LruCache.java:79-97 | a keyed add never pushes a list within a capacity of at least 1 past that capacity |
| LruSpec.KeyedAddAllBounded | src/main/java/com/thorrism/LruCache.java:266-273 | the abstract fold of keyed adds stays within any capacity of at least 1; the cache reaches the bound only from capacity 2 on, through `FromArray` (at capacity 1 its list breaks, see `KeyedCapacityOne`) |
| LruSpec.KeyedAddAllFits | src/main/java/com/thorrism/LruCache.java:266-273 | up to the capacity, distinct values added to an empty cache line up in insertion order |
| LruSpec.FirstInsertedIsFirstEvicted | src/main/java/com/thorrism/LruCache.java:80-82 | adding capacity + 1 distinct values to an empty list of the abstract fold evicts exactly the first one; the cache follows the fold only from capacity 2 on, through `FromArray` (at capacity 1 its list breaks, see `KeyedCapacityOne`) |
| LruSpec.LegacyAddBounded | src/main/java/LruCache.java:53-65 | a legacy add on an intact list within a capacity of at least 1 stays within it |
| KeyedCache.Walk | src/main/java/com/thorrism/LruCache.java:230-234 | every walk along `next` links stays inside the arena or falls off (`null`) |
| KeyedCache.Unlinked | src/main/java/com/thorrism/LruCache.java:110-122 | after `removeNode(c)` the predecessor of `c` points to its successor, and the successor points back to its predecessor |
| KeyedCache.UnlinkedHead | src/main/java/com/thorrism/LruCache.java:117-118 | the head moves only when `c` was the head, and then onto the successor of `c`, which exists |
| KeyedCache.Appended | src/main/java/com/thorrism/LruCache.java:93-95 | the fresh node holding the value is appended to the arena with no successor and the old tail as predecessor; the old tail now points to it |
| KeyedCache.Detached | src/main/java/com/thorrism/LruCache.java:138-141 | the new head's `previous` link is cleared and its `next` link is kept |
| KeyedCache.ChainWalk | src/main/java/com/thorrism/LruCache.java:230-234 | on an intact list, `k` steps from the head reach entry `k` of `order`, and `|order|` steps fall off |
| KeyedCache.ChainValues | src/main/java/com/thorrism/LruCache.java:230-234 | on an intact list, the `k`-th value walked from the head is `Values()[k]`, and none exists past the end |
| KeyedCache.IndexSize | src/main/java/com/thorrism/LruCache.java:185-187 | when the map indexes the list, the values have no repeats, the map's keys are exactly the values, and `getSize()` equals the list's length |
| KeyedCache.ValuesOfRemove | src/main/java/com/thorrism/LruCache.java:110-122 | unlinking a listed slot removes exactly its value from the value list |
| KeyedCache.IndexesAfterPromote | src/main/java/com/thorrism/LruCache.java:89-97 | after a value's node is replaced by a fresh tail node, the map still indexes the list |
| KeyedCache.IndexesAfterEvict | src/main/java/com/thorrism/LruCache.java:136-138 | after the head's entry leaves the map, the map indexes the rest of the list |
| KeyedCache.IndexesAfterAppend | src/main/java/com/thorrism/LruCache.java:93-97 | a fresh value put in the map with its fresh node indexes the extended list |
| KeyedCache.ChainAfterRemove | src/main/java/com/thorrism/LruCache.java:110-122 | `removeNode` of a listed non-tail node leaves an intact list of the other slots |
| KeyedCache.ChainAfterEvict | src/main/java/com/thorrism/LruCache.java:138-141 | moving the head to its successor and clearing that node's `previous` leaves an intact list of the rest |
| KeyedCache.ChainAfterAppend | src/main/java/com/thorrism/LruCache.java:93-95 | linking a fresh node behind the tail extends an intact list by one value |
| KeyedCache.AppendIntact | src/main/java/com/thorrism/LruCache.java:93-97 | appending an absent value keeps the list intact and indexed, and its values become `Values() + [v]` |
| KeyedCache.PromoteIntact | src/main/java/com/thorrism/LruCache.java:89-97 | unlinking a present non-tail value and appending a fresh node for it keeps the list intact and indexed, with values `Promote(Values(), v)` |
| KeyedCache.EvictIntact | src/main/java/com/thorrism/LruCache.java:136-141 | `evict` on an intact, non-empty list finds the head's value indexed at the head and leaves an intact, indexed list of `Values()[1..]` |
| KeyedCache.TailKey | src/main/java/com/thorrism/LruCache.java:83-88 | on an intact, indexed list, a value's node is the tail exactly when the value is the last one |
| KeyedCache.GetIntact | src/main/java/com/thorrism/LruCache.java:161-175 | on an intact list, `get` of an indexed non-tail value re-indexes it at a fresh tail node, with values `Promote(Values(), v)` |
| KeyedCache.LruCache.constructor | src/main/java/com/thorrism/LruCache.java:45-48 | a new cache has the given capacity and is empty and consistent |
| KeyedCache.LruCache.Default | src/main/java/com/thorrism/LruCache.java:24-38 | the no-argument cache has capacity 10 and is empty and consistent |
| KeyedCache.LruCache.RemoveNode | src/main/java/com/thorrism/LruCache.java:110-122 | the neighbours of `c` are linked to each other; the head moves only when `c` was the head and had a successor; map, tail and `c`'s own links stay; an intact list stays intact without `c` |
| KeyedCache.LruCache.Evict | src/main/java/com/thorrism/LruCache.java:131-145 | an empty list answers null and nothing changes; a head whose value is unindexed throws; otherwise the head's value is returned, its entry leaves the map, its successor becomes the head with `previous` cleared, and the tail stays; on a consistent list the first value is removed and the list stays consistent |
| KeyedCache.LruCache.Unhead | src/main/java/com/thorrism/LruCache.java:137-141 | the key's entry leaves the map and the successor of its node becomes the head, with `previous` cleared |
| KeyedCache.LruCache.LinkTail | src/main/java/com/thorrism/LruCache.java:93-97 | a fresh node for the value is linked behind the tail, becomes the tail, and is put in the map |
| KeyedCache.LruCache.InsertNode | src/main/java/com/thorrism/LruCache.java:66-99 | into an empty list the node becomes head and tail; an update is appended; an add throws exactly when the eviction meets an unindexed head; a consistent add yields `KeyedAdd(Values(), value, capacity)` and stays consistent, except at capacity 1 with one value, where the head is lost |
| KeyedCache.LruCache.InsertNew | src/main/java/com/thorrism/LruCache.java:79-97 | a full cache evicts first and throws when that eviction does; on a consistent list, the result is `KeyedAdd` and stays consistent, except at capacity 1 with one value |
| KeyedCache.LruCache.Relink | src/main/java/com/thorrism/LruCache.java:83-97 | a value whose node is the tail leaves everything unchanged; one present elsewhere is unlinked and re-appended; an absent one is appended; on a consistent list the values become `Promote(Values(), value)` |
| KeyedCache.LruCache.Add | src/main/java/com/thorrism/LruCache.java:54-56 | the effect of `insertNode(value, true)`, including the capacity-1 break; with capacity at least 2, a consistent cache within its capacity stays within it |
| KeyedCache.LruCache.Get | src/main/java/com/thorrism/LruCache.java:155-177 | a null key throws and changes nothing; an absent key answers null and changes nothing; an indexed key answers itself; the tail only loses its map entry, while any other node is unlinked and re-appended; on a consistent list, an absent key keeps it consistent, the last value keeps the list but leaves the map, and any other value is promoted, stays consistent, and is the new `peekLastEviction()` |
| KeyedCache.LruCache.Take | src/main/java/com/thorrism/LruCache.java:161-175 | as `Get` once the key is known to be indexed |
| KeyedCache.LruCache.Requeue | src/main/java/com/thorrism/LruCache.java:172-174 | node `c` is unlinked and its value is appended as a fresh tail node and indexed there |
| KeyedCache.LruCache.GetSize | src/main/java/com/thorrism/LruCache.java:185-187 | the map's size, which on a consistent list is the number of values |
| KeyedCache.LruCache.GetCapacity | src/main/java/com/thorrism/LruCache.java:195-197 | the fixed capacity |
| KeyedCache.LruCache.PeekNextEviction | src/main/java/com/thorrism/LruCache.java:204-206 | the head's value or null; on a consistent list, the first value or null |
| KeyedCache.LruCache.PeekLastEviction | src/main/java/com/thorrism/LruCache.java:213-215 | the tail's value or null; on a consistent, non-empty list, the last value |
| KeyedCache.LruCache.ToArray | src/main/java/com/thorrism/LruCache.java:225-237 | null when the map is empty; a null array throws; otherwise slot `i` receives the `i`-th value walked from the head while the walk lasts, and the other slots keep their contents; on a consistent list, slot `i` receives `Values()[i]` for `i < |Values()|` |
| KeyedCache.LruCache.ToReverseArray | src/main/java/com/thorrism/LruCache.java:246-260 | null when the map is empty; a null array throws; otherwise slot `length-1-i` receives the `i`-th value walked from the head while both last, and the other slots keep their contents; on a consistent list, that value is `Values()[i]` |
| KeyedCache.LruCache.FromArray | src/main/java/com/thorrism/LruCache.java:266-273 | a null array throws and changes nothing; otherwise every element is added in order, so a consistent cache whose capacity is not 1 ends with `KeyedAddAll(Values(), input, capacity)`; from capacity 2 on, a consistent cache within its capacity stays within it |
| KeyedCache.LruCache.AddEach | src/main/java/com/thorrism/LruCache.java:270-272 | the loop of `fromArray`: each element is added in turn, so a consistent cache whose capacity is not 1 ends consistent with `KeyedAddAll(Values(), input, capacity)`; the only exception it passes on is the null pointer |
| LegacyCache.Walk | src/main/java/LruCache.java:104-128 | every walk along `next` links stays inside the arena or falls off (`null`) |
| LegacyCache.DistinctBound | src/main/java/LruCache.java:104-128 | the pigeonhole principle: distinct slot numbers below `n` are at most `n` many |
| LegacyCache.Counter | src/main/java/LruCache.java:103-127 | the Java `int` counter after `n` increments from 0 agrees with `n` modulo 2^32 and stays in `int` range |
| LegacyCache.Steps | src/main/java/LruCache.java:103-127 | the counter first equals `index` after `Steps(index)` increments: `index` itself if that is not negative, otherwise only after wrapping round |
| LegacyCache.LongWalkNeverEnds | src/main/java/LruCache.java:104-128 | a walk still on a node after `|nodes|` steps stays on a node forever, so `while (current != null)` can only be left from its body |
| LegacyCache.ChainWalk | src/main/java/LruCache.java:104-128 | on an intact list, `k` steps from the head reach entry `k` of `order`, and `|order|` steps fall off |
| LegacyCache.ChainValues | src/main/java/LruCache.java:183-187 | on an intact list, the `k`-th value walked from the head is `Values()[k]`, and none exists past the end |
| LegacyCache.ChainAfterEvict | src/main/java/LruCache.java:79-81 | dropping the head of an intact list leaves an intact list of `Values()[1..]` behind the old head's successor |
| LegacyCache.ChainAfterAppend | src/main/java/LruCache.java:61-62 | linking a fresh node behind the tail extends an intact list |
| LegacyCache.Linked | src/main/java/LruCache.java:61 | after `tail.setNext(c)` the old tail points to `c` and keeps its value |
| LegacyCache.RequeuedNodes | src/main/java/LruCache.java:108-121 | the arena after `get` moved node `c`: only links change; with no head left it is unchanged, otherwise the tail (or `p`, when `c` had no successor) points to `c` |
| LegacyCache.RequeuedHead | src/main/java/LruCache.java:110-120 | the head after `get` moved node `c` is never null: it is the old head, the successor of `c`, or `c` itself |
| LegacyCache.ClosedWalk | src/main/java/LruCache.java:116-120 | once the last node of an intact list links to a listed node, every walk from a listed node stays on listed nodes forever |
| LegacyCache.RequeueIntact | src/main/java/LruCache.java:107-121 | `get(k)` on an intact list leaves arena and head as they were when `k` is the last entry; for any other entry, the walk from the new head never falls off (the list became cyclic) |
| LegacyCache.LruCache.constructor | src/main/java/LruCache.java:37-39 | a new cache has the given capacity, `size` 0, and is empty and intact |
| LegacyCache.LruCache.Default | src/main/java/LruCache.java:17-30 | the no-argument cache has capacity 10 and is empty and intact |
| LegacyCache.LruCache.Add | src/main/java/LruCache.java:41-43 | into an empty list the new node is head and tail; otherwise a full cache evicts the head first (`size` stays) and the node is linked behind the tail (`size` + 1); on an intact list the values become `LegacyAdd(Values(), value, capacity)`, except at capacity 1 with one value, where the head is lost while `size` is 1 |
| LegacyCache.LruCache.InsertNode | src/main/java/LruCache.java:53-65 | the node becomes the tail; into an empty list it is also the head; only a new node on a full cache evicts; `size` is incremented in every case (so it stays when the eviction decremented it) |
| LegacyCache.LruCache.LinkTail | src/main/java/LruCache.java:61-62 | the old tail's `next` names `c`, which becomes the tail; an intact list is extended by `c`'s value |
| LegacyCache.LruCache.Evict | src/main/java/LruCache.java:75-84 | an empty list answers null and nothing changes; otherwise the head's value is returned, its successor becomes the head, and `size` drops by one; on an intact list this is the first value, and the list stays intact |
| LegacyCache.LruCache.Get | src/main/java/LruCache.java:94-130 | `index > size` throws and changes nothing; a walk that falls off within `Steps(index)` steps answers null and changes nothing; otherwise the node reached after `Steps(index)` steps is moved to the tail without unlinking it, `size` grows by one, and its value is returned and becomes `peekLastEviction()`; on a list no walk leaves, it always finds a node; on an intact list the value is `Values()[Steps(index)]`, an index at or past the end answers null, the last entry keeps the list intact, and any other entry makes it cyclic |
| LegacyCache.LruCache.Seek | src/main/java/LruCache.java:103-129 | the walk of `get` once the size check has passed, with its wrapping `int` counter: null when the walk falls off within `Steps(index)` steps, otherwise the node reached after exactly that many steps is requeued |
| LegacyCache.LruCache.Requeue | src/main/java/LruCache.java:108-121 | the head moves past `c` when `c` was the head; the tail moves back to `p` when `c` had no successor; then `c` is inserted as an update, keeping its own `next` |
| LegacyCache.LruCache.GetSize | src/main/java/LruCache.java:138-140 | the counter, which on an intact list is the number of values |
| LegacyCache.LruCache.GetCapacity | src/main/java/LruCache.java:148-150 | the fixed capacity |
| LegacyCache.LruCache.PeekNextEviction | src/main/java/LruCache.java:157-159 | the head's value or null; on an intact list, the first value or null |
| LegacyCache.LruCache.PeekLastEviction | src/main/java/LruCache.java:166-168 | the tail's value or null; on an intact, non-empty list, the last value |
| LegacyCache.LruCache.ToArray | src/main/java/LruCache.java:178-190 | null when `size` is 0; a null array throws; otherwise slot `i` receives the `i`-th value walked from the head while the walk lasts, and the other slots keep their contents; on an intact list, that is `Values()[i]` |
| LegacyCache.LruCache.ToReverseArray | src/main/java/LruCache.java:199-210 | null when `size` is 0; a null array throws; otherwise slot `length-1-i` receives the `i`-th value walked from the head while both last, and the other slots keep their contents; on an intact list, that value is `Values()[i]` |
| CacheScenarios.BaseCache | src/test/java/CacheTests.java:158-166 | adding 1, 2, 3 with capacity 3 gives an intact list of values `[1, 2, 3]` |
| CacheScenarios.BasicInsert | src/test/java/CacheTests.java:12-20 | last eviction 3, next eviction 1 |
| CacheScenarios.Eviction | src/test/java/CacheTests.java:23-35 | `evict` returns the value `peekNextEviction` showed (1), and afterwards next is 2 and last is 3 |
| CacheScenarios.InsertWithEviction | src/test/java/CacheTests.java:38-48 | adding 4 to the full cache gives next 2 and last 4 |
| CacheScenarios.MultiInsertEvictions | src/test/java/CacheTests.java:51-62 | adding 4, 5, 6 gives last 6 and next 4 |
| CacheScenarios.CacheAccess | src/test/java/CacheTests.java:65-75 | `get(0)` answers 1, which becomes the last eviction, and `size` becomes 4 |
| CacheScenarios.ComplicatedCacheUsage | src/test/java/CacheTests.java:79-102 | after `add(4)` the last value is 4; `get(1)` answers 3 and `get(0)` answers 2, and each answer is then the last value; after adding 1337, next is 3 and last is 1337, while `size` is 6 with capacity 3 |
| CacheScenarios.ToArrayThenEvict | src/test/java/CacheTests.java:114-124 | a 10-slot array receives 1, 2, 3 followed by nulls, and three evictions return 1, 2, 3 in that order |
| CacheScenarios.ToReverseArrayThenEvict | src/test/java/CacheTests.java:137-152 | a 2-slot array receives `[2, 1]`, and the evictions return the slots from last to first |
| CacheScenarios.NegativeIndex | src/main/java/LruCache.java:94-130 | on the base cache `get(-1)` answers null; after `get(0)` answers 1 and closes the list into a cycle, `get(-1)` answers a value, once the `int` counter has wrapped round |
| CacheScenarios.LegacyCapacityOne | src/main/java/LruCache.java:53-65 | with capacity 1, adding 1, 2, 3 leaves next and last at 3 and `size` at 2 |
| CacheScenarios.KeyedBase | src/main/java/com/thorrism/LruCache.java:54-98 | the keyed cache of capacity 3 after adding 1, 2, 3 is consistent with values `[1, 2, 3]` |
| CacheScenarios.KeyedCacheUsage | src/main/java/com/thorrism/LruCache.java:155-177 | the complicated run by key (add 4, get 3, get 2, add 1337) answers 3 and 2 and ends with next 3, last 1337 and size 3 |
| CacheScenarios.KeyedCapacityOne | src/main/java/com/thorrism/LruCache.java:79-97 | keyed cache with capacity 1: adding 1, 2, 3 ends with next 3 and `getSize()` 2 |
| CacheScenarios.KeyedOneTwo | src/main/java/com/thorrism/LruCache.java:54-98 | after adding 1 and 2, the list has two distinct nodes holding 1 and 2, and the map names exactly them |
| CacheScenarios.KeyedTailGetThenEvict | src/main/java/com/thorrism/LruCache.java:131-177 | `get(2)` of the tail answers 2 and drops the size to 1; `evict` then returns 1, and the next `evict` throws, because the remaining node's value is no longer in the map |

## Left out

- `synchronized` blocks: every operation is modelled as sequential and atomic.
- The keyed cache's anonymous `Iterator` (`hasNext`, `next`, `remove`) is not modelled. It is glue for Java's `Iterable` protocol; `ToArray` and `ChainValues` describe the same head-to-tail walk.
- Java `HashMap` hashing, `equals`/`hashCode` and the initial-capacity hint: the map is a Dafny `map<T, nat>` over values with built-in equality.
- The `Node` getters and setters are inlined as reads and updates of arena records; `Node.setValue` and the no-argument `Node()` constructor are unused by the caches.
- Java `int` overflow of `size` and `capacity`, and of the array loops' counters (which stay below the array length): all are unbounded integers. Only the counter of legacy `get` wraps as in Java.
- `null` values passed to `add`, and `null` elements in `fromArray`'s array: values are never null in the model.
- A legacy capacity of 0 or less, and a keyed capacity of 0, are accepted as the source accepts them. No contract assumes a positive capacity, except where a lemma states one.
- KeyedCache.LruCache.constructor: for a negative capacity, the source throws `IllegalArgumentException` from `new HashMap<>(capacity)`. The model builds an empty cache instead, because a Dafny constructor cannot fail and the `HashMap` capacity hint is not modelled.
- Thrown exceptions end the operation with an `Err`/`Fail` result and leave the fields as the Java code had changed them by that point. Nothing is unwound.
- KeyedCache.LruCache.InsertNew: on a list that is not consistent, it states only `Valid()` and when it throws, not the resulting fields. Those follow from `Evict` and `Relink`, which it calls in that order.
- KeyedCache.LruCache.InsertNode: for a new value on a non-empty, inconsistent list, it states only `Valid()` and when it throws, as `InsertNew` does.
- KeyedCache.LruCache.Add: states the same as `InsertNode` with `isNew` set, so it is equally silent on inconsistent non-empty lists.
- KeyedCache.LruCache.FromArray: it states the resulting values only for a consistent cache whose capacity is not 1. With capacity 1 the second add already breaks the list (`KeyedCapacityOne`).
- KeyedCache.LruCache.AddEach: like `FromArray`, it states the resulting values and consistency only for a consistent cache whose capacity is not 1. For any other cache it states only `Valid()` and that a failure is a null pointer, because with capacity 1 the second add already breaks the list (`KeyedCapacityOne`).
- The helpers about walks and chains (`InArena`, `Walk`, `WalkStaysOff`, `ChainWalk`, `ChainValues`, `ValuesOf`, `OrderKept` and the rest) are written once per module. The two classes have different node types: keyed nodes carry a `previous` link and legacy nodes do not. Sharing them is possible, for instance through one walk over a projected sequence of `next` links. Keeping each module's proofs about its own node type was a choice, made so that each module reads on its own.
- LegacyCache.LruCache.Get: after the node is moved, the ghost `order` is kept as it was. On the cyclic list that results, `order` no longer describes the list, and the contracts say nothing through it.
