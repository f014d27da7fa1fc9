/**
 * End-to-end runs of the caches, as in src/test/java/CacheTests.java (which exercises the
 * legacy cache), plus runs of the keyed cache that show how it differs. Each method builds
 * its own cache and states, as its postcondition, the values the run observes.
 */
module CacheScenarios {
  import opened Outcomes
  import opened LruSpec
  import LegacyCache
  import KeyedCache

  /** `baseCache()`: a legacy cache of capacity 3 holding 1, 2, 3. */
  method BaseCache() returns (cache: LegacyCache.LruCache<int>)
    ensures fresh(cache) && cache.Intact() && cache.capacity == 3 && cache.Values() == [1, 2, 3]
  {
    cache := new LegacyCache.LruCache(3);
    cache.Add(1);
    cache.Add(2);
    cache.Add(3);
  }

  /** `testBasicInsert`: the last value in is the tail, the first is the head. */
  method BasicInsert() returns (last: Option<int>, next: Option<int>)
    ensures last == Some(3) && next == Some(1)
  {
    var cache := BaseCache();
    last := cache.PeekLastEviction();
    next := cache.PeekNextEviction();
  }

  /** `testEviction`: `evict` returns what `peekNextEviction` showed, and the list moves up. */
  method Eviction() returns (nextEviction: Option<int>, evicted: Option<int>, next: Option<int>, last: Option<int>)
    ensures nextEviction == Some(1) && evicted == nextEviction && next == Some(2) && last == Some(3)
  {
    var cache := BaseCache();
    nextEviction := cache.PeekNextEviction();
    evicted := cache.Evict();
    next := cache.PeekNextEviction();
    last := cache.PeekLastEviction();
  }

  /** `testStateInsertWithEviction`: adding to a full cache evicts the head first. */
  method InsertWithEviction() returns (next: Option<int>, last: Option<int>)
    ensures next == Some(2) && last == Some(4)
  {
    var cache := BaseCache();
    cache.Add(4);
    next := cache.PeekNextEviction();
    last := cache.PeekLastEviction();
  }

  /** `testMultiInsertEvictions`: three more adds replace every value. */
  method MultiInsertEvictions() returns (last: Option<int>, next: Option<int>)
    ensures last == Some(6) && next == Some(4)
  {
    var cache := BaseCache();
    cache.Add(4);
    cache.Add(5);
    cache.Add(6);
    last := cache.PeekLastEviction();
    next := cache.PeekNextEviction();
  }

  /** `testCacheAccess`: `get(0)` answers the head's value, which becomes the tail. */
  method CacheAccess() returns (firstValue: Result<Option<int>>, last: Option<int>, size: int)
    ensures firstValue == Ok(Some(1)) && last == Some(1) && size == 4
  {
    var cache := BaseCache();
    firstValue := cache.Get(0);
    last := cache.PeekLastEviction();
    size := cache.GetSize();
  }

  /** The base cache after `add(4)`, with the shape of its three-node list. */
  method BaseThenFour() returns (cache: LegacyCache.LruCache<int>)
    ensures fresh(cache) && cache.Intact() && cache.capacity == 3 && cache.Values() == [2, 3, 4]
    ensures |cache.order| == 3
    ensures var o := cache.order;
            cache.nodes[o[0]].value == 2 && cache.nodes[o[1]].value == 3 && cache.nodes[o[2]].value == 4
            && o[0] != o[1] && o[1] != o[2] && o[0] != o[2]
  {
    cache := BaseCache();
    cache.Add(4);
    assert cache.Values() == [2, 3, 4];
    ghost var o := cache.order;
    assert cache.nodes[o[0]].value == 2 && cache.nodes[o[1]].value == 3 && cache.nodes[o[2]].value == 4;
  }

  /**
   * `testComplicatedCacheUsage`: the observed values are the ones the test expects, although
   * `size` ends at 6 with capacity 3 (each `get` counts its node again) and the `add` of 1337
   * evicts nothing.
   */
  method ComplicatedCacheUsage()
    returns (l0: Option<int>, first: Result<Option<int>>, l1: Option<int>, second: Result<Option<int>>, l2: Option<int>,
             next: Option<int>, last: Option<int>, size: int)
    ensures l0 == Some(4)
    ensures first == Ok(Some(3)) && first.value == l1 && second == Ok(Some(2)) && second.value == l2
    ensures next == Some(3) && last == Some(1337) && size == 6
  {
    var cache := BaseThenFour();
    l0 := cache.PeekLastEviction();
    ghost var o := cache.order;
    LegacyCache.ChainWalk(cache.nodes, cache.head, cache.tail, o, 1);
    first := cache.Get(1);
    l1 := cache.PeekLastEviction();
    assert cache.nodes[o[0]].next == Some(o[1]);
    second := cache.Get(0);
    l2 := cache.PeekLastEviction();
    cache.Add(1337);
    next := cache.PeekNextEviction();
    last := cache.PeekLastEviction();
    size := cache.GetSize();
  }

  /** `testToArray`: the array holds the values head first, and evictions return them in that order. */
  method ToArrayThenEvict() returns (slots: seq<Option<int>>, e0: Option<int>, e1: Option<int>, e2: Option<int>)
    ensures slots == [Some(1), Some(2), Some(3)] + seq(7, _ => None)
    ensures e0 == Some(1) && e1 == Some(2) && e2 == Some(3)
  {
    var cache := BaseCache();
    var input := new Option<int>[10](_ => None);
    var r := cache.ToArray(input);
    slots := input[..];
    e0 := cache.Evict();
    e1 := cache.Evict();
    e2 := cache.Evict();
  }

  /** `testToReverseArray`: a 2-slot array holds the first two values, the head in the last slot. */
  method ToReverseArrayThenEvict() returns (slots: seq<Option<int>>, e0: Option<int>, e1: Option<int>)
    ensures slots == [Some(2), Some(1)] && e0 == slots[1] && e1 == slots[0]
  {
    var cache := BaseCache();
    var input := new Option<int>[2](_ => None);
    var r := cache.ToReverseArray(input);
    slots := input[..];
    e0 := cache.Evict();
    e1 := cache.Evict();
  }

  /**
   * `get(-1)` on the intact list answers null: the walk falls off long before the loop's `int`
   * counter wraps round to -1. Once `get(0)` has closed the list into a cycle, the walk never
   * falls off, the counter reaches -1 after 2^32 - 1 steps, and `get(-1)` answers a value.
   */
  method NegativeIndex() returns (before: Result<Option<int>>, first: Result<Option<int>>, after: Result<Option<int>>)
    ensures before == Ok(None) && first == Ok(Some(1)) && after.Ok? && after.value.Some?
  {
    var cache := BaseCache();
    before := cache.Get(-1);
    first := cache.Get(0);
    assert LegacyCache.Walk(cache.nodes, cache.head, |cache.nodes|).Some?;
    after := cache.Get(-1);
  }

  /** With capacity 1 the evicting `add` empties the list but counts one: the head is lost and `size` passes the capacity. */
  method LegacyCapacityOne() returns (next: Option<int>, last: Option<int>, size: int)
    ensures next == Some(3) && last == Some(3) && size == 2
  {
    var cache := new LegacyCache.LruCache(1);
    cache.Add(1);
    cache.Add(2);
    cache.Add(3);
    next := cache.PeekNextEviction();
    last := cache.PeekLastEviction();
    size := cache.GetSize();
  }

  /** The order lists the keyed runs below go through. */
  lemma KeyedRunValues()
    ensures KeyedAdd([], 1, 3) == [1] && KeyedAdd([1], 2, 3) == [1, 2] && KeyedAdd([1, 2], 3, 3) == [1, 2, 3]
    ensures KeyedAdd([1, 2, 3], 4, 3) == [2, 3, 4] && KeyedAdd([4, 3, 2], 1337, 3) == [3, 2, 1337]
    ensures Promote([2, 3, 4], 3) == [2, 4, 3] && Promote([2, 4, 3], 2) == [4, 3, 2]
    ensures 3 in [2, 3, 4] && 2 in [2, 4, 3]
  {
  }

  /** The keyed cache after adding 1, 2, 3 with capacity 3. */
  method KeyedBase() returns (cache: KeyedCache.LruCache<int>)
    ensures fresh(cache) && cache.Consistent() && cache.capacity == 3 && cache.Values() == [1, 2, 3]
  {
    KeyedRunValues();
    cache := new KeyedCache.LruCache(3);
    var o := cache.Add(1);
    o := cache.Add(2);
    o := cache.Add(3);
  }

  /** The complicated run with keys instead of positions: the order list ends 3, 2, 1337 and stays intact. */
  method KeyedCacheUsage() returns (first: Result<Option<int>>, second: Result<Option<int>>, next: Option<int>, last: Option<int>, size: int)
    ensures first == Ok(Some(3)) && second == Ok(Some(2))
    ensures next == Some(3) && last == Some(1337) && size == 3
  {
    KeyedRunValues();
    var cache := KeyedBase();
    var o := cache.Add(4);
    assert cache.Values() == [2, 3, 4];
    first := cache.Get(Some(3));
    assert cache.Values() == [2, 4, 3];
    second := cache.Get(Some(2));
    assert cache.Values() == [4, 3, 2];
    o := cache.Add(1337);
    assert cache.Values() == [3, 2, 1337];
    next := cache.PeekNextEviction();
    last := cache.PeekLastEviction();
    size := cache.GetSize();
  }

  /** Keyed cache, capacity 1: the second `add` loses the head, the third re-creates it, and `size` becomes 2. */
  method KeyedCapacityOne() returns (next: Option<int>, size: int)
    ensures next == Some(3) && size == 2
  {
    var cache := new KeyedCache.LruCache(1);
    var o := cache.Add(1);
    o := cache.Add(2);
    o := cache.Add(3);
    next := cache.PeekNextEviction();
    size := cache.GetSize();
  }

  /** The keyed cache after adding 1 and 2 with capacity 3, with the shape of its two-node list. */
  method KeyedOneTwo() returns (cache: KeyedCache.LruCache<int>)
    ensures fresh(cache) && cache.Valid() && cache.capacity == 3
    ensures |cache.order| == 2 && cache.order[0] != cache.order[1]
    ensures var a, b := cache.order[0], cache.order[1];
            cache.head == Some(a) && cache.tail == Some(b) && cache.dataMap == map[1 := a, 2 := b]
            && cache.nodes[a].value == 1 && cache.nodes[b].value == 2 && cache.nodes[a].next == Some(b)
  {
    KeyedRunValues();
    cache := new KeyedCache.LruCache(3);
    var o := cache.Add(1);
    o := cache.Add(2);
    TwoKeys(cache.nodes, cache.dataMap, cache.order);
  }

  /** An index that matches a two-entry list holding 1 and 2 maps exactly those two values. */
  lemma TwoKeys(nodes: seq<KeyedCache.Node<int>>, dataMap: map<int, nat>, order: seq<nat>)
    requires KeyedCache.KeysHome(nodes, dataMap) && KeyedCache.Indexes(nodes, dataMap, order)
    requires KeyedCache.OrderInArena(nodes, order) && KeyedCache.ValuesOf(nodes, order) == [1, 2]
    ensures dataMap == map[1 := order[0], 2 := order[1]]
  {
    var vs := KeyedCache.ValuesOf(nodes, order);
    assert vs[0] == nodes[order[0]].value && vs[1] == nodes[order[1]].value;
    forall k | k in dataMap ensures k == 1 || k == 2 {
      var j :| 0 <= j < |order| && order[j] == dataMap[k];
      assert nodes[order[j]].value == k;
    }
  }

  /** Keyed cache: `get` of the tail unindexes it, so evicting down to that node throws. */
  method KeyedTailGetThenEvict() returns (got: Result<Option<int>>, size: int, e0: Result<Option<int>>, e1: Result<Option<int>>)
    ensures got == Ok(Some(2)) && size == 1 && e0 == Ok(Some(1)) && e1 == Err(NullPointer)
  {
    var cache := KeyedOneTwo();
    ghost var b := cache.order[1];
    got := cache.Get(Some(2));
    assert cache.dataMap == map[1 := cache.order[0]];
    size := cache.GetSize();
    e0 := cache.Evict();
    assert cache.head == Some(b) && cache.dataMap == map[];
    e1 := cache.Evict();
  }
}
