/**
 * The abstract view of both caches: the order list read from head (least recently
 * used, next to evict) to tail (most recently used), as a sequence of values.
 * The cache classes prove their operations against the functions of this module.
 */
module LruSpec {

  ghost predicate Distinct<T>(s: seq<T>) {
    forall i, j | 0 <= i < j < |s| :: s[i] != s[j]
  }

  function Last<T>(s: seq<T>): T
    requires s != []
  {
    s[|s| - 1]
  }

  /** `s` with its first occurrence of `x` unlinked. */
  function Remove<T(==)>(s: seq<T>, x: T): (r: seq<T>)
    ensures x !in s ==> r == s
    ensures x in s ==> |r| == |s| - 1
  {
    if s == [] then []
    else if s[0] == x then s[1..]
    else [s[0]] + Remove(s[1..], x)
  }

  /** Promotion: `x` is unlinked from its place (if any) and re-appended as the tail. */
  function Promote<T(==)>(s: seq<T>, x: T): (r: seq<T>)
    ensures r != [] && Last(r) == x
    ensures |r| == if x in s then |s| else |s| + 1
  {
    Remove(s, x) + [x]
  }

  /** The eviction a full cache performs before it inserts: the head goes. */
  function Trim<T>(s: seq<T>, capacity: int): (r: seq<T>)
    ensures |r| == if s != [] && |s| == capacity then |s| - 1 else |s|
  {
    if s != [] && |s| == capacity then s[1..] else s
  }

  /**
   * Adding `v` to the keyed cache: a full cache evicts its head first, and only then is
   * `v` looked up; a present `v` is promoted, an absent one appended.
   */
  function KeyedAdd<T(==)>(s: seq<T>, v: T, capacity: int): (r: seq<T>)
    ensures r != [] && Last(r) == v
  {
    Promote(Trim(s, capacity), v)
  }

  /** Adding every element of `xs`, in order, to the keyed cache. */
  function KeyedAddAll<T(==)>(s: seq<T>, xs: seq<T>, capacity: int): (r: seq<T>)
    ensures xs != [] ==> r != [] && Last(r) == Last(xs)
    ensures xs == [] ==> r == s
    decreases |xs|
  {
    if xs == [] then s
    else KeyedAdd(KeyedAddAll(s, xs[..|xs| - 1], capacity), Last(xs), capacity)
  }

  /** Adding `v` to the legacy cache while its list is intact: no lookup, just append. */
  function LegacyAdd<T>(s: seq<T>, v: T, capacity: int): (r: seq<T>)
    ensures r != [] && Last(r) == v
    ensures |r| == if s != [] && |s| == capacity then |s| else |s| + 1
  {
    Trim(s, capacity) + [v]
  }

  /** Without its last entry, a list without repeats still has none, and lacks that entry. */
  lemma DistinctInit<T>(s: seq<T>)
    requires Distinct(s) && s != []
    ensures Distinct(s[..|s| - 1]) && Last(s) !in s[..|s| - 1]
  {
    var init := s[..|s| - 1];
    forall i, j | 0 <= i < j < |init| ensures init[i] != init[j] {
      assert init[i] == s[i] && init[j] == s[j];
    }
    forall i | 0 <= i < |init| ensures init[i] != Last(s) {
      assert init[i] == s[i];
    }
  }

  /** A list without repeats has as many distinct members as entries. */
  lemma {:induction false} DistinctCard<T>(s: seq<T>)
    requires Distinct(s)
    ensures |(set x | x in s)| == |s|
  {
    if s != [] {
      var init := s[..|s| - 1];
      DistinctInit(s);
      DistinctCard(init);
      assert (set x | x in s) == (set x | x in init) + {Last(s)} by {
        assert s == init + [Last(s)];
      }
    }
  }

  lemma {:induction false} RemoveAt<T>(s: seq<T>, k: nat)
    requires Distinct(s) && k < |s|
    ensures Remove(s, s[k]) == s[..k] + s[k + 1..]
  {
    if k > 0 {
      assert s[0] != s[k];
      assert s[1..][k - 1] == s[k];
      RemoveAt(s[1..], k - 1);
      assert s[1..][..k - 1] + s[1..][k..] == s[1..k] + s[k + 1..];
      assert [s[0]] + (s[1..k] + s[k + 1..]) == s[..k] + s[k + 1..];
    }
  }

  /** Unlinking never adds an entry. */
  lemma {:induction false} RemoveSubset<T>(s: seq<T>, x: T)
    ensures forall y | y in Remove(s, x) :: y in s
    decreases |s|
  {
    if s != [] && s[0] != x {
      RemoveSubset(s[1..], x);
    }
  }

  /** Dropping one entry from a list without repeats leaves a list without repeats. */
  lemma DistinctWithout<T>(s: seq<T>, k: nat)
    requires Distinct(s) && k < |s|
    ensures Distinct(s[..k] + s[k + 1..])
  {
    var r := s[..k] + s[k + 1..];
    forall i, j | 0 <= i < j < |r| ensures r[i] != r[j] {
      var i', j' := if i < k then i else i + 1, if j < k then j else j + 1;
      assert r[i] == s[i'] && r[j] == s[j'];
    }
  }

  /** An entry other than `s[k]` survives dropping entry `k`. */
  lemma InWithout<T>(s: seq<T>, k: nat, x: T)
    requires k < |s| && x in s && x != s[k]
    ensures x in s[..k] + s[k + 1..]
  {
    var j :| 0 <= j < |s| && s[j] == x;
    if j < k {
      assert (s[..k] + s[k + 1..])[j] == x;
    } else {
      assert (s[..k] + s[k + 1..])[j - 1] == x;
    }
  }

  /** For a list without repeats, unlinking `x` keeps exactly the other entries, still without repeats. */
  lemma RemoveMembers<T>(s: seq<T>, x: T)
    requires Distinct(s)
    ensures Distinct(Remove(s, x))
    ensures forall y :: y in Remove(s, x) <==> y in s && y != x
  {
    if x in s {
      var k :| 0 <= k < |s| && s[k] == x;
      RemoveAt(s, k);
      var r := s[..k] + s[k + 1..];
      DistinctWithout(s, k);
      forall y ensures y in r <==> y in s && y != x {
        if y in s && y != x {
          var m :| 0 <= m < |s| && s[m] == y;
          assert m != k;
          if m < k { assert r[m] == y; } else { assert r[m - 1] == y; }
        }
      }
    }
  }

  /** Promoting entry `k` keeps the relative order of every other entry and makes it the tail. */
  lemma PromoteAt<T>(s: seq<T>, k: nat)
    requires Distinct(s) && k < |s|
    ensures Promote(s, s[k]) == s[..k] + s[k + 1..] + [s[k]]
  {
    RemoveAt(s, k);
  }

  lemma PromoteMembers<T>(s: seq<T>, x: T)
    requires Distinct(s)
    ensures Distinct(Promote(s, x))
    ensures forall y :: y in Promote(s, x) <==> y == x || y in s
  {
    RemoveMembers(s, x);
    var r := Remove(s, x);
    forall i, j | 0 <= i < j < |r + [x]| ensures (r + [x])[i] != (r + [x])[j] {
      if j == |r| { assert r[i] in r; }
    }
  }

  /** Promoting the current tail changes nothing: promotion is idempotent. */
  lemma PromoteTail<T>(s: seq<T>)
    requires Distinct(s) && s != []
    ensures Promote(s, Last(s)) == s
  {
    RemoveAt(s, |s| - 1);
  }

  lemma PromoteTwice<T>(s: seq<T>, x: T)
    requires Distinct(s)
    ensures Promote(Promote(s, x), x) == Promote(s, x)
  {
    PromoteMembers(s, x);
    PromoteTail(Promote(s, x));
  }

  lemma TrimMembers<T>(s: seq<T>, capacity: int)
    requires Distinct(s)
    ensures Distinct(Trim(s, capacity))
    ensures forall y :: y in Trim(s, capacity) ==> y in s
  {
    if s != [] && |s| == capacity {
      forall y | y in s[1..] ensures y in s {
        var i :| 0 <= i < |s[1..]| && s[1..][i] == y;
        assert s[i + 1] == y;
      }
    }
  }

  /** The keyed add keeps the list free of repeats; afterwards it holds `v` and what the eviction kept. */
  lemma KeyedAddMembers<T>(s: seq<T>, v: T, capacity: int)
    requires Distinct(s)
    ensures Distinct(KeyedAdd(s, v, capacity))
    ensures forall y :: y in KeyedAdd(s, v, capacity) <==> y == v || y in Trim(s, capacity)
  {
    TrimMembers(s, capacity);
    PromoteMembers(Trim(s, capacity), v);
  }

  /** A fresh value on a full cache evicts the head and becomes the tail. */
  lemma KeyedAddFreshWhenFull<T>(s: seq<T>, v: T, capacity: int)
    requires Distinct(s) && s != [] && |s| == capacity && v !in s
    ensures KeyedAdd(s, v, capacity) == s[1..] + [v]
  {
    TrimMembers(s, capacity);
  }

  /** A fresh value on a cache with room is appended. */
  lemma KeyedAddFreshWithRoom<T>(s: seq<T>, v: T, capacity: int)
    requires |s| != capacity && v !in s
    ensures KeyedAdd(s, v, capacity) == s + [v]
  {
  }

  /** Re-adding a present value to a cache with room keeps the size and promotes the value. */
  lemma KeyedAddPresentWithRoom<T>(s: seq<T>, k: nat, capacity: int)
    requires Distinct(s) && k < |s| && |s| != capacity
    ensures KeyedAdd(s, s[k], capacity) == s[..k] + s[k + 1..] + [s[k]]
    ensures |KeyedAdd(s, s[k], capacity)| == |s|
  {
    PromoteAt(s, k);
  }

  /** Re-adding the tail of a full cache still evicts the head first, so the size falls by one. */
  lemma KeyedAddTailWhenFull<T>(s: seq<T>, capacity: int)
    requires Distinct(s) && |s| == capacity && 2 <= capacity
    ensures KeyedAdd(s, Last(s), capacity) == s[1..]
  {
    TrimMembers(s, capacity);
    assert Last(s[1..]) == Last(s);
    PromoteTail(s[1..]);
  }

  /** Keyed adds never push the size past a capacity of at least one. */
  lemma KeyedAddBounded<T>(s: seq<T>, v: T, capacity: int)
    requires |s| <= capacity && 1 <= capacity
    ensures |KeyedAdd(s, v, capacity)| <= capacity
  {
  }

  /**
   * Any sequence of keyed adds keeps a list within a capacity of at least one. The cache
   * itself keeps to this only from capacity 2 on: at capacity 1 its list breaks (see `FromArray`).
   */
  lemma {:induction false} KeyedAddAllBounded<T>(s: seq<T>, xs: seq<T>, capacity: int)
    requires |s| <= capacity && 1 <= capacity
    ensures |KeyedAddAll(s, xs, capacity)| <= capacity
    decreases |xs|
  {
    if xs != [] {
      KeyedAddAllBounded(s, xs[..|xs| - 1], capacity);
      KeyedAddBounded(KeyedAddAll(s, xs[..|xs| - 1], capacity), Last(xs), capacity);
    }
  }

  /** Up to the capacity, distinct values added to an empty cache line up in insertion order. */
  lemma {:induction false} KeyedAddAllFits<T>(xs: seq<T>, capacity: int)
    requires Distinct(xs) && |xs| <= capacity
    ensures KeyedAddAll([], xs, capacity) == xs
    decreases |xs|
  {
    if xs != [] {
      var init := xs[..|xs| - 1];
      DistinctInit(xs);
      KeyedAddAllFits(init, capacity);
      assert KeyedAddAll([], xs, capacity) == Promote(Trim(init, capacity), Last(xs));
      assert Trim(init, capacity) == init;
      assert Remove(init, Last(xs)) == init;
      assert init + [Last(xs)] == xs;
    }
  }

  /** Adding capacity + 1 distinct values evicts exactly the first one inserted. */
  lemma FirstInsertedIsFirstEvicted<T>(xs: seq<T>, capacity: int)
    requires Distinct(xs) && |xs| == capacity + 1 && 1 <= capacity
    ensures KeyedAddAll([], xs, capacity) == xs[1..]
  {
    var init := xs[..capacity];
    assert init == xs[..|xs| - 1];
    DistinctInit(xs);
    KeyedAddAllFits(init, capacity);
    assert KeyedAddAll([], xs, capacity) == Promote(Trim(init, capacity), Last(xs));
    assert Trim(init, capacity) == init[1..];
    assert Last(xs) !in init[1..] by {
      forall i | 0 <= i < |init[1..]| ensures init[1..][i] != Last(xs) {
        assert init[1..][i] == xs[i + 1];
      }
    }
    assert init[1..] + [Last(xs)] == xs[1..];
  }

  /** Legacy adds on an intact list never push the size past a capacity of at least one. */
  lemma LegacyAddBounded<T>(s: seq<T>, v: T, capacity: int)
    requires |s| <= capacity && 1 <= capacity
    ensures |LegacyAdd(s, v, capacity)| <= capacity
  {
  }
}
