/**
 * The legacy cache of src/main/java/LruCache.java: a singly-linked list of nodes from
 * `head` (least recently used, next to evict) to `tail` (most recently used), with a
 * `size` counter and positional access.
 *
 * As in the keyed cache, nodes live in an arena `nodes` and a reference is a slot number.
 * `get(index)` relinks a node without clearing its `next` and counts it again, so the list
 * may become cyclic and `size` may drift away from the list's length. The walk of `get` keeps
 * Java's 32-bit `int` counter, which wraps round; the contracts tell the intact list apart
 * from the general case.
 */
module LegacyCache {
  import opened Outcomes
  import opened LruSpec

  const DefaultCapacity := 10

  /** Java's `int`. */
  type Int32 = x: int | -0x8000_0000 <= x < 0x8000_0000

  /** The value of a Java `int` counter that started at 0 after `n` increments (`++` wraps past the largest `int`). */
  function Counter(n: nat): (r: Int32)
    requires n < 0x1_0000_0000
    ensures (r - n) % 0x1_0000_0000 == 0
  {
    if n < 0x8000_0000 then n else n - 0x1_0000_0000
  }

  /**
   * The number of increments after which a counter that started at 0 first equals `index`:
   * `index` itself when it is not negative, and only after wrapping round when it is.
   */
  function Steps(index: Int32): (r: nat)
    ensures r < 0x1_0000_0000 && Counter(r) == index
    ensures forall n: nat | n < r :: Counter(n) != index
  {
    if index >= 0 then index else index + 0x1_0000_0000
  }

  /** A node of the list: its value and the slot of its successor. */
  datatype Node<T> = Node(value: T, next: Option<nat>)

  ghost predicate InArena<T>(nodes: seq<Node<T>>, p: Option<nat>) {
    p.Some? ==> p.value < |nodes|
  }

  /** Every `next` link names a slot of the arena. */
  ghost predicate LinksInArena<T>(nodes: seq<Node<T>>) {
    forall i | 0 <= i < |nodes| :: InArena(nodes, nodes[i].next)
  }

  ghost predicate OrderInArena<T>(nodes: seq<Node<T>>, order: seq<nat>) {
    forall i | 0 <= i < |order| :: order[i] < |nodes|
  }

  /** The arena kept its length and no node changed its value (links may have changed). */
  ghost predicate ValuesKept<T>(before: seq<Node<T>>, after: seq<Node<T>>) {
    |before| == |after| && forall i | 0 <= i < |before| :: after[i].value == before[i].value
  }

  /** The slot reached from `start` by following `next` `k` times; `None` once the walk fell off. */
  ghost function Walk<T>(nodes: seq<Node<T>>, start: Option<nat>, k: nat): (r: Option<nat>)
    requires LinksInArena(nodes) && InArena(nodes, start)
    ensures InArena(nodes, r)
  {
    if k == 0 then start
    else match Walk(nodes, start, k - 1)
      case None => None
      case Some(i) => nodes[i].next
  }

  /** The value on the node reached from `start` after `k` steps, if the walk is still on a node. */
  ghost function WalkValue<T>(nodes: seq<Node<T>>, start: Option<nat>, k: nat): Option<T>
    requires LinksInArena(nodes) && InArena(nodes, start)
  {
    match Walk(nodes, start, k)
    case None => None
    case Some(p) => Some(nodes[p].value)
  }

  lemma {:induction false} WalkStaysOff<T>(nodes: seq<Node<T>>, start: Option<nat>, i: nat, j: nat)
    requires LinksInArena(nodes) && InArena(nodes, start) && i <= j && Walk(nodes, start, i).None?
    ensures Walk(nodes, start, j).None?
    decreases j
  {
    if j > i {
      WalkStaysOff(nodes, start, i, j - 1);
    }
  }

  /** Walking `a + m` steps is walking `a` steps and then `m` more. */
  lemma {:induction false} WalkSplit<T>(nodes: seq<Node<T>>, start: Option<nat>, a: nat, m: nat)
    requires LinksInArena(nodes) && InArena(nodes, start)
    ensures Walk(nodes, start, a + m) == Walk(nodes, Walk(nodes, start, a), m)
    decreases m
  {
    if m > 0 {
      WalkSplit(nodes, start, a, m - 1);
    }
  }

  /** The numbers below `n`. */
  ghost function Below(n: nat): (r: set<nat>)
    ensures forall x: nat :: x in r <==> x < n
    ensures |r| == n
  {
    if n == 0 then {} else Below(n - 1) + {n - 1}
  }

  lemma {:induction false} SubsetCard<U>(a: set<U>, b: set<U>)
    requires a <= b
    ensures |a| <= |b|
  {
    if a != {} {
      var x :| x in a;
      SubsetCard(a - {x}, b - {x});
    }
  }

  /** Numbers below `n` that all differ are at most `n` many (the pigeonhole principle). */
  lemma DistinctBound(s: seq<nat>, n: nat)
    requires Distinct(s) && forall i | 0 <= i < |s| :: s[i] < n
    ensures |s| <= n
  {
    var seen := set x | x in s;
    DistinctCard(s);
    assert seen <= Below(n);
    SubsetCard(seen, Below(n));
  }

  /**
   * A walk that is still on a node after `|nodes|` steps has visited some node twice, so it
   * runs round a cycle and never falls off: a `while (current != null)` loop over it can only
   * be left from inside its body.
   */
  lemma LongWalkNeverEnds<T>(nodes: seq<Node<T>>, start: Option<nat>)
    requires LinksInArena(nodes) && InArena(nodes, start) && Walk(nodes, start, |nodes|).Some?
    ensures forall k: nat :: Walk(nodes, start, k).Some?
  {
    var n := |nodes|;
    forall i: nat | i <= n ensures Walk(nodes, start, i).Some? {
      if Walk(nodes, start, i).None? {
        WalkStaysOff(nodes, start, i, n);
      }
    }
    var ws := seq(n + 1, i requires 0 <= i <= n => Walk(nodes, start, i).value);
    assert !Distinct(ws) by {
      if Distinct(ws) {
        DistinctBound(ws, n);
      }
    }
    var i, j :| 0 <= i < j < |ws| && ws[i] == ws[j];
    forall k: nat ensures Walk(nodes, start, k).Some? {
      Cycles(nodes, start, i, j, k);
    }
  }

  /** Once the walk revisits after `j` steps the node it was on after `i`, it repeats with period `j - i`. */
  lemma {:induction false} Cycles<T>(nodes: seq<Node<T>>, start: Option<nat>, i: nat, j: nat, k: nat)
    requires LinksInArena(nodes) && InArena(nodes, start) && i < j
    requires Walk(nodes, start, i) == Walk(nodes, start, j)
    requires forall m: nat | m <= j :: Walk(nodes, start, m).Some?
    ensures Walk(nodes, start, k).Some?
    decreases k
  {
    if k > j {
      WalkSplit(nodes, start, j, k - j);
      WalkSplit(nodes, start, i, k - j);
      Cycles(nodes, start, i, j, i + k - j);
    }
  }

  /**
   * `order` lists the slots of the list from `head` to `tail`: no slot twice, each `next`
   * link names the following slot, and the last node has no successor. An empty list has no
   * head; its tail is left unconstrained because `evict` never clears it.
   */
  ghost predicate IsChain<T>(nodes: seq<Node<T>>, head: Option<nat>, tail: Option<nat>, order: seq<nat>) {
    OrderInArena(nodes, order) && Distinct(order)
    && (order == [] ==> head.None?)
    && (order != [] ==> head == Some(order[0]) && tail == Some(Last(order)) && nodes[Last(order)].next.None?)
    && (forall i, j | 0 <= i && j == i + 1 && j < |order| :: nodes[order[i]].next == Some(order[j]))
  }

  /** The values of the listed slots, in list order. */
  ghost function ValuesOf<T>(nodes: seq<Node<T>>, order: seq<nat>): (vs: seq<T>)
    requires OrderInArena(nodes, order)
  {
    seq(|order|, i requires 0 <= i < |order| => nodes[order[i]].value)
  }

  /** Along an intact list, `k` steps from the head reach entry `k`, and one more step falls off. */
  lemma {:induction false} ChainWalk<T>(nodes: seq<Node<T>>, head: Option<nat>, tail: Option<nat>, order: seq<nat>, k: nat)
    requires LinksInArena(nodes) && IsChain(nodes, head, tail, order) && k <= |order|
    ensures InArena(nodes, head)
    ensures Walk(nodes, head, k) == if k < |order| then Some(order[k]) else None
  {
    if k > 0 {
      ChainWalk(nodes, head, tail, order, k - 1);
    }
  }

  /** Along an intact list, the `k`-th value walked from the head is the `k`-th listed value. */
  lemma ChainValues<T>(nodes: seq<Node<T>>, head: Option<nat>, tail: Option<nat>, order: seq<nat>)
    requires LinksInArena(nodes) && IsChain(nodes, head, tail, order) && InArena(nodes, head)
    ensures forall k: nat :: WalkValue(nodes, head, k) == if k < |order| then Some(ValuesOf(nodes, order)[k]) else None
  {
    forall k: nat ensures WalkValue(nodes, head, k) == if k < |order| then Some(ValuesOf(nodes, order)[k]) else None {
      if k <= |order| {
        ChainWalk(nodes, head, tail, order, k);
      } else {
        ChainWalk(nodes, head, tail, order, |order|);
        WalkStaysOff(nodes, head, |order|, k);
      }
    }
  }

  /** Slot numbers and values of a list survive any change that keeps the values of the arena. */
  lemma OrderKept<T>(before: seq<Node<T>>, after: seq<Node<T>>, order: seq<nat>)
    requires ValuesKept(before, after) && OrderInArena(before, order)
    ensures OrderInArena(after, order) && ValuesOf(after, order) == ValuesOf(before, order)
  {
  }

  /** The arena after `tail.setNext(c)`. */
  ghost function Linked<T>(nodes: seq<Node<T>>, t: nat, c: nat): (after: seq<Node<T>>)
    requires t < |nodes|
    ensures |after| == |nodes| && after[t].next == Some(c) && after[t].value == nodes[t].value
  {
    nodes[t := nodes[t].(next := Some(c))]
  }

  lemma LinkedKeeps<T>(nodes: seq<Node<T>>, t: nat, c: nat)
    requires LinksInArena(nodes) && t < |nodes| && c < |nodes|
    ensures LinksInArena(Linked(nodes, t, c)) && ValuesKept(nodes, Linked(nodes, t, c))
  {
  }

  /** Dropping the head of an intact list leaves an intact list behind the old head's successor. */
  lemma ChainAfterEvict<T>(nodes: seq<Node<T>>, head: Option<nat>, tail: Option<nat>, order: seq<nat>)
    requires IsChain(nodes, head, tail, order) && order != []
    ensures IsChain(nodes, nodes[order[0]].next, tail, order[1..])
    ensures ValuesOf(nodes, order[1..]) == ValuesOf(nodes, order)[1..]
  {
    var o := order[1..];
    if o != [] {
      assert nodes[order[0]].next == Some(o[0]);
    }
    forall i, j | 0 <= i < j < |o| ensures o[i] != o[j] {
      assert o[i] == order[i + 1] && o[j] == order[j + 1];
    }
    forall i, j | 0 <= i && j == i + 1 && j < |o| ensures nodes[o[i]].next == Some(o[j]) {
      assert o[i] == order[i + 1] && o[j] == order[j + 1];
    }
  }

  /** Linking a fresh, unlisted node `c` behind the tail of an intact, non-empty list extends it. */
  lemma ChainAfterAppend<T>(nodes: seq<Node<T>>, head: Option<nat>, tail: Option<nat>, order: seq<nat>, c: nat)
    requires IsChain(nodes, head, tail, order) && order != []
    requires c < |nodes| && c !in order && nodes[c].next.None?
    ensures IsChain(Linked(nodes, Last(order), c), head, Some(c), order + [c])
  {
    var after, o := Linked(nodes, Last(order), c), order + [c];
    forall i, j | 0 <= i < j < |o| ensures o[i] != o[j] {
      if j < |order| {
        assert o[i] == order[i] && o[j] == order[j];
      }
    }
    forall i, j | 0 <= i && j == i + 1 && j < |o| ensures after[o[i]].next == Some(o[j]) {
      if j < |order| {
        assert o[i] == order[i] && o[j] == order[j];
        assert order[i] != Last(order);
      }
    }
  }

  /** The arena after `get` moved node `c`, reached right after node `p`, to the tail. */
  ghost function RequeuedNodes<T>(nodes: seq<Node<T>>, head: Option<nat>, tail: Option<nat>, c: nat, p: nat): (after: seq<Node<T>>)
    requires c < |nodes| && p < |nodes| && tail.Some? && tail.value < |nodes|
    ensures |after| == |nodes| && ValuesKept(nodes, after)
    ensures var h := if head == Some(c) then nodes[c].next else head;
            (h.None? ==> after == nodes)
            && (h.Some? ==> after[if nodes[c].next.None? then p else tail.value].next == Some(c))
  {
    var next := nodes[c].next;
    var h := if head == Some(c) then next else head;
    if h.None? then nodes
    else Linked(nodes, if next.None? then p else tail.value, c)
  }

  /** The head after `get` moved node `c` to the tail. */
  ghost function RequeuedHead<T>(nodes: seq<Node<T>>, head: Option<nat>, c: nat): (r: Option<nat>)
    requires c < |nodes|
    ensures r.Some? && (r == head || r == nodes[c].next || r == Some(c))
    ensures head != Some(c) && head.Some? ==> r == head
  {
    var h := if head == Some(c) then nodes[c].next else head;
    if h.None? then Some(c) else h
  }

  /**
   * A node whose successor is some listed node closes the intact list into a cycle: every
   * walk from a listed node stays on listed nodes forever.
   */
  lemma {:induction false} ClosedWalk<T>(nodes: seq<Node<T>>, head: Option<nat>, tail: Option<nat>, order: seq<nat>, q: nat, s: nat, k: nat)
    requires LinksInArena(nodes) && IsChain(nodes, head, tail, order) && q in order && s in order
    ensures LinksInArena(Linked(nodes, Last(order), q))
    ensures var w := Walk(Linked(nodes, Last(order), q), Some(s), k); w.Some? && w.value in order
    decreases k
  {
    var after := Linked(nodes, Last(order), q);
    LinkedKeeps(nodes, Last(order), q);
    if k > 0 {
      ClosedWalk(nodes, head, tail, order, q, s, k - 1);
      var x := Walk(after, Some(s), k - 1).value;
      var i :| 0 <= i < |order| && order[i] == x;
      if i + 1 < |order| {
        assert nodes[order[i]].next == Some(order[i + 1]);
        assert x != Last(order);
      }
    }
  }

  /**
   * What `get(k)` does to an intact list: taking the last entry leaves the list as it was,
   * taking any other entry closes the list into a cycle that no walk from the head leaves.
   */
  lemma RequeueIntact<T>(nodes: seq<Node<T>>, head: Option<nat>, tail: Option<nat>, order: seq<nat>, k: nat)
    requires LinksInArena(nodes) && IsChain(nodes, head, tail, order) && k < |order|
    ensures var c, p := order[k], if k == 0 then order[k] else order[k - 1];
            var after, h := RequeuedNodes(nodes, head, tail, c, p), RequeuedHead(nodes, head, c);
            LinksInArena(after) && InArena(after, h)
            && (k == |order| - 1 ==> after == nodes && h == head)
            && (k < |order| - 1 ==> forall m: nat :: Walk(after, h, m).Some?)
  {
    var c, p := order[k], if k == 0 then order[k] else order[k - 1];
    var after, h := RequeuedNodes(nodes, head, tail, c, p), RequeuedHead(nodes, head, c);
    assert head == Some(order[0]) && tail == Some(Last(order));
    if k == |order| - 1 {
      if k > 0 {
        assert order[k - 1] != c;
        assert nodes[order[k - 1]].next == Some(c);
        assert Linked(nodes, p, c) == nodes;
      }
    } else {
      assert nodes[c].next == Some(order[k + 1]);
      assert after == Linked(nodes, Last(order), c);
      assert h.value in order by {
        if k == 0 {
          assert h == Some(order[1]);
        } else {
          assert order[0] != c;
        }
      }
      forall m: nat ensures Walk(after, h, m).Some? {
        ClosedWalk(nodes, head, tail, order, c, h.value, m);
      }
    }
  }

  class LruCache<T> {
    const capacity: int
    var nodes: seq<Node<T>>
    var head: Option<nat>
    var tail: Option<nat>
    var size: int
    /** The slots of the list from head to tail, as every operation would leave it on an intact list. */
    ghost var order: seq<nat>

    /** Arena well-formedness: kept by every operation, whatever state the list is in. */
    ghost predicate Valid()
      reads this
    {
      LinksInArena(nodes) && InArena(nodes, head) && InArena(nodes, tail)
      && (head.Some? ==> tail.Some?) && OrderInArena(nodes, order)
    }

    /** The textbook invariant: the list is intact and `size` counts its nodes. */
    ghost predicate Intact()
      reads this
    {
      Valid() && IsChain(nodes, head, tail, order) && size == |order|
    }

    /** The cached values from least to most recently used. */
    ghost function Values(): seq<T>
      reads this
      requires Valid()
    {
      ValuesOf(nodes, order)
    }

    constructor (capacity: int)
      ensures Intact() && Values() == [] && this.capacity == capacity
      ensures nodes == [] && head.None? && tail.None? && size == 0
    {
      this.capacity := capacity;
      nodes, head, tail, size := [], None, None, 0;
      order := [];
    }

    /** The no-argument constructor: capacity 10. */
    constructor Default()
      ensures Intact() && Values() == [] && capacity == DefaultCapacity
      ensures nodes == [] && head.None? && tail.None? && size == 0
    {
      capacity := DefaultCapacity;
      nodes, head, tail, size := [], None, None, 0;
      order := [];
    }

    /** `add(value)`: a fresh node is allocated and inserted as new. */
    method Add(value: T)
      requires Valid()
      modifies this
      ensures Valid() && |nodes| == |old(nodes)| + 1 && tail == Some(|old(nodes)|)
      ensures old(head).None? ==>
                nodes == old(nodes) + [Node(value, None)] && head == tail && size == old(size) + 1
                && order == [|old(nodes)|]
      ensures old(head).Some? ==>
                var evicts := old(size) == capacity;
                old(tail).Some?
                && nodes == Linked(old(nodes) + [Node(value, None)], old(tail).value, |old(nodes)|)
                && head == (if evicts then old(nodes)[old(head).value].next else old(head))
                && size == (if evicts then old(size) else old(size) + 1)
                && order == (if evicts && old(order) != [] then old(order)[1..] else old(order)) + [|old(nodes)|]
      ensures old(Intact()) && !(capacity == 1 && |old(Values())| == 1) ==>
                Intact() && Values() == LegacyAdd(old(Values()), value, capacity)
      ensures old(Intact()) && capacity == 1 && |old(Values())| == 1 ==>
                head.None? && tail.Some? && size == 1 && Values() == [value]
    {
      nodes := nodes + [Node(value, None)];
      assert OrderInArena(nodes, order) && ValuesOf(nodes, order) == old(ValuesOf(nodes, order));
      InsertNode(|nodes| - 1, true);
    }

    /**
     * `insertNode(node, isNew)`: into an empty list the node becomes head and tail; otherwise
     * a new node first evicts the head when `size == capacity`, and then the node is linked
     * behind the tail. `size` is incremented in every case.
     */
    method InsertNode(c: nat, isNew: bool)
      requires Valid() && c < |nodes|
      modifies this
      ensures Valid() && ValuesKept(old(nodes), nodes) && tail == Some(c)
      ensures old(head).None? ==> head == Some(c) && nodes == old(nodes) && size == old(size) + 1 && order == [c]
      ensures old(head).Some? ==>
                var evicts := isNew && old(size) == capacity;
                old(tail).Some? && nodes == Linked(old(nodes), old(tail).value, c)
                && head == (if evicts then old(nodes)[old(head).value].next else old(head))
                && size == (if evicts then old(size) else old(size) + 1)
                && order == (if evicts && old(order) != [] then old(order)[1..] else old(order)) + [c]
      ensures old(Intact()) && c !in old(order) && old(nodes)[c].next.None?
              && !(isNew && capacity == 1 && |old(order)| == 1) ==>
                Intact()
                && Values() == (if isNew then Trim(old(Values()), capacity) else old(Values())) + [old(nodes)[c].value]
    {
      if head.None? {
        head := Some(c);
        tail := head;
        order := [c];
      } else {
        ghost var intact := Intact();
        if isNew && size == capacity {
          if intact {
            ChainAfterEvict(nodes, head, tail, order);
          }
          var evicted := Evict();
        }
        LinkTail(c);
      }
      size := size + 1;
    }

    /** Java lines 61-62: node `c` is linked in behind the tail and becomes the tail. */
    method LinkTail(c: nat)
      requires Valid() && c < |nodes| && tail.Some?
      modifies this
      ensures Valid() && ValuesKept(old(nodes), nodes)
      ensures nodes == Linked(old(nodes), old(tail).value, c) && tail == Some(c)
      ensures head == old(head) && size == old(size) && order == old(order) + [c]
      ensures old(IsChain(nodes, head, tail, order)) && old(order) != [] && c !in old(order) && old(nodes)[c].next.None? ==>
                IsChain(nodes, head, tail, order) && Values() == old(Values()) + [old(nodes)[c].value]
    {
      if IsChain(nodes, head, tail, order) && order != [] && c !in order && nodes[c].next.None? {
        ChainAfterAppend(nodes, head, tail, order, c);
      }
      ghost var before := nodes;
      LinkedKeeps(before, tail.value, c);
      nodes := nodes[tail.value := nodes[tail.value].(next := Some(c))];
      OrderKept(before, nodes, order);
      tail := Some(c);
      order := order + [c];
    }

    /** `evict()`: null on an empty list; otherwise the head's value, and its successor becomes the head. */
    method Evict() returns (r: Option<T>)
      requires Valid()
      modifies this
      ensures Valid() && nodes == old(nodes) && tail == old(tail)
      ensures old(head).None? ==> r.None? && unchanged(this)
      ensures old(head).Some? ==>
                r == Some(old(nodes)[old(head).value].value) && head == old(nodes)[old(head).value].next
                && size == old(size) - 1 && order == (if old(order) == [] then [] else old(order)[1..])
      ensures old(Intact()) ==>
                Intact()
                && r == (if old(Values()) == [] then None else Some(old(Values())[0]))
                && Values() == (if old(Values()) == [] then [] else old(Values())[1..])
    {
      if head.None? {
        return None;
      }
      if Intact() {
        ChainAfterEvict(nodes, head, tail, order);
      }
      var prevHead := head.value;
      head := nodes[prevHead].next;
      size := size - 1;
      order := if order == [] then [] else order[1..];
      return Some(nodes[prevHead].value);
    }

    /**
     * `get(index)`: an index above `size` throws before anything changes. Otherwise the list
     * is walked from the head, counting with a Java `int`, until the walk falls off (null) or
     * the counter equals `index`; that node is moved to the tail and its value is returned.
     * The counter reaches a negative `index` only after wrapping round, `Steps(index)` steps in.
     */
    method Get(index: Int32) returns (r: Result<Option<T>>)
      requires Valid()
      modifies this
      ensures Valid()
      ensures index > old(size) ==> r == Err(IndexOutOfBounds) && unchanged(this)
      ensures index <= old(size) && Walk(old(nodes), old(head), Steps(index)).None? ==>
                r == Ok(None) && unchanged(this)
      ensures index <= old(size) && Walk(old(nodes), old(head), Steps(index)).Some? ==>
                var t := Steps(index);
                var c := Walk(old(nodes), old(head), t).value;
                var p := if t == 0 then c else Walk(old(nodes), old(head), t - 1).value;
                old(tail).Some?
                && r == Ok(Some(old(nodes)[c].value))
                && nodes == RequeuedNodes(old(nodes), old(head), old(tail), c, p)
                && head == RequeuedHead(old(nodes), old(head), c)
                && tail == Some(c) && size == old(size) + 1 && order == old(order)
      ensures r.Ok? && r.value.Some? ==> tail.Some? && tail.value < |nodes| && r.value == Some(nodes[tail.value].value)
      ensures index <= old(size) && Walk(old(nodes), old(head), |old(nodes)|).Some? ==> r.Ok? && r.value.Some?
      ensures old(Intact()) && index <= |old(Values())| <= Steps(index) ==> r == Ok(None)
      ensures old(Intact()) && Steps(index) < |old(Values())| ==>
                r == Ok(Some(old(Values())[Steps(index)]))
                && tail.Some? && nodes[tail.value].value == old(Values())[Steps(index)]
                && size == |order| + 1
      ensures old(Intact()) && Steps(index) == |old(Values())| - 1 ==>
                IsChain(nodes, head, tail, order) && Values() == old(Values())
      ensures old(Intact()) && Steps(index) < |old(Values())| - 1 ==> forall k: nat :: Walk(nodes, head, k).Some?
    {
      if index > size {
        return Err(IndexOutOfBounds);
      }
      var t := Steps(index);
      if Walk(nodes, head, |nodes|).Some? {
        LongWalkNeverEnds(nodes, head);
      }
      if Intact() && |order| <= t {
        ChainWalk(nodes, head, tail, order, |order|);
        WalkStaysOff(nodes, head, |order|, t);
      }
      if Intact() && t < |order| {
        ChainWalk(nodes, head, tail, order, t);
        if t > 0 {
          ChainWalk(nodes, head, tail, order, t - 1);
        }
        RequeueIntact(nodes, head, tail, order, t);
      }
      r := Seek(index);
    }

    /** Java lines 103-129: the walk of `get(index)` once the index has passed the size check. */
    method Seek(index: Int32) returns (r: Result<Option<T>>)
      requires Valid()
      modifies this
      ensures Valid()
      ensures Walk(old(nodes), old(head), Steps(index)).None? ==> r == Ok(None) && unchanged(this)
      ensures Walk(old(nodes), old(head), Steps(index)).Some? ==>
                var t := Steps(index);
                var c := Walk(old(nodes), old(head), t).value;
                var p := if t == 0 then c else Walk(old(nodes), old(head), t - 1).value;
                old(tail).Some?
                && r == Ok(Some(old(nodes)[c].value))
                && nodes == RequeuedNodes(old(nodes), old(head), old(tail), c, p)
                && head == RequeuedHead(old(nodes), old(head), c)
                && tail == Some(c) && size == old(size) + 1 && order == old(order)
      ensures r.Ok? && r.value.Some? ==> tail.Some? && tail.value < |nodes| && r.value == Some(nodes[tail.value].value)
    {
      var current := head;
      var prev := head;
      var idx: Int32 := 0;
      ghost var steps: nat := 0;
      while current.Some?
        invariant steps <= Steps(index) && idx == Counter(steps)
        invariant current == Walk(nodes, head, steps) && (head.None? ==> current.None?)
        invariant if steps == 0 then prev == head else prev == Walk(nodes, head, steps - 1)
        invariant unchanged(this)
        decreases Steps(index) - steps
      {
        if idx == index {
          var result := Requeue(current.value, prev.value);
          return Ok(Some(result));
        }
        prev := current;
        current := nodes[current.value].next;
        // `++idx` on a Java `int`.
        idx := if idx == 0x7fff_ffff then -0x8000_0000 else idx + 1;
        steps := steps + 1;
      }
      WalkStaysOff(nodes, head, steps, Steps(index));
      return Ok(None);
    }

    /** Java lines 108-121: node `c`, reached right after `p`, becomes the tail; its own `next` stays. */
    method Requeue(c: nat, p: nat) returns (result: T)
      requires Valid() && c < |nodes| && p < |nodes| && head.Some?
      modifies this
      ensures Valid() && tail.Some? && |nodes| == |old(nodes)| && result == old(nodes)[c].value == nodes[c].value
      ensures nodes == RequeuedNodes(old(nodes), old(head), old(tail), c, p)
      ensures head == RequeuedHead(old(nodes), old(head), c)
      ensures tail == Some(c) && size == old(size) + 1 && order == old(order)
    {
      var currentNext := nodes[c].next;
      if Some(c) == head {
        head := currentNext;
      }
      if currentNext.None? {
        tail := Some(p);
      }
      ghost var o := order;
      InsertNode(c, false);
      order := o;
      result := nodes[c].value;
    }

    /** `getSize`: the counter, which for an intact list is its length. */
    method GetSize() returns (r: int)
      requires Valid()
      ensures r == size
      ensures Intact() ==> r == |Values()|
    {
      return size;
    }

    method GetCapacity() returns (r: int)
      ensures r == capacity
    {
      return capacity;
    }

    /** `peekNextEviction`: the head's value, which for an intact list is its first value. */
    method PeekNextEviction() returns (r: Option<T>)
      requires Valid()
      ensures r == if head.None? then None else Some(nodes[head.value].value)
      ensures Intact() ==> r == if Values() == [] then None else Some(Values()[0])
    {
      return if head.None? then None else Some(nodes[head.value].value);
    }

    /** `peekLastEviction`: the tail's value, which for an intact, non-empty list is its last value. */
    method PeekLastEviction() returns (r: Option<T>)
      requires Valid()
      ensures r == if tail.None? then None else Some(nodes[tail.value].value)
      ensures Intact() && Values() != [] ==> r == Some(Last(Values()))
    {
      return if tail.None? then None else Some(nodes[tail.value].value);
    }

    /**
     * `toArray(input)`: null when `size` is 0, and a null array throws; otherwise the `i`-th
     * value walked from the head goes to slot `i`, for as long as both last.
     */
    method ToArray(input: array?<Option<T>>) returns (r: Result<array?<Option<T>>>)
      requires Valid()
      modifies input
      ensures size == 0 ==> r == Ok(null) && (input != null ==> unchanged(input))
      ensures size != 0 && input == null ==> r == Err(NullPointer)
      ensures size != 0 && input != null ==>
                r == Ok(input)
                && forall i | 0 <= i < input.Length ::
                     input[i] == if WalkValue(nodes, head, i).Some? then WalkValue(nodes, head, i) else old(input[i])
      ensures size != 0 && input != null && Intact() ==>
                forall i | 0 <= i < input.Length ::
                  input[i] == if i < |Values()| then Some(Values()[i]) else old(input[i])
    {
      if size == 0 {
        return Ok(null);
      }
      if input == null {
        // `input.length` dereferences null.
        return Err(NullPointer);
      }
      var current := head;
      var i, len := 0, input.Length;
      while i < len && current.Some?
        invariant 0 <= i <= len && current == Walk(nodes, head, i)
        invariant forall j | 0 <= j < i :: WalkValue(nodes, head, j).Some? && input[j] == WalkValue(nodes, head, j)
        invariant forall j | i <= j < len :: input[j] == old(input[j])
      {
        input[i] := Some(nodes[current.value].value);
        current := nodes[current.value].next;
        i := i + 1;
      }
      forall j | i <= j < len ensures WalkValue(nodes, head, j).None? || i == len {
        if current.None? {
          WalkStaysOff(nodes, head, i, j);
        }
      }
      if Intact() {
        ChainValues(nodes, head, tail, order);
      }
      return Ok(input);
    }

    /**
     * `toReverseArray(input)`: null when `size` is 0, and a null array throws; otherwise the
     * `i`-th value walked from the head goes to slot `input.Length - 1 - i`.
     */
    method ToReverseArray(input: array?<Option<T>>) returns (r: Result<array?<Option<T>>>)
      requires Valid()
      modifies input
      ensures size == 0 ==> r == Ok(null) && (input != null ==> unchanged(input))
      ensures size != 0 && input == null ==> r == Err(NullPointer)
      ensures size != 0 && input != null ==>
                r == Ok(input)
                && forall i | 0 <= i < input.Length ::
                     var w := WalkValue(nodes, head, input.Length - 1 - i);
                     input[i] == if w.Some? then w else old(input[i])
      ensures size != 0 && input != null && Intact() ==>
                forall i | 0 <= i < input.Length ::
                  var k := input.Length - 1 - i;
                  input[i] == if k < |Values()| then Some(Values()[k]) else old(input[i])
    {
      if size == 0 {
        return Ok(null);
      }
      if input == null {
        // `input.length` dereferences null.
        return Err(NullPointer);
      }
      var current := head;
      var i := input.Length - 1;
      ghost var step: nat := 0;
      while i > -1 && current.Some?
        invariant -1 <= i < input.Length && step == input.Length - 1 - i && current == Walk(nodes, head, step)
        invariant forall j | i < j < input.Length :: input[j].Some? && input[j] == WalkValue(nodes, head, input.Length - 1 - j)
        invariant forall j | 0 <= j <= i :: input[j] == old(input[j])
      {
        assert WalkValue(nodes, head, input.Length - 1 - i) == Some(nodes[current.value].value);
        input[i] := Some(nodes[current.value].value);
        current := nodes[current.value].next;
        i, step := i - 1, step + 1;
      }
      forall k: nat | step <= k ensures WalkValue(nodes, head, k).None? || i == -1 {
        if current.None? {
          WalkStaysOff(nodes, head, step, k);
        }
      }
      if Intact() {
        ChainValues(nodes, head, tail, order);
      }
      return Ok(input);
    }
  }
}
