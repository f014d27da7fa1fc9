/**
 * The keyed cache of src/main/java/com/thorrism/LruCache.java: a map from each value to
 * its node, and a doubly-linked list of nodes from `head` (least recently used, next to
 * evict) to `tail` (most recently used).
 *
 * Java nodes are objects; here they live in an arena, the sequence `nodes`, and a
 * reference to a node is its slot number. `new Node(value)` appends a slot, and
 * reference equality (`oldValue == tail`) is equality of slot numbers.
 */
module KeyedCache {
  import opened Outcomes
  import opened LruSpec

  const DefaultCapacity := 10

  /** A node of the order list: its value and the slots of its neighbours. */
  datatype Node<T> = Node(value: T, next: Option<nat>, prev: Option<nat>)

  ghost predicate InArena<T>(nodes: seq<Node<T>>, p: Option<nat>) {
    p.Some? ==> p.value < |nodes|
  }

  /** Every link of every node names a slot of the arena (Java: no dangling reference). */
  ghost predicate LinksInArena<T>(nodes: seq<Node<T>>) {
    forall i | 0 <= i < |nodes| :: InArena(nodes, nodes[i].next) && InArena(nodes, nodes[i].prev)
  }

  ghost predicate OrderInArena<T>(nodes: seq<Node<T>>, order: seq<nat>) {
    forall i | 0 <= i < |order| :: order[i] < |nodes|
  }

  /** The arena only grew and no node changed its value (links may have changed). */
  ghost predicate ValuesKept<T>(before: seq<Node<T>>, after: seq<Node<T>>) {
    |before| <= |after| && forall i | 0 <= i < |before| :: after[i].value == before[i].value
  }

  /** Every key of the index names a node that holds that key. */
  ghost predicate KeysHome<T>(nodes: seq<Node<T>>, dataMap: map<T, nat>) {
    forall k | k in dataMap :: dataMap[k] < |nodes| && nodes[dataMap[k]].value == k
  }

  /** The slot reached from `start` by following `next` `k` times; `None` once the walk fell off. */
  ghost function Walk<T>(nodes: seq<Node<T>>, start: Option<nat>, k: nat): (r: Option<nat>)
    requires LinksInArena(nodes) && InArena(nodes, start)
    ensures InArena(nodes, r)
  {
    if k == 0 then start
    else match Walk(nodes, start, k - 1)
      case None => None
      case Some(i) => nodes[i].next
  }

  /** The value on the node reached from `start` after `k` steps, if the walk is still on a node. */
  ghost function WalkValue<T>(nodes: seq<Node<T>>, start: Option<nat>, k: nat): Option<T>
    requires LinksInArena(nodes) && InArena(nodes, start)
  {
    match Walk(nodes, start, k)
    case None => None
    case Some(p) => Some(nodes[p].value)
  }

  lemma {:induction false} WalkStaysOff<T>(nodes: seq<Node<T>>, start: Option<nat>, i: nat, j: nat)
    requires LinksInArena(nodes) && InArena(nodes, start) && i <= j && Walk(nodes, start, i).None?
    ensures Walk(nodes, start, j).None?
    decreases j
  {
    if j > i {
      WalkStaysOff(nodes, start, i, j - 1);
    }
  }

  /**
   * `order` lists the slots of the order list from `head` to `tail`: no slot twice, `next`
   * and `previous` links agree with it, and the ends have no outer neighbour. An empty
   * list has no head; its tail is left unconstrained because `evict` never clears it.
   */
  ghost predicate IsChain<T>(nodes: seq<Node<T>>, head: Option<nat>, tail: Option<nat>, order: seq<nat>) {
    OrderInArena(nodes, order) && Distinct(order)
    && (order == [] ==> head.None?)
    && (order != [] ==>
          head == Some(order[0]) && tail == Some(Last(order))
          && nodes[order[0]].prev.None? && nodes[Last(order)].next.None?)
    && (forall i, j | 0 <= i && j == i + 1 && j < |order| ::
          nodes[order[i]].next == Some(order[j]) && nodes[order[j]].prev == Some(order[i]))
  }

  /** `dataMap` indexes the list: its keys are the listed values, each mapped to its own slot. */
  ghost predicate Indexes<T>(nodes: seq<Node<T>>, dataMap: map<T, nat>, order: seq<nat>) {
    (forall k | k in dataMap :: dataMap[k] in order)
    && (forall i | 0 <= i < |order| ::
          order[i] < |nodes| && nodes[order[i]].value in dataMap && dataMap[nodes[order[i]].value] == order[i])
  }

  /** The values of the listed slots, in list order. */
  ghost function ValuesOf<T>(nodes: seq<Node<T>>, order: seq<nat>): (vs: seq<T>)
    requires OrderInArena(nodes, order)
  {
    seq(|order|, i requires 0 <= i < |order| => nodes[order[i]].value)
  }

  /** The arena after `removeNode(c)`: the neighbours of `c` are linked to each other. */
  ghost function Unlinked<T>(nodes: seq<Node<T>>, c: nat): (after: seq<Node<T>>)
    requires LinksInArena(nodes) && c < |nodes|
    ensures |after| == |nodes|
    ensures nodes[c].prev.Some? ==> after[nodes[c].prev.value].next == nodes[c].next
    ensures nodes[c].next.Some? ==> after[nodes[c].next.value].prev == nodes[c].prev
  {
    var prev, next := nodes[c].prev, nodes[c].next;
    var relinked := if prev.Some? then nodes[prev.value := nodes[prev.value].(next := next)] else nodes;
    if next.Some? then relinked[next.value := relinked[next.value].(prev := prev)] else relinked
  }

  /** The head after `removeNode(c)`: it moves on only when `c` was the head and has a successor. */
  function UnlinkedHead<T>(nodes: seq<Node<T>>, head: Option<nat>, c: nat): (r: Option<nat>)
    requires c < |nodes|
    ensures r == head || (head == Some(c) && r == nodes[c].next && r.Some?)
    ensures head != Some(c) ==> r == head
  {
    if nodes[c].next.Some? && head == Some(c) then nodes[c].next else head
  }

  /** The arena after a fresh node holding `value` is linked in behind the tail slot `t`. */
  ghost function Appended<T>(nodes: seq<Node<T>>, t: nat, value: T): (after: seq<Node<T>>)
    requires t < |nodes|
    ensures |after| == |nodes| + 1 && after[t].next == Some(|nodes|) && after[t].value == nodes[t].value
    ensures after[|nodes|].value == value && after[|nodes|].next.None? && after[|nodes|].prev == Some(t)
  {
    nodes[t := nodes[t].(next := Some(|nodes|))] + [Node(value, None, Some(t))]
  }

  /** The arena after `evict` cleared the `previous` link of the new head `h`. */
  ghost function Detached<T>(nodes: seq<Node<T>>, h: Option<nat>): (after: seq<Node<T>>)
    requires InArena(nodes, h)
    ensures |after| == |nodes|
    ensures h.Some? ==> after[h.value].prev.None? && after[h.value].next == nodes[h.value].next
  {
    if h.Some? then nodes[h.value := nodes[h.value].(prev := None)] else nodes
  }

  lemma UnlinkedKeeps<T>(nodes: seq<Node<T>>, c: nat)
    requires LinksInArena(nodes) && c < |nodes|
    ensures LinksInArena(Unlinked(nodes, c)) && ValuesKept(nodes, Unlinked(nodes, c))
    ensures |Unlinked(nodes, c)| == |nodes|
  {
  }

  lemma DetachedKeeps<T>(nodes: seq<Node<T>>, h: Option<nat>)
    requires LinksInArena(nodes) && InArena(nodes, h)
    ensures LinksInArena(Detached(nodes, h)) && ValuesKept(nodes, Detached(nodes, h))
    ensures |Detached(nodes, h)| == |nodes|
  {
  }

  lemma AppendedKeeps<T>(nodes: seq<Node<T>>, t: nat, value: T)
    requires LinksInArena(nodes) && t < |nodes|
    ensures LinksInArena(Appended(nodes, t, value)) && ValuesKept(nodes, Appended(nodes, t, value))
    ensures |Appended(nodes, t, value)| == |nodes| + 1 && Appended(nodes, t, value)[|nodes|].value == value
  {
  }

  /** Changing links only keeps every key of the index at home. */
  lemma HomeKept<T>(before: seq<Node<T>>, after: seq<Node<T>>, dataMap: map<T, nat>)
    requires ValuesKept(before, after) && KeysHome(before, dataMap)
    ensures KeysHome(after, dataMap)
  {
  }

  /** Along an intact list, the walk from the head visits exactly the listed slots, then falls off. */
  lemma {:induction false} ChainWalk<T>(nodes: seq<Node<T>>, head: Option<nat>, tail: Option<nat>, order: seq<nat>, k: nat)
    requires LinksInArena(nodes) && IsChain(nodes, head, tail, order) && k <= |order|
    ensures InArena(nodes, head)
    ensures Walk(nodes, head, k) == if k < |order| then Some(order[k]) else None
  {
    if k > 0 {
      ChainWalk(nodes, head, tail, order, k - 1);
    }
  }

  /**
   * When the index matches the list, the listed values have no repeats, they are exactly the
   * keys of the index, and so the map's size is the list's length.
   */
  lemma IndexSize<T>(nodes: seq<Node<T>>, dataMap: map<T, nat>, order: seq<nat>)
    requires OrderInArena(nodes, order) && KeysHome(nodes, dataMap) && Indexes(nodes, dataMap, order)
    requires Distinct(order)
    ensures Distinct(ValuesOf(nodes, order))
    ensures forall k :: k in dataMap <==> k in ValuesOf(nodes, order)
    ensures |dataMap| == |order|
  {
    var vs := ValuesOf(nodes, order);
    forall i, j | 0 <= i < j < |vs| ensures vs[i] != vs[j] {
      assert dataMap[vs[i]] == order[i] && dataMap[vs[j]] == order[j];
    }
    forall k ensures k in dataMap <==> k in vs {
      if k in dataMap {
        var i :| 0 <= i < |order| && order[i] == dataMap[k];
        assert vs[i] == k;
      }
      if k in vs {
        var i :| 0 <= i < |vs| && vs[i] == k;
      }
    }
    assert dataMap.Keys == set x | x in vs;
    DistinctCard(vs);
  }

  /** Slot numbers and values of a list survive any change that keeps the values of the arena. */
  lemma OrderKept<T>(before: seq<Node<T>>, after: seq<Node<T>>, order: seq<nat>)
    requires ValuesKept(before, after) && OrderInArena(before, order)
    ensures OrderInArena(after, order) && ValuesOf(after, order) == ValuesOf(before, order)
  {
  }

  /** Unlinking the listed slot `c` from a list without repeated values unlinks its value. */
  lemma ValuesOfRemove<T>(nodes: seq<Node<T>>, order: seq<nat>, c: nat)
    requires OrderInArena(nodes, order) && Distinct(ValuesOf(nodes, order)) && c in order
    ensures Distinct(order) && OrderInArena(nodes, Remove<nat>(order, c))
    ensures ValuesOf(nodes, Remove<nat>(order, c)) == Remove(ValuesOf(nodes, order), nodes[c].value)
  {
    var vs := ValuesOf(nodes, order);
    forall i, j | 0 <= i < j < |order| ensures order[i] != order[j] {
      assert vs[i] != vs[j];
    }
    var k :| 0 <= k < |order| && order[k] == c;
    RemoveAt<nat>(order, k);
    RemoveAt(vs, k);
    ValuesOfWithout(nodes, order, k);
  }

  /** Dropping entry `k` of a list drops entry `k` of its values. */
  lemma ValuesOfWithout<T>(nodes: seq<Node<T>>, order: seq<nat>, k: nat)
    requires OrderInArena(nodes, order) && k < |order|
    ensures OrderInArena(nodes, order[..k] + order[k + 1..])
    ensures ValuesOf(nodes, order[..k] + order[k + 1..]) == ValuesOf(nodes, order)[..k] + ValuesOf(nodes, order)[k + 1..]
  {
    var o := order[..k] + order[k + 1..];
    forall i | 0 <= i < |o| ensures o[i] == if i < k then order[i] else order[i + 1] {
    }
  }

  /** After promoting the value `v` from slot `dataMap[v]` to the fresh slot `n`, the index still matches. */
  lemma IndexesAfterPromote<T>(before: seq<Node<T>>, after: seq<Node<T>>, dataMap: map<T, nat>, order: seq<nat>, v: T, n: nat)
    requires ValuesKept(before, after) && KeysHome(before, dataMap) && Indexes(before, dataMap, order)
    requires Distinct(order) && v in dataMap && n == |before| && n < |after| && after[n].value == v
    ensures Indexes(after, dataMap[v := n], Remove<nat>(order, dataMap[v]) + [n])
  {
    var k :| 0 <= k < |order| && order[k] == dataMap[v];
    RemoveAt(order, k);
    IndexesAfterMove(before, after, dataMap, order, v, n, k);
  }

  /** The index once the node of `v`, entry `k` of the list, is replaced by a fresh tail node `n`. */
  lemma IndexesAfterMove<T>(before: seq<Node<T>>, after: seq<Node<T>>, dataMap: map<T, nat>, order: seq<nat>, v: T, n: nat, k: nat)
    requires ValuesKept(before, after) && KeysHome(before, dataMap) && Indexes(before, dataMap, order)
    requires Distinct(order) && v in dataMap && k < |order| && order[k] == dataMap[v]
    requires n == |before| && n < |after| && after[n].value == v
    ensures Indexes(after, dataMap[v := n], order[..k] + order[k + 1..] + [n])
  {
    KeysAfterMove(before, dataMap, order, v, n, k);
    SlotsAfterMove(before, after, dataMap, order, v, n, k);
  }

  lemma KeysAfterMove<T>(before: seq<Node<T>>, dataMap: map<T, nat>, order: seq<nat>, v: T, n: nat, k: nat)
    requires KeysHome(before, dataMap) && forall key | key in dataMap :: dataMap[key] in order
    requires v in dataMap && k < |order| && order[k] == dataMap[v]
    ensures var o, m := order[..k] + order[k + 1..] + [n], dataMap[v := n];
            forall key | key in m :: m[key] in o
  {
    var c := dataMap[v];
    var o, m := order[..k] + order[k + 1..] + [n], dataMap[v := n];
    forall key | key in m ensures m[key] in o {
      if key != v {
        assert before[dataMap[key]].value == key && before[c].value == v;
        InWithout(order, k, dataMap[key]);
      } else {
        assert o[|o| - 1] == n;
      }
    }
  }

  lemma SlotsAfterMove<T>(before: seq<Node<T>>, after: seq<Node<T>>, dataMap: map<T, nat>, order: seq<nat>, v: T, n: nat, k: nat)
    requires ValuesKept(before, after) && Indexes(before, dataMap, order)
    requires Distinct(order) && v in dataMap && k < |order| && order[k] == dataMap[v]
    requires n == |before| && n < |after| && after[n].value == v
    ensures var o, m := order[..k] + order[k + 1..] + [n], dataMap[v := n];
            forall i | 0 <= i < |o| :: o[i] < |after| && after[o[i]].value in m && m[after[o[i]].value] == o[i]
  {
    var o, m := order[..k] + order[k + 1..] + [n], dataMap[v := n];
    forall i | 0 <= i < |o| ensures o[i] < |after| && after[o[i]].value in m && m[after[o[i]].value] == o[i] {
      if i < |o| - 1 {
        var j := if i < k then i else i + 1;
        assert o[i] == order[j] && j != k;
        assert after[o[i]].value == before[order[j]].value;
      }
    }
  }

  /** After the head slot `order[0]` and its key go, the index matches the rest of the list. */
  lemma IndexesAfterEvict<T>(before: seq<Node<T>>, after: seq<Node<T>>, dataMap: map<T, nat>, order: seq<nat>)
    requires ValuesKept(before, after) && KeysHome(before, dataMap) && Indexes(before, dataMap, order)
    requires Distinct(order) && order != []
    ensures Indexes(after, dataMap - {before[order[0]].value}, order[1..])
  {
    var v := before[order[0]].value;
    var m := dataMap - {v};
    forall k | k in m ensures m[k] in order[1..] {
      var j :| 0 <= j < |order| && order[j] == dataMap[k];
      assert j != 0;
      assert order[1..][j - 1] == m[k];
    }
    forall i | 0 <= i < |order[1..]|
      ensures order[1..][i] < |after| && after[order[1..][i]].value in m && m[after[order[1..][i]].value] == order[1..][i]
    {
      assert order[1..][i] == order[i + 1];
      assert before[order[i + 1]].value != v;
    }
  }

  lemma RemoveInArena<T>(nodes: seq<Node<T>>, order: seq<nat>, c: nat)
    requires OrderInArena(nodes, order)
    ensures OrderInArena(nodes, Remove<nat>(order, c))
  {
    var r := Remove<nat>(order, c);
    RemoveSubset(order, c);
    forall i | 0 <= i < |r| ensures r[i] < |nodes| {
      assert r[i] in order;
    }
  }

  /** Slot by slot, `Unlinked` only redirects the links that pointed at `c`. */
  lemma UnlinkedAt<T>(nodes: seq<Node<T>>, c: nat, x: nat)
    requires LinksInArena(nodes) && c < |nodes| && x < |nodes|
    ensures var after := Unlinked(nodes, c);
            |after| == |nodes| && after[x].value == nodes[x].value
            && after[x].next == (if nodes[c].prev == Some(x) then nodes[c].next else nodes[x].next)
            && after[x].prev == (if nodes[c].next == Some(x) then nodes[c].prev else nodes[x].prev)
  {
  }

  /** The `next` and `previous` links along `order` once its entry `k`, not the last, is unlinked. */
  lemma LinksAfterUnlink<T>(nodes: seq<Node<T>>, order: seq<nat>, k: nat)
    requires LinksInArena(nodes) && OrderInArena(nodes, order) && Distinct(order) && k < |order| - 1
    requires forall i, j | 0 <= i && j == i + 1 && j < |order| ::
               nodes[order[i]].next == Some(order[j]) && nodes[order[j]].prev == Some(order[i])
    requires k == 0 ==> nodes[order[0]].prev.None?
    ensures var o, after := order[..k] + order[k + 1..], Unlinked(nodes, order[k]);
            forall i, j | 0 <= i && j == i + 1 && j < |o| ::
              after[o[i]].next == Some(o[j]) && after[o[j]].prev == Some(o[i])
  {
    var c := order[k];
    var o, after := order[..k] + order[k + 1..], Unlinked(nodes, c);
    assert nodes[c].next == Some(order[k + 1]);
    assert k > 0 ==> nodes[c].prev == Some(order[k - 1]);
    forall i, j | 0 <= i && j == i + 1 && j < k
      ensures after[o[i]].next == Some(o[j]) && after[o[j]].prev == Some(o[i])
    {
      assert o[i] == order[i] && o[j] == order[j];
      UnlinkedAt(nodes, c, order[i]);
      UnlinkedAt(nodes, c, order[j]);
      assert order[j] != order[k + 1];
      assert k > 0 && order[i] != order[k - 1];
    }
    if k > 0 {
      assert o[k - 1] == order[k - 1] && o[k] == order[k + 1];
      UnlinkedAt(nodes, c, order[k - 1]);
      UnlinkedAt(nodes, c, order[k + 1]);
    }
    forall i, j | k <= i && j == i + 1 && j < |o|
      ensures after[o[i]].next == Some(o[j]) && after[o[j]].prev == Some(o[i])
    {
      assert o[i] == order[i + 1] && o[j] == order[j + 1];
      UnlinkedAt(nodes, c, order[i + 1]);
      UnlinkedAt(nodes, c, order[j + 1]);
      assert order[j + 1] != order[k + 1];
      assert k > 0 ==> order[i + 1] != order[k - 1];
    }
  }

  /** Unlinking a listed node other than the tail leaves an intact list without it. */
  lemma ChainAfterUnlink<T>(nodes: seq<Node<T>>, head: Option<nat>, tail: Option<nat>, order: seq<nat>, k: nat)
    requires LinksInArena(nodes) && IsChain(nodes, head, tail, order) && k < |order| - 1
    ensures IsChain(Unlinked(nodes, order[k]), UnlinkedHead(nodes, head, order[k]), tail, order[..k] + order[k + 1..])
  {
    var c := order[k];
    var after := Unlinked(nodes, c);
    var o := order[..k] + order[k + 1..];
    DistinctWithout(order, k);
    LinksAfterUnlink(nodes, order, k);
    assert nodes[c].next == Some(order[k + 1]);
    assert k > 0 ==> nodes[c].prev == Some(order[k - 1]);
    assert k == 0 ==> nodes[c].prev.None?;
    assert OrderInArena(after, o) by {
      forall i | 0 <= i < |o| ensures o[i] < |after| {
        assert o[i] == if i < k then order[i] else order[i + 1];
      }
    }
    var first := o[0];
    var last := Last(o);
    assert last == Last(order);
    UnlinkedAt(nodes, c, first);
    UnlinkedAt(nodes, c, last);
    if k == 0 {
      assert first == order[1];
    } else {
      assert first == order[0];
      assert nodes[c].next != Some(first);
    }
    assert nodes[c].prev != Some(last);
  }

  /** Evicting the head of an intact list leaves an intact list of the rest. */
  lemma ChainAfterEvict<T>(nodes: seq<Node<T>>, head: Option<nat>, tail: Option<nat>, order: seq<nat>)
    requires LinksInArena(nodes) && IsChain(nodes, head, tail, order) && order != []
    ensures IsChain(Detached(nodes, nodes[order[0]].next), nodes[order[0]].next, tail, order[1..])
  {
    var h := nodes[order[0]].next;
    var after := Detached(nodes, h);
    var o := order[1..];
    assert |order| > 1 ==> h == Some(order[1]);
    assert |order| == 1 ==> h.None?;
    forall i, j | 0 <= i && j == i + 1 && j < |o|
      ensures after[o[i]].next == Some(o[j]) && after[o[j]].prev == Some(o[i])
    {
      assert o[i] == order[i + 1] && o[i + 1] == order[i + 2];
    }
    forall i, j | 0 <= i < j < |o| ensures o[i] != o[j] {
      assert o[i] == order[i + 1] && o[j] == order[j + 1];
    }
    assert o != [] ==> Last(o) == Last(order);
  }

  /** `removeNode` on a node of an intact list other than its tail keeps the list intact. */
  lemma ChainAfterRemove<T>(nodes: seq<Node<T>>, head: Option<nat>, tail: Option<nat>, order: seq<nat>, c: nat)
    requires LinksInArena(nodes) && c < |nodes|
    ensures IsChain(nodes, head, tail, order) && c in order && tail != Some(c) ==>
              IsChain(Unlinked(nodes, c), UnlinkedHead(nodes, head, c), tail, Remove<nat>(order, c))
  {
    if IsChain(nodes, head, tail, order) && c in order && tail != Some(c) {
      var k :| 0 <= k < |order| && order[k] == c;
      ChainAfterUnlink(nodes, head, tail, order, k);
      RemoveAt(order, k);
    }
  }

  lemma EvictShrinksOrder<T>(before: seq<Node<T>>, after: seq<Node<T>>, order: seq<nat>)
    requires ValuesKept(before, after) && OrderInArena(before, order)
    ensures OrderInArena(after, if order == [] then [] else order[1..])
  {
    if order != [] {
      forall i | 0 <= i < |order| - 1 ensures order[1..][i] < |after| {
        assert order[1..][i] == order[i + 1];
      }
    }
  }

  /**
   * The end of `insertNode` for a value the map does not hold, on a non-empty intact list:
   * the list stays intact and indexed, and its values are those of `Promote`, that is `v` appended.
   */
  lemma AppendIntact<T>(nodes: seq<Node<T>>, head: Option<nat>, tail: Option<nat>, dataMap: map<T, nat>, order: seq<nat>, v: T)
    requires LinksInArena(nodes) && KeysHome(nodes, dataMap)
    requires IsChain(nodes, head, tail, order) && Indexes(nodes, dataMap, order)
    requires order != [] && v !in dataMap
    ensures var after, o: seq<nat> := Appended(nodes, Last(order), v), order + [|nodes|];
            IsChain(after, head, Some(|nodes|), o) && Indexes(after, dataMap[v := |nodes|], o)
            && ValuesOf(after, o) == Promote(ValuesOf(nodes, order), v)
  {
    ChainAfterAppend(nodes, head, tail, order, v);
    AppendedKeeps(nodes, Last(order), v);
    IndexesAfterAppend(nodes, Appended(nodes, Last(order), v), dataMap, order, v, |nodes|);
    IndexSize(nodes, dataMap, order);
  }

  /**
   * `removeNode` on the node of an indexed value `v` other than the tail, followed by the end
   * of `insertNode`: the list stays intact and indexed, and `v` is promoted to the tail.
   */
  lemma PromoteIntact<T>(nodes: seq<Node<T>>, head: Option<nat>, tail: Option<nat>, dataMap: map<T, nat>, order: seq<nat>, v: T)
    requires LinksInArena(nodes) && KeysHome(nodes, dataMap)
    requires IsChain(nodes, head, tail, order) && Indexes(nodes, dataMap, order)
    requires v in dataMap && tail.Some? && tail != Some(dataMap[v])
    ensures var c := dataMap[v];
            var after, o := Appended(Unlinked(nodes, c), tail.value, v), Remove<nat>(order, c) + [|nodes|];
            IsChain(after, UnlinkedHead(nodes, head, c), Some(|nodes|), o)
            && Indexes(after, dataMap[v := |nodes|], o)
            && ValuesOf(after, o) == Promote(ValuesOf(nodes, order), v)
  {
    var c := dataMap[v];
    var mid, ro := Unlinked(nodes, c), Remove<nat>(order, c);
    var after, o := Appended(mid, tail.value, v), ro + [|nodes|];
    assert c in order;
    assert Last(order) != c;
    ChainAfterRemove(nodes, head, tail, order, c);
    assert IsChain(mid, UnlinkedHead(nodes, head, c), tail, ro);
    UnlinkedKeeps(nodes, c);
    assert ro != [] && tail.value == Last(ro);
    ChainAfterAppend(mid, UnlinkedHead(nodes, head, c), tail, ro, v);
    assert IsChain(after, UnlinkedHead(nodes, head, c), Some(|nodes|), o);
    AppendedKeeps(mid, tail.value, v);
    assert ValuesKept(nodes, after);
    IndexesAfterPromote(nodes, after, dataMap, order, v, |nodes|);
    assert Indexes(after, dataMap[v := |nodes|], o);
    IndexSize(nodes, dataMap, order);
    ValuesOfRemove(nodes, order, c);
    RemoveInArena(nodes, order, c);
    OrderKept(nodes, mid, ro);
    assert ValuesOf(after, o) == ValuesOf(mid, ro) + [v];
  }

  /** `evict` on a non-empty intact, indexed list drops its first value and keeps it intact and indexed. */
  lemma EvictIntact<T>(nodes: seq<Node<T>>, head: Option<nat>, tail: Option<nat>, dataMap: map<T, nat>, order: seq<nat>)
    requires LinksInArena(nodes) && KeysHome(nodes, dataMap)
    requires IsChain(nodes, head, tail, order) && Indexes(nodes, dataMap, order) && order != []
    ensures var h := nodes[order[0]].next;
            var after := Detached(nodes, h);
            IsChain(after, h, tail, order[1..]) && Indexes(after, dataMap - {nodes[order[0]].value}, order[1..])
            && ValuesOf(after, order[1..]) == ValuesOf(nodes, order)[1..]
    ensures head == Some(order[0]) && nodes[order[0]].value in dataMap && dataMap[nodes[order[0]].value] == order[0]
    ensures ValuesOf(nodes, order)[0] == nodes[order[0]].value
  {
    var h := nodes[order[0]].next;
    ChainAfterEvict(nodes, head, tail, order);
    DetachedKeeps(nodes, h);
    IndexesAfterEvict(nodes, Detached(nodes, h), dataMap, order);
    EvictShrinksOrder(nodes, Detached(nodes, h), order);
    OrderKept(nodes, Detached(nodes, h), order[1..]);
    assert ValuesOf(nodes, order[1..]) == ValuesOf(nodes, order)[1..];
  }

  /** Along an intact list, the `k`-th value walked from the head is the `k`-th listed value. */
  lemma ChainValues<T>(nodes: seq<Node<T>>, head: Option<nat>, tail: Option<nat>, order: seq<nat>)
    requires LinksInArena(nodes) && IsChain(nodes, head, tail, order) && InArena(nodes, head)
    ensures forall k: nat :: WalkValue(nodes, head, k) == if k < |order| then Some(ValuesOf(nodes, order)[k]) else None
  {
    forall k: nat ensures WalkValue(nodes, head, k) == if k < |order| then Some(ValuesOf(nodes, order)[k]) else None {
      if k <= |order| {
        ChainWalk(nodes, head, tail, order, k);
      } else {
        ChainWalk(nodes, head, tail, order, |order|);
        WalkStaysOff(nodes, head, |order|, k);
      }
    }
  }

  /** In an intact, indexed list the node of an indexed value is the tail exactly when the value is the last one. */
  lemma TailKey<T>(nodes: seq<Node<T>>, head: Option<nat>, tail: Option<nat>, dataMap: map<T, nat>, order: seq<nat>, v: T)
    requires KeysHome(nodes, dataMap) && IsChain(nodes, head, tail, order) && Indexes(nodes, dataMap, order)
    requires v in dataMap
    ensures order != [] && (Some(dataMap[v]) == tail <==> v == Last(ValuesOf(nodes, order)))
  {
    var vs := ValuesOf(nodes, order);
    var i :| 0 <= i < |order| && order[i] == dataMap[v];
    assert vs[i] == v;
    assert Last(vs) == nodes[Last(order)].value;
    IndexSize(nodes, dataMap, order);
    assert Some(dataMap[v]) == tail ==> i == |order| - 1;
  }

  /** What `get` of an indexed value `v` needs from an intact, indexed list. */
  lemma GetIntact<T>(nodes: seq<Node<T>>, head: Option<nat>, tail: Option<nat>, dataMap: map<T, nat>, order: seq<nat>, v: T)
    requires LinksInArena(nodes) && KeysHome(nodes, dataMap)
    requires IsChain(nodes, head, tail, order) && Indexes(nodes, dataMap, order)
    requires v in dataMap
    ensures order != [] && tail.Some? && v in ValuesOf(nodes, order)
    ensures Some(dataMap[v]) == tail <==> v == Last(ValuesOf(nodes, order))
    ensures Some(dataMap[v]) != tail ==>
              var c := dataMap[v];
              var after, o := Appended(Unlinked(nodes, c), tail.value, v), Remove<nat>(order, c) + [|nodes|];
              IsChain(after, UnlinkedHead(nodes, head, c), Some(|nodes|), o)
              && Indexes(after, dataMap[v := |nodes|], o)
              && ValuesOf(after, o) == Promote(ValuesOf(nodes, order), v)
  {
    IndexSize(nodes, dataMap, order);
    TailKey(nodes, head, tail, dataMap, order, v);
    if Some(dataMap[v]) != tail {
      PromoteIntact(nodes, head, tail, dataMap, order, v);
    }
  }

  /** Linking a fresh node in behind the tail of an intact list extends the list by that node. */
  lemma ChainAfterAppend<T>(nodes: seq<Node<T>>, head: Option<nat>, tail: Option<nat>, order: seq<nat>, value: T)
    requires LinksInArena(nodes) && IsChain(nodes, head, tail, order) && order != []
    ensures LinksInArena(Appended(nodes, Last(order), value))
    ensures IsChain(Appended(nodes, Last(order), value), head, Some(|nodes|), order + [|nodes|])
    ensures ValuesOf(Appended(nodes, Last(order), value), order + [|nodes|]) == ValuesOf(nodes, order) + [value]
  {
    var after := Appended(nodes, Last(order), value);
    var o := order + [|nodes|];
    forall i, j | 0 <= i && j == i + 1 && j < |o|
      ensures after[o[i]].next == Some(o[j]) && after[o[j]].prev == Some(o[i])
    {
      if i < |order| - 1 {
        assert o[i] == order[i] && o[i + 1] == order[i + 1];
      }
    }
    forall i, j | 0 <= i < j < |o| ensures o[i] != o[j] {
      if j < |order| {
        assert o[i] == order[i] && o[j] == order[j];
      }
    }
  }

  /** Indexing a value that was absent, at the fresh slot `n` appended to the list, keeps the index matching. */
  lemma IndexesAfterAppend<T>(before: seq<Node<T>>, after: seq<Node<T>>, dataMap: map<T, nat>, order: seq<nat>, v: T, n: nat)
    requires ValuesKept(before, after) && KeysHome(before, dataMap) && Indexes(before, dataMap, order)
    requires v !in dataMap && n == |before| && n < |after| && after[n].value == v
    ensures Indexes(after, dataMap[v := n], order + [n])
  {
    var o := order + [n];
    var m := dataMap[v := n];
    forall i | 0 <= i < |o| ensures o[i] < |after| && after[o[i]].value in m && m[after[o[i]].value] == o[i] {
      if i < |order| {
        assert o[i] == order[i];
      }
    }
  }

  class LruCache<T(==)> {
    const capacity: int
    var nodes: seq<Node<T>>
    var head: Option<nat>
    var tail: Option<nat>
    var dataMap: map<T, nat>
    /** The slots of the order list from head to tail, as every operation would leave it on an intact list. */
    ghost var order: seq<nat>

    /** Arena well-formedness: kept by every operation, whatever state the list is in. */
    ghost predicate Valid()
      reads this
    {
      LinksInArena(nodes) && InArena(nodes, head) && InArena(nodes, tail)
      && (head.Some? ==> tail.Some?)
      && KeysHome(nodes, dataMap) && OrderInArena(nodes, order)
    }

    /** The textbook invariant: an intact list, indexed by the map. */
    ghost predicate Consistent()
      reads this
    {
      Valid() && IsChain(nodes, head, tail, order) && Indexes(nodes, dataMap, order)
    }

    /** The cached values from least to most recently used. */
    ghost function Values(): seq<T>
      reads this
      requires Valid()
    {
      ValuesOf(nodes, order)
    }

    ghost function HeadKey(): T
      reads this
      requires Valid() && head.Some?
    {
      nodes[head.value].value
    }

    constructor (capacity: int)
      ensures Consistent() && Values() == [] && this.capacity == capacity
      ensures nodes == [] && head.None? && tail.None? && dataMap == map[]
    {
      this.capacity := capacity;
      nodes, head, tail, dataMap := [], None, None, map[];
      order := [];
    }

    /** The no-argument constructor: capacity 10. */
    constructor Default()
      ensures Consistent() && Values() == [] && capacity == DefaultCapacity
      ensures nodes == [] && head.None? && tail.None? && dataMap == map[]
    {
      capacity := DefaultCapacity;
      nodes, head, tail, dataMap := [], None, None, map[];
      order := [];
    }

    /** Unlinks node `c` from its neighbours; the index, the tail and `c`'s own links stay. */
    method RemoveNode(c: nat)
      requires Valid() && c < |nodes|
      modifies this
      ensures Valid() && ValuesKept(old(nodes), nodes) && |nodes| == |old(nodes)|
      ensures nodes == Unlinked(old(nodes), c) && head == UnlinkedHead(old(nodes), old(head), c)
      ensures dataMap == old(dataMap) && tail == old(tail) && order == Remove<nat>(old(order), c)
      ensures old(IsChain(nodes, head, tail, order)) && c in old(order) && old(tail) != Some(c) ==>
                IsChain(nodes, head, tail, order)
    {
      var prev, next := nodes[c].prev, nodes[c].next;
      if prev.Some? {
        nodes := nodes[prev.value := nodes[prev.value].(next := next)];
      }
      if next.Some? {
        head := if Some(c) == head then next else head;
        nodes := nodes[next.value := nodes[next.value].(prev := prev)];
      }
      order := Remove<nat>(order, c);
      assert nodes == Unlinked(old(nodes), c);
      UnlinkedKeeps(old(nodes), c);
      HomeKept(old(nodes), nodes, dataMap);
      RemoveInArena(old(nodes), old(order), c);
      OrderKept(old(nodes), nodes, order);
      ChainAfterRemove(old(nodes), old(head), tail, old(order), c);
    }

    /** Removes the least recently used value (the head) and returns it. */
    method Evict() returns (r: Result<Option<T>>)
      requires Valid()
      modifies this
      ensures Valid() && ValuesKept(old(nodes), nodes) && |nodes| == |old(nodes)| && tail == old(tail)
      ensures old(head).None? ==> r == Ok(None) && unchanged(this)
      ensures old(head).Some? && old(HeadKey()) !in old(dataMap) ==> r == Err(NullPointer) && unchanged(this)
      ensures old(head).Some? && old(HeadKey()) in old(dataMap) ==>
                var v := old(HeadKey());
                var h := old(nodes)[old(dataMap)[v]].next;
                r == Ok(Some(v)) && dataMap == old(dataMap) - {v} && head == h
                && nodes == Detached(old(nodes), h)
                && order == (if old(order) == [] then [] else old(order)[1..])
      ensures old(Consistent()) ==>
                Consistent()
                && r == (if old(Values()) == [] then Ok(None) else Ok(Some(old(Values())[0])))
                && Values() == (if old(Values()) == [] then [] else old(Values())[1..])
    {
      if head.None? {
        return Ok(None);
      }
      if Consistent() {
        EvictIntact(nodes, head, tail, dataMap, order);
      }
      var previousKey := nodes[head.value].value;
      if previousKey !in dataMap {
        // `dataMap.remove` answers null and `prevHead.getNext()` throws.
        return Err(NullPointer);
      }
      Unhead(previousKey);
      r := Ok(Some(previousKey));
    }

    /** Java lines 137-141: the entry of `key` leaves the map and the successor of its node becomes the head. */
    method Unhead(key: T)
      requires Valid() && head.Some? && key in dataMap
      modifies this
      ensures Valid() && ValuesKept(old(nodes), nodes) && |nodes| == |old(nodes)| && tail == old(tail)
      ensures var h := old(nodes)[old(dataMap)[key]].next;
              dataMap == old(dataMap) - {key} && head == h && nodes == Detached(old(nodes), h)
              && order == (if old(order) == [] then [] else old(order)[1..])
    {
      var prevHead := dataMap[key];
      dataMap := dataMap - {key};
      head := nodes[prevHead].next;
      ghost var before := nodes;
      DetachedKeeps(before, head);
      if head.Some? {
        nodes := nodes[head.value := nodes[head.value].(prev := None)];
      }
      assert nodes == Detached(before, head);
      HomeKept(before, nodes, old(dataMap));
      EvictShrinksOrder(before, nodes, order);
      order := if order == [] then [] else order[1..];
    }

    /** Java lines 93-97: a fresh node holding `value` is linked in behind the tail and indexed. */
    method LinkTail(value: T)
      requires Valid() && tail.Some?
      modifies this
      ensures Valid() && ValuesKept(old(nodes), nodes)
      ensures nodes == Appended(old(nodes), old(tail).value, value) && head == old(head) && tail == Some(|old(nodes)|)
      ensures dataMap == old(dataMap)[value := |old(nodes)|] && order == old(order) + [|old(nodes)|]
    {
      var newNode := |nodes|;
      nodes := nodes + [Node(value, None, None)];
      nodes := nodes[tail.value := nodes[tail.value].(next := Some(newNode))];
      nodes := nodes[newNode := nodes[newNode].(prev := tail)];
      tail := Some(newNode);
      dataMap := dataMap[value := newNode];
      order := order + [newNode];
      assert nodes == Appended(old(nodes), old(tail).value, value);
      AppendedKeeps(old(nodes), old(tail).value, value);
      HomeKept(old(nodes), nodes, old(dataMap));
      OrderKept(old(nodes), nodes, old(order));
    }

    /**
     * `insertNode`: on an empty list the new node becomes head and tail. Otherwise, for a new
     * value, a full map first evicts the head, and then `Relink` moves or appends the value.
     * An update (`isNew` false, used by `get`) only links a fresh node in as the tail.
     */
    method InsertNode(value: T, isNew: bool) returns (o: Outcome)
      requires Valid()
      modifies this
      ensures Valid()
      ensures o.Fail? ==> o == Fail(NullPointer) && unchanged(this)
      ensures old(head).None? ==>
                o == Pass && nodes == old(nodes) + [Node(value, None, None)]
                && head == Some(|old(nodes)|) && tail == head
                && dataMap == old(dataMap)[value := |old(nodes)|] && order == [|old(nodes)|]
      ensures old(head).Some? && !isNew ==>
                o == Pass && nodes == Appended(old(nodes), old(tail).value, value) && head == old(head)
                && tail == Some(|old(nodes)|) && dataMap == old(dataMap)[value := |old(nodes)|]
                && order == old(order) + [|old(nodes)|]
      ensures old(head).Some? && isNew ==>
                (o.Fail? <==> |old(dataMap)| == capacity && old(HeadKey()) !in old(dataMap))
      ensures old(Consistent()) && isNew && !(capacity == 1 && |old(Values())| == 1) ==>
                o == Pass && Consistent() && Values() == KeyedAdd(old(Values()), value, capacity)
      ensures old(Consistent()) && isNew && capacity == 1 && |old(Values())| == 1 ==>
                o == Pass && head.None? && tail == Some(|old(nodes)|) && dataMap == map[value := |old(nodes)|]
    {
      if head.None? {
        var newNode := |nodes|;
        nodes := nodes + [Node(value, None, None)];
        head := Some(newNode);
        tail := head;
        dataMap := dataMap[value := newNode];
        order := [newNode];
        if old(Consistent()) {
          assert ValuesOf(nodes, order) == [value];
        }
        return Pass;
      }
      if isNew {
        o := InsertNew(value);
      } else {
        LinkTail(value);
        o := Pass;
      }
    }

    /**
     * Java lines 79-97 for a new value on a non-empty list: a full map first evicts the head
     * (which fails when the head's value is not indexed), and then `Relink` moves or appends it.
     */
    method InsertNew(value: T) returns (o: Outcome)
      requires Valid() && head.Some?
      modifies this
      ensures Valid()
      ensures o.Fail? ==> o == Fail(NullPointer) && unchanged(this)
      ensures o.Fail? <==> |old(dataMap)| == capacity && old(HeadKey()) !in old(dataMap)
      ensures old(Consistent()) && !(capacity == 1 && |old(Values())| == 1) ==>
                o == Pass && Consistent() && Values() == KeyedAdd(old(Values()), value, capacity)
      ensures old(Consistent()) && capacity == 1 && |old(Values())| == 1 ==>
                o == Pass && head.None? && tail == Some(|old(nodes)|) && dataMap == map[value := |old(nodes)|]
    {
      ghost var c0 := Consistent();
      ghost var s := if c0 then Values() else [];
      if c0 {
        IndexSize(nodes, dataMap, order);
        assert s != [] && |dataMap| == |s|;
      }
      if |dataMap| == capacity {
        var evicted := Evict();
        if evicted.Err? {
          return Fail(evicted.error);
        }
      }
      ghost var c1 := c0 && Consistent() && Values() == Trim(s, capacity);
      assert c0 ==> c1;
      ghost var emptied := c0 && order == [];
      assert c0 && !(capacity == 1 && |s| == 1) ==> !emptied;
      if emptied {
        IndexSize(nodes, dataMap, order);
        assert dataMap == map[];
      }
      Relink(value);
      assert c1 && !emptied ==> Consistent() && Values() == KeyedAdd(s, value, capacity);
      o := Pass;
    }

    /**
     * Java lines 83-97, after any eviction: a value whose node is the tail stays where it is;
     * a value present elsewhere is unlinked; then a fresh node for it is linked in as the tail.
     */
    method Relink(value: T)
      requires Valid() && tail.Some?
      modifies this
      ensures Valid() && ValuesKept(old(nodes), nodes)
      ensures value in old(dataMap) && Some(old(dataMap)[value]) == old(tail) ==> unchanged(this)
      ensures value in old(dataMap) && Some(old(dataMap)[value]) != old(tail) ==>
                var c := old(dataMap)[value];
                nodes == Appended(Unlinked(old(nodes), c), old(tail).value, value)
                && head == UnlinkedHead(old(nodes), old(head), c) && tail == Some(|old(nodes)|)
                && dataMap == old(dataMap)[value := |old(nodes)|] && order == Remove<nat>(old(order), c) + [|old(nodes)|]
      ensures value !in old(dataMap) ==>
                nodes == Appended(old(nodes), old(tail).value, value) && head == old(head) && tail == Some(|old(nodes)|)
                && dataMap == old(dataMap)[value := |old(nodes)|] && order == old(order) + [|old(nodes)|]
      ensures old(Consistent()) && old(order) != [] ==> Consistent() && Values() == Promote(old(Values()), value)
    {
      if value in dataMap {
        var oldValue := dataMap[value];
        if Some(oldValue) == tail {
          if Consistent() {
            TailKey(nodes, head, tail, dataMap, order, value);
            IndexSize(nodes, dataMap, order);
            PromoteTail(Values());
          }
          return;
        }
        if Consistent() {
          PromoteIntact(nodes, head, tail, dataMap, order, value);
        }
        RemoveNode(oldValue);
        LinkTail(value);
        return;
      }
      if Consistent() && order != [] {
        AppendIntact(nodes, head, tail, dataMap, order, value);
      }
      LinkTail(value);
    }

    /** `add`: `insertNode(value, true)`. */
    method Add(value: T) returns (o: Outcome)
      requires Valid()
      modifies this
      ensures Valid()
      ensures o.Fail? ==> o == Fail(NullPointer) && unchanged(this)
      ensures o.Fail? <==> old(head).Some? && |old(dataMap)| == capacity && old(HeadKey()) !in old(dataMap)
      ensures old(head).None? ==>
                nodes == old(nodes) + [Node(value, None, None)] && head == Some(|old(nodes)|) && tail == head
                && dataMap == old(dataMap)[value := |old(nodes)|] && order == [|old(nodes)|]
      ensures old(Consistent()) && !(capacity == 1 && |old(Values())| == 1) ==>
                o == Pass && Consistent() && Values() == KeyedAdd(old(Values()), value, capacity)
      ensures old(Consistent()) && capacity == 1 && |old(Values())| == 1 ==>
                o == Pass && head.None? && tail == Some(|old(nodes)|) && dataMap == map[value := |old(nodes)|]
      ensures old(Consistent()) && 2 <= capacity && |old(dataMap)| <= capacity ==> |dataMap| <= capacity
    {
      ghost var s := if Consistent() then Values() else [];
      if Consistent() {
        IndexSize(nodes, dataMap, order);
      }
      o := InsertNode(value, true);
      if old(Consistent()) && 2 <= capacity && |old(dataMap)| <= capacity {
        KeyedAddBounded(s, value, capacity);
        IndexSize(nodes, dataMap, order);
      }
    }

    /**
     * `get(key)`: a null key throws. The entry is taken out of the map before anything else,
     * so an absent key answers null, the tail's value is answered but stays unindexed, and any
     * other value is unlinked and re-inserted as the tail.
     */
    method Get(key: Option<T>) returns (r: Result<Option<T>>)
      requires Valid()
      modifies this
      ensures Valid()
      ensures key.None? ==> r == Err(NullPointer) && unchanged(this)
      ensures key.Some? && key.value !in old(dataMap) ==> r == Ok(None) && unchanged(this)
      ensures key.Some? && key.value in old(dataMap) ==> r == Ok(Some(key.value))
      ensures key.Some? && key.value in old(dataMap) && Some(old(dataMap)[key.value]) == old(tail) ==>
                dataMap == old(dataMap) - {key.value}
                && nodes == old(nodes) && head == old(head) && tail == old(tail) && order == old(order)
      ensures key.Some? && key.value in old(dataMap) && Some(old(dataMap)[key.value]) != old(tail) ==>
                var c, n := old(dataMap)[key.value], |old(nodes)|;
                var h := UnlinkedHead(old(nodes), old(head), c);
                dataMap == old(dataMap)[key.value := n]
                && if h.None? then
                     nodes == Unlinked(old(nodes), c) + [Node(key.value, None, None)]
                     && head == Some(n) && tail == head && order == [n]
                   else
                     old(tail).Some? && nodes == Appended(Unlinked(old(nodes), c), old(tail).value, key.value)
                     && head == h && tail == Some(n) && order == Remove<nat>(old(order), c) + [n]
      ensures old(Consistent()) && key.Some? ==> (r == Ok(None) <==> key.value !in old(Values()))
      ensures old(Consistent()) && key.Some? && key.value !in old(Values()) ==> Consistent()
      ensures old(Consistent()) && key.Some? && key.value in old(Values()) && key.value == Last(old(Values())) ==>
                Values() == old(Values()) && dataMap == old(dataMap) - {key.value}
      ensures old(Consistent()) && key.Some? && key.value in old(Values()) && key.value != Last(old(Values())) ==>
                Consistent() && Values() == Promote(old(Values()), key.value)
                && tail.Some? && nodes[tail.value].value == key.value
    {
      if key.None? {
        return Err(NullPointer);
      }
      var k := key.value;
      if Consistent() {
        IndexSize(nodes, dataMap, order);
      }
      if k !in dataMap {
        return Ok(None);
      }
      var result := Take(k);
      return Ok(Some(result));
    }

    /** Java lines 161-175 once the key is known to be indexed. */
    method Take(k: T) returns (result: T)
      requires Valid() && k in dataMap
      modifies this
      ensures Valid() && result == k
      ensures Some(old(dataMap)[k]) == old(tail) ==>
                dataMap == old(dataMap) - {k}
                && nodes == old(nodes) && head == old(head) && tail == old(tail) && order == old(order)
      ensures Some(old(dataMap)[k]) != old(tail) ==>
                var c, n := old(dataMap)[k], |old(nodes)|;
                var h := UnlinkedHead(old(nodes), old(head), c);
                dataMap == old(dataMap)[k := n]
                && if h.None? then
                     nodes == Unlinked(old(nodes), c) + [Node(k, None, None)]
                     && head == Some(n) && tail == head && order == [n]
                   else
                     old(tail).Some? && nodes == Appended(Unlinked(old(nodes), c), old(tail).value, k)
                     && head == h && tail == Some(n) && order == Remove<nat>(old(order), c) + [n]
      ensures old(Consistent()) ==> k in old(Values())
      ensures old(Consistent()) && k == Last(old(Values())) ==>
                Values() == old(Values()) && dataMap == old(dataMap) - {k}
      ensures old(Consistent()) && k != Last(old(Values())) ==>
                Consistent() && Values() == Promote(old(Values()), k)
                && tail.Some? && nodes[tail.value].value == k
    {
      if Consistent() {
        GetIntact(nodes, head, tail, dataMap, order, k);
      }
      var value := dataMap[k];
      dataMap := dataMap - {k};
      result := nodes[value].value;
      if Some(value) == tail {
        return;
      }
      assert dataMap[k := |nodes|] == old(dataMap)[k := |nodes|];
      result := Requeue(value);
    }

    /** Java lines 172-174: node `c` is unlinked and its value inserted again as the tail. */
    method Requeue(c: nat) returns (result: T)
      requires Valid() && c < |nodes|
      modifies this
      ensures Valid() && result == old(nodes)[c].value
      ensures var n, h := |old(nodes)|, UnlinkedHead(old(nodes), old(head), c);
              dataMap == old(dataMap)[result := n]
              && if h.None? then
                   nodes == Unlinked(old(nodes), c) + [Node(result, None, None)]
                   && head == Some(n) && tail == head && order == [n]
                 else
                   old(tail).Some? && nodes == Appended(Unlinked(old(nodes), c), old(tail).value, result)
                   && head == h && tail == Some(n) && order == Remove<nat>(old(order), c) + [n]
    {
      RemoveNode(c);
      result := nodes[c].value;
      var inserted := InsertNode(result, false);
    }

    /** `getSize`: the number of indexed values, which for an intact list is its length. */
    method GetSize() returns (r: int)
      requires Valid()
      ensures r == |dataMap|
      ensures Consistent() ==> r == |Values()|
    {
      if Consistent() {
        IndexSize(nodes, dataMap, order);
      }
      return |dataMap|;
    }

    method GetCapacity() returns (r: int)
      ensures r == capacity
    {
      return capacity;
    }

    /** `peekNextEviction`: the head's value, which for an intact list is its first value. */
    method PeekNextEviction() returns (r: Option<T>)
      requires Valid()
      ensures r == if head.None? then None else Some(nodes[head.value].value)
      ensures Consistent() ==> r == if Values() == [] then None else Some(Values()[0])
    {
      return if head.None? then None else Some(nodes[head.value].value);
    }

    /**
     * `peekLastEviction`: the tail's value, which for a non-empty intact list is its last value.
     * After the last value is evicted the tail is stale and its value is still answered.
     */
    method PeekLastEviction() returns (r: Option<T>)
      requires Valid()
      ensures r == if tail.None? then None else Some(nodes[tail.value].value)
      ensures Consistent() && Values() != [] ==> r == Some(Last(Values()))
    {
      return if tail.None? then None else Some(nodes[tail.value].value);
    }

    /**
     * `toArray(input)`: null when the map is empty; otherwise slot `i` of `input` receives the
     * `i`-th value walked from the head, while both the array and the walk last.
     */
    method ToArray(input: array?<Option<T>>) returns (r: Result<array?<Option<T>>>)
      requires Valid()
      modifies input
      ensures |dataMap| == 0 ==> r == Ok(null) && (input != null ==> unchanged(input))
      ensures |dataMap| != 0 && input == null ==> r == Err(NullPointer)
      ensures |dataMap| != 0 && input != null ==>
                r == Ok(input)
                && forall i | 0 <= i < input.Length ::
                     input[i] == if WalkValue(nodes, head, i).Some? then WalkValue(nodes, head, i) else old(input[i])
      ensures |dataMap| != 0 && input != null && Consistent() ==>
                forall i | 0 <= i < input.Length ::
                  input[i] == if i < |Values()| then Some(Values()[i]) else old(input[i])
    {
      if |dataMap| == 0 {
        return Ok(null);
      }
      if input == null {
        // `input.length` dereferences null.
        return Err(NullPointer);
      }
      var current := head;
      var i, len := 0, input.Length;
      while i < len && current.Some?
        invariant 0 <= i <= len && current == Walk(nodes, head, i)
        invariant forall j | 0 <= j < i :: WalkValue(nodes, head, j).Some? && input[j] == WalkValue(nodes, head, j)
        invariant forall j | i <= j < len :: input[j] == old(input[j])
      {
        input[i] := Some(nodes[current.value].value);
        current := nodes[current.value].next;
        i := i + 1;
      }
      forall j | i <= j < len ensures WalkValue(nodes, head, j).None? || i == len {
        if current.None? {
          WalkStaysOff(nodes, head, i, j);
        }
      }
      if Consistent() {
        ChainValues(nodes, head, tail, order);
      }
      return Ok(input);
    }

    /**
     * `toReverseArray(input)`: null when the map is empty, a null array throws; otherwise the
     * `i`-th value walked from the head goes to slot `input.Length - 1 - i`.
     */
    method ToReverseArray(input: array?<Option<T>>) returns (r: Result<array?<Option<T>>>)
      requires Valid()
      modifies input
      ensures |dataMap| == 0 ==> r == Ok(null) && (input != null ==> unchanged(input))
      ensures |dataMap| != 0 && input == null ==> r == Err(NullPointer)
      ensures |dataMap| != 0 && input != null ==>
                r == Ok(input)
                && forall i | 0 <= i < input.Length ::
                     var w := WalkValue(nodes, head, input.Length - 1 - i);
                     input[i] == if w.Some? then w else old(input[i])
      ensures |dataMap| != 0 && input != null && Consistent() ==>
                forall i | 0 <= i < input.Length ::
                  var k := input.Length - 1 - i;
                  input[i] == if k < |Values()| then Some(Values()[k]) else old(input[i])
    {
      if |dataMap| == 0 {
        return Ok(null);
      }
      if input == null {
        return Err(NullPointer);
      }
      var current := head;
      var i := input.Length - 1;
      ghost var step: nat := 0;
      while i > -1 && current.Some?
        invariant -1 <= i < input.Length && step == input.Length - 1 - i && current == Walk(nodes, head, step)
        invariant forall j | i < j < input.Length :: input[j].Some? && input[j] == WalkValue(nodes, head, input.Length - 1 - j)
        invariant forall j | 0 <= j <= i :: input[j] == old(input[j])
      {
        assert WalkValue(nodes, head, input.Length - 1 - i) == Some(nodes[current.value].value);
        input[i] := Some(nodes[current.value].value);
        current := nodes[current.value].next;
        i, step := i - 1, step + 1;
      }
      forall k: nat | step <= k ensures WalkValue(nodes, head, k).None? || i == -1 {
        if current.None? {
          WalkStaysOff(nodes, head, step, k);
        }
      }
      if Consistent() {
        ChainValues(nodes, head, tail, order);
      }
      return Ok(input);
    }

    /** `fromArray(input)`: a null array throws; otherwise every element is added, in order. */
    method FromArray(input: array?<T>) returns (o: Outcome)
      requires Valid()
      modifies this
      ensures Valid()
      ensures input == null ==> o == Fail(NullPointer) && unchanged(this)
      ensures o.Fail? ==> o == Fail(NullPointer)
      ensures input != null && old(Consistent()) && capacity != 1 ==>
                o == Pass && Consistent() && Values() == KeyedAddAll(old(Values()), input[..], capacity)
      ensures input != null && old(Consistent()) && 2 <= capacity && |old(dataMap)| <= capacity ==>
                |dataMap| <= capacity
    {
      if input == null {
        return Fail(NullPointer);
      }
      ghost var bounded := Consistent() && 2 <= capacity && |dataMap| <= capacity;
      if bounded {
        IndexSize(nodes, dataMap, order);
        KeyedAddAllBounded(Values(), input[..], capacity);
      }
      o := AddEach(input);
      if bounded {
        IndexSize(nodes, dataMap, order);
      }
    }

    /** Java lines 270-272: every element of `input` is added, in order. */
    method AddEach(input: array<T>) returns (o: Outcome)
      requires Valid()
      modifies this
      ensures Valid()
      ensures o.Fail? ==> o == Fail(NullPointer)
      ensures old(Consistent()) && capacity != 1 ==>
                o == Pass && Consistent() && Values() == KeyedAddAll(old(Values()), input[..], capacity)
    {
      ghost var good := Consistent() && capacity != 1;
      ghost var s := if good then Values() else [];
      var i := 0;
      while i < input.Length
        invariant 0 <= i <= input.Length && Valid()
        invariant good ==> Consistent() && Values() == KeyedAddAll(s, input[..i], capacity)
      {
        var added := Add(input[i]);
        if added.Fail? {
          return added;
        }
        assert input[..i + 1][..i] == input[..i];
        i := i + 1;
      }
      assert input[..] == input[..input.Length];
      o := Pass;
    }
  }
}
