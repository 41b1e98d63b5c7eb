/**
 * The indexed min-priority queue of heap/ArrayHeapMinPQ.java.
 *
 * Nodes sit in a 1-indexed binary min-heap (`heap`, slot 0 unused) and every
 * node records its own slot in `loc`.  A separately chained hash table `key`
 * finds the node of an item without scanning the heap.  Nodes are values here:
 * the queue keeps one node per item in `nodes`, the heap slots and the hash
 * chains name nodes by their item, and a change to a node's `loc` or
 * `priority` is an update of `nodes`.
 */
module MinPQ {
  import opened Wrappers
  import JavaHash

  /** The exceptions the queue's public operations throw. */
  datatype PQException = IllegalArgumentException | NoSuchElementException

  /** One entry: an item, its priority and the heap slot it occupies. */
  datatype PriNode<T(!new)> = PriNode(item: T, priority: real, loc: int)

  /**
   * One hash chain: it sits in bucket `b` of a table of `m` buckets, holds
   * only queued items that hash to `b`, and holds each item at most once.
   */
  ghost predicate ChainOk<T(!new)>(chain: seq<T>, b: int, m: int, items: set<T>, hash: T -> nat)
  {
    && m > 0
    && (forall i :: 0 <= i < |chain| ==> chain[i] in items && hash(chain[i]) % m == b)
    && (forall i, j :: 0 <= i < j < |chain| ==> chain[i] != chain[j])
  }

  /** The chain in which item `x` belongs. */
  function Bucket<T(!new)>(table: seq<seq<T>>, hash: T -> nat, x: T): (chain: seq<T>)
    requires |table| > 0
  {
    table[hash(x) % |table|]
  }

  /** A whole table: every chain is well formed and every queued item is in the chain of its bucket. */
  ghost predicate TableOk<T(!new)>(table: seq<seq<T>>, items: set<T>, hash: T -> nat)
  {
    && |table| > 0
    && (forall b {:trigger ChainOk(table[b], b, |table|, items, hash)} ::
          0 <= b < |table| ==> ChainOk(table[b], b, |table|, items, hash))
    && (forall x {:trigger Bucket(table, hash, x)} :: x in items ==> x in Bucket(table, hash, x))
  }

  /**
   * In a well-formed table an item is queued exactly when the chain of its
   * bucket holds it, so `contains` need only walk that one chain.
   */
  lemma BucketHoldsItem<T(!new)>(table: seq<seq<T>>, items: set<T>, hash: T -> nat, x: T)
    requires TableOk(table, items, hash)
    ensures x in items <==> x in Bucket(table, hash, x)
  {
    if x in Bucket(table, hash, x) {
      var c := hash(x) % |table|;
      assert ChainOk(table[c], c, |table|, items, hash);
    }
  }

  lemma MapRemoveCard<K, V>(m: map<K, V>, x: K)
    requires x in m
    ensures |m - {x}| == |m| - 1
  {
    assert (m - {x}).Keys == m.Keys - {x};
  }

  // Heap order on the priorities of a 1-indexed heap (slot 0 unused): the
  // parent of slot i is slot i / 2, its children are slots 2i and 2i + 1.

  /** No slot has a smaller priority than its parent. */
  ghost predicate HeapOrdered(p: seq<real>)
  {
    forall i :: 2 <= i < |p| ==> p[i / 2] <= p[i]
  }

  /** Heap order on every edge except the one from slot `k` up to its parent. */
  ghost predicate OrderedExcept(p: seq<real>, k: int)
  {
    forall i :: 2 <= i < |p| && i != k ==> p[i / 2] <= p[i]
  }

  /** Heap order on every edge that does not touch slot `k`. */
  ghost predicate OrderedAround(p: seq<real>, k: int)
  {
    forall i :: 2 <= i < |p| && i != k && i / 2 != k ==> p[i / 2] <= p[i]
  }

  /** The parent of slot `k` is no larger than the children of `k`. */
  ghost predicate GrandparentBound(p: seq<real>, k: int)
  {
    1 < k < |p| ==> forall c :: 2 * k <= c <= 2 * k + 1 && c < |p| ==> p[k / 2] <= p[c]
  }

  /** What `sink` keeps true while it moves the entry that started in slot `k0` and is now in slot `k`. */
  ghost predicate SinkInvariant(p: seq<real>, k0: int, k: int)
  {
    && (forall i :: 2 <= i < |p| && i / 2 != k && i != k0 ==> p[i / 2] <= p[i])
    && (k != k0 && 2 <= k0 < |p| ==> p[k0 / 2] <= p[k0])
    && GrandparentBound(p, k)
  }

  function Swapped(p: seq<real>, a: int, b: int): (q: seq<real>)
    requires 0 <= a < |p| && 0 <= b < |p|
    ensures |q| == |p| && q[a] == p[b] && q[b] == p[a]
    ensures forall i :: 0 <= i < |p| && i != a && i != b ==> q[i] == p[i]
  {
    p[a := p[b]][b := p[a]]
  }

  /** In an ordered heap the root is no larger than any slot. */
  lemma {:induction false} AncestorBound(p: seq<real>, k: int)
    requires HeapOrdered(p) && 1 <= k < |p|
    ensures p[1] <= p[k]
    decreases k
  {
    if k > 1 {
      AncestorBound(p, k / 2);
    }
  }

  /** An ordered heap meets what `swim` and `sink` demand at any slot. */
  lemma OrderedBoundsGrandchildren(p: seq<real>, k: int)
    requires HeapOrdered(p)
    ensures OrderedExcept(p, k) && OrderedAround(p, k) && GrandparentBound(p, k)
  {
    if 1 < k < |p| {
      forall c | 2 * k <= c <= 2 * k + 1 && c < |p|
        ensures p[k / 2] <= p[c]
      {
        assert c / 2 == k;
      }
    }
  }

  /** One exchange of `swim` moves the only possible disorder one level up. */
  lemma SwimStep(p: seq<real>, k: int)
    requires 2 <= k < |p| && OrderedExcept(p, k) && GrandparentBound(p, k) && p[k] < p[k / 2]
    ensures OrderedExcept(Swapped(p, k, k / 2), k / 2) && GrandparentBound(Swapped(p, k, k / 2), k / 2)
  {
    var q, m := Swapped(p, k, k / 2), k / 2;
    forall i | 2 <= i < |q| && i != m
      ensures q[i / 2] <= q[i]
    {
      if i == k {
      } else if i / 2 == m {
        assert p[m] <= p[i];
      } else if i / 2 == k {
        assert p[m] <= p[i];
      } else {
        assert p[i / 2] <= p[i];
      }
    }
    if 1 < m {
      forall c | 2 * m <= c <= 2 * m + 1 && c < |q|
        ensures q[m / 2] <= q[c]
      {
        assert p[m / 2] <= p[m];
        assert c / 2 == m;
        if c != k {
          assert p[m] <= p[c];
        }
      }
    }
  }

  /** `swim` stops at the root or below a parent that is no larger: the heap is ordered. */
  lemma SwimDone(p: seq<real>, k: int)
    requires 1 <= k < |p| && OrderedExcept(p, k) && (k == 1 || p[k / 2] <= p[k])
    ensures HeapOrdered(p)
  {
  }

  /** One exchange of `sink` with the smaller child `j` moves the disorder one level down. */
  lemma SinkStep(p: seq<real>, k0: int, k: int, j: int)
    requires 1 <= k0 <= k && 2 * k <= j <= 2 * k + 1 && j < |p|
    requires forall c :: 2 * k <= c <= 2 * k + 1 && c < |p| ==> p[j] <= p[c]
    requires SinkInvariant(p, k0, k) && p[j] < p[k]
    ensures SinkInvariant(Swapped(p, k, j), k0, j)
  {
    var q := Swapped(p, k, j);
    assert j / 2 == k;
    forall i | 2 <= i < |q| && i / 2 != j && i != k0
      ensures q[i / 2] <= q[i]
    {
      if i == j {
      } else if i / 2 == k {
        assert p[j] <= p[i];
      } else if i == k {
        assert p[k / 2] <= p[j];
      } else {
        assert p[i / 2] <= p[i];
      }
    }
    if 2 <= k0 < |q| {
      if k == k0 {
        assert p[k0 / 2] <= p[j];
      } else {
        assert k0 / 2 != k && k0 / 2 != j;
      }
    }
    if 1 < j < |q| {
      forall c | 2 * j <= c <= 2 * j + 1 && c < |q|
        ensures q[j / 2] <= q[c]
      {
        assert c / 2 == j;
        assert p[j] <= p[c];
      }
    }
  }

  /**
   * `sink` stops where no child is smaller: only the edge above `k0` may be out
   * of order, and if the entry moved the heap is ordered.
   */
  lemma SinkDone(p: seq<real>, k0: int, k: int)
    requires 1 <= k0 <= k < |p| && SinkInvariant(p, k0, k)
    requires forall c :: 2 * k <= c <= 2 * k + 1 && c < |p| ==> p[k] <= p[c]
    ensures OrderedExcept(p, k0)
    ensures k != k0 ==> HeapOrdered(p) && GrandparentBound(p, k0)
    ensures k == k0 ==> GrandparentBound(p, k0)
  {
    forall i | 2 <= i < |p| && i != k0
      ensures p[i / 2] <= p[i]
    {
      if i / 2 == k {
        assert 2 * k <= i <= 2 * k + 1;
      }
    }
    if k != k0 {
      assert HeapOrdered(p);
      OrderedBoundsGrandchildren(p, k0);
    }
  }

  /** Removing the root by moving the last slot into it leaves only the root's edges in doubt. */
  lemma RemoveRootKeepsAround(p: seq<real>)
    requires HeapOrdered(p) && |p| >= 2
    ensures OrderedAround(Swapped(p, 1, |p| - 1)[..|p| - 1], 1)
  {
  }

  /** A new last slot leaves only its own edge in doubt. */
  lemma AppendKeepsOrder(p: seq<real>, x: real)
    requires HeapOrdered(p) && |p| >= 1
    ensures OrderedExcept(p + [x], |p|) && GrandparentBound(p + [x], |p|)
  {
  }

  /** Changing the priority in slot `k` leaves only the edges touching `k` in doubt. */
  lemma ChangeKeepsAround(p: seq<real>, k: int, x: real)
    requires HeapOrdered(p) && 1 <= k < |p|
    ensures OrderedAround(p[k := x], k) && GrandparentBound(p[k := x], k)
  {
    OrderedBoundsGrandchildren(p, k);
    if 1 < k {
      forall c | 2 * k <= c <= 2 * k + 1 && c < |p|
        ensures p[k / 2] <= p[c]
      {
        assert c / 2 == k;
      }
    }
  }

  /**
   * The heap's bookkeeping: slot 0 is empty, slots 1..size hold exactly the
   * queued items, every node knows its slot, and `prio` lists the priority of
   * each slot's node.
   */
  ghost predicate HeapShape<T(!new)>(heap: seq<Option<T>>, prio: seq<real>, nodes: map<T, PriNode<T>>)
  {
    && |heap| >= 1 && heap[0] == None && |prio| == |heap|
    && (forall k {:trigger heap[k]} :: 1 <= k < |heap| ==>
          && heap[k].Some? && heap[k].value in nodes
          && nodes[heap[k].value].loc == k && nodes[heap[k].value].priority == prio[k])
    && (forall x {:trigger nodes[x]} :: x in nodes ==>
          nodes[x].item == x && 1 <= nodes[x].loc < |heap| && heap[nodes[x].loc] == Some(x))
  }

  /** The same items with the same priorities; only slots may differ. */
  ghost predicate SamePriorities<T(!new)>(m0: map<T, PriNode<T>>, m1: map<T, PriNode<T>>)
  {
    m0.Keys == m1.Keys && forall x :: x in m0 ==> m1[x].priority == m0[x].priority
  }

  /** The abstract content is each queued item with the priority its node holds. */
  ghost predicate ContentsMatch<T(!new)>(contents: map<T, real>, nodes: map<T, PriNode<T>>)
  {
    contents.Keys == nodes.Keys && forall x :: x in nodes ==> contents[x] == nodes[x].priority
  }

  /** `nodes` after the node of `x` is told that it now sits in slot `k`. */
  function Relocated<T(!new)>(nodes: map<T, PriNode<T>>, x: T, k: int): (r: map<T, PriNode<T>>)
    requires x in nodes
    ensures r.Keys == nodes.Keys
  {
    nodes[x := nodes[x].(loc := k)]
  }

  lemma ContentsKept<T(!new)>(contents: map<T, real>, m0: map<T, PriNode<T>>, m1: map<T, PriNode<T>>)
    requires ContentsMatch(contents, m0) && SamePriorities(m0, m1)
    ensures ContentsMatch(contents, m1)
  {
  }

  /** The root of an ordered heap holds the least priority in the queue. */
  lemma RootIsMinimal<T(!new)>(heap: seq<Option<T>>, prio: seq<real>, nodes: map<T, PriNode<T>>, contents: map<T, real>)
    requires HeapShape(heap, prio, nodes) && HeapOrdered(prio) && ContentsMatch(contents, nodes) && |heap| > 1
    ensures heap[1].value in contents && forall x :: x in contents ==> contents[heap[1].value] <= contents[x]
  {
    forall x | x in contents
      ensures contents[heap[1].value] <= contents[x]
    {
      AncestorBound(prio, nodes[x].loc);
    }
  }

  /** Exchanging two slots, and telling both nodes, keeps the bookkeeping. */
  lemma SwapShape<T(!new)>(heap: seq<Option<T>>, prio: seq<real>, nodes: map<T, PriNode<T>>, a: int, b: int)
    requires HeapShape(heap, prio, nodes) && 1 <= a < |heap| && 1 <= b < |heap|
    ensures heap[a].value in nodes && heap[b].value in nodes
    ensures
      var nodes' := Relocated(Relocated(nodes, heap[b].value, a), heap[a].value, b);
      HeapShape(heap[a := heap[b]][b := heap[a]], Swapped(prio, a, b), nodes') && SamePriorities(nodes, nodes')
  {
  }

  /** A node for a new item in a new last slot keeps the bookkeeping. */
  lemma AppendShape<T(!new)>(heap: seq<Option<T>>, prio: seq<real>, nodes: map<T, PriNode<T>>, x: T, p: real)
    requires HeapShape(heap, prio, nodes) && x !in nodes
    ensures HeapShape(heap + [Some(x)], prio + [p], nodes[x := PriNode(x, p, |heap|)])
  {
  }

  /** Dropping the last slot and its node keeps the bookkeeping. */
  lemma PopShape<T(!new)>(heap: seq<Option<T>>, prio: seq<real>, nodes: map<T, PriNode<T>>)
    requires HeapShape(heap, prio, nodes) && |heap| > 1
    ensures heap[|heap| - 1].value in nodes
    ensures HeapShape(heap[..|heap| - 1], prio[..|prio| - 1], nodes - {heap[|heap| - 1].value})
  {
  }

  /** Every node sits in its own slot and every slot but 0 holds a node, so there are as many nodes as occupied slots. */
  lemma {:induction false} NodeCount<T(!new)>(heap: seq<Option<T>>, prio: seq<real>, nodes: map<T, PriNode<T>>)
    requires HeapShape(heap, prio, nodes)
    ensures |nodes| == |heap| - 1
    decreases |heap|
  {
    if |heap| == 1 {
      assert forall x :: x in nodes ==> nodes[x].loc < 1;
      assert nodes == map[];
    } else {
      var last := heap[|heap| - 1].value;
      PopShape(heap, prio, nodes);
      NodeCount(heap[..|heap| - 1], prio[..|prio| - 1], nodes - {last});
      MapRemoveCard(nodes, last);
    }
  }

  /** A new priority for the node of `x`, mirrored in its slot of `prio`, keeps the bookkeeping. */
  lemma ReprioritizeShape<T(!new)>(heap: seq<Option<T>>, prio: seq<real>, nodes: map<T, PriNode<T>>, x: T, p: real)
    requires HeapShape(heap, prio, nodes) && x in nodes
    ensures HeapShape(heap, prio[nodes[x].loc := p], nodes[x := nodes[x].(priority := p)])
  {
  }

  /** Everything the queue keeps true between operations. */
  ghost predicate QueueOk<T(!new)>(heap: seq<Option<T>>, prio: seq<real>, nodes: map<T, PriNode<T>>, contents: map<T, real>,
                                   key: seq<seq<T>>, hashSize: int, hash: T -> nat)
  {
    && HeapShape(heap, prio, nodes)
    && HeapOrdered(prio)
    && ContentsMatch(contents, nodes)
    && hashSize == |key|
    && TableOk(key, nodes.Keys, hash)
  }

  // The heap operations of the queue, on the heap slots, the nodes and the
  // ghost slot priorities they are given; the queue stores what they return.

  /** The priority of the node in slot `k`. */
  function SlotPriority<T(!new)>(heap: seq<Option<T>>, nodes: map<T, PriNode<T>>, ghost prio: seq<real>, k: int): (r: real)
    requires HeapShape(heap, prio, nodes) && 1 <= k < |heap|
    ensures r == prio[k]
  {
    nodes[heap[k].value].priority
  }

  /** The child of slot `k` that `sink` compares against: the right one only when it is strictly smaller. */
  function SmallerChild<T(!new)>(heap: seq<Option<T>>, nodes: map<T, PriNode<T>>, ghost prio: seq<real>, k: int): (j: int)
    requires HeapShape(heap, prio, nodes) && 1 <= k && 2 * k <= |heap| - 1
    ensures 2 * k <= j <= 2 * k + 1 && j < |heap|
    ensures forall c :: 2 * k <= c <= 2 * k + 1 && c < |heap| ==> prio[j] <= prio[c]
  {
    if 2 * k < |heap| - 1 && SlotPriority(heap, nodes, prio, 2 * k) > SlotPriority(heap, nodes, prio, 2 * k + 1)
    then 2 * k + 1
    else 2 * k
  }

  /** Exchanges the nodes in slots `a` and `b` and tells each node its new slot. */
  method Swap<T(!new)>(heap: seq<Option<T>>, nodes: map<T, PriNode<T>>, ghost prio: seq<real>, a: int, b: int)
    returns (heap': seq<Option<T>>, nodes': map<T, PriNode<T>>, ghost prio': seq<real>)
    requires HeapShape(heap, prio, nodes) && 1 <= a < |heap| && 1 <= b < |heap|
    ensures HeapShape(heap', prio', nodes') && SamePriorities(nodes, nodes')
    ensures heap' == heap[a := heap[b]][b := heap[a]] && prio' == Swapped(prio, a, b)
  {
    SwapShape(heap, prio, nodes, a, b);
    var x, y := heap[a].value, heap[b].value;
    heap', prio' := heap[a := heap[b]][b := heap[a]], Swapped(prio, a, b);
    nodes' := Relocated(nodes, y, a);
    nodes' := Relocated(nodes', x, b);
  }

  /** Moves the node in slot `k0` up until its parent is no larger. */
  method Swim<T(!new)>(heap: seq<Option<T>>, nodes: map<T, PriNode<T>>, ghost prio: seq<real>, k0: int)
    returns (heap': seq<Option<T>>, nodes': map<T, PriNode<T>>, ghost prio': seq<real>)
    requires HeapShape(heap, prio, nodes) && 1 <= k0 < |heap|
    requires OrderedExcept(prio, k0) && GrandparentBound(prio, k0)
    ensures HeapShape(heap', prio', nodes') && HeapOrdered(prio') && SamePriorities(nodes, nodes')
  {
    heap', nodes', prio' := heap, nodes, prio;
    var k := k0;
    while k > 1 && SlotPriority(heap', nodes', prio', k) < SlotPriority(heap', nodes', prio', k / 2)
      invariant 1 <= k < |heap'| && SamePriorities(nodes, nodes')
      invariant HeapShape(heap', prio', nodes') && OrderedExcept(prio', k) && GrandparentBound(prio', k)
      decreases k
    {
      SwimStep(prio', k);
      heap', nodes', prio' := Swap(heap', nodes', prio', k, k / 2);
      k := k / 2;
    }
    SwimDone(prio', k);
  }

  /**
   * Moves the node in slot `k0` down, always towards the smaller child (the
   * left one on ties), until no child is smaller.  If the node moved, the heap
   * is fully ordered afterwards; otherwise only the edge above `k0` may be out
   * of order.  A slot past the end leaves the heap alone.
   */
  method Sink<T(!new)>(heap: seq<Option<T>>, nodes: map<T, PriNode<T>>, ghost prio: seq<real>, k0: int)
    returns (heap': seq<Option<T>>, nodes': map<T, PriNode<T>>, ghost prio': seq<real>)
    requires HeapShape(heap, prio, nodes) && 1 <= k0 <= |heap|
    requires OrderedAround(prio, k0) && GrandparentBound(prio, k0)
    ensures HeapShape(heap', prio', nodes') && |heap'| == |heap| && SamePriorities(nodes, nodes')
    ensures OrderedExcept(prio', k0) && GrandparentBound(prio', k0)
    ensures k0 < |heap| && heap'[k0] != heap[k0] ==> HeapOrdered(prio')
  {
    heap', nodes', prio' := heap, nodes, prio;
    var k := k0;
    while 2 * k <= |heap'| - 1
      invariant k0 <= k <= |heap'| && (k0 < |heap'| ==> k < |heap'|)
      invariant |heap'| == |heap| && SamePriorities(nodes, nodes')
      invariant HeapShape(heap', prio', nodes') && SinkInvariant(prio', k0, k)
      invariant k == k0 ==> heap' == heap
      decreases |heap'| - k
    {
      var j := SmallerChild(heap', nodes', prio', k);
      if SlotPriority(heap', nodes', prio', k) <= SlotPriority(heap', nodes', prio', j) {
        SinkDone(prio', k0, k);
        break;
      }
      SinkStep(prio', k0, k, j);
      heap', nodes', prio' := Swap(heap', nodes', prio', k, j);
      k := j;
    }
    if 2 * k > |heap'| - 1 && k < |heap'| {
      SinkDone(prio', k0, k);
    }
  }

  /** Moves the last node to the root, drops the old root's node and sinks the new root. */
  method RemoveRoot<T(!new)>(heap: seq<Option<T>>, nodes: map<T, PriNode<T>>, ghost prio: seq<real>)
    returns (min: T, heap': seq<Option<T>>, nodes': map<T, PriNode<T>>, ghost prio': seq<real>)
    requires HeapShape(heap, prio, nodes) && HeapOrdered(prio) && |heap| > 1
    ensures min == heap[1].value && min in nodes
    ensures HeapShape(heap', prio', nodes') && HeapOrdered(prio') && SamePriorities(nodes - {min}, nodes')
    ensures nodes'.Keys == nodes.Keys - {min}
  {
    min := heap[1].value;
    RemoveRootKeepsAround(prio);
    heap', nodes', prio' := Swap(heap, nodes, prio, 1, |heap| - 1);
    PopShape(heap', prio', nodes');
    ghost var popped := nodes' - {min};
    assert popped.Keys == nodes.Keys - {min};
    heap', nodes', prio' := Sink(heap'[..|heap'| - 1], nodes' - {min}, prio'[..|prio'| - 1], 1);
  }

  /** Appends a node for a new item in a new last slot and swims it up (the heap part of `add`). */
  method Append<T(!new)>(heap: seq<Option<T>>, nodes: map<T, PriNode<T>>, ghost prio: seq<real>, item: T, priority: real)
    returns (heap': seq<Option<T>>, nodes': map<T, PriNode<T>>, ghost prio': seq<real>)
    requires HeapShape(heap, prio, nodes) && HeapOrdered(prio) && item !in nodes
    ensures HeapShape(heap', prio', nodes') && HeapOrdered(prio')
    ensures SamePriorities(nodes[item := PriNode(item, priority, |heap|)], nodes') && nodes'.Keys == nodes.Keys + {item}
  {
    AppendShape(heap, prio, nodes, item, priority);
    AppendKeepsOrder(prio, priority);
    heap', nodes', prio' := Swim(heap + [Some(item)], nodes[item := PriNode(item, priority, |heap|)], prio + [priority], |heap|);
  }

  /** Gives the node of `goal` a new priority, sinks it, then swims it from where it ended up (the heap part of `changePriority`). */
  method Reprioritize<T(!new)>(heap: seq<Option<T>>, nodes: map<T, PriNode<T>>, ghost prio: seq<real>, goal: T, priority: real)
    returns (heap': seq<Option<T>>, nodes': map<T, PriNode<T>>, ghost prio': seq<real>)
    requires HeapShape(heap, prio, nodes) && HeapOrdered(prio) && goal in nodes
    ensures HeapShape(heap', prio', nodes') && HeapOrdered(prio')
    ensures SamePriorities(nodes[goal := nodes[goal].(priority := priority)], nodes') && nodes'.Keys == nodes.Keys
  {
    var k0 := nodes[goal].loc;
    ChangeKeepsAround(prio, k0, priority);
    ReprioritizeShape(heap, prio, nodes, goal, priority);
    heap', nodes', prio' := Sink(heap, nodes[goal := nodes[goal].(priority := priority)], prio[k0 := priority], k0);
    var k := nodes'[goal].loc;
    if k != k0 {
      OrderedBoundsGrandchildren(prio', k);
    }
    heap', nodes', prio' := Swim(heap', nodes', prio', k);
  }

  /** Linking a new item at the front of its chain keeps the table well formed. */
  lemma TableAdd<T(!new)>(table: seq<seq<T>>, items: set<T>, hash: T -> nat, x: T)
    requires TableOk(table, items, hash) && x !in items
    ensures TableOk(table[hash(x) % |table| := [x] + table[hash(x) % |table|]], items + {x}, hash)
  {
    var b, m, items' := hash(x) % |table|, |table|, items + {x};
    var table' := table[b := [x] + table[b]];
    forall c | 0 <= c < m
      ensures ChainOk(table'[c], c, m, items', hash)
    {
      assert ChainOk(table[c], c, m, items, hash);
    }
    forall y | y in items'
      ensures y in table'[hash(y) % m]
    {
      if y != x {
        assert y in Bucket(table, hash, y);
      }
    }
  }

  /** Unlinking position `j` of the chain of `x`, which holds `x`, removes `x` from the table. */
  lemma TableRemove<T(!new)>(table: seq<seq<T>>, items: set<T>, hash: T -> nat, x: T, j: int)
    requires TableOk(table, items, hash) && x in items
    requires 0 <= j < |table[hash(x) % |table|]| && table[hash(x) % |table|][j] == x
    ensures
      var b := hash(x) % |table|;
      TableOk(table[b := table[b][..j] + table[b][j + 1..]], items - {x}, hash)
  {
    var b, m, items' := hash(x) % |table|, |table|, items - {x};
    var chain := table[b];
    var chain' := chain[..j] + chain[j + 1..];
    var table' := table[b := chain'];
    assert ChainOk(chain, b, m, items, hash);
    assert forall i :: 0 <= i < |chain'| ==> chain'[i] == chain[if i < j then i else i + 1];
    forall c | 0 <= c < m
      ensures ChainOk(table'[c], c, m, items', hash)
    {
      assert ChainOk(table[c], c, m, items, hash);
      if c == b {
        forall i | 0 <= i < |chain'|
          ensures chain'[i] != x
        {
          var i0 := if i < j then i else i + 1;
          assert chain'[i] == chain[i0] && i0 != j;
        }
      } else {
        forall i | 0 <= i < |table[c]|
          ensures table[c][i] != x
        {
        }
      }
    }
    forall y | y in items'
      ensures y in table'[hash(y) % m]
    {
      assert y in Bucket(table, hash, y);
      if hash(y) % m == b {
        var i :| 0 <= i < |chain| && chain[i] == y;
        assert i != j;
        if i < j {
          assert chain'[i] == chain[i];
        } else {
          assert chain'[i - 1] == chain[i];
        }
      }
    }
  }

  /** Unlinks `min` from its chain: the front of the chain, or found by walking the chain. */
  method Unlink<T(!new)>(key: seq<seq<T>>, ghost items: set<T>, hash: T -> nat, min: T) returns (key': seq<seq<T>>)
    requires TableOk(key, items, hash) && min in items
    ensures |key'| == |key| && TableOk(key', items - {min}, hash)
  {
    ghost var b := hash(min) % |key|;
    assert min in Bucket(key, hash, min);
    ghost var pos :| 0 <= pos < |key[b]| && key[b][pos] == min;
    TableRemove(key, items, hash, min, pos);
    var index := hash(min) % |key|;
    var chain := key[index];
    assert ChainOk(chain, index, |key|, items, hash);
    if chain[0] == min {
      assert pos == 0 && chain[1..] == chain[..0] + chain[1..];
      key' := key[index := chain[1..]];
    } else {
      var i := 0;
      while chain[i + 1] != min
        invariant 0 <= i < pos
        decreases pos - i
      {
        i := i + 1;
      }
      assert i + 1 == pos;
      key' := key[index := chain[..i + 1] + chain[i + 2..]];
    }
  }

  /** What `removeSmallest` does to the heap and the table: take out the root, then unlink its item. */
  method Detach<T(!new)>(heap: seq<Option<T>>, nodes: map<T, PriNode<T>>, key: seq<seq<T>>, ghost prio: seq<real>, ghost contents: map<T, real>,
                         hashSize: int, hash: T -> nat)
    returns (min: T, heap': seq<Option<T>>, nodes': map<T, PriNode<T>>, key': seq<seq<T>>, ghost prio': seq<real>, ghost contents': map<T, real>)
    requires QueueOk(heap, prio, nodes, contents, key, hashSize, hash) && |heap| > 1
    ensures QueueOk(heap', prio', nodes', contents', key', hashSize, hash)
    ensures min == heap[1].value && contents' == contents - {min}
  {
    min, heap', nodes', prio' := RemoveRoot(heap, nodes, prio);
    key' := Unlink(key, nodes.Keys, hash, min);
    contents' := contents - {min};
    ContentsKept(contents', nodes - {min}, nodes');
  }

  /** What `add` does once the checks have passed: link the new item at the front of its chain, append its node and swim it up. */
  method InsertNode<T(!new)>(heap: seq<Option<T>>, nodes: map<T, PriNode<T>>, key: seq<seq<T>>, ghost prio: seq<real>, ghost contents: map<T, real>,
                             hashSize: int, hash: T -> nat, item: T, priority: real)
    returns (heap': seq<Option<T>>, nodes': map<T, PriNode<T>>, key': seq<seq<T>>, ghost prio': seq<real>, ghost contents': map<T, real>)
    requires QueueOk(heap, prio, nodes, contents, key, hashSize, hash) && item !in contents
    ensures QueueOk(heap', prio', nodes', contents', key', hashSize, hash) && contents' == contents[item := priority]
  {
    var index := hash(item) % hashSize;
    TableAdd(key, nodes.Keys, hash, item);
    key' := key[index := [item] + key[index]];
    heap', nodes', prio' := Append(heap, nodes, prio, item, priority);
    contents' := contents[item := priority];
    ContentsKept(contents', nodes[item := PriNode(item, priority, |heap|)], nodes');
  }

  /** What `changePriority` does once the item is found: give its node the new priority and move it. */
  method ChangeNode<T(!new)>(heap: seq<Option<T>>, nodes: map<T, PriNode<T>>, key: seq<seq<T>>, ghost prio: seq<real>, ghost contents: map<T, real>,
                             hashSize: int, hash: T -> nat, goal: T, priority: real)
    returns (heap': seq<Option<T>>, nodes': map<T, PriNode<T>>, ghost prio': seq<real>, ghost contents': map<T, real>)
    requires QueueOk(heap, prio, nodes, contents, key, hashSize, hash) && goal in nodes
    ensures QueueOk(heap', prio', nodes', contents', key, hashSize, hash) && contents' == contents[goal := priority]
  {
    heap', nodes', prio' := Reprioritize(heap, nodes, prio, goal, priority);
    contents' := contents[goal := priority];
    ContentsKept(contents', nodes[goal := nodes[goal].(priority := priority)], nodes');
  }

  class ArrayHeapMinPQ<T(==,!new)> {
    /** The heap slots: slot 0 is unused, slot k holds the item whose node is there. */
    var heap: seq<Option<T>>
    /** The hash chains, front first: chain b holds the items whose hash is b modulo `hashSize`. */
    var key: seq<seq<T>>
    var hashSize: int
    /** The item whose node the last successful `Contains` found. */
    var goalNode: Option<T>
    /** The node of every queued item. */
    var nodes: map<T, PriNode<T>>
    /** The item's hash code, already made non-negative as `PriNode.hashCode` does. */
    const hash: T -> nat

    /** The priority held in each heap slot (slot 0 holds a placeholder). */
    ghost var Prio: seq<real>
    /** The abstract content of the queue: each item with its priority. */
    ghost var Contents: map<T, real>
    /** The table has `2^HashExp` buckets. */
    ghost var HashExp: nat

    /**
     * The queue's invariant; the table starts with four buckets and only
     * ever doubles or halves, never below four.
     */
    ghost predicate Valid()
      reads this
    {
      QueueOk(heap, Prio, nodes, Contents, key, hashSize, hash) &&
      hashSize == JavaHash.Pow2(HashExp) && HashExp >= 2
    }

    /**
     * The bucket `hashCode() % hashSize` of an item whose own hash code is
     * `h`, in Java's 32-bit arithmetic: since the table's size is a power of
     * two, it is an index into the table even for `Integer.MIN_VALUE`, whose
     * negation stays negative.
     */
    ghost function JavaBucket(h: int): (b: int)
      reads this
      requires Valid() && JavaHash.IsInt(h) && HashExp <= 31
      ensures 0 <= b < hashSize
    {
      JavaHash.Bucket(h, HashExp)
    }

    /** Makes the given heap, nodes and table the queue's new state. */
    method Store(heap': seq<Option<T>>, ghost prio': seq<real>, nodes': map<T, PriNode<T>>, ghost contents': map<T, real>, key': seq<seq<T>>)
      requires QueueOk(heap', prio', nodes', contents', key', hashSize, hash)
      requires hashSize == JavaHash.Pow2(HashExp) && HashExp >= 2
      modifies this`heap, this`Prio, this`nodes, this`Contents, this`key
      ensures Valid() && heap == heap' && Prio == prio' && nodes == nodes' && Contents == contents' && key == key'
    {
      heap, Prio, nodes, Contents, key := heap', prio', nodes', contents', key';
    }

    /** An empty queue with four hash buckets. */
    constructor (hash: T -> nat)
      ensures Valid() && Contents == map[] && hashSize == 4 && HashExp == 2 && this.hash == hash
    {
      this.hash := hash;
      heap, key, hashSize, goalNode, nodes := [None], [[], [], [], []], 4, None, map[];
      Prio, Contents, HashExp := [0.0], map[], 2;
    }

    /** Rebuilds the key table with `num` buckets, re-chaining every item. */
    method ResizeKey(num: int)
      requires num > 0 && hashSize == |key| && TableOk(key, nodes.Keys, hash)
      modifies this`key, this`hashSize
      ensures hashSize == num == |key| && TableOk(key, nodes.Keys, hash)
    {
      var temp := new seq<T>[num](_ => []);
      var i := 0;
      while i < hashSize
        invariant 0 <= i <= hashSize && key == old(key) && hashSize == old(hashSize)
        invariant forall j :: 0 <= j < num ==> ChainOk(temp[j], j, num, nodes.Keys, hash)
        invariant forall j, x :: 0 <= j < num && x in temp[j] ==> hash(x) % hashSize < i
        invariant forall x :: x in nodes && hash(x) % hashSize < i ==> x in temp[hash(x) % num]
      {
        forall x | x in nodes && hash(x) % hashSize == i
          ensures x in key[i]
        {
          assert x in Bucket(key, hash, x);
        }
        AddAllKey(temp, key[i], num, i);
        i := i + 1;
      }
      hashSize, key := num, temp[..];
    }

    /**
     * Pushes every item of `chain` onto the front of its bucket in `a`, the
     * last item of the chain first (the recursion runs down the chain before
     * relinking).  Every item of `chain` comes from old bucket `b`, every item
     * already in `a` from an earlier old bucket.
     */
    method AddAllKey(a: array<seq<T>>, chain: seq<T>, num: int, ghost b: int)
      requires a.Length == num > 0 && hashSize > 0
      requires ChainOk(chain, b, hashSize, nodes.Keys, hash)
      requires forall j :: 0 <= j < num ==> ChainOk(a[j], j, num, nodes.Keys, hash)
      requires forall j, x :: 0 <= j < num && x in a[j] ==> hash(x) % hashSize < b
      modifies a
      ensures forall j :: 0 <= j < num ==> ChainOk(a[j], j, num, nodes.Keys, hash)
      ensures forall j, x :: 0 <= j < num ==> (x in a[j] <==> x in old(a[j]) || (x in chain && hash(x) % num == j))
      decreases |chain|
    {
      if chain != [] {
        AddAllKey(a, chain[1..], num, b);
        var index := hash(chain[0]) % num;
        forall x | x in a[index]
          ensures x != chain[0]
        {
          if x !in old(a[index]) {
            var m :| 0 <= m < |chain[1..]| && chain[1..][m] == x;
            assert chain[m + 1] == x;
          }
        }
        a[index] := [chain[0]] + a[index];
      }
    }

    /**
     * Adds `item` with the given priority: grow the table if it is crowded,
     * refuse an item already present, link a new node at the front of its
     * chain, append it to the heap and swim it up.
     */
    method Add(item: T, priority: real) returns (thrown: Option<PQException>)
      requires Valid()
      modifies this
      ensures Valid()
      ensures thrown == None <==> item !in old(Contents)
      ensures thrown != None ==> thrown == Some(IllegalArgumentException) && Contents == old(Contents)
      ensures thrown == None ==> Contents == old(Contents)[item := priority]
    {
      if 2 * (|heap| - 1) / hashSize > 3 {
        ResizeKey(2 * hashSize);
        HashExp := HashExp + 1;
      }
      var present := Contains(item);
      if present {
        return Some(IllegalArgumentException);
      }
      var heap', nodes', key';
      ghost var prio', contents';
      heap', nodes', key', prio', contents' := InsertNode(heap, nodes, key, Prio, Contents, hashSize, hash, item, priority);
      Store(heap', prio', nodes', contents', key');
      return None;
    }

    /**
     * Reports whether `item` is in the queue by walking its hash chain; when it
     * is, `goalNode` is left naming its node.
     */
    method Contains(item: T) returns (found: bool)
      requires Valid()
      modifies this`goalNode
      ensures Valid() && (found <==> item in Contents)
      ensures found ==> goalNode == Some(item)
    {
      var index := hash(item) % hashSize;
      var chain := key[index];
      assert ChainOk(chain, index, hashSize, nodes.Keys, hash);
      assert item in nodes ==> item in Bucket(key, hash, item);
      var i := 0;
      while i < |chain|
        invariant 0 <= i <= |chain|
        invariant forall m :: 0 <= m < i ==> chain[m] != item
      {
        if chain[i] == item {
          goalNode := Some(chain[i]);
          return true;
        }
        i := i + 1;
      }
      return false;
    }

    /** The number of items in the queue. */
    function Size(): (n: int)
      reads this
      requires Valid()
      ensures n == |Contents|
    {
      NodeCount(heap, Prio, nodes);
      assert Contents.Keys == nodes.Keys;
      |heap| - 1
    }

    /** An item of least priority, or the exception for an empty queue. */
    function GetSmallest(): (r: Result<T, PQException>)
      reads this
      requires Valid()
      ensures r.Failure? <==> Contents == map[]
      ensures r.Failure? ==> r.error == NoSuchElementException
      ensures r.Success? ==> r.value in Contents && forall x :: x in Contents ==> Contents[r.value] <= Contents[x]
    {
      if |heap| - 1 == 0 then Failure(NoSuchElementException)
      else
        RootIsMinimal(heap, Prio, nodes, Contents);
        Success(heap[1].value)
    }

    /**
     * Removes and returns an item of least priority, or throws for an empty
     * queue: the last node moves to the root and sinks, the old root is
     * unlinked from its chain, and the table shrinks when it has become sparse.
     */
    method RemoveSmallest() returns (r: Result<T, PQException>)
      requires Valid()
      modifies this
      ensures Valid()
      ensures old(Contents) == map[] ==> r == Failure(NoSuchElementException) && Contents == old(Contents)
      ensures old(Contents) != map[] ==> r.Success? && r.value in old(Contents)
      ensures r.Success? ==> forall x :: x in old(Contents) ==> old(Contents)[r.value] <= old(Contents)[x]
      ensures r.Success? ==> Contents == old(Contents) - {r.value}
    {
      if |heap| - 1 == 0 {
        return Failure(NoSuchElementException);
      }
      RootIsMinimal(heap, Prio, nodes, Contents);
      var min, heap', nodes', key';
      ghost var prio', contents';
      min, heap', nodes', key', prio', contents' := Detach(heap, nodes, key, Prio, Contents, hashSize, hash);
      Store(heap', prio', nodes', contents', key');
      MaybeShrink();
      return Success(min);
    }

    /** Halves the key table once the queue has become sparse. */
    method MaybeShrink()
      requires Valid()
      modifies this`key, this`hashSize, this`HashExp
      ensures Valid() && Contents == old(Contents)
    {
      if |heap| - 1 > 0 && |heap| - 1 == (hashSize - 1) / 4 {
        assert HashExp >= 3;
        ResizeKey(hashSize / 2);
        HashExp := HashExp - 1;
      }
    }

    /**
     * Gives `item` a new priority, then sinks and swims its node; an absent
     * item is refused.
     */
    method ChangePriority(item: T, priority: real) returns (thrown: Option<PQException>)
      requires Valid()
      modifies this
      ensures Valid()
      ensures thrown == None <==> item in old(Contents)
      ensures thrown != None ==> thrown == Some(NoSuchElementException) && Contents == old(Contents)
      ensures thrown == None ==> Contents == old(Contents)[item := priority]
    {
      var present := Contains(item);
      if !present {
        return Some(NoSuchElementException);
      }
      var heap', nodes';
      ghost var prio', contents';
      heap', nodes', prio', contents' := ChangeNode(heap, nodes, key, Prio, Contents, hashSize, hash, goalNode.value, priority);
      Store(heap', prio', nodes', contents', key);
      return None;
    }
  }
}
