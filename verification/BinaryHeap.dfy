/** The addressable binary heap of the searches (data_structures/binary_heap.hpp) over
    ArrayStorage, whose index entries stay stale after Clear. */
module BinaryHeaps {

  const MIN_WEIGHT: int := -0x8000_0000

  datatype HeapNode<D> = HeapNode(node: nat, key: nat, weight: int, data: D)

  datatype HeapElement = HeapElement(index: nat, weight: int)

  // ----- the representation invariant, on values ---------------------------

  /** Heap slots and node records point at each other; slot 0 is the sentinel. */
  ghost predicate Linked<D>(heap: seq<HeapElement>, nodes: seq<HeapNode<D>>) {
    && 1 <= |heap|
    && heap[0].weight == MIN_WEIGHT
    && (forall i :: 1 <= i < |heap| ==> SlotLinked(heap, nodes, i))
    && (forall j :: 0 <= j < |nodes| ==> RecordLinked(heap, nodes, j))
  }

  ghost predicate SlotLinked<D>(heap: seq<HeapElement>, nodes: seq<HeapNode<D>>, i: nat)
    requires i < |heap|
  {
    && heap[i].index < |nodes|
    && nodes[heap[i].index].key == i
    && nodes[heap[i].index].weight == heap[i].weight
  }

  ghost predicate RecordLinked<D>(heap: seq<HeapElement>, nodes: seq<HeapNode<D>>, j: nat)
    requires j < |nodes|
  {
    && nodes[j].key < |heap|
    && (nodes[j].key != 0 ==> heap[nodes[j].key].index == j)
    && MIN_WEIGHT <= nodes[j].weight
  }

  ghost predicate OrderedAt(heap: seq<HeapElement>, i: nat)
    requires i < |heap|
  {
    2 <= i ==> heap[i / 2].weight <= heap[i].weight
  }

  ghost predicate Ordered(heap: seq<HeapElement>) {
    forall i :: 0 <= i < |heap| ==> OrderedAt(heap, i)
  }

  /** The parent of `hole` is no heavier than its children. */
  ghost predicate Spans(heap: seq<HeapElement>, hole: nat, i: nat)
    requires i < |heap|
  {
    2 <= i && i / 2 == hole && 2 <= hole ==> heap[hole / 2].weight <= heap[i].weight
  }

  /** Heap order everywhere except between `hole` and its parent. */
  ghost predicate OrderedExceptAbove(heap: seq<HeapElement>, hole: nat) {
    && (forall i :: 0 <= i < |heap| && i != hole ==> OrderedAt(heap, i))
    && (forall i :: 0 <= i < |heap| ==> Spans(heap, hole, i))
  }

  /** Heap order everywhere except between `hole` and its children. */
  ghost predicate OrderedExceptBelow(heap: seq<HeapElement>, hole: nat) {
    && (forall i :: 0 <= i < |heap| && i / 2 != hole ==> OrderedAt(heap, i))
    && (forall i :: 0 <= i < |heap| ==> Spans(heap, hole, i))
  }

  ghost function Placed<D>(nodes: seq<HeapNode<D>>, j: nat, key: nat): seq<HeapNode<D>>
    requires j < |nodes|
  {
    nodes[j := nodes[j].(key := key)]
  }

  lemma {:induction false} LinkedMove<D>(heap: seq<HeapElement>, nodes: seq<HeapNode<D>>, key: nat, next: nat,
                                         e: HeapElement)
    requires 1 <= key < |heap| && 1 <= next < |heap| && key != next && e.index < |nodes|
    requires Linked(heap[key := e], Placed(nodes, e.index, key))
    ensures heap[next].index < |nodes| && heap[next].index != e.index
    ensures Linked(heap[key := heap[next]][next := e], Placed(Placed(nodes, heap[next].index, key), e.index, next))
  {
    var h, c := heap[key := e], Placed(nodes, e.index, key);
    var h' := heap[key := heap[next]][next := e];
    assert SlotLinked(h, c, key) && SlotLinked(h, c, next);
    var c' := Placed(Placed(nodes, heap[next].index, key), e.index, next);
    forall i | 1 <= i < |h'|
      ensures SlotLinked(h', c', i)
    {
      assert SlotLinked(h, c, i);
    }
    forall j | 0 <= j < |c'|
      ensures RecordLinked(h', c', j)
    {
      assert RecordLinked(h, c, j);
    }
  }

  lemma {:induction false} OrderUp(heap: seq<HeapElement>, key: nat, e: HeapElement)
    requires 2 <= key < |heap|
    requires OrderedExceptAbove(heap[key := e], key)
    requires heap[key / 2].weight > e.weight
    ensures OrderedExceptAbove(heap[key := heap[key / 2]][key / 2 := e], key / 2)
  {
    var h := heap[key := e];
    var h' := heap[key := heap[key / 2]][key / 2 := e];
    forall i | 0 <= i < |h'|
      ensures i != key / 2 ==> OrderedAt(h', i)
      ensures Spans(h', key / 2, i)
    {
      assert OrderedAt(h, key / 2);
      assert Spans(h, key, i);
      assert i != key ==> OrderedAt(h, i);
    }
  }

  lemma {:induction false} OrderDown(heap: seq<HeapElement>, key: nat, next: nat, e: HeapElement)
    requires 1 <= key && next / 2 == key && next < |heap|
    requires OrderedExceptBelow(heap[key := e], key)
    requires heap[next].weight < e.weight
    requires forall i :: 2 <= i < |heap| && i / 2 == key ==> heap[next].weight <= heap[i].weight
    ensures OrderedExceptBelow(heap[key := heap[next]][next := e], next)
  {
    var h := heap[key := e];
    var h' := heap[key := heap[next]][next := e];
    forall i | 0 <= i < |h'|
      ensures i / 2 != next ==> OrderedAt(h', i)
      ensures Spans(h', next, i)
    {
      assert Spans(h, key, next);
      assert i / 2 != key ==> OrderedAt(h, i);
    }
  }

  lemma {:induction false} OrderedHere(heap: seq<HeapElement>, key: nat)
    requires 1 <= key < |heap|
    ensures OrderedExceptAbove(heap, key) && OrderedAt(heap, key) ==> Ordered(heap)
    ensures OrderedExceptBelow(heap, key)
            && (forall i :: 2 <= i < |heap| && i / 2 == key ==> heap[key].weight <= heap[i].weight)
            ==> Ordered(heap)
  {
  }

  lemma {:induction false} RootIsMin(heap: seq<HeapElement>, i: nat)
    requires Ordered(heap) && 1 <= i < |heap|
    ensures heap[1].weight <= heap[i].weight
    decreases i
  {
    if i > 1 {
      assert OrderedAt(heap, i);
      RootIsMin(heap, i / 2);
    }
  }

  // ----- the abstract value: a map with extract-min ------------------------

  ghost predicate Indexed<D>(index: seq<nat>, nodes: seq<HeapNode<D>>) {
    forall j :: 0 <= j < |nodes| ==> nodes[j].node < |index| && index[nodes[j].node] == j
  }

  predicate Known<D>(index: seq<nat>, nodes: seq<HeapNode<D>>, n: nat) {
    n < |index| && index[n] < |nodes| && nodes[index[n]].node == n
  }

  ghost function WeightsOf<D>(index: seq<nat>, nodes: seq<HeapNode<D>>): map<nat, int> {
    map n: nat | n < |index| && Known(index, nodes, n) :: nodes[index[n]].weight
  }

  ghost function PayloadOf<D>(index: seq<nat>, nodes: seq<HeapNode<D>>): map<nat, D> {
    map n: nat | n < |index| && Known(index, nodes, n) :: nodes[index[n]].data
  }

  ghost function QueueOf<D>(index: seq<nat>, nodes: seq<HeapNode<D>>): set<nat> {
    set n: nat | n < |index| && Known(index, nodes, n) && nodes[index[n]].key != 0
  }

  /** The records agree in all but their heap positions, and removed records stay removed. */
  ghost predicate SameRecords<D>(nodes: seq<HeapNode<D>>, nodes': seq<HeapNode<D>>) {
    && |nodes| == |nodes'|
    && (forall j :: 0 <= j < |nodes| ==> SameRecord(nodes[j], nodes'[j]))
  }

  ghost predicate SameRecord<D>(x: HeapNode<D>, y: HeapNode<D>) {
    x.node == y.node && x.weight == y.weight && x.data == y.data && (x.key == 0 <==> y.key == 0)
  }

  lemma {:induction false} SameValue<D>(index: seq<nat>, nodes: seq<HeapNode<D>>, nodes': seq<HeapNode<D>>)
    requires SameRecords(nodes, nodes')
    ensures WeightsOf(index, nodes) == WeightsOf(index, nodes')
    ensures PayloadOf(index, nodes) == PayloadOf(index, nodes')
    ensures QueueOf(index, nodes) == QueueOf(index, nodes')
    ensures Indexed(index, nodes) ==> Indexed(index, nodes')
  {
    forall n: nat | n < |index|
      ensures Known(index, nodes, n) <==> Known(index, nodes', n)
      ensures Known(index, nodes, n) ==> SameRecord(nodes[index[n]], nodes'[index[n]])
    {
    }
  }

  /** Appending a record for a node that is not known yet. */
  lemma {:induction false} AppendValue<D>(index: seq<nat>, nodes: seq<HeapNode<D>>, x: HeapNode<D>)
    requires Indexed(index, nodes) && x.node < |index| && !Known(index, nodes, x.node) && x.key != 0
    ensures var index', nodes' := index[x.node := |nodes|], nodes + [x];
            && Indexed(index', nodes')
            && WeightsOf(index', nodes') == WeightsOf(index, nodes)[x.node := x.weight]
            && PayloadOf(index', nodes') == PayloadOf(index, nodes)[x.node := x.data]
            && QueueOf(index', nodes') == QueueOf(index, nodes) + {x.node}
  {
    var index', nodes' := index[x.node := |nodes|], nodes + [x];
    forall n: nat | n < |index|
      ensures Known(index', nodes', n) <==> n == x.node || Known(index, nodes, n)
    {
    }
    forall j | 0 <= j < |nodes'|
      ensures nodes'[j].node < |index'| && index'[nodes'[j].node] == j
    {
      assert j < |nodes| ==> Known(index, nodes, nodes[j].node);
    }
  }

  /** Rewriting the record of one node. */
  lemma {:induction false} UpdateValue<D>(index: seq<nat>, nodes: seq<HeapNode<D>>, j: nat, x: HeapNode<D>)
    requires Indexed(index, nodes) && j < |nodes| && x.node == nodes[j].node
    ensures var nodes' := nodes[j := x];
            && Indexed(index, nodes')
            && WeightsOf(index, nodes') == WeightsOf(index, nodes)[x.node := x.weight]
            && PayloadOf(index, nodes') == PayloadOf(index, nodes)[x.node := x.data]
            && QueueOf(index, nodes') ==
                 if x.key != 0 then QueueOf(index, nodes) + {x.node} else QueueOf(index, nodes) - {x.node}
  {
    var nodes' := nodes[j := x];
    assert Known(index, nodes, x.node);
    forall n: nat | n < |index|
      ensures Known(index, nodes', n) <==> Known(index, nodes, n)
    {
    }
  }

  /** Marking the record of a queued node as removed, after records were moved about. */
  lemma {:induction false} RemovedValue<D>(index: seq<nat>, nodes: seq<HeapNode<D>>, nodes': seq<HeapNode<D>>, j: nat)
    requires Indexed(index, nodes) && SameRecords(nodes, nodes') && j < |nodes| && nodes[j].key != 0
    ensures var last, x := nodes'[j := nodes'[j].(key := 0)], nodes[j].node;
            && Indexed(index, last) && last[j].node == x && x in QueueOf(index, nodes)
            && WeightsOf(index, last) == WeightsOf(index, nodes)
            && PayloadOf(index, last) == PayloadOf(index, nodes)
            && QueueOf(index, last) == QueueOf(index, nodes) - {x}
            && WeightsOf(index, nodes)[x] == nodes[j].weight
  {
    SameValue(index, nodes, nodes');
    UpdateValue(index, nodes', j, nodes'[j].(key := 0));
    assert SameRecord(nodes[j], nodes'[j]) && Known(index, nodes, nodes[j].node);
  }

  /** Always true. It stands as a trigger before the representation below, so that a client of the heap, which needs
      only the abstract values, does not have every fact about the slots instantiated in its proof; a proof about
      the slots says `assert Unfold(0)` and gets them. */
  ghost predicate Unfold(k: nat) {
    true
  }

  ghost predicate Represents<D>(heap: seq<HeapElement>, nodes: seq<HeapNode<D>>, index: seq<nat>,
                                weights: map<nat, int>, payload: map<nat, D>, queue: set<nat>) {
    forall k {:trigger Unfold(k)} :: Unfold(k) ==>
      && Linked(heap, nodes) && Ordered(heap) && Indexed(index, nodes)
      && weights == WeightsOf(index, nodes) && payload == PayloadOf(index, nodes) && queue == QueueOf(index, nodes)
  }

  class BinaryHeap<D> {
    var insertedNodes: seq<HeapNode<D>>
    var heap: seq<HeapElement>
    var nodeIndex: seq<nat>
    ghost var weights: map<nat, int>
    ghost var payload: map<nat, D>
    ghost var queue: set<nat>

    ghost predicate Valid()
      reads this
    {
      && Represents(heap, insertedNodes, nodeIndex, weights, payload, queue)
      && payload.Keys == weights.Keys && queue <= weights.Keys
      && (forall n :: n in weights ==> n < |nodeIndex|)
    }

    /** The abstract value follows the representation. */
    ghost method Abstract()
      requires Linked(heap, insertedNodes) && Ordered(heap) && Indexed(nodeIndex, insertedNodes)
      modifies this`weights, this`payload, this`queue
      ensures Valid() && weights == WeightsOf(nodeIndex, insertedNodes)
      ensures payload == PayloadOf(nodeIndex, insertedNodes) && queue == QueueOf(nodeIndex, insertedNodes)
    {
      weights := WeightsOf(nodeIndex, insertedNodes);
      payload := PayloadOf(nodeIndex, insertedNodes);
      queue := QueueOf(nodeIndex, insertedNodes);
    }

    function Capacity(): nat
      reads this
    {
      |nodeIndex|
    }

    /** The weight of every node inserted since the last Clear. */
    ghost function Weights(): map<nat, int>
      reads this
    {
      weights
    }

    ghost function Payload(): map<nat, D>
      reads this
    {
      payload
    }

    /** The inserted nodes that were not removed yet. */
    ghost function Queue(): set<nat>
      reads this
    {
      queue
    }

    constructor (maxId: nat)
      ensures Valid() && Capacity() == maxId
      ensures Weights() == map[] && Payload() == map[] && Queue() == {}
    {
      insertedNodes := [];
      heap := [HeapElement(0, MIN_WEIGHT)];
      nodeIndex := seq(maxId, _ => 0);
      weights, payload, queue := map[], map[], {};
    }

    method Clear()
      requires Valid()
      modifies this
      ensures Valid() && Capacity() == old(Capacity())
      ensures Weights() == map[] && Payload() == map[] && Queue() == {}
    {
      assert Unfold(0);
      heap := [heap[0].(weight := MIN_WEIGHT)];
      insertedNodes := [];
      Abstract();
    }

    predicate WasInserted(node: nat)
      requires Valid() && node < Capacity()
      reads this
      ensures WasInserted(node) <==> node in Weights()
    {
      assert Unfold(0);
      var index := nodeIndex[node];
      index < |insertedNodes| && insertedNodes[index].node == node
    }

    predicate Empty()
      requires Valid()
      reads this
      ensures Empty() <==> Queue() == {}
    {
      assert Unfold(0);
      assert |heap| > 1 ==> SlotLinked(heap, insertedNodes, 1) && insertedNodes[heap[1].index].node in Queue();
      assert forall n :: n in Queue() ==> RecordLinked(heap, insertedNodes, nodeIndex[n]);
      |heap| - 1 == 0
    }

    function GetKey(node: nat): int
      requires Valid() && node in Weights()
      reads this
      ensures GetKey(node) == Weights()[node]
    {
      assert Unfold(0);
      insertedNodes[nodeIndex[node]].weight
    }

    function GetData(node: nat): D
      requires Valid() && node in Weights()
      reads this
      ensures GetData(node) == Payload()[node]
    {
      assert Unfold(0);
      insertedNodes[nodeIndex[node]].data
    }

    method SetData(node: nat, data: D)
      requires Valid() && node in Weights()
      modifies this
      ensures Valid() && Capacity() == old(Capacity())
      ensures Weights() == old(Weights()) && Queue() == old(Queue())
      ensures Payload() == old(Payload())[node := data]
    {
      assert Unfold(0);
      var index := nodeIndex[node];
      UpdateValue(nodeIndex, insertedNodes, index, insertedNodes[index].(data := data));
      ghost var was := insertedNodes;
      insertedNodes := insertedNodes[index := insertedNodes[index].(data := data)];
      assert forall i :: 1 <= i < |heap| && SlotLinked(heap, was, i) ==> SlotLinked(heap, insertedNodes, i);
      assert forall j :: 0 <= j < |was| && RecordLinked(heap, was, j) ==> RecordLinked(heap, insertedNodes, j);
      Abstract();
    }

    method Insert(node: nat, weight: int, data: D)
      requires Valid() && node < Capacity() && node !in Weights()
      requires MIN_WEIGHT <= weight
      modifies this
      ensures Valid() && Capacity() == old(Capacity())
      ensures Weights() == old(Weights())[node := weight]
      ensures Payload() == old(Payload())[node := data]
      ensures Queue() == old(Queue()) + {node}
    {
      assert Unfold(0);
      var element := HeapElement(|insertedNodes|, weight);
      var key := |heap|;
      AppendValue(nodeIndex, insertedNodes, HeapNode(node, key, weight, data));
      heap := heap + [element];
      insertedNodes := insertedNodes + [HeapNode(node, key, weight, data)];
      nodeIndex := nodeIndex[node := element.index];
      Appended(old(heap), old(insertedNodes), element, HeapNode(node, key, weight, data));
      ghost var mid := insertedNodes;
      Upheap(key);
      SameValue(nodeIndex, mid, insertedNodes);
      Abstract();
    }

    static lemma {:induction false} Appended(heap: seq<HeapElement>, nodes: seq<HeapNode<D>>, e: HeapElement,
                                             x: HeapNode<D>)
      requires Linked(heap, nodes) && Ordered(heap)
      requires e == HeapElement(|nodes|, x.weight) && x.key == |heap| && MIN_WEIGHT <= x.weight
      ensures Linked(heap + [e], nodes + [x])
      ensures OrderedExceptAbove(heap + [e], |heap|)
    {
      var h, c := heap + [e], nodes + [x];
      forall i | 1 <= i < |h|
        ensures SlotLinked(h, c, i)
      {
        assert i < |heap| ==> SlotLinked(heap, nodes, i);
      }
      forall j | 0 <= j < |c|
        ensures RecordLinked(h, c, j)
      {
        assert j < |nodes| ==> RecordLinked(heap, nodes, j);
      }
      forall i | 0 <= i < |h|
        ensures i != |heap| ==> OrderedAt(h, i)
        ensures Spans(h, |heap|, i)
      {
        assert i < |heap| ==> OrderedAt(heap, i);
      }
    }

    method DeleteMin() returns (node: nat)
      requires Valid() && Queue() != {}
      modifies this
      ensures Valid() && Capacity() == old(Capacity())
      ensures node in old(Queue()) && Queue() == old(Queue()) - {node}
      ensures Weights() == old(Weights()) && Payload() == old(Payload())
      ensures forall n :: n in old(Queue()) ==> Weights()[node] <= Weights()[n]
    {
      assert Unfold(0);
      assert !Empty();
      var removedIndex := heap[1].index;
      assert SlotLinked(heap, insertedNodes, 1);
      RootsFirst();
      var last := heap[|heap| - 1];
      heap := heap[1 := last];
      heap := heap[..|heap| - 1];
      if |heap| > 1 {
        AboutToDrop(old(heap), insertedNodes);
        Downheap(1, removedIndex);
      } else {
        OnlyOne(old(heap), insertedNodes);
      }
      RemovedValue(nodeIndex, old(insertedNodes), insertedNodes, removedIndex);
      insertedNodes := insertedNodes[removedIndex := insertedNodes[removedIndex].(key := 0)];
      node := insertedNodes[removedIndex].node;
      Abstract();
    }

    lemma {:induction false} RootsFirst()
      requires Valid()
      ensures forall n :: n in Queue() ==> |heap| > 1 && heap[1].weight <= Weights()[n]
    {
      assert Unfold(0);
      forall n | n in Queue()
        ensures |heap| > 1 && heap[1].weight <= Weights()[n]
      {
        assert RecordLinked(heap, insertedNodes, nodeIndex[n]);
        assert SlotLinked(heap, insertedNodes, insertedNodes[nodeIndex[n]].key);
        RootIsMin(heap, insertedNodes[nodeIndex[n]].key);
      }
    }

    static lemma {:induction false} AboutToDrop(heap: seq<HeapElement>, nodes: seq<HeapNode<D>>)
      requires Linked(heap, nodes) && Ordered(heap) && |heap| > 2
      ensures var h, r, last := heap[1 := heap[|heap| - 1]][..|heap| - 1], heap[1].index, heap[|heap| - 1].index;
              && r < |nodes| && last < |nodes| && r != last
              && Linked(h, Placed(Placed(nodes, r, 0), last, 1))
              && nodes[last].key != 0
              && OrderedExceptBelow(h, 1)
    {
      var h, r, last := heap[1 := heap[|heap| - 1]][..|heap| - 1], heap[1].index, heap[|heap| - 1].index;
      assert SlotLinked(heap, nodes, 1) && SlotLinked(heap, nodes, |heap| - 1);
      var c := Placed(Placed(nodes, r, 0), last, 1);
      forall i | 1 <= i < |h|
        ensures SlotLinked(h, c, i)
      {
        assert SlotLinked(heap, nodes, i);
      }
      forall j | 0 <= j < |c|
        ensures RecordLinked(h, c, j)
      {
        assert RecordLinked(heap, nodes, j);
      }
      forall i | 0 <= i < |h|
        ensures i / 2 != 1 ==> OrderedAt(h, i)
        ensures Spans(h, 1, i)
      {
        assert OrderedAt(heap, i);
      }
    }

    static lemma {:induction false} OnlyOne(heap: seq<HeapElement>, nodes: seq<HeapNode<D>>)
      requires Linked(heap, nodes) && |heap| == 2
      ensures heap[1].index < |nodes|
      ensures Linked(heap[..1], Placed(nodes, heap[1].index, 0))
    {
      assert SlotLinked(heap, nodes, 1);
      var c := Placed(nodes, heap[1].index, 0);
      forall j | 0 <= j < |c|
        ensures RecordLinked(heap[..1], c, j)
      {
        assert RecordLinked(heap, nodes, j);
      }
    }

    method DecreaseKey(node: nat, weight: int)
      requires Valid() && node in Queue()
      requires MIN_WEIGHT <= weight <= Weights()[node]
      modifies this
      ensures Valid() && Capacity() == old(Capacity())
      ensures Weights() == old(Weights())[node := weight]
      ensures Payload() == old(Payload()) && Queue() == old(Queue())
    {
      assert Unfold(0);
      var index := nodeIndex[node];
      var key := insertedNodes[index].key;
      UpdateValue(nodeIndex, insertedNodes, index, insertedNodes[index].(weight := weight));
      insertedNodes := insertedNodes[index := insertedNodes[index].(weight := weight)];
      assert RecordLinked(heap, old(insertedNodes), index);
      assert SlotLinked(heap, old(insertedNodes), key);
      heap := heap[key := heap[key].(weight := weight)];
      Lowered(old(heap), old(insertedNodes), key, weight);
      ghost var mid := insertedNodes;
      Upheap(key);
      SameValue(nodeIndex, mid, insertedNodes);
      Abstract();
    }

    static lemma {:induction false} Lowered(heap: seq<HeapElement>, nodes: seq<HeapNode<D>>, key: nat, weight: int)
      requires Linked(heap, nodes) && Ordered(heap) && 1 <= key < |heap|
      requires MIN_WEIGHT <= weight <= heap[key].weight
      ensures var j := heap[key].index;
              && j < |nodes|
              && Linked(heap[key := heap[key].(weight := weight)], nodes[j := nodes[j].(weight := weight)])
              && OrderedExceptAbove(heap[key := heap[key].(weight := weight)], key)
    {
      assert SlotLinked(heap, nodes, key);
      var j := heap[key].index;
      var h, c := heap[key := heap[key].(weight := weight)], nodes[j := nodes[j].(weight := weight)];
      forall i | 1 <= i < |h|
        ensures SlotLinked(h, c, i)
      {
        assert SlotLinked(heap, nodes, i);
      }
      forall k | 0 <= k < |c|
        ensures RecordLinked(h, c, k)
      {
        assert RecordLinked(heap, nodes, k);
      }
      forall i | 0 <= i < |h|
        ensures i != key ==> OrderedAt(h, i)
        ensures Spans(h, key, i)
      {
        assert OrderedAt(heap, i) && OrderedAt(heap, key);
      }
    }

    method Upheap(start: nat)
      requires 1 <= start < |heap|
      requires Linked(heap, insertedNodes) && OrderedExceptAbove(heap, start)
      modifies this`heap, this`insertedNodes
      ensures Linked(heap, insertedNodes) && Ordered(heap)
      ensures SameRecords(old(insertedNodes), insertedNodes)
    {
      var key := start;
      var rising := heap[key];
      var nextKey := key / 2;
      assert SlotLinked(heap, insertedNodes, start);
      assert RecordLinked(heap, insertedNodes, rising.index);
      assert heap[key := rising] == heap;
      assert Placed(insertedNodes, rising.index, key) == insertedNodes;
      while heap[nextKey].weight > rising.weight
        invariant 1 <= key < |heap| && nextKey == key / 2
        invariant rising.index < |insertedNodes|
        invariant heap[0].weight == MIN_WEIGHT <= rising.weight
        invariant Linked(heap[key := rising], Placed(insertedNodes, rising.index, key))
        invariant OrderedExceptAbove(heap[key := rising], key)
        invariant SameRecords(old(insertedNodes), insertedNodes)
        decreases key
      {
        LinkedMove(heap, insertedNodes, key, nextKey, rising);
        OrderUp(heap, key, rising);
        assert SlotLinked(heap[key := rising], Placed(insertedNodes, rising.index, key), nextKey);
        heap := heap[key := heap[nextKey]];
        insertedNodes := insertedNodes[heap[key].index := insertedNodes[heap[key].index].(key := key)];
        key := nextKey;
        nextKey := nextKey / 2;
      }
      OrderedHere(heap[key := rising], key);
      heap := heap[key := rising];
      insertedNodes := insertedNodes[rising.index := insertedNodes[rising.index].(key := key)];
    }

    /** `removed` is the record that DeleteMin is about to mark as removed. */
    method Downheap(start: nat, ghost removed: nat)
      requires 1 <= start < |heap| && removed < |insertedNodes|
      requires heap[start].index < |insertedNodes| && heap[start].index != removed
      requires Linked(heap, Placed(Placed(insertedNodes, removed, 0), heap[start].index, start))
      requires insertedNodes[heap[start].index].key != 0
      requires OrderedExceptBelow(heap, start)
      modifies this`heap, this`insertedNodes
      ensures |insertedNodes| == old(|insertedNodes|)
      ensures Linked(heap, Placed(insertedNodes, removed, 0)) && Ordered(heap)
      ensures SameRecords(old(insertedNodes), insertedNodes)
    {
      var key := start;
      var dropping := heap[key];
      var heapSize := |heap|;
      var nextKey := key * 2;
      assert heap[key := dropping] == heap;
      while nextKey < heapSize
        invariant 1 <= key < |heap| == heapSize && nextKey == 2 * key
        invariant removed < |insertedNodes| == old(|insertedNodes|)
        invariant dropping.index < |insertedNodes| && dropping.index != removed
        invariant Linked(heap[key := dropping], Placed(Placed(insertedNodes, removed, 0), dropping.index, key))
        invariant OrderedExceptBelow(heap[key := dropping], key)
        invariant SameRecords(old(insertedNodes), insertedNodes)
        invariant insertedNodes[dropping.index].key != 0
        decreases heapSize - key
      {
        var nextKeyOther := nextKey + 1;
        if nextKeyOther < heapSize && heap[nextKey].weight > heap[nextKeyOther].weight {
          nextKey := nextKeyOther;
        }
        assert forall i :: 2 <= i < |heap| && i / 2 == key ==> heap[nextKey].weight <= heap[i].weight;
        if dropping.weight <= heap[nextKey].weight {
          break;
        }
        ghost var c := Placed(insertedNodes, removed, 0);
        LinkedMove(heap, c, key, nextKey, dropping);
        OrderDown(heap, key, nextKey, dropping);
        assert SlotLinked(heap[key := dropping], Placed(c, dropping.index, key), nextKey);
        assert heap[nextKey].index != removed;
        heap := heap[key := heap[nextKey]];
        insertedNodes := insertedNodes[heap[key].index := insertedNodes[heap[key].index].(key := key)];
        assert Placed(insertedNodes, removed, 0) == Placed(c, heap[key].index, key);
        key := nextKey;
        nextKey := nextKey * 2;
      }
      OrderedHere(heap[key := dropping], key);
      assert Ordered(heap[key := dropping]);
      ghost var c := Placed(Placed(insertedNodes, removed, 0), dropping.index, key);
      heap := heap[key := dropping];
      insertedNodes := insertedNodes[dropping.index := insertedNodes[dropping.index].(key := key)];
      assert Placed(insertedNodes, removed, 0) == c;
    }
  }
}
