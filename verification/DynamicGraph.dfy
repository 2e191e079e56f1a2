/** The adjacency structure of both preprocessing graphs (data_structures/dynamic_graph.hpp):
    every node owns a range of one shared edge list; free slots carry a dummy target. */
module DynamicGraphs {
  import opened Basics

  datatype Node = Node(firstEdge: nat, edges: nat)

  datatype Edge<T> = Edge(target: nat, data: T)

  datatype InputEdge<T> = InputEdge(source: nat, target: nat, data: T)

  /** The target of a free slot, std::numeric_limits<unsigned>::max(). */
  const DUMMY: nat := 0xffff_ffff

  ghost predicate SortedBySource<T>(graph: seq<InputEdge<T>>) {
    forall i, j :: 0 <= i < j < |graph| ==> graph[i].source <= graph[j].source
  }

  function Strip<T>(e: InputEdge<T>): Edge<T> {
    Edge(e.target, e.data)
  }

  /** The edges of an edge list that leave n, in list order. */
  ghost function EdgesFrom<T>(graph: seq<InputEdge<T>>, n: nat): seq<Edge<T>> {
    if graph == [] then []
    else if graph[|graph| - 1].source == n then EdgesFrom(graph[..|graph| - 1], n) + [Strip(graph[|graph| - 1])]
    else EdgesFrom(graph[..|graph| - 1], n)
  }

  lemma {:induction false} EdgesFromRange<T>(graph: seq<InputEdge<T>>, list: seq<Edge<T>>, n: nat, lo: nat, hi: nat)
    requires lo <= hi <= |graph| == |list|
    requires forall k :: 0 <= k < |graph| ==> (graph[k].source == n <==> lo <= k < hi)
    requires forall k :: 0 <= k < |graph| ==> list[k] == Strip(graph[k])
    ensures EdgesFrom(graph, n) == list[lo..hi]
    decreases |graph|
  {
    if graph != [] {
      var last := |graph| - 1;
      var init := graph[..last];
      assert forall k :: 0 <= k < last ==> init[k] == graph[k];
      if hi == |graph| && lo < hi {
        EdgesFromRange(init, list[..last], n, lo, last);
        assert list[lo..hi] == list[..last][lo..last] + [list[last]];
      } else if hi == |graph| {
        EdgesFromRange(init, list[..last], n, last, last);
      } else {
        EdgesFromRange(init, list[..last], n, lo, hi);
        assert list[lo..hi] == list[..last][lo..hi];
      }
    }
  }

  lemma {:induction false} EdgesFromMember<T>(graph: seq<InputEdge<T>>, n: nat, e: Edge<T>)
    ensures e in EdgesFrom(graph, n) <==> InputEdge(n, e.target, e.data) in graph
    decreases |graph|
  {
    if graph != [] {
      var last := |graph| - 1;
      EdgesFromMember(graph[..last], n, e);
      assert graph == graph[..last] + [graph[last]];
    }
  }

  ghost function SwappedOut<T>(s: seq<T>, i: nat): (r: seq<T>)
    requires i < |s|
    ensures |r| == |s| - 1
  {
    s[i := s[|s| - 1]][..|s| - 1]
  }

  /** Overwriting one element with the last and dropping the last removes exactly that element. */
  lemma {:induction false} SwapOut<T>(s: seq<T>, i: nat)
    requires i < |s|
    ensures multiset(SwappedOut(s, i)) == multiset(s) - multiset{s[i]}
  {
    var last := |s| - 1;
    assert s == s[..last] + [s[last]];
    if i < last {
      assert s[i := s[last]][..last] == s[..i] + [s[last]] + s[i + 1..last];
      assert s[..last] == s[..i] + [s[i]] + s[i + 1..last];
    } else {
      assert s[i := s[last]][..last] == s[..last];
    }
  }

  /** The first `edge` entries of a sorted list are those of the nodes before n. */
  ghost predicate Boundary<T>(graph: seq<InputEdge<T>>, n: nat, edge: nat) {
    forall k :: 0 <= k < |graph| ==> (graph[k].source < n <==> k < edge)
  }

  ghost predicate OwnEdges<T>(graph: seq<InputEdge<T>>, n: nat, node: Node) {
    && Boundary(graph, n, node.firstEdge) && Boundary(graph, n + 1, node.firstEdge + node.edges)
    && node.firstEdge + node.edges <= |graph|
  }

  lemma {:induction false} SameBoundary<T>(graph: seq<InputEdge<T>>, n: nat, a: nat, b: nat)
    requires a <= |graph| && b <= |graph| && Boundary(graph, n, a) && Boundary(graph, n, b)
    ensures a == b
  {
    assert a < |graph| ==> graph[a].source >= n;
    assert b < |graph| ==> graph[b].source >= n;
  }

  /** Overwriting slot i of a range by its last slot, and freeing that. */
  lemma {:induction false} DropAt<T>(list: seq<Edge<T>>, list': seq<Edge<T>>, first: nat, last: nat, i: nat)
    requires first <= i <= last < |list|
    requires list' == list[i := list[last]][last := list[last].(target := DUMMY)]
    ensures list'[first..last] == SwappedOut(list[first..last + 1], i - first)
    ensures forall k :: 0 <= k < |list| && !(first <= k <= last) ==> list'[k] == list[k]
  {
    var a, b := list'[first..last], SwappedOut(list[first..last + 1], i - first);
    forall k | 0 <= k < |a|
      ensures a[k] == b[k]
    {
    }
  }

  // ----- the representation invariant, on values ---------------------------

  ghost predicate Owns(node: Node, i: int) {
    node.firstEdge <= i < node.firstEdge + node.edges
  }

  /** Node ranges lie inside the list, hold no dummy and do not overlap. */
  ghost predicate Packed<T>(nodes: seq<Node>, list: seq<Edge<T>>) {
    && (forall n :: 0 <= n < |nodes| ==> nodes[n].firstEdge + nodes[n].edges <= |list|)
    && (forall n, i :: 0 <= n < |nodes| && Owns(nodes[n], i) ==> list[i].target != DUMMY)
    && (forall n, m, i :: 0 <= n < |nodes| && 0 <= m < |nodes| && Owns(nodes[n], i) && Owns(nodes[m], i) ==> n == m)
  }

  function Slice<T>(nodes: seq<Node>, list: seq<Edge<T>>, n: nat): seq<Edge<T>>
    requires n < |nodes| && nodes[n].firstEdge + nodes[n].edges <= |list|
  {
    list[nodes[n].firstEdge..nodes[n].firstEdge + nodes[n].edges]
  }

  /** Moving or rewriting the range of one node, within slots nobody else owns, leaves the
      other ranges alone. */
  lemma {:induction false} OtherSlices<T>(nodes: seq<Node>, list: seq<Edge<T>>, from: nat, node: Node,
                                          list': seq<Edge<T>>)
    requires Packed(nodes, list) && from < |nodes|
    requires |list| <= |list'| && node.firstEdge + node.edges <= |list'|
    requires forall i :: Owns(node, i) ==> list'[i].target != DUMMY
    requires forall i, m :: 0 <= m < |nodes| && m != from && Owns(nodes[m], i) ==> list'[i] == list[i] && !Owns(node, i)
    ensures Packed(nodes[from := node], list')
    ensures forall m :: 0 <= m < |nodes| && m != from ==> Slice(nodes[from := node], list', m) == Slice(nodes, list, m)
  {
    var nodes' := nodes[from := node];
    forall m | 0 <= m < |nodes| && m != from
      ensures Slice(nodes', list', m) == Slice(nodes, list, m)
    {
      assert forall i :: Owns(nodes[m], i) ==> list'[i] == list[i];
    }
  }

  /** Outside the range of `node` the lists agree. */
  ghost predicate SameOutside<T>(node: Node, was: seq<Edge<T>>, list: seq<Edge<T>>) {
    |was| <= |list| && forall k :: 0 <= k < |was| && !Owns(node, k) ==> list[k] == was[k]
  }

  /** What DeleteEdgesTo makes of a node's edges when it stands at position i: an edge to
      the target is overwritten by the last one, any other is passed. */
  ghost function Pruned<T>(s: seq<Edge<T>>, target: nat, i: nat): seq<Edge<T>>
    decreases |s| - i
  {
    if i >= |s| then s
    else if s[i].target == target then Pruned(SwappedOut(s, i), target, i)
    else Pruned(s, target, i + 1)
  }

  /** Only edges to the target are lost. */
  lemma {:induction false} PrunedKeeps<T>(s: seq<Edge<T>>, target: nat, i: nat, e: Edge<T>)
    requires forall k :: 0 <= k < i && k < |s| ==> s[k].target != target
    ensures multiset(Pruned(s, target, i))[e] == if e.target == target then 0 else multiset(s)[e]
    ensures |Pruned(s, target, i)| <= |s|
    decreases |s| - i
  {
    if i >= |s| {
      assert e.target == target ==> e !in s;
    } else if s[i].target == target {
      SwapOut(s, i);
      PrunedKeeps(SwappedOut(s, i), target, i, e);
    } else {
      PrunedKeeps(s, target, i + 1, e);
    }
  }

  class DynamicGraph<T(0, !new)> {
    var numberOfNodes: nat
    var numberOfEdges: int
    var nodeArray: seq<Node>
    var edgeList: seq<Edge<T>>

    ghost predicate Valid()
      reads this
    {
      |nodeArray| == numberOfNodes + 1 && Packed(nodeArray, edgeList)
    }

    function BeginEdges(n: nat): nat
      requires n < |nodeArray|
      reads this
    {
      nodeArray[n].firstEdge
    }

    function EndEdges(n: nat): nat
      requires n < |nodeArray|
      reads this
    {
      nodeArray[n].firstEdge + nodeArray[n].edges
    }

    /** The edges in GetAdjacentEdgeRange(n), in order. */
    function Edges(n: nat): seq<Edge<T>>
      requires Valid() && n < numberOfNodes
      reads this
    {
      Slice(nodeArray, edgeList, n)
    }

    /** The abstract value: one list of edges per node. */
    ghost function Adjacency(): (r: seq<seq<Edge<T>>>)
      requires Valid()
      reads this
      ensures |r| == numberOfNodes
      ensures forall n :: 0 <= n < numberOfNodes ==> r[n] == Edges(n)
    {
      seq(numberOfNodes, n requires Valid() && 0 <= n < numberOfNodes reads this => Edges(n))
    }

    constructor FromSorted(nodes: nat, graph: seq<InputEdge<T>>)
      requires SortedBySource(graph)
      requires forall k :: 0 <= k < |graph| ==> graph[k].source < nodes && graph[k].target != DUMMY
      ensures Valid() && numberOfNodes == nodes && numberOfEdges == |graph|
      ensures forall n :: 0 <= n < nodes ==> Edges(n) == EdgesFrom(graph, n)
    {
      numberOfNodes := nodes;
      numberOfEdges := |graph|;
      var nodeList := CountEdges(nodes, graph);
      var none: T := *;
      var list := seq(|graph|, _ => Edge(DUMMY, none));
      var edge := 0;
      for node := 0 to nodes
        invariant |list| == |graph| && edge <= |graph| && Boundary(graph, node, edge)
        invariant forall k :: 0 <= k < edge ==> list[k] == Strip(graph[k])
      {
        var first := nodeList[node].firstEdge;
        SameBoundary(graph, node, edge, first);
        for i := first to first + nodeList[node].edges
          invariant |list| == |graph| && edge == i <= |graph|
          invariant forall k :: 0 <= k < edge ==> list[k] == Strip(graph[k])
        {
          list := list[i := Edge(graph[edge].target, graph[edge].data)];
          edge := edge + 1;
        }
      }
      SameBoundary(graph, nodes, edge, |graph|);
      nodeArray := nodeList;
      edgeList := list;
      new;
      forall n, m, i | 0 <= n < |nodeList| && 0 <= m < |nodeList| && Owns(nodeList[n], i) && Owns(nodeList[m], i)
        ensures n == m
      {
        assert graph[i].source == n && graph[i].source == m;
      }
      forall n | 0 <= n < nodes
        ensures Slice(nodeArray, edgeList, n) == EdgesFrom(graph, n)
      {
        EdgesFromRange(graph, list, n, nodeArray[n].firstEdge, EndEdges(n));
      }
    }

    /** The counting pass of the constructor: consecutive ranges, one per node, plus a sentinel. */
    static method CountEdges(nodes: nat, graph: seq<InputEdge<T>>) returns (nodeList: seq<Node>)
      requires SortedBySource(graph)
      requires forall k :: 0 <= k < |graph| ==> graph[k].source < nodes
      ensures |nodeList| == nodes + 1 && nodeList[nodes] == Node(|graph|, 0)
      ensures forall n :: 0 <= n < nodes ==> OwnEdges(graph, n, nodeList[n])
    {
      nodeList := [];
      var edge := 0;
      var position := 0;
      for node := 0 to nodes
        invariant |nodeList| == node && position == edge <= |graph|
        invariant Boundary(graph, node, edge)
        invariant forall n :: 0 <= n < node ==> OwnEdges(graph, n, nodeList[n])
      {
        var lastEdge := edge;
        while edge < |graph| && graph[edge].source == node
          invariant lastEdge <= edge <= |graph|
          invariant forall k :: lastEdge <= k < edge ==> graph[k].source == node
        {
          edge := edge + 1;
        }
        nodeList := nodeList + [Node(position, edge - lastEdge)];
        position := position + (edge - lastEdge);
      }
      SameBoundary(graph, nodes, edge, |graph|);
      nodeList := nodeList + [Node(position, 0)];
    }

    predicate IsDummy(i: nat)
      requires i < |edgeList|
      reads this
    {
      edgeList[i].target == DUMMY
    }

    /** The slot after the range of `from` exists and belongs to nobody. */
    ghost predicate Room(from: nat)
      requires from < |nodeArray|
      reads this
    {
      EndEdges(from) < |edgeList| && forall n :: 0 <= n < |nodeArray| ==> !Owns(nodeArray[n], EndEdges(from))
    }

    method InsertEdge(from: nat, to: nat, data: T) returns (end: nat)
      requires Valid() && from < numberOfNodes && to != DUMMY
      modifies this
      ensures Valid() && numberOfNodes == old(numberOfNodes)
      ensures Adjacency() == old(Adjacency())[from := Edges(from)]
      ensures multiset(Edges(from)) == old(multiset(Edges(from))) + multiset{Edge(to, data)}
      ensures end == EndEdges(from) && numberOfEdges == old(numberOfEdges) + 1
    {
      var node := nodeArray[from];
      var newFirstEdge := node.edges + node.firstEdge;
      if newFirstEdge >= |edgeList| || !IsDummy(newFirstEdge) {
        if node.firstEdge != 0 && IsDummy(node.firstEdge - 1) {
          ShiftLeft(from);
        } else {
          Relocate(from);
        }
      }
      Append(from, to, data);
      end := nodeArray[from].firstEdge + nodeArray[from].edges;
    }

    method Append(from: nat, to: nat, data: T)
      requires Valid() && from < numberOfNodes && to != DUMMY && Room(from)
      modifies this
      ensures Valid() && numberOfNodes == old(numberOfNodes)
      ensures Adjacency() == old(Adjacency())[from := Edges(from)]
      ensures Edges(from) == old(Edges(from)) + [Edge(to, data)]
      ensures numberOfEdges == old(numberOfEdges) + 1
    {
      var node := nodeArray[from];
      var slot := node.firstEdge + node.edges;
      OtherSlices(nodeArray, edgeList, from, node.(edges := node.edges + 1), edgeList[slot := Edge(to, data)]);
      edgeList := edgeList[slot := Edge(to, data)];
      numberOfEdges := numberOfEdges + 1;
      nodeArray := nodeArray[from := node.(edges := node.edges + 1)];
      assert Edges(from) == old(Edges(from)) + [Edge(to, data)];
    }

    /** Take the free slot before the range: the last edge moves to the front. */
    method ShiftLeft(from: nat)
      requires Valid() && from < numberOfNodes
      requires nodeArray[from].firstEdge != 0 && IsDummy(nodeArray[from].firstEdge - 1)
      modifies this`nodeArray, this`edgeList
      ensures Valid() && Room(from)
      ensures Adjacency() == old(Adjacency())[from := Edges(from)]
      ensures multiset(Edges(from)) == old(multiset(Edges(from)))
    {
      var node := nodeArray[from];
      var first := node.firstEdge - 1;
      var list := edgeList[first := edgeList[first + node.edges]];
      OtherSlices(nodeArray, edgeList, from, Node(first, node.edges), list);
      ShiftedSlice(edgeList, first, node.edges);
      nodeArray := nodeArray[from := Node(first, node.edges)];
      edgeList := list;
    }

    static lemma {:induction false} ShiftedSlice(list: seq<Edge<T>>, first: nat, count: nat)
      requires first + count < |list|
      ensures var before := list[first + 1..first + 1 + count];
              multiset(list[first := list[first + count]][first..first + count]) == multiset(before)
    {
      var before := list[first + 1..first + 1 + count];
      var after := list[first := list[first + count]][first..first + count];
      if count > 0 {
        assert before == before[..count - 1] + [before[count - 1]];
        assert after == [before[count - 1]] + before[..count - 1];
      }
    }

    /** Move the range to fresh slots at the end of the list. */
    method Relocate(from: nat)
      requires Valid() && from < numberOfNodes
      modifies this`nodeArray, this`edgeList
      ensures Valid() && Room(from)
      ensures Adjacency() == old(Adjacency())
    {
      var node := nodeArray[from];
      var newFirstEdge := |edgeList|;
      var list := CopyToEnd(node, edgeList);
      var moved := Node(newFirstEdge, node.edges);
      forall i | Owns(moved, i)
        ensures list[i].target != DUMMY
      {
        assert list[i] == Edges(from)[i - newFirstEdge] == edgeList[node.firstEdge + i - newFirstEdge];
        assert Owns(node, node.firstEdge + i - newFirstEdge);
      }
      OtherSlices(nodeArray, edgeList, from, moved, list);
      nodeArray := nodeArray[from := moved];
      edgeList := list;
      assert Edges(from) == old(Edges(from));
    }

    static method CopyToEnd(node: Node, was: seq<Edge<T>>) returns (list: seq<Edge<T>>)
      requires node.firstEdge + node.edges <= |was|
      ensures |list| >= |was| + node.edges + 2
      ensures SameOutside(node, was, list)
      ensures list[|was|..|was| + node.edges] == was[node.firstEdge..node.firstEdge + node.edges]
    {
      var newSize := node.edges * 11 / 10 + 2;
      list := MoveRange(node, was, newSize);
      for i := node.edges + 1 to newSize
        invariant |list| == |was| + newSize && SameOutside(node, was, list)
        invariant list[|was|..|was| + node.edges] == was[node.firstEdge..node.firstEdge + node.edges]
      {
        list := list[|was| + i := list[|was| + i].(target := DUMMY)];
      }
    }

    /** Grow the list and copy the range, leaving dummies behind. */
    static method MoveRange(node: Node, was: seq<Edge<T>>, newSize: nat) returns (list: seq<Edge<T>>)
      requires node.firstEdge + node.edges <= |was| && node.edges <= newSize
      ensures |list| == |was| + newSize
      ensures SameOutside(node, was, list)
      ensures list[|was|..|was| + node.edges] == was[node.firstEdge..node.firstEdge + node.edges]
    {
      var none: Edge<T> := *;
      var first := node.firstEdge;
      list := was + seq(newSize, _ => none);
      for i := 0 to node.edges
        invariant |list| == |was| + newSize
        invariant forall k :: 0 <= k < |was| && !(first <= k < first + i) ==> list[k] == was[k]
        invariant forall k :: |was| <= k < |was| + i ==> list[k] == was[first + k - |was|]
      {
        list := list[|was| + i := list[first + i]];
        list := list[first + i := list[first + i].(target := DUMMY)];
      }
      assert forall k :: 0 <= k < |was| && !Owns(node, k) ==> list[k] == was[k];
    }

    /** The slot may be one that an earlier deletion has already cut off the range: the range then
        simply loses its last edge. */
    method DeleteEdge(source: nat, e: nat)
      requires Valid() && source < numberOfNodes && nodeArray[source].edges > 0
      requires e < |edgeList| && forall m :: 0 <= m < |nodeArray| && m != source ==> !Owns(nodeArray[m], e)
      modifies this
      ensures Valid() && numberOfNodes == old(numberOfNodes)
      ensures nodeArray == old(nodeArray)[source := old(nodeArray[source]).(edges := old(nodeArray[source].edges) - 1)]
      ensures Adjacency() == old(Adjacency())[source := Edges(source)]
      ensures old(BeginEdges(source)) <= e < old(EndEdges(source)) ==>
                Edges(source) == SwappedOut(old(Edges(source)), e - old(BeginEdges(source)))
      ensures !(old(BeginEdges(source)) <= e < old(EndEdges(source))) ==>
                Edges(source) == old(Edges(source))[..old(nodeArray[source].edges) - 1]
      ensures numberOfEdges == old(numberOfEdges) - 1
      ensures |edgeList| == old(|edgeList|)
      ensures forall i :: 0 <= i < |edgeList| && i != e && i != old(EndEdges(source)) - 1 ==>
                edgeList[i] == old(edgeList[i])
    {
      var node := nodeArray[source];
      numberOfEdges := numberOfEdges - 1;
      var list := FreeSlot(edgeList, node.firstEdge, node.firstEdge + node.edges - 1, e);
      assert Owns(node, node.firstEdge + node.edges - 1);
      assert forall i :: Owns(node.(edges := node.edges - 1), i) ==> Owns(node, i);
      OtherSlices(nodeArray, edgeList, source, node.(edges := node.edges - 1), list);
      nodeArray := nodeArray[source := node.(edges := node.edges - 1)];
      edgeList := list;
    }

    /** Overwrite slot e by the last slot of a range and free that. */
    static method FreeSlot(list: seq<Edge<T>>, first: nat, last: nat, e: nat) returns (list': seq<Edge<T>>)
      requires first <= last < |list| && e < |list|
      ensures |list'| == |list|
      ensures first <= e <= last ==> list'[first..last] == SwappedOut(list[first..last + 1], e - first)
      ensures !(first <= e <= last) ==> list'[first..last] == list[first..last + 1][..last - first]
      ensures forall k :: 0 <= k < |list| && k != e && k != last ==> list'[k] == list[k]
      ensures forall k :: first <= k < last ==> list'[k] == list[k] || list'[k] == list[last]
    {
      list' := list[e := list[last]];
      list' := list'[last := list'[last].(target := DUMMY)];
      if first <= e <= last {
        DropAt(list, list', first, last, e);
      }
    }

    /** Removes exactly the edges (source, target), keeping the others. */
    method DeleteEdgesTo(source: nat, target: nat) returns (deleted: nat)
      requires Valid() && source < numberOfNodes && target != DUMMY
      modifies this
      ensures Valid() && numberOfNodes == old(numberOfNodes)
      ensures Adjacency() == old(Adjacency())[source := Edges(source)]
      ensures forall e: Edge<T> ::
                multiset(Edges(source))[e] == if e.target == target then 0 else old(multiset(Edges(source)))[e]
      ensures deleted == old(|Edges(source)|) - |Edges(source)|
      ensures numberOfEdges == old(numberOfEdges) - deleted
    {
      var node := nodeArray[source];
      var list;
      assert forall k :: Owns(node, k) ==> edgeList[k].target != DUMMY;
      list, deleted := Prune(node, edgeList, target);
      OtherSlices(nodeArray, edgeList, source, node.(edges := node.edges - deleted), list);
      numberOfEdges := numberOfEdges - deleted;
      nodeArray := nodeArray[source := node.(edges := node.edges - deleted)];
      edgeList := list;
      forall e: Edge<T>
        ensures multiset(Edges(source))[e] == if e.target == target then 0 else old(multiset(Edges(source)))[e]
      {
        PrunedKeeps(old(Edges(source)), target, 0, e);
      }
    }

    /** The state of the loops of DeleteEdgesTo after `deleted` removals, standing at slot i. */
    static ghost predicate Pruning(node: Node, was: seq<Edge<T>>, list: seq<Edge<T>>, target: nat, i: nat,
                                   deleted: nat) {
      var end := node.firstEdge + node.edges;
      && node.firstEdge <= i && deleted <= node.edges && end <= |list| == |was| && SameOutside(node, was, list)
      && (forall k :: node.firstEdge <= k < end - deleted ==> list[k].target != DUMMY)
      && Pruned(list[node.firstEdge..end - deleted], target, i - node.firstEdge)
         == Pruned(was[node.firstEdge..end], target, 0)
    }

    static lemma {:induction false} PruneStep(node: Node, was: seq<Edge<T>>, list: seq<Edge<T>>, target: nat, i: nat,
                                              deleted: nat)
      requires Pruning(node, was, list, target, i, deleted)
      requires i < node.firstEdge + node.edges - deleted && list[i].target == target
      ensures var last := node.firstEdge + node.edges - deleted - 1;
              Pruning(node, was, list[i := list[last]][last := list[last].(target := DUMMY)], target, i, deleted + 1)
    {
      var first, last := node.firstEdge, node.firstEdge + node.edges - deleted - 1;
      var live := list[first..last + 1];
      var list' := list[i := list[last]][last := list[last].(target := DUMMY)];
      DropAt(list, list', first, last, i);
      assert live[i - first].target == target;
      assert forall k :: 0 <= k < |list| && !Owns(node, k) ==> list'[k] == list[k];
    }

    static method Prune(node: Node, was: seq<Edge<T>>, target: nat) returns (list: seq<Edge<T>>, deleted: nat)
      requires node.firstEdge + node.edges <= |was|
      requires forall k :: Owns(node, k) ==> was[k].target != DUMMY
      ensures deleted <= node.edges && |list| == |was| && SameOutside(node, was, list)
      ensures forall k :: Owns(node.(edges := node.edges - deleted), k) ==> list[k].target != DUMMY
      ensures list[node.firstEdge..node.firstEdge + node.edges - deleted]
              == Pruned(was[node.firstEdge..node.firstEdge + node.edges], target, 0)
    {
      deleted, list := 0, was;
      var i: nat, iend := node.firstEdge, node.firstEdge + node.edges;
      while i < iend - deleted
        invariant Pruning(node, was, list, target, i, deleted)
        decreases iend - deleted - i
      {
        while i < iend - deleted && list[i].target == target
          invariant Pruning(node, was, list, target, i, deleted)
          decreases iend - deleted
        {
          PruneStep(node, was, list, target, i, deleted);
          deleted := deleted + 1;
          var moved := list[iend - deleted];
          list := list[i := moved][iend - deleted := moved.(target := DUMMY)];
        }
        i := i + 1;
      }
    }

    /** The first edge from `from` to `to`, if there is one. */
    method FindEdge(from: nat, to: nat) returns (r: Option<nat>)
      requires Valid() && from < numberOfNodes
      ensures r.None? ==> forall e :: e in Edges(from) ==> e.target != to
      ensures r.Some? ==> BeginEdges(from) <= r.value < EndEdges(from) && edgeList[r.value].target == to
      ensures r.Some? ==> forall i :: BeginEdges(from) <= i < r.value ==> edgeList[i].target != to
    {
      for i := BeginEdges(from) to EndEdges(from)
        invariant forall k :: BeginEdges(from) <= k < i ==> edgeList[k].target != to
      {
        if to == edgeList[i].target {
          return Some(i);
        }
      }
      return None;
    }

    /** Rewrites target and data of one stored edge. */
    method SetEdge(source: nat, e: nat, target: nat, data: T)
      requires Valid() && source < numberOfNodes && BeginEdges(source) <= e < EndEdges(source) && target != DUMMY
      modifies this`edgeList
      ensures Valid() && edgeList == old(edgeList)[e := Edge(target, data)]
      ensures Edges(source) == old(Edges(source))[e - BeginEdges(source) := Edge(target, data)]
      ensures Adjacency() == old(Adjacency())[source := Edges(source)]
    {
      var list := edgeList[e := Edge(target, data)];
      OtherSlices(nodeArray, edgeList, source, nodeArray[source], list);
      assert nodeArray[source := nodeArray[source]] == nodeArray;
      edgeList := list;
      assert Edges(source) == old(Edges(source))[e - BeginEdges(source) := Edge(target, data)];
    }
  }
}
