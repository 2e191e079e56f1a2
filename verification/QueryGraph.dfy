/** The contracted graph as the query sees it (data_structures/static_graph.hpp): immutable,
    one range of the edge array per node. */
module QueryGraphs {
  import opened ContractionTheory
  import opened DynamicGraphs
  import opened EdgeMerging

  datatype QueryData = QueryData(distance: int, shortcut: bool, id: nat, forward: bool, backward: bool)

  type QInput = InputEdge<QueryData>
  type QEdge = Edge<QueryData>
  type QAdj = seq<seq<QEdge>>

  function Record(q: QueryEdge): QInput {
    InputEdge(q.source, q.target, QueryData(q.distance, q.shortcut, q.id, q.forward, q.backward))
  }

  function Unrecord(n: nat, e: QEdge): QueryEdge {
    QueryEdge(n, e.target, e.data.distance, e.data.shortcut, e.data.id, e.data.forward, e.data.backward)
  }

  /** The query edges stored in an adjacency. */
  ghost function StoredEdges(adj: QAdj): iset<QueryEdge> {
    iset q: QueryEdge | q.source < |adj| && Strip(Record(q)) in adj[q.source]
  }

  class StaticGraph {
    const numberOfNodes: nat
    const nodeArray: seq<nat>
    const edgeArray: seq<QEdge>

    ghost predicate Valid() {
      && |nodeArray| == numberOfNodes + 1
      && (forall n :: 0 <= n < numberOfNodes ==> nodeArray[n] <= nodeArray[n + 1])
      && (forall n :: 0 <= n <= numberOfNodes ==> nodeArray[n] <= |edgeArray|)
    }

    function Edges(n: nat): seq<QEdge>
      requires Valid() && n < numberOfNodes
    {
      edgeArray[nodeArray[n]..nodeArray[n + 1]]
    }

    ghost function Adjacency(): (r: QAdj)
      requires Valid()
      ensures |r| == numberOfNodes
      ensures forall n :: 0 <= n < numberOfNodes ==> r[n] == Edges(n)
    {
      seq(numberOfNodes, n requires Valid() && 0 <= n < numberOfNodes => Edges(n))
    }

    constructor (nodes: nat, graph: seq<QInput>)
      requires SortedBySource(graph)
      requires forall k :: 0 <= k < |graph| ==> graph[k].source < nodes
      ensures Valid() && numberOfNodes == nodes
      ensures forall n :: 0 <= n < nodes ==> Edges(n) == EdgesFrom(graph, n)
    {
      var firstEdges: seq<nat> := [];
      var edge := 0;
      var position := 0;
      for node := 0 to nodes + 1
        invariant |firstEdges| == node && position == edge <= |graph|
        invariant Boundary(graph, node, edge)
        invariant forall n :: 0 <= n < node ==> firstEdges[n] <= edge && Boundary(graph, n, firstEdges[n])
      {
        var lastEdge := edge;
        while edge < |graph| && graph[edge].source == node
          invariant lastEdge <= edge <= |graph|
          invariant forall k :: lastEdge <= k < edge ==> graph[k].source == node
        {
          edge := edge + 1;
        }
        firstEdges := firstEdges + [position];
        position := position + (edge - lastEdge);
      }
      var list := seq(|graph|, k requires 0 <= k < |graph| => Strip(graph[k]));
      numberOfNodes := nodes;
      nodeArray := firstEdges;
      edgeArray := list;
      new;
      forall n | 0 <= n < nodes
        ensures nodeArray[n] <= nodeArray[n + 1] && list[nodeArray[n]..nodeArray[n + 1]] == EdgesFrom(graph, n)
      {
        InOrder(graph, n, nodeArray[n], nodeArray[n + 1]);
        EdgesFromRange(graph, list, n, nodeArray[n], nodeArray[n + 1]);
      }
    }

    static lemma {:induction false} InOrder(graph: seq<QInput>, n: nat, a: nat, b: nat)
      requires a <= |graph| && b <= |graph| && Boundary(graph, n, a) && Boundary(graph, n + 1, b)
      ensures a <= b
    {
      assert b < |graph| ==> graph[b].source >= n + 1;
    }
  }

  /** Sorting the contracted edges and laying them out keeps exactly those edges
      (contractor/processing_chain.cpp, WriteContractedGraph). */
  method BuildQueryGraph(nodes: nat, edges: seq<QueryEdge>) returns (g: StaticGraph)
    requires forall q :: q in edges ==> q.source < nodes
    ensures g.Valid() && g.numberOfNodes == nodes
    ensures forall q :: q in StoredEdges(g.Adjacency()) <==> q in edges
  {
    var records := seq(|edges|, k requires 0 <= k < |edges| => Record(edges[k]));
    var sorted := SortEdges(records);
    SameMembers(sorted, records);
    SortedSources(sorted);
    assert forall k :: 0 <= k < |sorted| ==> sorted[k] in records;
    g := new StaticGraph(nodes, sorted);
    forall q
      ensures q in StoredEdges(g.Adjacency()) <==> q in edges
    {
      if q.source < nodes {
        EdgesFromMember(sorted, q.source, Strip(Record(q)));
      }
      if q in edges {
        var k :| 0 <= k < |edges| && edges[k] == q;
        assert records[k] == Record(q);
      }
    }
  }
}
