/** The contractor (contractor/contractor.hpp): rounds of independent contractions. */
module Contractors {
  import opened Walks
  import opened ContractionTheory
  import opened DynamicGraphs
  import opened ContractorEdges
  import opened BinaryHeaps
  import opened WitnessSearch
  import opened NodeContraction
  import opened ContractionRound
  import opened ContractionRuns
  import opened EdgeMerging

  function Iota(n: nat): (r: seq<nat>)
    ensures |r| == n && forall i :: 0 <= i < n ==> r[i] == i
  {
    seq(n, i => i)
  }

  ghost predicate Distinct(s: seq<nat>) {
    forall i, j :: 0 <= i < j < |s| ==> s[i] != s[j]
  }

  // ----- the first state ---------------------------------------------------

  lemma {:induction false} InitialState(input: seq<EdgeBasedEdge>, nodes: nat, stored: seq<CInput>, adj: Adj)
    requires |adj| == nodes && forall n :: 0 <= n < nodes ==> adj[n] == EdgesFrom(stored, n)
    requires forall e {:trigger Proper(input, e)} :: e in stored ==> Proper(input, e)
    requires forall e :: e in stored ==> e.source < nodes && e.target < nodes
    requires forall a {:trigger Represented(stored, a)} :: a in InputArcs(input) ==> Represented(stored, a)
    ensures GoodState(InputArcs(input), adj, [], [], seq(nodes, _ => 0), SetOf(Iota(nodes)), 0)
    ensures forall q :: q in Out(adj, [], []) ==> !q.shortcut && Numbered(input, q.source, q.target, q.id)
  {
    var out, left, levels := Out(adj, [], []), SetOf(Iota(nodes)), seq(nodes, _ => 0);
    assert Image([], left) == left;
    forall n: nat
      ensures n in left <==> n < nodes
    {
      if n < nodes {
        assert Iota(nodes)[n] == n;
      }
    }
    forall q | q in out
      ensures InputEdgeOf(InputArcs(input), nodes, q) && Numbered(input, q.source, q.target, q.id)
    {
      var n: nat, e :| n < |adj| && e in adj[n] && q == Translate([], n, e);
      EdgesFromMember(stored, n, e);
      assert Proper(input, InputEdge(n, e.target, e.data));
    }
    forall a | a in InputArcs(input)
      ensures OfferedByBoth(out, a)
    {
      assert Represented(stored, a);
      ArcIsOffered(nodes, stored, adj, a);
    }
    StartConsistent(InputArcs(input), out, levels, left, 0);
    StartComplete(InputArcs(input), out, nodes, left);
    assert InGraph(adj) by {
      forall n, e | 0 <= n < |adj| && e in adj[n]
        ensures e.target < |adj| && e.data.distance >= 1
      {
        EdgesFromMember(stored, n, e);
        assert Proper(input, InputEdge(n, e.target, e.data));
      }
    }
  }

  lemma {:induction false} StoredIsOut(nodes: nat, stored: seq<CInput>, adj: Adj, e: CInput)
    requires |adj| == nodes && forall n :: 0 <= n < nodes ==> adj[n] == EdgesFrom(stored, n)
    requires e in stored && e.source < nodes
    ensures Translate([], e.source, Strip(e)) in Out(adj, [], [])
  {
    EdgesFromMember(stored, e.source, Strip(e));
    assert Emits(adj, [], Translate([], e.source, Strip(e)));
  }

  lemma {:induction false} ArcIsOffered(nodes: nat, stored: seq<CInput>, adj: Adj, a: Arc)
    requires |adj| == nodes && forall n :: 0 <= n < nodes ==> adj[n] == EdgesFrom(stored, n)
    requires forall e :: e in stored ==> e.source < nodes
    requires Represented(stored, a)
    ensures OfferedByBoth(Out(adj, [], []), a)
  {
    var e :| e in stored && e.source == a.src && e.target == a.dst && e.data.forward && e.data.distance <= a.w;
    StoredIsOut(nodes, stored, adj, e);
    var f :| f in stored && f.source == a.dst && f.target == a.src && f.data.backward && f.data.distance <= a.w;
    StoredIsOut(nodes, stored, adj, f);
  }

  class Contractor {
    var graph: DynamicGraph<EdgeData>
    var heap: BinaryHeap<HeapData>
    var externalEdgeList: seq<QueryEdge>
    var origNodeId: seq<nat>
    var nodeLevels: seq<nat>
    var isCoreNode: seq<bool>
    const fastHash: nat -> nat

    /** The invariant between two rounds. */
    ghost predicate Good(base: iset<Arc>, remaining: seq<nat>, round: nat)
      reads this, graph, heap
    {
      && graph.Valid() && heap.Valid() && heap.Capacity() == graph.numberOfNodes < DUMMY
      && Distinct(remaining)
      && GoodState(base, graph.Adjacency(), origNodeId, externalEdgeList, nodeLevels, SetOf(remaining), round)
    }

    /** What a round starts from. */
    ghost function Snap(remaining: seq<nat>): Snapshot
      requires graph.Valid()
      reads this, graph
    {
      Snapshot(graph.Adjacency(), origNodeId, externalEdgeList, nodeLevels, SetOf(remaining))
    }

    ghost function Edges(): iset<QueryEdge>
      requires graph.Valid()
      reads this, graph
    {
      Out(graph.Adjacency(), origNodeId, externalEdgeList)
    }

    constructor (nodes: nat, input: seq<EdgeBasedEdge>, hash: nat -> nat)
      requires nodes < DUMMY
      requires forall e :: e in input ==> e.source < nodes && e.target < nodes
      ensures Good(InputArcs(input), Iota(nodes), 0)
      ensures graph.numberOfNodes == nodes && origNodeId == [] && |nodeLevels| == nodes && fastHash == hash
      ensures fresh(graph) && fresh(heap)
      ensures forall q :: q in Edges() ==> !q.shortcut && Numbered(input, q.source, q.target, q.id)
    {
      var stored := PrepareEdges(input);
      forall e | e in stored
        ensures e.source < nodes && e.target < nodes
      {
        StaysInRange(input, nodes, e);
      }
      SortedSources(stored);
      graph := new DynamicGraph<EdgeData>.FromSorted(nodes, stored);
      heap := new BinaryHeap<HeapData>(nodes);
      externalEdgeList := [];
      origNodeId := [];
      nodeLevels := seq(nodes, _ => 0);
      isCoreNode := [];
      fastHash := hash;
      new;
      InitialState(input, nodes, stored, graph.Adjacency());
    }

    static lemma {:induction false} StaysInRange(input: seq<EdgeBasedEdge>, nodes: nat, e: CInput)
      requires forall e :: e in input ==> e.source < nodes && e.target < nodes
      requires Proper(input, e)
      ensures e.source < nodes && e.target < nodes
    {
      var a := if e.data.forward then Arc(e.source, e.target, e.data.distance) else Arc(e.target, e.source,
            e.data.distance);
      assert AllowedBy(input, a);
    }

    method IsNodeIndependent(priority: nat -> real, node: nat) returns (r: bool)
      requires graph.Valid() && node < graph.numberOfNodes && InGraph(graph.Adjacency())
      ensures r <==> Unbeaten(graph.Adjacency(), priority, fastHash, node)
    {
      var neighbours;
      r, neighbours := FirstHop(priority, node);
      if !r {
        return;
      }
      for j := 0 to |neighbours|
        invariant forall i, v :: 0 <= i < j && HasEdgeTo(graph.Adjacency(), neighbours[i], v) && v != node ==>
                                   !Beaten(priority, fastHash, node, v)
      {
        assert neighbours[j] in neighbours;
        r := NoneBeats(priority, node, neighbours[j]);
        if !r {
          return;
        }
      }
      r := true;
    }

    /** The first hop: no neighbour forbids to choose `node`; collects the neighbours. */
    method FirstHop(priority: nat -> real, node: nat) returns (r: bool, neighbours: seq<nat>)
      requires graph.Valid() && node < graph.numberOfNodes && InGraph(graph.Adjacency())
      ensures r <==> forall u :: HasEdgeTo(graph.Adjacency(), node, u) && u != node ==>
                !Beaten(priority, fastHash, node, u)
      ensures r ==> forall u :: u in neighbours <==> HasEdgeTo(graph.Adjacency(), node, u) && u != node
      ensures forall u :: u in neighbours ==> u < graph.numberOfNodes
    {
      ghost var adj: Adj := graph.Adjacency();
      neighbours := [];
      var edges := graph.Edges(node);
      for k := 0 to |edges|
        invariant forall i :: 0 <= i < k && edges[i].target != node ==>
                    !Beaten(priority, fastHash, node, edges[i].target)
        invariant forall u :: u in neighbours <==> exists i :: 0 <= i < k && edges[i].target == u && u != node
        invariant forall u :: u in neighbours ==> u < |adj|
      {
        var target := edges[k].target;
        assert edges[k] in adj[node];
        if node == target {
          continue;
        }
        if Beaten(priority, fastHash, node, target) {
          assert HasEdgeTo(adj, node, target);
          r := false;
          return;
        }
        neighbours := neighbours + [target];
      }
      forall u
        ensures u in neighbours <==> HasEdgeTo(adj, node, u) && u != node
      {
        if HasEdgeTo(adj, node, u) {
          var e: CEdge :| e in adj[node] && e.target == u;
          var i :| 0 <= i < |edges| && edges[i] == e;
        }
      }
      r := true;
    }

    /** The second hop: no neighbour of u forbids to choose `node`. */
    method NoneBeats(priority: nat -> real, node: nat, u: nat) returns (r: bool)
      requires graph.Valid() && u < graph.numberOfNodes
      ensures r <==> forall v :: HasEdgeTo(graph.Adjacency(), u, v) && v != node ==>
                !Beaten(priority, fastHash, node, v)
    {
      ghost var adj: Adj := graph.Adjacency();
      var edges := graph.Edges(u);
      for k := 0 to |edges|
        invariant forall i :: 0 <= i < k && edges[i].target != node ==>
                    !Beaten(priority, fastHash, node, edges[i].target)
      {
        var target := edges[k].target;
        if node == target {
          continue;
        }
        if Beaten(priority, fastHash, node, target) {
          assert edges[k] in adj[u];
          assert HasEdgeTo(adj, u, target);
          return false;
        }
      }
      forall v | HasEdgeTo(adj, u, v) && v != node
        ensures !Beaten(priority, fastHash, node, v)
      {
        var e: CEdge :| e in adj[u] && e.target == v;
        var i :| 0 <= i < |edges| && edges[i] == e;
      }
      return true;
    }

    /** Contract all chosen nodes against one and the same graph. */
    method ContractAll(chosen: seq<nat>, ghost base: iset<Arc>, ghost remaining: seq<nat>, ghost round: nat)
      returns (inserted: seq<CInput>)
      requires Good(base, remaining, round) && SetOf(chosen) <= SetOf(remaining)
      modifies heap
      ensures Good(base, remaining, round)
      ensures RoundShortcuts(graph.Adjacency(), origNodeId, externalEdgeList, SetOf(remaining), SetOf(chosen),
                             SetOf(chosen), inserted)
    {
      inserted := [];
      ghost var adj: Adj := graph.Adjacency();
      for k := 0 to |chosen|
        invariant Good(base, remaining, round)
        invariant RoundShortcuts(adj, origNodeId, externalEdgeList, SetOf(remaining), SetOf(chosen), SetOf(chosen[..k]),
                                 inserted)
      {
        var x := chosen[k];
        assert x in SetOf(chosen) && x in SetOf(remaining);
        WitnessesFollow(base, adj, origNodeId, externalEdgeList, nodeLevels, SetOf(remaining), round, x);
        var more, _ := ContractNode(graph, heap, x, origNodeId, SetOf(remaining) - {x},
                                 Avoiding(adj, origNodeId, externalEdgeList, SetOf(remaining), x));
        AddShortcuts(adj, origNodeId, externalEdgeList, SetOf(remaining), SetOf(chosen), SetOf(chosen[..k]), inserted,
                     x, more);
        assert SetOf(chosen[..k]) + {x} == SetOf(chosen[..k + 1]);
        inserted := inserted + more;
      }
      assert chosen[..|chosen|] == chosen;
    }

    method DeleteIncomingEdges(node: nat)
      requires graph.Valid() && node < graph.numberOfNodes < DUMMY && InGraph(graph.Adjacency())
      modifies graph
      ensures graph.Valid() && graph.numberOfNodes == old(graph.numberOfNodes)
      ensures forall n, e :: 0 <= n < graph.numberOfNodes ==>
                (e in graph.Adjacency()[n] <==>
                   e in old(graph.Adjacency())[n]
                   && !(e.target == node && n != node && HasEdgeTo(old(graph.Adjacency()), node, n)))
    {
      ghost var adj: Adj := graph.Adjacency();
      var neighbours := Neighbours(node);
      for k := 0 to |neighbours|
        invariant graph.Valid() && graph.numberOfNodes == old(graph.numberOfNodes)
        invariant PrunedAt(adj, graph.Adjacency(), node, neighbours[..k])
      {
        var u := neighbours[k];
        ghost var mid: Adj := graph.Adjacency();
        assert u in neighbours;
        var deleted := graph.DeleteEdgesTo(u, node);
        PruneOne(adj, mid, node, neighbours[..k], u, graph.Edges(u));
        assert neighbours[..k + 1] == neighbours[..k] + [u];
      }
      assert neighbours[..|neighbours|] == neighbours;
    }

    /** Exactly the edges to `node` that the listed nodes store are gone. */
    static ghost predicate PrunedAt(adj: Adj, adj': Adj, node: nat, done: seq<nat>) {
      && |adj'| == |adj|
      && (forall n: nat, e :: n < |adj| ==> (e in adj'[n] <==> e in adj[n] && !(e.target == node && n in done)))
    }

    static lemma {:induction false} PruneOne(adj: Adj, mid: Adj, node: nat, done: seq<nat>, u: nat, edges: seq<CEdge>)
      requires PrunedAt(adj, mid, node, done) && u < |adj|
      requires forall e: CEdge :: multiset(edges)[e] == if e.target == node then 0 else multiset(mid[u])[e]
      ensures PrunedAt(adj, mid[u := edges], node, done + [u])
    {
      OneListPruned(mid[u], edges, node);
    }

    static lemma {:induction false} OneListPruned(before: seq<CEdge>, after: seq<CEdge>, node: nat)
      requires forall e: CEdge :: multiset(after)[e] == if e.target == node then 0 else multiset(before)[e]
      ensures forall e :: e in after <==> e in before && e.target != node
    {
      forall e: CEdge
        ensures e in after <==> e in before && e.target != node
      {
        assert e in multiset(after) <==> e in after;
        assert e in multiset(before) <==> e in before;
      }
    }

    /** The neighbours of a node other than itself, each once. */
    method Neighbours(node: nat) returns (neighbours: seq<nat>)
      requires graph.Valid() && node < graph.numberOfNodes && InGraph(graph.Adjacency())
      ensures forall u :: u in neighbours <==> HasEdgeTo(graph.Adjacency(), node, u) && u != node
      ensures forall u :: u in neighbours ==> u < graph.numberOfNodes
      ensures Distinct(neighbours)
    {
      neighbours := [];
      var edges := graph.Edges(node);
      for k := 0 to |edges|
        invariant forall u :: u in neighbours <==> exists i :: 0 <= i < k && edges[i].target == u && u != node
        invariant forall u :: u in neighbours ==> u < graph.numberOfNodes
        invariant Distinct(neighbours)
      {
        var u := edges[k].target;
        assert edges[k] in graph.Adjacency()[node];
        if u != node && u !in neighbours {
          neighbours := neighbours + [u];
        }
      }
      forall u
        ensures u in neighbours <==> HasEdgeTo(graph.Adjacency(), node, u) && u != node
      {
        if HasEdgeTo(graph.Adjacency(), node, u) {
          var e: CEdge :| e in graph.Adjacency()[node] && e.target == u;
          var i :| 0 <= i < |edges| && edges[i] == e;
        }
      }
    }

    /** Delete the edges into all chosen nodes. */
    method DeleteAll(chosen: seq<nat>)
      requires graph.Valid() && graph.numberOfNodes < DUMMY && InGraph(graph.Adjacency())
      requires forall x :: x in chosen ==> x < graph.numberOfNodes
      requires forall x, y :: x in chosen && y in chosen ==> !HasEdgeTo(graph.Adjacency(), x, y)
      modifies graph
      ensures graph.Valid() && graph.numberOfNodes == old(graph.numberOfNodes)
      ensures Deleting(old(graph.Adjacency()), graph.Adjacency(), SetOf(chosen))
    {
      ghost var adj: Adj := graph.Adjacency();
      for k := 0 to |chosen|
        invariant graph.Valid() && graph.numberOfNodes == old(graph.numberOfNodes)
        invariant Deleting(adj, graph.Adjacency(), SetOf(chosen[..k]))
      {
        var x := chosen[k];
        ghost var mid: Adj := graph.Adjacency();
        assert SetOf(chosen[..k + 1]) == SetOf(chosen[..k]) + {x};
        KeepsOwnEdges(adj, mid, SetOf(chosen), SetOf(chosen[..k]), x);
        DeleteIncomingEdges(x);
        assert Deleting(adj, graph.Adjacency(), SetOf(chosen[..k]) + {x});
      }
      assert chosen[..|chosen|] == chosen;
    }

    static lemma {:induction false} KeepsOwnEdges(adj: Adj, mid: Adj, chosen: set<nat>, done: set<nat>, x: nat)
      requires InGraph(adj) && Deleting(adj, mid, done) && done <= chosen && x in chosen && x < |adj|
      requires forall x, y :: x in chosen && y in chosen ==> !HasEdgeTo(adj, x, y)
      ensures InGraph(mid)
      ensures forall n :: HasEdgeTo(mid, x, n) <==> HasEdgeTo(adj, x, n)
    {
      forall e
        ensures e in mid[x] <==> e in adj[x]
      {
        assert e in adj[x] ==> HasEdgeTo(adj, x, e.target);
      }
    }

    /** Insert the shortcuts of the round; a longer shortcut with the same flags that comes
        first among the parallel edges is overwritten. */
    method InsertShortcuts(list: seq<CInput>)
      requires graph.Valid()
      requires forall i :: i in list ==> i.source < graph.numberOfNodes && i.target != DUMMY
      modifies graph
      ensures graph.Valid() && graph.numberOfNodes == old(graph.numberOfNodes)
      ensures AfterInsert(old(graph.Adjacency()), graph.Adjacency(), list)
    {
      ghost var adj: Adj := graph.Adjacency();
      assert forall e: CEdge :: Serving(e, e);
      for k := 0 to |list|
        invariant graph.Valid() && graph.numberOfNodes == old(graph.numberOfNodes)
        invariant AfterInsert(adj, graph.Adjacency(), list[..k])
      {
        var edge := list[k];
        assert list[k] in list;
        ghost var mid: Adj := graph.Adjacency();
        InsertShortcut(edge);
        InsertStep(adj, mid, list[..k], edge, graph.Edges(edge.source));
        assert list[..k + 1] == list[..k] + [edge];
      }
      assert list[..|list|] == list;
    }

    method InsertShortcut(edge: CInput)
      requires graph.Valid() && edge.source < graph.numberOfNodes && edge.target != DUMMY
      modifies graph
      ensures graph.Valid() && graph.numberOfNodes == old(graph.numberOfNodes)
      ensures graph.Adjacency() == old(graph.Adjacency())[edge.source := graph.Edges(edge.source)]
      ensures Strip(edge) in graph.Edges(edge.source)
      ensures forall e :: e in graph.Edges(edge.source) ==> e in old(graph.Edges(edge.source)) || e == Strip(edge)
      ensures forall e :: e in old(graph.Edges(edge.source)) ==>
                e in graph.Edges(edge.source) || Serving(Strip(edge), e)
    {
      ghost var before := graph.Edges(edge.source);
      var found := graph.FindEdge(edge.source, edge.target);
      if found.Some? {
        var current := graph.edgeList[found.value];
        if current.data.shortcut && edge.data.forward == current.data.forward
           && edge.data.backward == current.data.backward && edge.data.distance < current.data.distance {
          graph.SetEdge(edge.source, found.value, edge.target, edge.data);
          ghost var j := found.value - graph.BeginEdges(edge.source);
          assert graph.Edges(edge.source)[j] == Strip(edge);
          forall e | e in before
            ensures e in graph.Edges(edge.source) || Serving(Strip(edge), e)
          {
            var m :| 0 <= m < |before| && before[m] == e;
            assert m != j ==> graph.Edges(edge.source)[m] == e;
          }
          return;
        }
      }
      var _ := graph.InsertEdge(edge.source, edge.target, edge.data);
      OneEdgeAdded(before, graph.Edges(edge.source), Strip(edge));
    }

    static lemma {:induction false} OneEdgeAdded(before: seq<CEdge>, after: seq<CEdge>, x: CEdge)
      requires multiset(after) == multiset(before) + multiset{x}
      ensures forall e :: e in after <==> e in before || e == x
    {
      forall e
        ensures e in after <==> e in before || e == x
      {
        assert e in multiset(after) <==> e in after;
        assert e in multiset(before) <==> e in before;
      }
    }

    /** Renumber the remaining nodes and move the edges of contracted nodes out of the graph. */
    method Flush(remaining: seq<nat>, ghost base: iset<Arc>, ghost round: nat)
      requires Good(base, remaining, round) && origNodeId == [] && remaining != []
      modifies this
      ensures Good(base, Iota(|remaining|), round) && fresh(graph) && fresh(heap)
      ensures origNodeId == remaining && nodeLevels == old(nodeLevels)
      ensures Image(remaining, SetOf(Iota(|remaining|))) == SetOf(remaining)
      ensures Edges() == old(Edges())
    {
      var newGraph, moved := RenumberGraph(remaining, base, round);
      externalEdgeList := externalEdgeList + moved;
      origNodeId := remaining;
      graph := newGraph;
      heap := new BinaryHeap<HeapData>(|remaining|);
    }

    /** The graph under its new numbers, and the edges that leave it. */
    method RenumberGraph(remaining: seq<nat>, ghost base: iset<Arc>, ghost round: nat)
      returns (newGraph: DynamicGraph<EdgeData>, moved: seq<QueryEdge>)
      requires Good(base, remaining, round) && origNodeId == [] && remaining != []
      ensures fresh(newGraph) && newGraph.Valid() && newGraph.numberOfNodes == |remaining| < DUMMY
      ensures Image(remaining, SetOf(Iota(|remaining|))) == SetOf(remaining)
      ensures Out(newGraph.Adjacency(), remaining, externalEdgeList + moved) == Edges()
      ensures GoodState(base, newGraph.Adjacency(), remaining, externalEdgeList + moved, nodeLevels,
                        SetOf(Iota(|remaining|)), round)
    {
      var newId := NewIds(remaining);
      ghost var adj: Adj := graph.Adjacency();
      StaysRemaining(base, adj, externalEdgeList, nodeLevels, remaining, round, newId);
      var newEdgeSet;
      newEdgeSet, moved := CollectEdges(newId);
      assert forall n :: n in remaining ==> n in SetOf(remaining);
      DistinctBelow(remaining, graph.numberOfNodes);
      newGraph := RenamedGraph(remaining, newId, newEdgeSet, moved, adj);
      FlushKeepsState(base, adj, externalEdgeList, nodeLevels, remaining, round, newId, newEdgeSet, moved,
                      newGraph.Adjacency(), Iota(|remaining|));
    }

    static method NewIds(remaining: seq<nat>) returns (newId: map<nat, nat>)
      requires Distinct(remaining)
      ensures Renumbering(remaining, newId)
    {
      newId := map[];
      for k := 0 to |remaining|
        invariant forall n :: n in newId <==> n in remaining[..k]
        invariant forall n :: n in newId ==> newId[n] < k && remaining[newId[n]] == n
      {
        newId := newId[remaining[k] := k];
      }
      assert remaining[..|remaining|] == remaining;
    }

    method CollectEdges(newId: map<nat, nat>) returns (newEdgeSet: seq<CInput>, moved: seq<QueryEdge>)
      requires graph.Valid() && StaysWithin(graph.Adjacency(), newId)
      ensures Flushed(graph.Adjacency(), graph.numberOfNodes, newId, newEdgeSet, moved)
    {
      newEdgeSet, moved := [], [];
      ghost var adj: Adj := graph.Adjacency();
      for source := 0 to graph.numberOfNodes
        invariant Flushed(adj, source, newId, newEdgeSet, moved)
      {
        newEdgeSet, moved := FlushNode(source, newId, newEdgeSet, moved);
      }
    }

    /** Edges of renamed nodes lead to renamed nodes. */
    static ghost predicate StaysWithin(adj: Adj, newId: map<nat, nat>) {
      forall n: nat, e :: n < |adj| && n in newId && e in adj[n] ==> e.target in newId
    }

    static method RenamedGraph(remaining: seq<nat>, ghost newId: map<nat, nat>, newEdgeSet: seq<CInput>,
                               ghost moved: seq<QueryEdge>, ghost adj: Adj)
      returns (g: DynamicGraph<EdgeData>)
      requires Renumbering(remaining, newId) && |remaining| < DUMMY
      requires Flushed(adj, |adj|, newId, newEdgeSet, moved)
      ensures fresh(g) && g.Valid() && g.numberOfNodes == |remaining|
      ensures forall n: nat, e :: n < |remaining| ==>
                (e in g.Adjacency()[n] <==> InputEdge(n, e.target, e.data) in newEdgeSet)
    {
      var sorted := SortEdges(newEdgeSet);
      SameMembers(sorted, newEdgeSet);
      SortedSources(sorted);
      forall k | 0 <= k < |sorted|
        ensures sorted[k].source < |remaining| && sorted[k].target < |remaining|
      {
        assert sorted[k] in newEdgeSet;
        assert IsRenamed(adj, |adj|, newId, sorted[k]);
      }
      g := new DynamicGraph<EdgeData>.FromSorted(|remaining|, sorted);
      forall n: nat, e | n < |remaining|
        ensures e in g.Adjacency()[n] <==> InputEdge(n, e.target, e.data) in newEdgeSet
      {
        EdgesFromMember(sorted, n, e);
      }
    }

    static lemma {:induction false} StaysRemaining(base: iset<Arc>, adj: Adj, external: seq<QueryEdge>,
                                                   levels: seq<nat>, remaining: seq<nat>, round: nat,
                                                   newId: map<nat, nat>)
      requires GoodState(base, adj, [], external, levels, SetOf(remaining), round)
      requires Renumbering(remaining, newId)
      ensures StaysWithin(adj, newId)
    {
      forall n: nat, e | n < |adj| && n in newId && e in adj[n]
        ensures e.target in newId
      {
        StoredEdge(base, adj, [], external, levels, SetOf(remaining), round, n, e);
      }
    }

    /** Sort the edges of one node into the new graph or the external list. */
    method FlushNode(source: nat, newId: map<nat, nat>, kept0: seq<CInput>, moved0: seq<QueryEdge>)
      returns (kept: seq<CInput>, moved: seq<QueryEdge>)
      requires graph.Valid() && source < graph.numberOfNodes
      requires source in newId ==> forall e :: e in graph.Adjacency()[source] ==> e.target in newId
      requires Flushed(graph.Adjacency(), source, newId, kept0, moved0)
      ensures Flushed(graph.Adjacency(), source + 1, newId, kept, moved)
    {
      kept, moved := kept0, moved0;
      ghost var adj: Adj := graph.Adjacency();
      var edges := graph.Edges(source);
      for k := 0 to |edges|
        invariant kept0 <= kept && moved0 <= moved && |kept| + |moved| == |kept0| + |moved0| + k
        invariant forall i :: 0 <= i < k ==>
                    if source in newId then edges[i].target in newId && Renamed(newId, source, edges[i]) in kept
                    else Translate([], source, edges[i]) in moved
        invariant forall x :: x in kept ==> x in kept0 || IsRenamed(adj, source + 1, newId, x)
        invariant forall q :: q in moved ==> q in moved0 || IsMoved(adj, source + 1, newId, q)
      {
        var e := edges[k];
        assert e in adj[source];
        if source !in newId {
          moved := moved + [Translate([], source, e)];
        } else {
          kept := kept + [Renamed(newId, source, e)];
        }
      }
      FlushedNext(adj, source, newId, kept0, moved0, kept, moved);
    }

    static lemma {:induction false} FlushedNext(adj: Adj, source: nat, newId: map<nat, nat>, kept0: seq<CInput>,
                                                moved0: seq<QueryEdge>, kept: seq<CInput>, moved: seq<QueryEdge>)
      requires source < |adj| && Flushed(adj, source, newId, kept0, moved0)
      requires kept0 <= kept && moved0 <= moved
      requires forall i :: 0 <= i < |adj[source]| ==>
                 if source in newId then adj[source][i].target in newId
                    && Renamed(newId, source, adj[source][i]) in kept
                 else Translate([], source, adj[source][i]) in moved
      requires forall x :: x in kept ==> x in kept0 || IsRenamed(adj, source + 1, newId, x)
      requires forall q :: q in moved ==> q in moved0 || IsMoved(adj, source + 1, newId, q)
      requires |kept| + |moved| == |kept0| + |moved0| + |adj[source]|
      ensures Flushed(adj, source + 1, newId, kept, moved)
    {
      forall x | x in kept
        ensures IsRenamed(adj, source + 1, newId, x)
      {
        if x in kept0 {
          assert IsRenamed(adj, source, newId, x);
        }
      }
      forall q | q in moved
        ensures IsMoved(adj, source + 1, newId, q)
      {
        if q in moved0 {
          assert IsMoved(adj, source, newId, q);
        }
      }
    }

    static lemma {:induction false} DistinctBelow(s: seq<nat>, bound: nat)
      requires Distinct(s) && forall n :: n in s ==> n < bound
      ensures |s| <= bound
    {
      SetOfSize(s);
      forall n | n in SetOf(s)
        ensures n in Upto(bound)
      {
        UptoMember(bound, n);
      }
      UptoSize(bound);
      SubsetSize(SetOf(s), Upto(bound));
    }

    static lemma {:induction false} SetOfSize(s: seq<nat>)
      requires Distinct(s)
      ensures |SetOf(s)| == |s|
      decreases |s|
    {
      if s != [] {
        var last := |s| - 1;
        SetOfSize(s[..last]);
        assert SetOf(s) == SetOf(s[..last]) + {s[last]};
      }
    }

    /** The stable partition: nodes to contract in this round and nodes to keep. */
    method Partition(remaining: seq<nat>, priority: nat -> real) returns (others: seq<nat>, independent: seq<nat>)
      requires graph.Valid() && InGraph(graph.Adjacency())
      requires Distinct(remaining) && forall x :: x in remaining ==> x < graph.numberOfNodes
      ensures Distinct(others) && Distinct(independent) && |others| + |independent| == |remaining|
      ensures forall x :: x in independent <==> x in remaining && Unbeaten(graph.Adjacency(), priority, fastHash, x)
      ensures forall x :: x in others <==> x in remaining && x !in independent
    {
      others, independent := [], [];
      ghost var adj: Adj := graph.Adjacency();
      for k := 0 to |remaining|
        invariant Distinct(others) && Distinct(independent) && |others| + |independent| == k
        invariant forall x :: x in independent <==> x in remaining[..k] && Unbeaten(adj, priority, fastHash, x)
        invariant forall x :: x in others <==> x in remaining[..k] && x !in independent
      {
        var node := remaining[k];
        assert node in remaining && node !in remaining[..k];
        var free := IsNodeIndependent(priority, node);
        assert remaining[..k + 1] == remaining[..k] + [node];
        if free {
          independent := independent + [node];
        } else {
          others := others + [node];
        }
      }
      assert remaining[..|remaining|] == remaining;
    }

    method WriteLevels(chosen: seq<nat>, level: nat)
      requires forall x :: x in chosen ==> At(origNodeId, x) < |nodeLevels|
      modifies this`nodeLevels
      ensures NewLevels(old(nodeLevels), Image(origNodeId, SetOf(chosen)), level, nodeLevels)
    {
      for k := 0 to |chosen|
        invariant NewLevels(old(nodeLevels), Image(origNodeId, SetOf(chosen[..k])), level, nodeLevels)
      {
        var x := chosen[k];
        assert x in chosen;
        assert SetOf(chosen[..k + 1]) == SetOf(chosen[..k]) + {x};
        assert Image(origNodeId, SetOf(chosen[..k]) + {x}) ==
                 Image(origNodeId, SetOf(chosen[..k])) + {At(origNodeId, x)};
        nodeLevels := nodeLevels[At(origNodeId, x) := level];
      }
      assert chosen[..|chosen|] == chosen;
    }

    /** Choose the nodes of a round: pairwise non-adjacent, without common neighbours. */
    method ChooseNodes(remaining: seq<nat>, priority: nat -> real, ghost level: nat, ghost base: iset<Arc>)
      returns (others: seq<nat>, independent: seq<nat>)
      requires Good(base, remaining, level)
      ensures Distinct(others) && |others| + |independent| == |remaining|
      ensures SetOf(independent) <= SetOf(remaining) && SetOf(others) == SetOf(remaining) - SetOf(independent)
      ensures Apart(graph.Adjacency(), SetOf(independent))
      ensures independent != [] <==> SomeUnbeaten(graph.Adjacency(), priority, fastHash, remaining)
      ensures SetOf(others) == Refused(Snap(remaining), priority, fastHash)
    {
      ghost var adj: Adj := graph.Adjacency();
      assert forall n :: n in remaining ==> n in SetOf(remaining);
      others, independent := Partition(remaining, priority);
      assert independent != [] ==> independent[0] in independent;
      ChosenAreIndependent(base, adj, origNodeId, externalEdgeList, nodeLevels, SetOf(remaining), level, priority,
                           fastHash,
                           SetOf(independent));
    }

    /** One round. It makes progress exactly when some node may be chosen, and changes no distance between
        the nodes that are left. */
    method ContractRound(remaining: seq<nat>, priority: nat -> real, level: nat, ghost base: iset<Arc>)
      returns (others: seq<nat>)
      requires Good(base, remaining, level)
      modifies graph, heap, this`nodeLevels
      ensures |others| <= |remaining| && SetOf(others) <= SetOf(remaining)
      ensures Good(base, others, if |others| < |remaining| then level + 1 else level)
      ensures graph.numberOfNodes == old(graph.numberOfNodes) && |nodeLevels| == old(|nodeLevels|)
      ensures |others| < |remaining| <==> old(SomeUnbeaten(graph.Adjacency(), priority, fastHash, remaining))
      ensures remaining != [] && Decided(priority, fastHash) ==> |others| < |remaining|
      ensures SetOf(others) == old(Refused(Snap(remaining), priority, fastHash)) && Distinct(others)
      ensures origNodeId == old(origNodeId)
      ensures SameDistances(old(Edges()), Image(origNodeId, SetOf(remaining)), Edges(),
                            Image(origNodeId, SetOf(others)))
      ensures AddsShortcuts(old(Edges()), Edges())
    {
      if remaining != [] && Decided(priority, fastHash) {
        SomeNodeIsUnbeaten(base, graph.Adjacency(), origNodeId, externalEdgeList, nodeLevels, remaining, level,
                           priority, fastHash);
      }
      var independent;
      others, independent := ChooseNodes(remaining, priority, level, base);
      if |independent| == 0 {
        assert SetOf(others) == SetOf(remaining);
        return;
      }
      ContractChosen(remaining, others, independent, level, base);
    }

    method ContractChosen(ghost remaining: seq<nat>, ghost others: seq<nat>, independent: seq<nat>, level: nat,
                          ghost base: iset<Arc>)
      requires Good(base, remaining, level) && Distinct(others)
      requires SetOf(independent) <= SetOf(remaining) && SetOf(others) == SetOf(remaining) - SetOf(independent)
      requires Apart(graph.Adjacency(), SetOf(independent))
      modifies graph, heap, this`nodeLevels
      ensures Good(base, others, level + 1)
      ensures graph.numberOfNodes == old(graph.numberOfNodes) && |nodeLevels| == old(|nodeLevels|)
      ensures SameDistances(old(Edges()), Image(origNodeId, SetOf(remaining)), Edges(),
                            Image(origNodeId, SetOf(others)))
      ensures AddsShortcuts(old(Edges()), Edges())
    {
      ghost var adj: Adj := graph.Adjacency();
      ghost var chosen, all := SetOf(independent), SetOf(remaining);
      var inserted := ContractAll(independent, base, remaining, level);
      assert forall x :: x in independent ==> x in chosen && x in all;
      DeleteAll(independent);
      ghost var adj1: Adj := graph.Adjacency();
      DeletedAll(base, adj, origNodeId, externalEdgeList, nodeLevels, all, level, chosen, adj1);
      ShortcutsInRange(base, adj, remaining, level, chosen, inserted);
      InsertShortcuts(inserted);
      ghost var levels := nodeLevels;
      WriteLevels(independent, level);
      NextState(base, adj, origNodeId, externalEdgeList, levels, all, level, chosen, inserted, adj1, graph.Adjacency(),
                nodeLevels);
      NextDistances(base, adj, origNodeId, externalEdgeList, levels, all, level, chosen, inserted, adj1,
                    graph.Adjacency());
      NextShortcuts(adj, origNodeId, externalEdgeList, all, chosen, inserted, adj1, graph.Adjacency());
    }

    lemma {:induction false} ShortcutsInRange(base: iset<Arc>, adj: Adj, remaining: seq<nat>, level: nat,
                                              chosen: set<nat>, list: seq<CInput>)
      requires GoodState(base, adj, origNodeId, externalEdgeList, nodeLevels, SetOf(remaining), level)
      requires chosen <= SetOf(remaining) && Apart(adj, chosen)
      requires RoundShortcuts(adj, origNodeId, externalEdgeList, SetOf(remaining), chosen, chosen, list)
      ensures forall i :: i in list ==> i.source < |adj| && i.target < |adj|
    {
      forall i | i in list
        ensures i.source < |adj| && i.target < |adj|
      {
        ListedIsGood(base, adj, origNodeId, externalEdgeList, nodeLevels, SetOf(remaining), level, chosen, list, i);
      }
    }

    /** Whether the flush has come, which its numbering tells. */
    ghost predicate Renumbered(contracted: nat, threshold: nat, flushed: bool)
      reads this
    {
      if flushed then origNodeId != [] && contracted > threshold else origNodeId == []
    }

    /** One turn of the main loop: the flush if it is due, then a round. */
    method TakeTurn(remaining: seq<nat>, contracted: nat, threshold: nat, flushed0: bool, priority: nat -> real,
                    level: nat, ghost base: iset<Arc>, ghost target: nat)
      returns (others: seq<nat>, flushed: bool, ghost s: Snapshot)
      requires Good(base, remaining, level) && Renumbered(contracted, threshold, flushed0)
      requires contracted + |remaining| == |nodeLevels| > 2 && contracted < target
      modifies this, graph, heap
      ensures (graph == old(graph) || fresh(graph)) && (heap == old(heap) || fresh(heap))
      ensures |others| <= |remaining| && |nodeLevels| == old(|nodeLevels|)
      ensures Good(base, others, if |others| < |remaining| then level + 1 else level)
      ensures Renumbered(contracted + |remaining| - |others|, threshold, flushed)
      ensures RoundAt(base, |nodeLevels|, target, threshold, s, level)
      ensures Image(s.names, s.remaining) == old(Image(origNodeId, SetOf(remaining)))
      ensures Image(origNodeId, SetOf(others)) == LeftAfter(s, priority, fastHash)
      ensures |others| == |remaining| <==> Refused(s, priority, fastHash) == s.remaining
      ensures AddsShortcuts(old(Edges()), Edges())
    {
      var current := remaining;
      flushed := flushed0;
      if !flushed && contracted > threshold && remaining != [] {
        assert Image([], SetOf(remaining)) == SetOf(remaining);
        Flush(remaining, base, level);
        current := Iota(|remaining|);
        flushed := true;
      }
      s := Snap(current);
      SetOfSize(current);
      others := ContractRound(current, priority, level, base);
      SetOfSize(others);
      if Refused(s, priority, fastHash) != s.remaining {
        SmallerSet(SetOf(others), s.remaining);
      }
    }

    static lemma {:induction false} SmallerSet(a: set<nat>, b: set<nat>)
      requires a <= b && a != b
      ensures |a| < |b|
    {
      var x :| x in b && x !in a;
      SubsetSize(a + {x}, b);
    }

    /** What the main loop keeps: the rounds so far make up a run, and have added only shortcuts to the edges of the
        start. */
    ghost predicate Turning(base: iset<Arc>, start: iset<QueryEdge>, target: nat, threshold: nat,
                            priority: nat -> nat -> real, remaining: seq<nat>, contracted: nat, flushed: bool,
                            trace: seq<Snapshot>, stuck: bool)
      reads this, graph, heap
    {
      && Good(base, remaining, LevelOf(trace, stuck)) && contracted + |remaining| == |nodeLevels|
      && Renumbered(contracted, threshold, flushed) && AddsShortcuts(start, Edges()) && (stuck ==> trace != [])
      && Running(base, |nodeLevels|, target, threshold, priority, fastHash, trace,
                 Image(origNodeId, SetOf(remaining)), stuck)
    }

    /** A round that chose nobody does not count. */
    static ghost function LevelOf(trace: seq<Snapshot>, stuck: bool): nat {
      if stuck && trace != [] then |trace| - 1 else |trace|
    }

    /** One turn, with a record of it. */
    method TracedTurn(remaining: seq<nat>, contracted: nat, threshold: nat, flushed0: bool,
                      priority: nat -> nat -> real, level: nat, ghost base: iset<Arc>, ghost target: nat,
                      ghost trace0: seq<Snapshot>, ghost start: iset<QueryEdge>)
      returns (others: seq<nat>, flushed: bool, ghost trace: seq<Snapshot>)
      requires Turning(base, start, target, threshold, priority, remaining, contracted, flushed0, trace0, false)
      requires |nodeLevels| > 2 && contracted < target && level == |trace0|
      modifies this, graph, heap
      ensures (graph == old(graph) || fresh(graph)) && (heap == old(heap) || fresh(heap))
      ensures |others| <= |remaining| && |nodeLevels| == old(|nodeLevels|) && |trace| == |trace0| + 1
      ensures Turning(base, start, target, threshold, priority, others, contracted + |remaining| - |others|, flushed,
                      trace, |others| == |remaining|)
    {
      ghost var left := Image(origNodeId, SetOf(remaining));
      ghost var s;
      others, flushed, s := TakeTurn(remaining, contracted, threshold, flushed0, priority(level), level, base, target);
      OneMoreRound(base, |nodeLevels|, target, threshold, priority, fastHash, trace0, left, s);
      trace := trace0 + [s];
    }

    /** The main loop. */
    method ContractRounds(contractTarget: nat, flushThreshold: nat, priority: nat -> nat -> real,
                          ghost base: iset<Arc>)
      returns (stuck: bool, remaining: seq<nat>, ghost level: nat, ghost trace: seq<Snapshot>)
      requires Good(base, Iota(graph.numberOfNodes), 0) && origNodeId == []
      requires |nodeLevels| == graph.numberOfNodes
      modifies this, graph, heap
      ensures Good(base, remaining, level) && |remaining| <= |nodeLevels| == old(|nodeLevels|)
      ensures Running(base, |nodeLevels|, contractTarget, flushThreshold, priority, fastHash, trace,
                      Image(origNodeId, SetOf(remaining)), stuck)
      ensures level == if stuck then |trace| - 1 else |trace|
      ensures !stuck && |nodeLevels| > 2 ==> contractTarget + |remaining| <= |nodeLevels|
      ensures AddsShortcuts(old(Edges()), Edges())
    {
      var numberOfNodes := graph.numberOfNodes;
      remaining := Iota(numberOfNodes);
      var contracted: nat, round: nat := 0, 0;
      var flushed := false;
      stuck, trace := false, [];
      ghost var start := Edges();
      IotaIsUpto(numberOfNodes);
      while numberOfNodes > 2 && contracted < contractTarget && !stuck
        invariant graph == old(graph) || fresh(graph)
        invariant heap == old(heap) || fresh(heap)
        invariant |nodeLevels| == numberOfNodes && round == LevelOf(trace, stuck)
        invariant Turning(base, start, contractTarget, flushThreshold, priority, remaining, contracted, flushed, trace,
                          stuck)
        decreases |remaining|, !stuck
      {
        var others;
        others, flushed, trace := TracedTurn(remaining, contracted, flushThreshold, flushed, priority, round, base,
                                             contractTarget, trace, start);
        if |others| == |remaining| {
          stuck := true;
        } else {
          round := round + 1;
        }
        contracted := contracted + (|remaining| - |others|);
        remaining := others;
      }
      level := round;
    }

    /** Contract until `contractTarget` nodes are gone (number_of_nodes * core_factor in the
        source), renumbering once after more than `flushThreshold`. `stuck` reports a round
        that chose nobody, after which the source would loop for ever. */
    method Run(contractTarget: nat, flushThreshold: nat, priority: nat -> nat -> real, ghost base: iset<Arc>)
      returns (stuck: bool, ghost left: set<nat>, ghost rounds: nat, ghost trace: seq<Snapshot>)
      requires Good(base, Iota(graph.numberOfNodes), 0) && origNodeId == []
      requires |nodeLevels| == graph.numberOfNodes
      modifies this, graph, heap
      ensures graph.Valid() && |nodeLevels| == old(|nodeLevels|)
      ensures Consistent(base, Edges(), nodeLevels, left, rounds) && Complete(base, Edges(), left)
      ensures Ran(base, |nodeLevels|, contractTarget, flushThreshold, priority, fastHash, trace, left, stuck)
      ensures rounds == if stuck then |trace| - 1 else |trace|
      ensures !stuck && |nodeLevels| > 2 ==> contractTarget + |left| <= |nodeLevels|
      ensures (forall r :: Decided(priority(r), fastHash)) && contractTarget <= |nodeLevels| ==> !stuck
      ensures |left| > 2 ==> |isCoreNode| == |nodeLevels| && forall n ::
                0 <= n < |isCoreNode| ==> (isCoreNode[n] <==> n in left)
      ensures |left| <= 2 ==> isCoreNode == []
      ensures AddsShortcuts(old(Edges()), Edges())
    {
      var remaining;
      stuck, remaining, rounds, trace := ContractRounds(contractTarget, flushThreshold, priority, base);
      left := Image(origNodeId, SetOf(remaining));
      if stuck && contractTarget <= |nodeLevels| {
        StuckIsUndecided(base, |nodeLevels|, contractTarget, flushThreshold, priority, fastHash, trace, left);
      }
      assert forall x :: x in remaining ==> x in SetOf(remaining);
      MarkCore(remaining);
    }

    static lemma {:induction false} IotaIsUpto(n: nat)
      ensures Image([], SetOf(Iota(n))) == Upto(n)
    {
      assert Image([], SetOf(Iota(n))) == SetOf(Iota(n));
      forall x: nat
        ensures x in SetOf(Iota(n)) <==> x in Upto(n)
      {
        UptoMember(n, x);
        assert x < n ==> Iota(n)[x] == x;
      }
    }

    method MarkCore(remaining: seq<nat>)
      requires graph.Valid() && Distinct(remaining) && Naming(origNodeId, graph.numberOfNodes)
      requires forall x :: x in remaining ==> x < graph.numberOfNodes && At(origNodeId, x) < |nodeLevels|
      modifies this`isCoreNode
      ensures |Image(origNodeId, SetOf(remaining))| == |remaining|
      ensures |remaining| > 2 ==> |isCoreNode| == |nodeLevels|
      ensures |remaining| > 2 ==> forall n ::
                0 <= n < |isCoreNode| ==> (isCoreNode[n] <==> n in Image(origNodeId, SetOf(remaining)))
      ensures |remaining| <= 2 ==> isCoreNode == []
    {
      ImageSize(origNodeId, graph.numberOfNodes, remaining);
      if |remaining| > 2 {
        isCoreNode := seq(|nodeLevels|, _ => false);
        for k := 0 to |remaining|
          invariant |isCoreNode| == |nodeLevels|
          invariant forall n :: 0 <= n < |isCoreNode| ==>
                      (isCoreNode[n] <==> n in Image(origNodeId, SetOf(remaining[..k])))
        {
          var x := remaining[k];
          assert x in remaining;
          assert SetOf(remaining[..k + 1]) == SetOf(remaining[..k]) + {x};
          assert Image(origNodeId, SetOf(remaining[..k]) + {x}) ==
                   Image(origNodeId, SetOf(remaining[..k])) + {At(origNodeId, x)};
          isCoreNode := isCoreNode[At(origNodeId, x) := true];
        }
        assert remaining[..|remaining|] == remaining;
      } else {
        isCoreNode := [];
      }
    }

    static lemma {:induction false} ImageSize(names: seq<nat>, count: nat, s: seq<nat>)
      requires Naming(names, count) && Distinct(s) && forall x :: x in s ==> x < count
      ensures |Image(names, SetOf(s))| == |s|
      decreases |s|
    {
      if s != [] {
        var last := |s| - 1;
        var init := s[..last];
        assert s[last] in s && forall x :: x in init ==> x in s;
        ImageSize(names, count, init);
        ImageMember(names, count, SetOf(init), s[last]);
        assert SetOf(s) == SetOf(init) + {s[last]};
        ImageGrows(names, SetOf(init), s[last]);
      }
    }

    static lemma {:induction false} ImageGrows(names: seq<nat>, ids: set<nat>, x: nat)
      ensures Image(names, ids + {x}) == Image(names, ids) + {At(names, x)}
    {
    }

    method GetEdges() returns (edges: seq<QueryEdge>)
      requires graph.Valid()
      ensures forall q :: q in edges <==> q in Edges()
      ensures |edges| == Total(graph.Adjacency(), graph.numberOfNodes) + |externalEdgeList|
    {
      edges := [];
      ghost var adj: Adj := graph.Adjacency();
      for node := 0 to graph.numberOfNodes
        invariant |edges| == Total(adj, node)
        invariant forall q :: q in edges <==> exists n: nat, e ::
                    n < node && e in adj[n] && q == Translate(origNodeId, n, e)
      {
        var list := graph.Edges(node);
        ghost var before := edges;
        for k := 0 to |list|
          invariant |edges| == |before| + k
          invariant forall q :: q in edges <==> q in before || exists i ::
                      0 <= i < k && q == Translate(origNodeId, node, list[i])
        {
          edges := edges + [Translate(origNodeId, node, list[k])];
        }
        assert list == adj[node];
      }
      edges := edges + externalEdgeList;
    }
  }
}
