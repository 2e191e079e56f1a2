/** Contracting one node (contractor/contractor.hpp, ContractNode<false>). */
module NodeContraction {
  import opened Basics
  import opened Walks
  import opened ContractionTheory
  import opened DynamicGraphs
  import opened ContractorEdges
  import opened BinaryHeaps
  import opened WitnessSearch

  const WITNESS_NODES: nat := 2000

  /** The way over e1 and e2 gets a shortcut, or the search found a way round. */
  ghost predicate PairBridged(list: seq<CInput>, names: seq<nat>, avoid: iset<Arc>, e1: CEdge, e2: CEdge) {
    e1.data.backward && e2.data.forward && e1.target != e2.target && e1.data.distance + e2.data.distance < INT_MAX ==>
      || HasForwardTo(list, e1.target, e2.target, e1.data.distance + e2.data.distance)
      || Within(avoid, At(names, e1.target), At(names, e2.target), e1.data.distance + e2.data.distance)
  }

  /** No listed shortcut has a way round that is as short, unless its search was cut off. */
  ghost predicate Necessary(adj: Adj, node: nat, list: seq<CInput>, cutOff: set<nat>) {
    forall s, t, len :: HasForwardTo(list, s, t, len) && s !in cutOff ==> !Within(SearchArcs(adj, node), s, t, len)
  }

  /** Every way through the node gets a shortcut or has a way round that is as short; and it gets a
      shortcut only if there is none, except from sources whose search settled too many nodes. */
  method ContractNode(graph: DynamicGraph<EdgeData>, heap: BinaryHeap<HeapData>, node: nat,
                      ghost names: seq<nat>, ghost allowed: set<nat>, ghost avoid: iset<Arc>)
    returns (inserted: seq<CInput>, ghost cutOff: set<nat>)
    requires graph.Valid() && heap.Valid() && heap.Capacity() == graph.numberOfNodes && node < graph.numberOfNodes
    requires InGraph(graph.Adjacency()) && Follows(graph.Adjacency(), names, allowed, node, avoid)
    requires forall e :: e in graph.Edges(node) ==> e.target in allowed
    modifies heap
    ensures heap.Valid() && heap.Capacity() == old(heap.Capacity())
    ensures Grounded(graph.Edges(node), node, inserted)
    ensures forall e1, e2 :: e1 in graph.Edges(node) && e2 in graph.Edges(node) ==>
              PairBridged(inserted, names, avoid, e1, e2)
    ensures Necessary(graph.Adjacency(), node, inserted, cutOff)
            && (cutOff != {} ==> graph.numberOfNodes > WITNESS_NODES)
  {
    inserted, cutOff := [], {};
    var edges := graph.Edges(node);
    for k := 0 to |edges|
      invariant heap.Valid() && heap.Capacity() == graph.numberOfNodes
      invariant Grounded(edges, node, inserted)
      invariant forall i, e2 :: 0 <= i < k && e2 in edges ==> PairBridged(inserted, names, avoid, edges[i], e2)
      invariant Necessary(graph.Adjacency(), node, inserted, cutOff)
                && (cutOff != {} ==> graph.numberOfNodes > WITNESS_NODES)
    {
      var inData := edges[k].data;
      var source := edges[k].target;
      assert edges[k] in graph.Adjacency()[node];
      if !inData.backward {
        continue;
      }
      var maxDistance, numberOfTargets := SeedHeap(graph, heap, node, edges[k], names, allowed, avoid);
      ghost var targets := TargetsOf(heap.Payload());
      Dijkstra(graph, heap, maxDistance, numberOfTargets, WITNESS_NODES, node, names, allowed, avoid, source);
      ghost var before, settled := inserted, heap.Weights().Keys - heap.Queue();
      SettledCount(settled, graph.numberOfNodes);
      inserted := CollectShortcuts(graph, heap, node, edges[k], inserted, k, names, allowed, avoid);
      NecessaryMore(graph.Adjacency(), node, before, inserted, cutOff, edges, edges[k], targets, heap.Weights(),
                    maxDistance, |settled|);
      cutOff := if |settled| > WITNESS_NODES then cutOff + {source} else cutOff;
    }
    ghost var all := inserted;
    inserted := MergeDirections(node, inserted);
    GroundedSame(edges, node, all, inserted);
    assert forall s, t, len :: HasForwardTo(inserted, s, t, len) ==> HasForwardTo(all, s, t, len);
  }

  lemma {:induction false} SettledCount(settled: set<nat>, count: nat)
    requires forall n :: n in settled ==> n < count
    ensures |settled| <= count
  {
    forall n | n in settled
      ensures n in Upto(count)
    {
      UptoMember(count, n);
    }
    UptoSize(count);
    SubsetSize(settled, Upto(count));
  }

  /** t is reached over inEdge and one more edge at distance len, which beats its key. */
  ghost predicate Undercut(edges: seq<CEdge>, inEdge: CEdge, weights: map<nat, int>, t: nat, len: int) {
    exists e ::
      && e in edges && e.data.forward && e.target == t && len == inEdge.data.distance + e.data.distance
      && t in weights && len < weights[t]
  }

  ghost predicate OnlyUndercut(before: seq<CInput>, inserted: seq<CInput>, edges: seq<CEdge>, inEdge: CEdge,
                               weights: map<nat, int>) {
    forall s, t, len :: HasForwardTo(inserted, s, t, len) ==>
      HasForwardTo(before, s, t, len) || (s == inEdge.target && Undercut(edges, inEdge, weights, t, len))
  }

  /** The edges' targets are those of the search, and maxDistance covers the ways over them. */
  ghost predicate Targeted(edges: seq<CEdge>, inEdge: CEdge, targets: set<nat>, maxDistance: int) {
    forall e :: e in edges && e.data.forward ==>
      (e.target != inEdge.target ==> e.target in targets) && inEdge.data.distance + e.data.distance <= maxDistance
  }

  lemma {:induction false} NecessaryMore(adj: Adj, node: nat, before: seq<CInput>, inserted: seq<CInput>,
                                         cutOff: set<nat>, edges: seq<CEdge>, inEdge: CEdge, targets: set<nat>,
                                         weights: map<nat, int>, maxDistance: int, settled: nat)
    requires Necessary(adj, node, before, cutOff) && OnlyUndercut(before, inserted, edges, inEdge, weights)
    requires Targeted(edges, inEdge, targets, maxDistance) && Reached(weights, inEdge.target, 0)
    requires forall e :: e in edges ==> inEdge.data.distance + e.data.distance >= 0
    requires settled <= WITNESS_NODES ==> Exact(adj, node, inEdge.target, targets, weights, maxDistance)
    ensures Necessary(adj, node, inserted, if settled > WITNESS_NODES then cutOff + {inEdge.target} else cutOff)
  {
    var cutOff' := if settled > WITNESS_NODES then cutOff + {inEdge.target} else cutOff;
    forall s, t, len | HasForwardTo(inserted, s, t, len) && s !in cutOff'
      ensures !Within(SearchArcs(adj, node), s, t, len)
    {
      if !HasForwardTo(before, s, t, len) && Within(SearchArcs(adj, node), s, t, len) {
        var p :| IsWalk(SearchArcs(adj, node), s, p, t) && Length(p) <= len;
        assert Walk(SearchArcs(adj, node), s, t, Length(p));
      }
    }
  }

  /** Search from `source` at distance 0; every target starts as unreached. */
  method SeedHeap(graph: DynamicGraph<EdgeData>, heap: BinaryHeap<HeapData>, node: nat, inEdge: CEdge,
                  ghost names: seq<nat>, ghost allowed: set<nat>, ghost avoid: iset<Arc>)
    returns (maxDistance: int, numberOfTargets: nat)
    requires graph.Valid() && heap.Valid() && heap.Capacity() == graph.numberOfNodes
    requires node < graph.numberOfNodes && inEdge.target < graph.numberOfNodes && inEdge.target in allowed
    requires InGraph(graph.Adjacency())
    requires forall e :: e in graph.Edges(node) ==> e.target in allowed
    modifies heap
    ensures heap.Valid() && heap.Capacity() == old(heap.Capacity())
    ensures KeysAreWalks(heap.Weights(), names, allowed, avoid, inEdge.target)
    ensures heap.Queue() == heap.Weights().Keys
    ensures inEdge.target in heap.Weights() && heap.Weights()[inEdge.target] == 0
    ensures forall e :: e in graph.Edges(node) && e.data.forward ==> e.target in heap.Weights()
    ensures Targeted(graph.Edges(node), inEdge, TargetsOf(heap.Payload()), maxDistance)
            && numberOfTargets == |TargetsOf(heap.Payload())|
  {
    var source := inEdge.target;
    heap.Clear();
    heap.Insert(source, 0, HeapData(0, false));
    SeedStart(names, allowed, avoid, inEdge);
    var edges := graph.Edges(node);
    assert edges == graph.Adjacency()[node];
    maxDistance, numberOfTargets := SeedEdges(heap, inEdge, edges, names, allowed, avoid);
  }

  /** All possible targets. */
  method SeedEdges(heap: BinaryHeap<HeapData>, inEdge: CEdge, edges: seq<CEdge>, ghost names: seq<nat>,
                   ghost allowed: set<nat>, ghost avoid: iset<Arc>)
    returns (maxDistance: int, numberOfTargets: nat)
    requires heap.Valid() && forall e :: e in edges ==> e.target < heap.Capacity() && e.target in allowed
    requires Seeding(heap.Weights(), heap.Queue(), heap.Payload(), names, allowed, avoid, inEdge, [], 0, 0)
    modifies heap
    ensures heap.Valid() && heap.Capacity() == old(heap.Capacity())
    ensures Seeding(heap.Weights(), heap.Queue(), heap.Payload(), names, allowed, avoid, inEdge, edges, maxDistance,
                    numberOfTargets)
  {
    maxDistance, numberOfTargets := 0, 0;
    assert edges[..0] == [];
    for k := 0 to |edges|
      invariant heap.Valid() && heap.Capacity() == old(heap.Capacity())
      invariant Seeding(heap.Weights(), heap.Queue(), heap.Payload(), names, allowed, avoid, inEdge, edges[..k],
                        maxDistance, numberOfTargets)
    {
      assert edges[..k + 1] == edges[..k] + [edges[k]];
      maxDistance, numberOfTargets := SeedEdge(heap, inEdge, edges[k], maxDistance, numberOfTargets, names, allowed,
                                               avoid, edges[..k]);
    }
    assert edges[..|edges|] == edges;
  }

  /** One possible target. */
  method SeedEdge(heap: BinaryHeap<HeapData>, inEdge: CEdge, edge: CEdge, far: int, count: nat, ghost names: seq<nat>,
                  ghost allowed: set<nat>, ghost avoid: iset<Arc>, ghost before: seq<CEdge>)
    returns (maxDistance: int, numberOfTargets: nat)
    requires heap.Valid() && edge.target < heap.Capacity() && edge.target in allowed
    requires Seeding(heap.Weights(), heap.Queue(), heap.Payload(), names, allowed, avoid, inEdge, before, far, count)
    modifies heap
    ensures heap.Valid() && heap.Capacity() == old(heap.Capacity())
    ensures Seeding(heap.Weights(), heap.Queue(), heap.Payload(), names, allowed, avoid, inEdge, before + [edge],
                    maxDistance, numberOfTargets)
  {
    SeedStep(heap.Weights(), heap.Queue(), heap.Payload(), names, allowed, avoid, inEdge, before, far, count, edge);
    maxDistance, numberOfTargets := far, count;
    if !edge.data.forward {
      return;
    }
    maxDistance := Max(maxDistance, inEdge.data.distance + edge.data.distance);
    if !heap.WasInserted(edge.target) {
      heap.Insert(edge.target, INT_MAX, HeapData(0, true));
      numberOfTargets := numberOfTargets + 1;
    }
  }

  lemma {:induction false} NewTarget(payload: map<nat, HeapData>, t: nat, data: HeapData)
    requires t !in payload && data.target
    ensures TargetsOf(payload[t := data]) == TargetsOf(payload) + {t}
            && |TargetsOf(payload[t := data])| == |TargetsOf(payload)| + 1
  {
    assert TargetsOf(payload[t := data]) == TargetsOf(payload) + {t};
  }

  ghost predicate Seeded(weights: map<nat, int>, queue: set<nat>, names: seq<nat>, allowed: set<nat>, avoid: iset<Arc>,
                         source: nat, edges: seq<CEdge>) {
    && KeysAreWalks(weights, names, allowed, avoid, source)
    && queue == weights.Keys
    && source in weights && weights[source] == 0
    && (forall e :: e in edges && e.data.forward ==> e.target in weights)
  }

  lemma {:induction false} SeedTarget(weights: map<nat, int>, queue: set<nat>, names: seq<nat>, allowed: set<nat>,
                                      avoid: iset<Arc>, source: nat, edges: seq<CEdge>, e: CEdge)
    requires Seeded(weights, queue, names, allowed, avoid, source, edges) && e.target in allowed
    ensures !e.data.forward || e.target in weights ==>
              Seeded(weights, queue, names, allowed, avoid, source, edges + [e])
    ensures e.target !in weights ==>
              Seeded(weights[e.target := INT_MAX], queue + {e.target}, names, allowed, avoid, source, edges + [e])
  {
  }

  /** The heap after the edges so far, with what the search is told about its targets. */
  ghost predicate Seeding(weights: map<nat, int>, queue: set<nat>, payload: map<nat, HeapData>, names: seq<nat>,
                          allowed: set<nat>, avoid: iset<Arc>, inEdge: CEdge, edges: seq<CEdge>, maxDistance: int,
                          count: nat) {
    && Seeded(weights, queue, names, allowed, avoid, inEdge.target, edges)
    && Targeted(edges, inEdge, TargetsOf(payload), maxDistance)
    && count == |TargetsOf(payload)| && weights.Keys == payload.Keys == TargetsOf(payload) + {inEdge.target}
  }

  lemma {:induction false} SeedStart(names: seq<nat>, allowed: set<nat>, avoid: iset<Arc>, inEdge: CEdge)
    requires inEdge.target in allowed
    ensures var s := inEdge.target;
            Seeding(map[][s := 0], {} + {s}, map[][s := HeapData(0, false)], names, allowed, avoid, inEdge, [], 0, 0)
  {
    WalkHere(avoid, At(names, inEdge.target));
    assert TargetsOf(map[][inEdge.target := HeapData(0, false)]) == {};
  }

  lemma {:induction false} SeedStep(weights: map<nat, int>, queue: set<nat>, payload: map<nat, HeapData>,
                                    names: seq<nat>, allowed: set<nat>, avoid: iset<Arc>, inEdge: CEdge,
                                    edges: seq<CEdge>, maxDistance: int, count: nat, e: CEdge)
    requires Seeding(weights, queue, payload, names, allowed, avoid, inEdge, edges, maxDistance, count)
             && e.target in allowed
    ensures !e.data.forward ==> Seeding(weights, queue, payload, names, allowed, avoid, inEdge, edges + [e],
                                        maxDistance, count)
    ensures var far := Max(maxDistance, inEdge.data.distance + e.data.distance);
            && (e.target in weights ==> Seeding(weights, queue, payload, names, allowed, avoid, inEdge, edges + [e],
                                                far, count))
            && (e.target !in weights ==>
                  Seeding(weights[e.target := INT_MAX], queue + {e.target}, payload[e.target := HeapData(0, true)],
                          names, allowed, avoid,
                          inEdge, edges + [e], far, count + 1))
  {
    SeedTarget(weights, queue, names, allowed, avoid, inEdge.target, edges, e);
    if e.target !in weights {
      NewTarget(payload, e.target, HeapData(0, true));
    }
  }

  /** Emit both ends of a shortcut for every target the search did not reach as cheaply. */
  method CollectShortcuts(graph: DynamicGraph<EdgeData>, heap: BinaryHeap<HeapData>, node: nat, inEdge: CEdge,
                          before: seq<CInput>, ghost done: nat,
                          ghost names: seq<nat>, ghost allowed: set<nat>, ghost avoid: iset<Arc>)
    returns (inserted: seq<CInput>)
    requires graph.Valid() && heap.Valid() && node < graph.numberOfNodes
    requires InGraph(graph.Adjacency())
    requires inEdge in graph.Edges(node) && inEdge.data.backward
    requires KeysAreWalks(heap.Weights(), names, allowed, avoid, inEdge.target)
    requires inEdge.target in heap.Weights() && heap.Weights()[inEdge.target] <= 0
    requires forall e :: e in graph.Edges(node) && e.data.forward ==> e.target in heap.Weights()
    requires Grounded(graph.Edges(node), node, before)
    requires done <= |graph.Edges(node)|
    requires forall i, e2 :: 0 <= i < done && e2 in graph.Edges(node) ==>
               PairBridged(before, names, avoid, graph.Edges(node)[i], e2)
    ensures Grounded(graph.Edges(node), node, inserted)
    ensures forall i, e2 :: 0 <= i < done && e2 in graph.Edges(node) ==>
              PairBridged(inserted, names, avoid, graph.Edges(node)[i], e2)
    ensures forall e2 :: e2 in graph.Edges(node) ==> PairBridged(inserted, names, avoid, inEdge, e2)
    ensures OnlyUndercut(before, inserted, graph.Edges(node), inEdge, heap.Weights())
  {
    inserted := before;
    var edges := graph.Edges(node);
    var source := inEdge.target;
    assert inEdge in graph.Adjacency()[node];
    for k := 0 to |edges|
      invariant Grounded(edges, node, inserted)
      invariant forall i, e2 :: 0 <= i < done && e2 in edges ==> PairBridged(inserted, names, avoid, edges[i], e2)
      invariant forall j :: 0 <= j < k ==> PairBridged(inserted, names, avoid, inEdge, edges[j])
      invariant OnlyUndercut(before, inserted, edges, inEdge, heap.Weights())
    {
      var outData := edges[k].data;
      assert edges[k] in graph.Adjacency()[node];
      if !outData.forward {
        continue;
      }
      var target := edges[k].target;
      var pathDistance := inEdge.data.distance + outData.distance;
      var distance := heap.GetKey(target);
      if pathDistance < distance {
        var there := InputEdge(source, target, EdgeData(pathDistance, node, true, true, false, false));
        var back := InputEdge(target, source, EdgeData(pathDistance, node, true, false, true, false));
        assert Legs(edges, source, target, pathDistance);
        GroundedPair(edges, node, inserted, there, back);
        UndercutPair(before, inserted, edges, inEdge, heap.Weights(), edges[k], there, back);
        inserted := inserted + [there, back];
      } else {
        assert pathDistance < INT_MAX ==> Within(avoid, At(names, source), At(names, target), pathDistance);
      }
    }
  }

  lemma {:induction false} UndercutPair(before: seq<CInput>, inserted: seq<CInput>, edges: seq<CEdge>, inEdge: CEdge,
                                        weights: map<nat, int>, e: CEdge, there: CInput, back: CInput)
    requires OnlyUndercut(before, inserted, edges, inEdge, weights)
    requires e in edges && e.data.forward && e.target in weights
             && inEdge.data.distance + e.data.distance < weights[e.target]
    requires there.source == inEdge.target && there.target == e.target
             && there.data.distance == inEdge.data.distance + e.data.distance
    requires !back.data.forward
    ensures OnlyUndercut(before, inserted + [there, back], edges, inEdge, weights)
  {
    assert Undercut(edges, inEdge, weights, e.target, there.data.distance);
    forall s, t, len | HasForwardTo(inserted + [there, back], s, t, len)
      ensures HasForwardTo(inserted, s, t, len) || (s == inEdge.target && Undercut(edges, inEdge, weights, t, len))
    {
      var i :| i in inserted + [there, back] && i.source == s && i.target == t && i.data.distance == len
               && i.data.forward;
      assert i in inserted || i == there;
    }
  }

  /** Join shortcuts that differ only in direction: each entry is folded into a later one
      with the same ends and distance, if there is one, and kept otherwise. */
  method MergeDirections(node: nat, list: seq<CInput>) returns (merged: seq<CInput>)
    requires forall i :: i in list ==> ShortcutOf(node, i)
    ensures SameShortcuts(list, merged)
    ensures forall i :: i in merged ==> ShortcutOf(node, i)
  {
    var edges := list;
    var size := 0;
    assert list == edges[..0] + edges[0..];
    for i := 0 to |list|
      invariant size <= i && |edges| == |list|
      invariant SameShortcuts(list, edges[..size] + edges[i..])
      invariant forall k :: 0 <= k < |edges| ==> ShortcutOf(node, edges[k])
    {
      var other := FindLaterTwin(edges, i);
      if other < |edges| {
        FoldKeeps(edges[..size], edges[i], edges[i + 1..], other - i - 1);
        assert edges[..size] + edges[i..] == edges[..size] + [edges[i]] + edges[i + 1..];
        assert edges[i + 1..][other - i - 1 := Joined(edges[i], edges[other])] ==
                 edges[other := Joined(edges[i], edges[other])][i + 1..];
        edges := edges[other := Joined(edges[i], edges[other])];
      } else {
        assert edges[size := edges[i]][..size + 1] + edges[size := edges[i]][i + 1..] == edges[..size] + edges[i..];
        edges := edges[size := edges[i]];
        size := size + 1;
      }
    }
    merged := edges[..size];
    assert merged == edges[..size] + edges[|list|..];
  }

  predicate Twins(a: CInput, b: CInput) {
    a.source == b.source && a.target == b.target && a.data.distance == b.data.distance
    && a.data.shortcut == b.data.shortcut
  }

  function Joined(a: CInput, b: CInput): CInput {
    b.(data := b.data.(forward := b.data.forward || a.data.forward, backward := b.data.backward || a.data.backward))
  }

  method FindLaterTwin(edges: seq<CInput>, i: nat) returns (other: nat)
    requires i < |edges|
    ensures i < other <= |edges|
    ensures other < |edges| ==> Twins(edges[other], edges[i])
    ensures forall k :: i < k < other ==> !Twins(edges[k], edges[i])
  {
    other := i + 1;
    while other < |edges| && !Twins(edges[other], edges[i])
      invariant i < other <= |edges|
      invariant forall k :: i < k < other ==> !Twins(edges[k], edges[i])
    {
      other := other + 1;
    }
  }

  lemma {:induction false} FoldKeeps(kept: seq<CInput>, e: CInput, rest: seq<CInput>, j: nat)
    requires j < |rest| && Twins(rest[j], e)
    ensures SameShortcuts(kept + [e] + rest, kept + rest[j := Joined(e, rest[j])])
  {
    var a, b := kept + [e] + rest, kept + rest[j := Joined(e, rest[j])];
    var x := Joined(e, rest[j]);
    assert b[|kept| + j] == x && e == a[|kept|] && rest[j] == a[|kept| + 1 + j];
    assert x in b && e in a && rest[j] in a;
    assert forall y :: y in b ==> y in a || y == x;
    forall y | y in a
      ensures y in b || y == e || y == rest[j]
    {
      var k :| 0 <= k < |a| && a[k] == y;
      assert k < |kept| ==> b[k] == y;
      assert k > |kept| && k != |kept| + 1 + j ==> b[k - 1] == y;
    }
  }
}
