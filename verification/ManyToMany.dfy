/** Distance tables by bucket search with stall-on-demand (routing_algorithms/many_to_many.hpp). */
module ManyToMany {
  import opened Basics
  import opened Walks
  import opened Hierarchy
  import opened ContractionTheory
  import opened BinaryHeaps
  import opened QueryGraphs
  import opened SearchTheory

  datatype NodeBucket = NodeBucket(targetId: nat, distance: int)

  type Buckets = map<nat, seq<NodeBucket>>

  /** The invariant of one search loop: settled nodes are done. */
  ghost predicate Looping(adj: QAdj, forward: bool, base: iset<Arc>, seeds: seq<Seed>,
                          weights: map<nat, int>, queue: set<nat>, settled: set<nat>, last: int) {
    && Exploring(base, seeds, weights, queue, settled, last)
    && AllDone(adj, forward, base, seeds, weights, settled)
    && MIN_WEIGHT <= last
  }

  method StallAtNode(graph: StaticGraph, heap: BinaryHeap<nat>, forward: bool, node: nat, distance: int)
      returns (stalled: bool)
    requires graph.Valid() && heap.Valid() && node < graph.numberOfNodes <= heap.Capacity()
    requires forall e :: e in graph.Edges(node) ==> e.target < graph.numberOfNodes
    ensures stalled <==> exists e :: e in graph.Edges(node) && StallFlag(forward, e) && e.target in heap.Weights()
                                    && heap.Weights()[e.target] + e.data.distance < distance
  {
    var edges := graph.Edges(node);
    for k := 0 to |edges|
      invariant forall i :: 0 <= i < k && StallFlag(forward, edges[i]) && edges[i].target in heap.Weights() ==>
                              heap.Weights()[edges[i].target] + edges[i].data.distance >= distance
    {
      if StallFlag(forward, edges[k]) {
        var to := edges[k].target;
        if heap.WasInserted(to) {
          if heap.GetKey(to) + edges[k].data.distance < distance {
            return true;
          }
        }
      }
    }
    return false;
  }

  method RelaxOutgoingEdges(graph: StaticGraph, heap: BinaryHeap<nat>, forward: bool, node: nat, distance: int,
                            ghost base: iset<Arc>, ghost seeds: seq<Seed>, ghost settled: set<nat>)
    requires graph.Valid() && heap.Valid() && node < graph.numberOfNodes == heap.Capacity()
    requires SearchSound(graph.Adjacency(), forward, base)
    requires Exploring(base, seeds, heap.Weights(), heap.Queue(), settled, distance)
    requires node in settled && heap.Weights()[node] == distance && MIN_WEIGHT <= distance
    modifies heap
    ensures heap.Valid() && heap.Capacity() == old(heap.Capacity())
    ensures Exploring(base, seeds, heap.Weights(), heap.Queue(), settled, distance)
    ensures Advances(old(heap.Weights()), heap.Weights(), settled)
    ensures Relaxed(graph.Edges(node), forward, heap.Weights(), distance, |graph.Edges(node)|)
  {
    var edges := graph.Edges(node);
    for k := 0 to |edges|
      invariant heap.Valid() && heap.Capacity() == graph.numberOfNodes
      invariant Exploring(base, seeds, heap.Weights(), heap.Queue(), settled, distance)
      invariant Advances(old(heap.Weights()), heap.Weights(), settled)
      invariant Relaxed(edges, forward, heap.Weights(), distance, k)
    {
      if RelaxFlag(forward, edges[k]) {
        RelaxEdge(graph, heap, forward, node, distance, edges[k], base, seeds, settled);
      }
    }
  }

  method RelaxEdge(graph: StaticGraph, heap: BinaryHeap<nat>, forward: bool, node: nat, distance: int, edge: QEdge,
                   ghost base: iset<Arc>, ghost seeds: seq<Seed>, ghost settled: set<nat>)
    requires graph.Valid() && heap.Valid() && node < graph.numberOfNodes == heap.Capacity()
    requires SearchSound(graph.Adjacency(), forward, base)
    requires edge in graph.Edges(node) && RelaxFlag(forward, edge)
    requires Exploring(base, seeds, heap.Weights(), heap.Queue(), settled, distance)
    requires node in settled && heap.Weights()[node] == distance && MIN_WEIGHT <= distance
    modifies heap
    ensures heap.Valid() && heap.Capacity() == old(heap.Capacity())
    ensures Exploring(base, seeds, heap.Weights(), heap.Queue(), settled, distance)
    ensures Advances(old(heap.Weights()), heap.Weights(), settled)
    ensures edge.target in heap.Weights() && heap.Weights()[edge.target] <= distance + edge.data.distance
  {
    var to := edge.target;
    var toDistance := distance + edge.data.distance;
    assert edge in graph.Adjacency()[node] && EdgeSound(graph.Adjacency(), forward, base, node, edge);
    if !heap.WasInserted(to) {
      Reach(base, seeds, heap.Weights(), heap.Queue(), settled, distance, node, to, edge.data.distance);
      heap.Insert(to, toDistance, node);
    } else if toDistance < heap.GetKey(to) {
      Reach(base, seeds, heap.Weights(), heap.Queue(), settled, distance, node, to, edge.data.distance);
      assert heap.Queue() + {to} == heap.Queue();
      heap.SetData(to, node);
      heap.DecreaseKey(to, toDistance);
    }
  }

  /** Settle the next node. */
  method Settle(graph: StaticGraph, heap: BinaryHeap<nat>, ghost forward: bool,
                ghost base: iset<Arc>, ghost seeds: seq<Seed>, ghost settled: set<nat>, ghost last: int)
    returns (node: nat, distance: int)
    requires graph.Valid() && heap.Valid() && graph.numberOfNodes == heap.Capacity() && heap.Queue() != {}
    requires Looping(graph.Adjacency(), forward, base, seeds, heap.Weights(), heap.Queue(), settled, last)
    modifies heap
    ensures heap.Valid() && heap.Capacity() == old(heap.Capacity()) && heap.Weights() == old(heap.Weights())
    ensures node in heap.Weights() && heap.Weights()[node] == distance && node !in settled && node < graph.numberOfNodes
    ensures Exploring(base, seeds, heap.Weights(), heap.Queue(), settled + {node}, distance)
    ensures MIN_WEIGHT <= distance
  {
    node := heap.DeleteMin();
    distance := heap.GetKey(node);
  }

  /** The tail of a routing step: stall at the node or leave it over all its edges. */
  method Expand(graph: StaticGraph, heap: BinaryHeap<nat>, forward: bool, node: nat, distance: int,
                ghost base: iset<Arc>, ghost seeds: seq<Seed>, ghost settled: set<nat>)
    requires graph.Valid() && heap.Valid() && node < graph.numberOfNodes == heap.Capacity()
    requires SearchSound(graph.Adjacency(), forward, base)
    requires Exploring(base, seeds, heap.Weights(), heap.Queue(), settled + {node}, distance)
    requires AllDone(graph.Adjacency(), forward, base, seeds, heap.Weights(), settled)
    requires heap.Weights()[node] == distance && MIN_WEIGHT <= distance
    modifies heap
    ensures heap.Valid() && heap.Capacity() == old(heap.Capacity())
    ensures Looping(graph.Adjacency(), forward, base, seeds, heap.Weights(), heap.Queue(), settled + {node}, distance)
    ensures Advances(old(heap.Weights()), heap.Weights(), settled + {node})
  {
    ghost var adj := graph.Adjacency();
    forall e | e in graph.Edges(node)
      ensures e.target < graph.numberOfNodes
    {
      assert EdgeSound(adj, forward, base, node, e);
    }
    var stalled := StallAtNode(graph, heap, forward, node, distance);
    if stalled {
      ghost var e :| e in graph.Edges(node) && StallFlag(forward, e) && e.target in heap.Weights()
                     && heap.Weights()[e.target] + e.data.distance < distance;
      StallIsRight(adj, forward, base, seeds, heap.Weights(), node, e);
      return;
    }
    ghost var before := heap.Weights();
    RelaxOutgoingEdges(graph, heap, forward, node, distance, base, seeds, settled + {node});
    DoneAdvances(adj, forward, base, seeds, before, heap.Weights(), settled + {node}, settled);
    assert Done(adj, forward, base, seeds, heap.Weights(), node);
  }

  // ----- seeds -------------------------------------------------------------

  ghost predicate GoodSeeds(seeds: seq<Seed>, nodes: nat) {
    && (forall s :: s in seeds ==> s.node < nodes && MIN_WEIGHT <= s.offset)
    && (forall i, j :: 0 <= i < j < |seeds| ==> seeds[i].node != seeds[j].node)
  }

  method InsertSeeds(graph: StaticGraph, heap: BinaryHeap<nat>, seeds: seq<Seed>, ghost forward: bool,
                     ghost base: iset<Arc>)
    requires graph.Valid() && heap.Valid() && heap.Capacity() == graph.numberOfNodes
             && GoodSeeds(seeds, graph.numberOfNodes)
    modifies heap
    ensures heap.Valid() && heap.Capacity() == old(heap.Capacity())
    ensures Looping(graph.Adjacency(), forward, base, seeds, heap.Weights(), heap.Queue(), {}, MIN_WEIGHT)
  {
    heap.Clear();
    for k := 0 to |seeds|
      invariant heap.Valid() && heap.Capacity() == graph.numberOfNodes
      invariant heap.Queue() == heap.Weights().Keys
      invariant SeedWeights(seeds[..k], heap.Weights())
    {
      assert seeds[k] in seeds;
      assert seeds[..k + 1] == seeds[..k] + [seeds[k]];
      heap.Insert(seeds[k].node, seeds[k].offset, seeds[k].node);
    }
    assert seeds[..|seeds|] == seeds;
    SeededSound(base, seeds, heap.Weights());
  }

  /** The keys are exactly the seeds' offsets. */
  ghost predicate SeedWeights(seeds: seq<Seed>, weights: map<nat, int>) {
    && (forall s :: s in seeds ==> s.node in weights && weights[s.node] == s.offset)
    && (forall n :: n in weights ==> Seed(n, weights[n]) in seeds)
  }

  lemma {:induction false} SeededSound(base: iset<Arc>, seeds: seq<Seed>, weights: map<nat, int>)
    requires SeedWeights(seeds, weights)
    ensures KeysSound(base, seeds, weights)
  {
    forall n | n in weights
      ensures SeedWalk(base, seeds, n, weights[n])
    {
      WalkHere(base, n);
      var s := Seed(n, weights[n]);
      assert s in seeds && Walk(base, s.node, n, weights[n] - s.offset);
    }
  }

  // ----- buckets -----------------------------------------------------------

  ghost predicate HasBucket(buckets: Buckets, n: nat, b: NodeBucket) {
    n in buckets && b in buckets[n]
  }

  /** Node n has a bucket for target j at exactly the key the search from j settled it with. */
  ghost predicate BucketsHold(buckets: Buckets, finals: seq<map<nat, int>>) {
    forall n, b :: HasBucket(buckets, n, b) <==>
      b.targetId < |finals| && n in finals[b.targetId] && finals[b.targetId][n] == b.distance
  }

  lemma {:induction false} AddBucket(buckets: Buckets, finals: seq<map<nat, int>>, found: map<nat, int>, n: nat, d: int,
                                     buckets': Buckets)
    requires BucketsHold(buckets, finals + [found]) && n !in found
    requires buckets' == buckets[n := (if n in buckets then buckets[n] else []) + [NodeBucket(|finals|, d)]]
    ensures BucketsHold(buckets', finals + [found[n := d]])
  {
    forall m, b
      ensures HasBucket(buckets', m, b) <==> HasBucket(buckets, m, b) || (m == n && b == NodeBucket(|finals|, d))
    {
    }
  }

  /** The keys of the settled nodes. */
  ghost predicate KeysOf(found: map<nat, int>, settled: set<nat>, weights: map<nat, int>) {
    && found.Keys == settled
    && (forall n :: n in found ==> n in weights && found[n] == weights[n])
  }

  method BackwardRoutingStep(graph: StaticGraph, heap: BinaryHeap<nat>, targetId: nat, buckets0: Buckets,
                             ghost base: iset<Arc>, ghost seeds: seq<Seed>, ghost finals: seq<map<nat, int>>,
                             ghost found0: map<nat, int>, ghost last0: int)
    returns (buckets: Buckets, ghost found: map<nat, int>, ghost last: int)
    requires graph.Valid() && heap.Valid() && graph.numberOfNodes == heap.Capacity() && heap.Queue() != {}
    requires SearchSound(graph.Adjacency(), false, base)
    requires Looping(graph.Adjacency(), false, base, seeds, heap.Weights(), heap.Queue(), found0.Keys, last0)
    requires KeysOf(found0, found0.Keys, heap.Weights())
    requires |finals| == targetId && BucketsHold(buckets0, finals + [found0])
    modifies heap
    ensures heap.Valid() && heap.Capacity() == old(heap.Capacity())
    ensures Looping(graph.Adjacency(), false, base, seeds, heap.Weights(), heap.Queue(), found.Keys, last)
    ensures KeysOf(found, found.Keys, heap.Weights())
    ensures BucketsHold(buckets, finals + [found])
    ensures found0.Keys < found.Keys && forall n :: n in found.Keys - found0.Keys ==> n < graph.numberOfNodes
  {
    var node, targetDistance := Settle(graph, heap, false, base, seeds, found0.Keys, last0);
    buckets := buckets0[node := (if node in buckets0 then buckets0[node] else []) + [NodeBucket(targetId,
          targetDistance)]];
    AddBucket(buckets0, finals, found0, node, targetDistance, buckets);
    found, last := found0[node := targetDistance], targetDistance;
    assert found.Keys == found0.Keys + {node};
    Expand(graph, heap, false, node, targetDistance, base, seeds, found0.Keys);
  }

  /** The whole search from one target. */
  method SearchTarget(graph: StaticGraph, heap: BinaryHeap<nat>, targetId: nat, seeds: seq<Seed>, buckets0: Buckets,
                      ghost base: iset<Arc>, ghost finals: seq<map<nat, int>>)
    returns (buckets: Buckets, ghost final: map<nat, int>)
    requires graph.Valid() && heap.Valid() && graph.numberOfNodes == heap.Capacity()
    requires SearchSound(graph.Adjacency(), false, base) && GoodSeeds(seeds, graph.numberOfNodes)
    requires |finals| == targetId && BucketsHold(buckets0, finals)
    modifies heap
    ensures heap.Valid() && heap.Capacity() == old(heap.Capacity())
    ensures Finished(graph.Adjacency(), false, base, seeds, final)
    ensures BucketsHold(buckets, finals + [final])
  {
    InsertSeeds(graph, heap, seeds, false, base);
    buckets := buckets0;
    final := map[];
    ghost var last := MIN_WEIGHT;
    while !heap.Empty()
      invariant heap.Valid() && heap.Capacity() == graph.numberOfNodes
      invariant Looping(graph.Adjacency(), false, base, seeds, heap.Weights(), heap.Queue(), final.Keys, last)
      invariant KeysOf(final, final.Keys, heap.Weights())
      invariant BucketsHold(buckets, finals + [final])
      invariant final.Keys <= Upto(graph.numberOfNodes)
      decreases Upto(graph.numberOfNodes) - final.Keys
    {
      ghost var before := final.Keys;
      buckets, final, last := BackwardRoutingStep(graph, heap, targetId, buckets, base, seeds, finals, final, last);
      forall n | n in final.Keys
        ensures n in Upto(graph.numberOfNodes)
      {
        UptoMember(graph.numberOfNodes, n);
      }
    }
    assert final == heap.Weights();
  }

  // ----- the table ---------------------------------------------------------

  /** `entry` is the smallest non-negative sum over the nodes both searches settled. */
  ghost predicate Best(entry: int, found: map<nat, int>, final: map<nat, int>) {
    && entry <= INT_MAX
    && (forall n :: n in found && n in final && 0 <= found[n] + final[n] ==> entry <= found[n] + final[n])
    && (entry < INT_MAX ==> 0 <= entry && exists n :: n in found && n in final && found[n] + final[n] == entry)
  }

  /** Scanning one node's buckets improves the entries of one row, and nothing else. */
  method ScanBucket(table0: seq<int>, offset: nat, width: nat, bucket: seq<NodeBucket>, sourceDistance: int)
    returns (table: seq<int>)
    requires offset + width <= |table0| && forall b :: b in bucket ==> b.targetId < width
    ensures |table| == |table0|
    ensures forall k :: 0 <= k < |table| && !(offset <= k < offset + width) ==> table[k] == table0[k]
    ensures forall j :: offset <= j < offset + width ==>
              Improved(table0[j], table[j], bucket, j - offset, sourceDistance)
  {
    table := table0;
    for k := 0 to |bucket|
      invariant |table| == |table0|
      invariant forall k :: 0 <= k < |table| && !(offset <= k < offset + width) ==> table[k] == table0[k]
      invariant forall j :: offset <= j < offset + width ==>
                  Improved(table0[j], table[j], bucket[..k], j - offset, sourceDistance)
    {
      var targetId := bucket[k].targetId;
      assert bucket[k] in bucket;
      assert bucket[..k + 1] == bucket[..k] + [bucket[k]];
      var currentDistance := table[offset + targetId];
      var newDistance := sourceDistance + bucket[k].distance;
      if newDistance >= 0 && newDistance < currentDistance {
        table := table[offset + targetId := newDistance];
      }
    }
    assert bucket[..|bucket|] == bucket;
  }

  ghost predicate Improved(before: int, after: int, bucket: seq<NodeBucket>, j: int, d: int) {
    && after <= before
    && (forall b :: b in bucket && b.targetId == j && 0 <= d + b.distance ==> after <= d + b.distance)
    && (after != before ==> exists b :: b in bucket && b.targetId == j && 0 <= d + b.distance == after)
  }

  lemma {:induction false} ImprovedBest(before: int, after: int, bucket: seq<NodeBucket>, j: nat, d: int, node: nat,
                     found: map<nat, int>, finals: seq<map<nat, int>>)
    requires j < |finals| && Best(before, found, finals[j]) && node !in found
    requires Improved(before, after, bucket, j, d)
    requires forall b: NodeBucket ::
               b.targetId == j ==> (b in bucket <==> node in finals[j] && finals[j][node] == b.distance)
    ensures Best(after, found[node := d], finals[j])
  {
    var found' := found[node := d];
    if node in finals[j] {
      assert NodeBucket(j, finals[j][node]) in bucket;
    }
    if after != before {
      var b :| b in bucket && b.targetId == j && 0 <= d + b.distance == after;
      assert node in found' && node in finals[j] && found'[node] + finals[j][node] == after;
    } else if after < INT_MAX {
      var n :| n in found && n in finals[j] && found[n] + finals[j][n] == before;
      assert n in found' && found'[n] + finals[j][n] == after;
    }
  }

  method ForwardRoutingStep(graph: StaticGraph, heap: BinaryHeap<nat>, offset: nat, buckets: Buckets, table0: seq<int>,
                            ghost base: iset<Arc>, ghost seeds: seq<Seed>, ghost finals: seq<map<nat, int>>, width: nat,
                            ghost found0: map<nat, int>, ghost last0: int)
    returns (table: seq<int>, ghost found: map<nat, int>, ghost last: int)
    requires graph.Valid() && heap.Valid() && graph.numberOfNodes == heap.Capacity() && heap.Queue() != {}
    requires SearchSound(graph.Adjacency(), true, base)
    requires Looping(graph.Adjacency(), true, base, seeds, heap.Weights(), heap.Queue(), found0.Keys, last0)
    requires KeysOf(found0, found0.Keys, heap.Weights())
    requires BucketsHold(buckets, finals) && |finals| == width && offset + width <= |table0|
    requires RowBest(table0, offset, found0, finals)
    modifies heap
    ensures heap.Valid() && heap.Capacity() == old(heap.Capacity())
    ensures Looping(graph.Adjacency(), true, base, seeds, heap.Weights(), heap.Queue(), found.Keys, last)
    ensures KeysOf(found, found.Keys, heap.Weights())
    ensures |table| == |table0| && RowBest(table, offset, found, finals)
    ensures forall k :: 0 <= k < |table| && !(offset <= k < offset + width) ==> table[k] == table0[k]
    ensures found0.Keys < found.Keys && forall n :: n in found.Keys - found0.Keys ==> n < graph.numberOfNodes
  {
    var node, sourceDistance := Settle(graph, heap, true, base, seeds, found0.Keys, last0);
    var bucket := if node in buckets then buckets[node] else [];
    assert forall b :: b in bucket <==> HasBucket(buckets, node, b);
    table := ScanBucket(table0, offset, width, bucket, sourceDistance);
    found, last := found0[node := sourceDistance], sourceDistance;
    RowImproved(table0, table, offset, bucket, node, sourceDistance, found0, finals);
    assert found.Keys == found0.Keys + {node};
    Expand(graph, heap, true, node, sourceDistance, base, seeds, found0.Keys);
  }

  ghost predicate RowBest(table: seq<int>, offset: nat, found: map<nat, int>, finals: seq<map<nat, int>>)
    requires offset + |finals| <= |table|
  {
    forall j :: offset <= j < offset + |finals| ==> Best(table[j], found, finals[j - offset])
  }

  lemma {:induction false} RowImproved(table0: seq<int>, table: seq<int>, offset: nat, bucket: seq<NodeBucket>,
                                       node: nat, d: int, found: map<nat, int>, finals: seq<map<nat, int>>)
    requires |table| == |table0| && offset + |finals| <= |table| && node !in found
    requires RowBest(table0, offset, found, finals)
    requires forall j :: offset <= j < offset + |finals| ==> Improved(table0[j], table[j], bucket, j - offset, d)
    requires forall b :: b in bucket <==>
               b.targetId < |finals| && node in finals[b.targetId] && finals[b.targetId][node] == b.distance
    ensures RowBest(table, offset, found[node := d], finals)
  {
    forall j | offset <= j < offset + |finals|
      ensures Best(table[j], found[node := d], finals[j - offset])
    {
      ImprovedBest(table0[j], table[j], bucket, j - offset, d, node, found, finals);
    }
  }

  /** The whole search from one source, filling one row. */
  method SearchSource(graph: StaticGraph, heap: BinaryHeap<nat>, seeds: seq<Seed>, offset: nat, buckets: Buckets,
                      table0: seq<int>, ghost base: iset<Arc>, ghost finals: seq<map<nat, int>>, width: nat)
      returns (table: seq<int>, ghost found: map<nat, int>)
    requires graph.Valid() && heap.Valid() && graph.numberOfNodes == heap.Capacity()
    requires SearchSound(graph.Adjacency(), true, base) && GoodSeeds(seeds, graph.numberOfNodes)
    requires BucketsHold(buckets, finals) && |finals| == width && offset + width <= |table0|
    requires forall j :: offset <= j < offset + width ==> table0[j] == INT_MAX
    modifies heap
    ensures heap.Valid() && heap.Capacity() == old(heap.Capacity())
    ensures Finished(graph.Adjacency(), true, base, seeds, found)
    ensures |table| == |table0| && RowBest(table, offset, found, finals)
    ensures forall k :: 0 <= k < |table| && !(offset <= k < offset + width) ==> table[k] == table0[k]
  {
    InsertSeeds(graph, heap, seeds, true, base);
    table := table0;
    found := map[];
    ghost var last := MIN_WEIGHT;
    while !heap.Empty()
      invariant heap.Valid() && heap.Capacity() == graph.numberOfNodes
      invariant Looping(graph.Adjacency(), true, base, seeds, heap.Weights(), heap.Queue(), found.Keys, last)
      invariant KeysOf(found, found.Keys, heap.Weights())
      invariant |table| == |table0| && RowBest(table, offset, found, finals)
      invariant forall k :: 0 <= k < |table| && !(offset <= k < offset + width) ==> table[k] == table0[k]
      invariant found.Keys <= Upto(graph.numberOfNodes)
      decreases Upto(graph.numberOfNodes) - found.Keys
    {
      table, found, last := ForwardRoutingStep(graph, heap, offset, buckets, table, base, seeds, finals, width, found,
                                               last);
      forall n | n in found.Keys
        ensures n in Upto(graph.numberOfNodes)
      {
        UptoMember(graph.numberOfNodes, n);
      }
    }
    assert found == heap.Weights();
  }

  // ----- what the table means ----------------------------------------------

  /** The contracted graph offers only walks of the plain graph, and for each of them two
      upward searches that meet within its length. */
  ghost predicate IsHierarchy(base: iset<Arc>, out: iset<QueryEdge>) {
    && (forall a {:trigger a in Forward(out)} :: a in Forward(out) ==> a.w >= 1 && Walk(base, a.src, a.dst, a.w))
    && (forall a {:trigger a in Backward(out)} :: a in Backward(out) ==> a.w >= 1 && Walk(base, a.src, a.dst, a.w))
    && (forall s, t, len {:trigger Meets(Forward(out), Backward(out), s, t, len)} ::
          Walk(base, s, t, len) ==> Meets(Forward(out), Backward(out), s, t, len))
  }

  /** A route from a source seed to a target seed, at this total. */
  ghost predicate RouteValue(base: iset<Arc>, sources: seq<Seed>, targets: seq<Seed>, v: int) {
    exists s, t :: s in sources && t in targets && Walk(base, s.node, t.node, v - s.offset - t.offset)
  }

  /** The table entry is a route, it is the shortest one if that is not negative, and it is
      "infinite" if there is none. */
  ghost predicate RightEntry(base: iset<Arc>, sources: seq<Seed>, targets: seq<Seed>, entry: int) {
    && entry <= INT_MAX
    && (entry < INT_MAX ==> 0 <= entry && RouteValue(base, sources, targets, entry))
    && ((forall v :: RouteValue(base, sources, targets, v) ==> 0 <= v) ==>
          forall v :: RouteValue(base, sources, targets, v) ==> entry <= v)
  }

  lemma {:induction false} StoredForward(adj: QAdj, n: nat, e: QEdge)
    requires n < |adj| && e in adj[n]
    ensures e.data.forward ==> Arc(n, e.target, e.data.distance) in Forward(StoredEdges(adj))
    ensures e.data.backward ==> Arc(e.target, n, e.data.distance) in Backward(StoredEdges(adj))
  {
    var q := Unrecord(n, e);
    assert q in StoredEdges(adj);
  }

  lemma {:induction false} HierarchyIsSound(base: iset<Arc>, adj: QAdj)
    requires IsHierarchy(base, StoredEdges(adj))
    requires forall n: nat, e :: n < |adj| && e in adj[n] ==> e.target < |adj| && (e.data.forward || e.data.backward)
    ensures SearchSound(adj, true, base) && SearchSound(adj, false, Reverse(base))
  {
    forall n: nat, e | n < |adj| && e in adj[n]
      ensures EdgeSound(adj, true, base, n, e) && EdgeSound(adj, false, Reverse(base), n, e)
    {
      StoredForward(adj, n, e);
      WalkReverse(base, n, e.target, e.data.distance);
      WalkReverse(base, e.target, n, e.data.distance);
    }
  }

  lemma {:induction false} RelaxIsStored(adj: QAdj)
    ensures RelaxArcs(adj, true) == Forward(StoredEdges(adj))
    ensures RelaxArcs(adj, false) == Reverse(Backward(StoredEdges(adj)))
  {
    forall a: Arc
      ensures HasRelax(adj, true, a) <==> HasForward(StoredEdges(adj), a)
      ensures HasRelax(adj, false, a) <==> HasBackward(StoredEdges(adj), Arc(a.dst, a.src, a.w))
    {
      if HasRelax(adj, true, a) {
        var e :| e in adj[a.src] && e.data.forward && e.target == a.dst && e.data.distance == a.w;
        StoredForward(adj, a.src, e);
      }
      if HasRelax(adj, false, a) {
        var e :| e in adj[a.src] && e.data.backward && e.target == a.dst && e.data.distance == a.w;
        StoredForward(adj, a.src, e);
      }
    }
  }

  /** An entry that is best over the settled nodes is a route of the plain graph. */
  lemma {:induction false} EntryIsRoute(base: iset<Arc>, sources: seq<Seed>, targets: seq<Seed>, found: map<nat, int>,
                                        final: map<nat, int>, n: nat)
    requires KeysSound(base, sources, found) && KeysSound(Reverse(base), targets, final)
    requires n in found && n in final
    ensures RouteValue(base, sources, targets, found[n] + final[n])
  {
    assert SeedWalk(base, sources, n, found[n]) && SeedWalk(Reverse(base), targets, n, final[n]);
    var s :| s in sources && Walk(base, s.node, n, found[n] - s.offset);
    var t :| t in targets && Walk(Reverse(base), t.node, n, final[n] - t.offset);
    WalkReverse(base, n, t.node, final[n] - t.offset);
    WalkTrans(base, s.node, n, t.node, found[n] - s.offset, final[n] - t.offset);
    assert Walk(base, s.node, t.node, (found[n] + final[n]) - s.offset - t.offset);
  }

  /** The two searches meet on a shortest route. */
  lemma {:induction false} ShortestIsFound(base: iset<Arc>, adj: QAdj, sources: seq<Seed>, targets: seq<Seed>,
                        found: map<nat, int>, final: map<nat, int>, v: int) returns (n: nat)
    requires IsHierarchy(base, StoredEdges(adj)) && SearchSound(adj, true, base)
             && SearchSound(adj, false, Reverse(base))
    requires Finished(adj, true, base, sources, found) && Finished(adj, false, Reverse(base), targets, final)
    requires RouteValue(base, sources, targets, v)
    requires forall v' :: RouteValue(base, sources, targets, v') ==> v <= v'
    ensures n in found && n in final && found[n] + final[n] == v
  {
    var s, t :| s in sources && t in targets && Walk(base, s.node, t.node, v - s.offset - t.offset);
    var len := v - s.offset - t.offset;
    assert Meets(Forward(StoredEdges(adj)), Backward(StoredEdges(adj)), s.node, t.node, len);
    var a, b;
    n, a, b :| Walk(Forward(StoredEdges(adj)), s.node, n, a) && Walk(Backward(StoredEdges(adj)), n, t.node, b)
    && a + b <= len;
    RelaxIsStored(adj);
    WalkReverse(Backward(StoredEdges(adj)), n, t.node, b);
    UpwardIsWalk(base, adj, s.node, n, t.node, a, b);
    OptimalThere(base, sources, targets, s, t, n, a, b, v);
    OptimalBack(base, sources, targets, s, t, n, a, b, v);
    FindsFromSeed(adj, true, base, sources, found, s, n, a);
    FindsFromSeed(adj, false, Reverse(base), targets, final, t, n, b);
    EntryIsRoute(base, sources, targets, found, final, n);
  }

  lemma {:induction false} UpwardIsWalk(base: iset<Arc>, adj: QAdj, s: nat, n: nat, t: nat, a: int, b: int)
    requires IsHierarchy(base, StoredEdges(adj))
    requires Walk(Forward(StoredEdges(adj)), s, n, a) && Walk(Backward(StoredEdges(adj)), n, t, b)
    ensures Walk(base, s, n, a) && Walk(base, n, t, b)
  {
    var p :| IsWalk(Forward(StoredEdges(adj)), s, p, n) && Length(p) == a;
    ExpandedWalk(Forward(StoredEdges(adj)), base, s, p, n);
    var q :| IsWalk(Backward(StoredEdges(adj)), n, q, t) && Length(q) == b;
    ExpandedWalk(Backward(StoredEdges(adj)), base, n, q, t);
  }

  lemma {:induction false} OptimalThere(base: iset<Arc>, sources: seq<Seed>, targets: seq<Seed>, s: Seed, t: Seed,
                                        n: nat, a: int, b: int, v: int)
    requires s in sources && t in targets && Walk(base, n, t.node, b) && s.offset + a + b + t.offset <= v
    requires forall v' :: RouteValue(base, sources, targets, v') ==> v <= v'
    ensures Optimal(base, sources, n, s.offset + a)
  {
    forall l | SeedWalk(base, sources, n, l)
      ensures s.offset + a <= l
    {
      var s' :| s' in sources && Walk(base, s'.node, n, l - s'.offset);
      WalkTrans(base, s'.node, n, t.node, l - s'.offset, b);
      assert Walk(base, s'.node, t.node, (l + b + t.offset) - s'.offset - t.offset);
      assert RouteValue(base, sources, targets, l + b + t.offset);
    }
  }

  lemma {:induction false} OptimalBack(base: iset<Arc>, sources: seq<Seed>, targets: seq<Seed>, s: Seed, t: Seed,
                                       n: nat, a: int, b: int, v: int)
    requires s in sources && t in targets && Walk(base, s.node, n, a) && s.offset + a + b + t.offset <= v
    requires forall v' :: RouteValue(base, sources, targets, v') ==> v <= v'
    ensures Optimal(Reverse(base), targets, n, t.offset + b)
  {
    forall l | SeedWalk(Reverse(base), targets, n, l)
      ensures t.offset + b <= l
    {
      var t' :| t' in targets && Walk(Reverse(base), t'.node, n, l - t'.offset);
      WalkReverse(base, n, t'.node, l - t'.offset);
      WalkTrans(base, s.node, n, t'.node, a, l - t'.offset);
      assert Walk(base, s.node, t'.node, (s.offset + a + l) - s.offset - t'.offset);
      assert RouteValue(base, sources, targets, s.offset + a + l);
    }
  }

  /** There is a smallest route value as soon as there is one and none is negative. */
  lemma {:induction false} SmallestRoute(base: iset<Arc>, sources: seq<Seed>, targets: seq<Seed>, v: int)
      returns (m: int)
    requires RouteValue(base, sources, targets, v)
    requires forall v' :: RouteValue(base, sources, targets, v') ==> 0 <= v'
    ensures RouteValue(base, sources, targets, m) && forall v' :: RouteValue(base, sources, targets, v') ==> m <= v'
    decreases v
  {
    if v' :| RouteValue(base, sources, targets, v') && v' < v {
      m := SmallestRoute(base, sources, targets, v');
    } else {
      m := v;
    }
  }

  lemma {:induction false} EntryIsRight(base: iset<Arc>, adj: QAdj, sources: seq<Seed>, targets: seq<Seed>,
                     found: map<nat, int>, final: map<nat, int>, entry: int)
    requires IsHierarchy(base, StoredEdges(adj)) && SearchSound(adj, true, base)
             && SearchSound(adj, false, Reverse(base))
    requires Finished(adj, true, base, sources, found) && Finished(adj, false, Reverse(base), targets, final)
    requires Best(entry, found, final)
    ensures RightEntry(base, sources, targets, entry)
  {
    if entry < INT_MAX {
      var n :| n in found && n in final && found[n] + final[n] == entry;
      EntryIsRoute(base, sources, targets, found, final, n);
    }
    if forall v :: RouteValue(base, sources, targets, v) ==> 0 <= v {
      forall v | RouteValue(base, sources, targets, v)
        ensures entry <= v
      {
        var m := SmallestRoute(base, sources, targets, v);
        var n := ShortestIsFound(base, adj, sources, targets, found, final, m);
      }
    }
  }

  /** The distance table, row by row. */
  method DistanceTable(graph: StaticGraph, heap: BinaryHeap<nat>, sources: seq<seq<Seed>>, targets: seq<seq<Seed>>,
                       ghost base: iset<Arc>)
    returns (table: seq<int>)
    requires graph.Valid() && heap.Valid() && graph.numberOfNodes == heap.Capacity()
    requires IsHierarchy(base, StoredEdges(graph.Adjacency()))
    requires forall n: nat, e :: n < graph.numberOfNodes && e in graph.Adjacency()[n] ==>
               e.target < graph.numberOfNodes && (e.data.forward || e.data.backward)
    requires forall i :: 0 <= i < |sources| ==> GoodSeeds(sources[i], graph.numberOfNodes)
    requires forall j :: 0 <= j < |targets| ==> GoodSeeds(targets[j], graph.numberOfNodes)
    modifies heap
    ensures |table| == |sources| * |targets|
    ensures forall i, j :: 0 <= i < |sources| && 0 <= j < |targets| ==>
              EntryOf(base, sources[i], targets[j], table, i * |targets| + j)
  {
    HierarchyIsSound(base, graph.Adjacency());
    var buckets;
    ghost var finals;
    buckets, finals := FillBuckets(graph, heap, targets, Reverse(base));
    table := FillRows(graph, heap, sources, targets, buckets, base, finals);
  }

  /** The searches from all targets. */
  method FillBuckets(graph: StaticGraph, heap: BinaryHeap<nat>, targets: seq<seq<Seed>>, ghost base: iset<Arc>)
    returns (buckets: Buckets, ghost finals: seq<map<nat, int>>)
    requires graph.Valid() && heap.Valid() && graph.numberOfNodes == heap.Capacity()
    requires SearchSound(graph.Adjacency(), false, base)
    requires forall j :: 0 <= j < |targets| ==> GoodSeeds(targets[j], graph.numberOfNodes)
    modifies heap
    ensures heap.Valid() && heap.Capacity() == graph.numberOfNodes
    ensures |finals| == |targets| && BucketsHold(buckets, finals)
    ensures forall j :: 0 <= j < |targets| ==> Finished(graph.Adjacency(), false, base, targets[j], finals[j])
  {
    buckets, finals := map[], [];
    for j := 0 to |targets|
      invariant heap.Valid() && heap.Capacity() == graph.numberOfNodes
      invariant |finals| == j && BucketsHold(buckets, finals)
      invariant forall k :: 0 <= k < j ==> Finished(graph.Adjacency(), false, base, targets[k], finals[k])
    {
      ghost var final;
      buckets, final := SearchTarget(graph, heap, j, targets[j], buckets, base, finals);
      finals := finals + [final];
    }
  }

  /** The searches from all sources, one row each. */
  method FillRows(graph: StaticGraph, heap: BinaryHeap<nat>, sources: seq<seq<Seed>>, targets: seq<seq<Seed>>,
                  buckets: Buckets, ghost base: iset<Arc>, ghost finals: seq<map<nat, int>>)
      returns (table: seq<int>)
    requires graph.Valid() && heap.Valid() && graph.numberOfNodes == heap.Capacity()
    requires IsHierarchy(base, StoredEdges(graph.Adjacency()))
    requires SearchSound(graph.Adjacency(), true, base) && SearchSound(graph.Adjacency(), false, Reverse(base))
    requires forall i :: 0 <= i < |sources| ==> GoodSeeds(sources[i], graph.numberOfNodes)
    requires |finals| == |targets| && BucketsHold(buckets, finals)
    requires forall j :: 0 <= j < |targets| ==> Finished(graph.Adjacency(), false, Reverse(base), targets[j], finals[j])
    modifies heap
    ensures |table| == |sources| * |targets|
    ensures forall i, j :: 0 <= i < |sources| && 0 <= j < |targets| ==>
              EntryOf(base, sources[i], targets[j], table, i * |targets| + j)
  {
    var width := |targets|;
    RowStartIsProduct(|sources|, width);
    table := seq(|sources| * width, _ => INT_MAX);
    var offset := 0;
    ghost var founds: seq<map<nat, int>> := [];
    for i := 0 to |sources|
      invariant heap.Valid() && heap.Capacity() == graph.numberOfNodes
      invariant |table| == RowStart(|sources|, width) && offset == RowStart(i, width) <= |table| && |founds| == i
      invariant forall k :: offset <= k < |table| ==> table[k] == INT_MAX
      invariant forall k :: 0 <= k < i ==> Finished(graph.Adjacency(), true, base, sources[k], founds[k])
      invariant RowsBest(table, founds, finals)
    {
      RowFits(i + 1, |sources|, width);
      ghost var found;
      ghost var before := table;
      table, found := SearchSource(graph, heap, sources[i], offset, buckets, table, base, finals, width);
      AddRow(before, table, founds, found, finals);
      founds := founds + [found];
      offset := offset + width;
    }
    forall i, j | 0 <= i < |sources| && 0 <= j < |targets|
      ensures EntryOf(base, sources[i], targets[j], table, i * width + j)
    {
      RowStartIsProduct(i, width);
      RowFits(i + 1, |sources|, width);
      assert RowBest(table, RowStart(i, width), founds[i], finals);
      assert Best(table[RowStart(i, width) + j], founds[i], finals[j]);
      EntryIsRight(base, graph.Adjacency(), sources[i], targets[j], founds[i], finals[j], table[i * width + j]);
    }
  }

  ghost predicate EntryOf(base: iset<Arc>, sources: seq<Seed>, targets: seq<Seed>, table: seq<int>, k: int) {
    0 <= k < |table| && RightEntry(base, sources, targets, table[k])
  }

  /** Where row i starts: i * width, by addition. */
  ghost function RowStart(i: nat, width: nat): nat {
    if i == 0 then 0 else RowStart(i - 1, width) + width
  }

  lemma {:induction false} RowStartIsProduct(i: nat, width: nat)
    ensures RowStart(i, width) == i * width
  {
    if i > 0 {
      RowStartIsProduct(i - 1, width);
      assert i * width == (i - 1) * width + width;
    }
  }

  lemma {:induction false} RowFits(i: nat, rows: nat, width: nat)
    requires i <= rows
    ensures RowStart(i, width) <= RowStart(rows, width)
    decreases rows
  {
    if i < rows {
      RowFits(i, rows - 1, width);
    }
  }

  /** The rows filled so far. */
  ghost predicate RowsBest(table: seq<int>, founds: seq<map<nat, int>>, finals: seq<map<nat, int>>) {
    forall i {:trigger founds[i]} :: 0 <= i < |founds| ==>
      RowStart(i, |finals|) + |finals| <= |table| && RowBest(table, RowStart(i, |finals|), founds[i], finals)
  }

  lemma {:induction false} AddRow(before: seq<int>, table: seq<int>, founds: seq<map<nat, int>>, found: map<nat, int>,
                                  finals: seq<map<nat, int>>)
    requires |table| == |before| && RowStart(|founds|, |finals|) + |finals| <= |table|
    requires forall k :: 0 <= k < RowStart(|founds|, |finals|) ==> table[k] == before[k]
    requires RowsBest(before, founds, finals)
    requires RowBest(table, RowStart(|founds|, |finals|), found, finals)
    ensures RowsBest(table, founds + [found], finals)
  {
    forall i | 0 <= i < |founds|
      ensures RowBest(table, RowStart(i, |finals|), founds[i], finals)
    {
      RowFits(i + 1, |founds|, |finals|);
    }
  }
}
