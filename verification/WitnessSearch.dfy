/** The bounded witness search of the contractor (contractor/contractor.hpp, Dijkstra). */
module WitnessSearch {
  import opened Basics
  import opened Walks
  import opened ContractionTheory
  import opened DynamicGraphs
  import opened ContractorEdges
  import opened BinaryHeaps

  datatype HeapData = HeapData(hop: int, target: bool)

  /** From an allowed node, forward edges lead along arcs of `avoid` to allowed nodes, unless
      they lead to the middle node. */
  ghost predicate Follows(adj: Adj, names: seq<nat>, allowed: set<nat>, middle: nat, avoid: iset<Arc>) {
    forall n, e :: n in allowed && n < |adj| && e in adj[n] && e.data.forward && e.target != middle ==>
      e.target in allowed && Arc(At(names, n), At(names, e.target), e.data.distance) in avoid
  }

  /** Every finite key is the length of a real walk. */
  ghost predicate KeysAreWalks(weights: map<nat, int>, names: seq<nat>, allowed: set<nat>, avoid: iset<Arc>,
                               source: nat) {
    forall n :: n in weights ==>
      && n in allowed && 0 <= weights[n]
      && (weights[n] < INT_MAX ==> Within(avoid, At(names, source), At(names, n), weights[n]))
  }

  /** Settled keys are final: none exceeds `last`, and no queued key is below it. */
  ghost predicate Frontier(weights: map<nat, int>, queue: set<nat>, last: int) {
    && queue <= weights.Keys
    && (forall n :: n in queue ==> last <= weights[n])
    && (forall n :: n in weights.Keys - queue ==> weights[n] <= last)
  }

  ghost predicate OnlyImproved(before: map<nat, int>, after: map<nat, int>) {
    forall n :: n in before ==> n in after && after[n] <= before[n]
  }

  /** The state between two heap operations of the search. */
  ghost predicate Searching(start: map<nat, int>, weights: map<nat, int>, queue: set<nat>, settled: set<nat>, last: int,
                            names: seq<nat>, allowed: set<nat>, avoid: iset<Arc>, source: nat) {
    && KeysAreWalks(weights, names, allowed, avoid, source)
    && OnlyImproved(start, weights)
    && Frontier(weights, queue, last)
    && settled == weights.Keys - queue
  }

  /** Reaching `to` at a distance beyond the frontier, for the first time or more cheaply,
      keeps the search state; a settled node is never reached more cheaply. */
  lemma {:induction false} Improves(start: map<nat, int>, weights: map<nat, int>, queue: set<nat>, settled: set<nat>,
                                    last: int, names: seq<nat>, allowed: set<nat>, avoid: iset<Arc>, source: nat,
                                    to: nat, d: int)
    requires Searching(start, weights, queue, settled, last, names, allowed, avoid, source)
    requires 0 <= last < d && to in allowed && (to in weights ==> d < weights[to])
    requires d < INT_MAX ==> Within(avoid, At(names, source), At(names, to), d)
    ensures to in weights ==> to in queue
    ensures Searching(start, weights[to := d], queue + {to}, settled, last, names, allowed, avoid, source)
  {
  }

  lemma {:induction false} Extend(avoid: iset<Arc>, s: nat, m: nat, t: nat, distance: int, w: int)
    requires Arc(m, t, w) in avoid && w >= 1
    requires distance < INT_MAX ==> Within(avoid, s, m, distance)
    ensures distance + w < INT_MAX ==> Within(avoid, s, t, distance + w)
  {
    if distance + w < INT_MAX {
      WalkArc(avoid, Arc(m, t, w));
      WithinTrans(avoid, s, m, t, distance, w);
    }
  }

  // ----- what the search leaves out --------------------------------------------------

  ghost predicate Reached(weights: map<nat, int>, t: nat, d: int) {
    t in weights && weights[t] <= d
  }

  /** Every edge the search may follow from a node at distance d was followed. */
  ghost predicate Relaxed(edges: seq<CEdge>, middle: nat, weights: map<nat, int>, d: int) {
    forall e :: e in edges && e.data.forward && e.target != middle ==> Reached(weights, e.target, d + e.data.distance)
  }

  ghost predicate RelaxedAt(adj: Adj, middle: nat, weights: map<nat, int>, n: nat) {
    n < |adj| && n in weights && Relaxed(adj[n], middle, weights, weights[n])
  }

  ghost predicate Expanded(adj: Adj, middle: nat, weights: map<nat, int>, expanded: set<nat>) {
    forall n {:trigger RelaxedAt(adj, middle, weights, n)} :: n in expanded ==> RelaxedAt(adj, middle, weights, n)
  }

  lemma {:induction false} ExpandedKept(adj: Adj, middle: nat, weights: map<nat, int>, weights': map<nat, int>,
                                        expanded: set<nat>)
    requires Expanded(adj, middle, weights, expanded) && OnlyImproved(weights, weights')
    requires forall n :: n in expanded && n in weights ==> weights'[n] == weights[n]
    ensures Expanded(adj, middle, weights', expanded)
  {
    forall n | n in expanded
      ensures RelaxedAt(adj, middle, weights', n)
    {
      assert RelaxedAt(adj, middle, weights, n);
      assert forall e :: e in adj[n] && Reached(weights, e.target, weights[n] + e.data.distance) ==>
          Reached(weights', e.target, weights[n] + e.data.distance);
    }
  }

  /** The arcs the search may follow: forward edges that do not lead to the middle node. */
  ghost function SearchArcs(adj: Adj, middle: nat): iset<Arc> {
    iset a: Arc | a.src < |adj| && a.dst != middle && ForwardEdge(adj[a.src], a.dst, a.w)
  }

  ghost predicate ForwardEdge(edges: seq<CEdge>, t: nat, w: int) {
    exists e :: e in edges && e.target == t && e.data.distance == w && e.data.forward
  }

  lemma {:induction false} SearchArcsPositive(adj: Adj, middle: nat)
    requires InGraph(adj)
    ensures Positive(SearchArcs(adj, middle))
  {
    forall a | a in SearchArcs(adj, middle)
      ensures a.w >= 1
    {
      var e :| e in adj[a.src] && e.target == a.dst && e.data.distance == a.w && e.data.forward;
    }
  }

  /** Below `bound`, which no unexpanded node undercuts, no walk on from n beats the keys. */
  lemma {:induction false} KeysAreShortest(adj: Adj, middle: nat, weights: map<nat, int>, expanded: set<nat>,
                                           bound: int, n: nat, d: int, p: Path, t: nat)
    requires InGraph(adj) && Expanded(adj, middle, weights, expanded)
    requires forall m :: m in weights && m !in expanded ==> bound <= weights[m]
    requires Reached(weights, n, d) && IsWalk(SearchArcs(adj, middle), n, p, t)
    ensures bound <= d + Length(p) || Reached(weights, t, d + Length(p))
    decreases p
  {
    match p
    case Stop =>
    case Step(a, rest) =>
      if n in expanded {
        assert RelaxedAt(adj, middle, weights, n);
        var e :| e in adj[n] && e.target == a.dst && e.data.distance == a.w && e.data.forward;
        assert Reached(weights, e.target, weights[n] + e.data.distance);
        KeysAreShortest(adj, middle, weights, expanded, bound, a.dst, d + a.w, rest, t);
      } else {
        SearchArcsPositive(adj, middle);
        LengthNonNegative(SearchArcs(adj, middle), n, p, t);
      }
  }

  ghost function TargetsOf(payload: map<nat, HeapData>): set<nat> {
    set n | n in payload && payload[n].target
  }

  /** For targets, and up to maxDistance, no walk that avoids the middle node beats the keys. */
  ghost predicate Exact(adj: Adj, middle: nat, source: nat, targets: set<nat>, weights: map<nat, int>,
                        maxDistance: int) {
    forall t, len :: t in targets && len <= maxDistance && Walk(SearchArcs(adj, middle), source, t, len) ==>
             Reached(weights, t, len)
  }

  /** When the search stops with `last` settled last, short of its cut-off on the number of nodes:
      it has run dry, passed maxDistance, or settled every target. */
  lemma {:induction false} StopIsExact(adj: Adj, middle: nat, source: nat, targets: set<nat>, weights: map<nat, int>,
                    expanded: set<nat>, last: int, maxDistance: int)
    requires InGraph(adj) && Expanded(adj, middle, weights, expanded) && Reached(weights, source, 0)
    requires forall m :: m in weights && m !in expanded ==> last <= weights[m]
    requires (forall m :: m in weights ==> m in expanded) || last > maxDistance
             || (forall t :: t in targets ==> Reached(weights, t, last))
    ensures Exact(adj, middle, source, targets, weights, maxDistance)
  {
    forall t, len | t in targets && len <= maxDistance && Walk(SearchArcs(adj, middle), source, t, len)
      ensures Reached(weights, t, len)
    {
      var p :| IsWalk(SearchArcs(adj, middle), source, p, t) && Length(p) == len;
      var bound := if forall m :: m in weights ==> m in expanded then len + 1 else last;
      KeysAreShortest(adj, middle, weights, expanded, bound, source, 0, p, t);
    }
  }

  // ----- the search ------------------------------------------------------------------

  /** In the middle of relaxing the edges of the node settled last. */
  ghost predicate Relaxing(start: map<nat, int>, weights: map<nat, int>, queue: set<nat>, settled: set<nat>, last: int,
                           names: seq<nat>, allowed: set<nat>, avoid: iset<Arc>, source: nat,
                           adj: Adj, middle: nat, node: nat, k: nat) {
    && Searching(start, weights, queue, settled, last, names, allowed, avoid, source)
    && node in settled && weights[node] == last && node < |adj| && k <= |adj[node]|
    && Expanded(adj, middle, weights, settled - {node})
    && Relaxed(adj[node][..k], middle, weights, last)
  }

  lemma {:induction false} RelaxSkip(start: map<nat, int>, weights: map<nat, int>, queue: set<nat>, settled: set<nat>,
                                     last: int, names: seq<nat>, allowed: set<nat>, avoid: iset<Arc>, source: nat,
                                     adj: Adj, middle: nat, node: nat, k: nat)
    requires Relaxing(start, weights, queue, settled, last, names, allowed, avoid, source, adj, middle, node, k)
             && k < |adj[node]|
    requires var e := adj[node][k]; e.data.forward && e.target != middle ==>
               Reached(weights, e.target, last + e.data.distance)
    ensures Relaxing(start, weights, queue, settled, last, names, allowed, avoid, source, adj, middle, node, k + 1)
  {
    assert adj[node][..k + 1] == adj[node][..k] + [adj[node][k]];
  }

  lemma {:induction false} RelaxReach(start: map<nat, int>, weights: map<nat, int>, queue: set<nat>, settled: set<nat>,
                                      last: int, names: seq<nat>, allowed: set<nat>, avoid: iset<Arc>, source: nat,
                                      adj: Adj, middle: nat, node: nat, k: nat, to: nat, d: int)
    requires InGraph(adj) && Follows(adj, names, allowed, middle, avoid)
    requires Relaxing(start, weights, queue, settled, last, names, allowed, avoid, source, adj, middle, node, k)
             && k < |adj[node]|
    requires var e := adj[node][k];
             e.data.forward && e.target != middle && e.target == to && d == last + e.data.distance
    requires to in weights ==> d < weights[to]
    ensures to in weights ==> to in queue
    ensures Relaxing(start, weights[to := d], queue + {to}, settled, last, names, allowed, avoid, source, adj, middle,
                     node, k + 1)
  {
    var e := adj[node][k];
    assert e in adj[node] && node in allowed;
    Extend(avoid, At(names, source), At(names, node), At(names, to), last, e.data.distance);
    Improves(start, weights, queue, settled, last, names, allowed, avoid, source, to, d);
    ExpandedKept(adj, middle, weights, weights[to := d], settled - {node});
    assert forall f :: f in adj[node][..k] && Reached(weights, f.target, last + f.data.distance) ==>
        Reached(weights[to := d], f.target, last + f.data.distance);
    assert adj[node][..k + 1] == adj[node][..k] + [e];
  }

  /** Keys are lengths of real walks throughout. Unless the search settles more than maxNodes nodes, it
      also misses no walk to a target of at most maxDistance. */
  method Dijkstra(graph: DynamicGraph<EdgeData>, heap: BinaryHeap<HeapData>,
                  maxDistance: int, numberOfTargets: nat, maxNodes: nat, middleNode: nat,
                  ghost names: seq<nat>, ghost allowed: set<nat>, ghost avoid: iset<Arc>, ghost source: nat)
    requires graph.Valid() && heap.Valid() && heap.Capacity() == graph.numberOfNodes
    requires InGraph(graph.Adjacency()) && Follows(graph.Adjacency(), names, allowed, middleNode, avoid)
    requires KeysAreWalks(heap.Weights(), names, allowed, avoid, source)
    requires heap.Queue() == heap.Weights().Keys && Reached(heap.Weights(), source, 0)
    requires numberOfTargets == |TargetsOf(heap.Payload())|
    modifies heap
    ensures heap.Valid() && heap.Capacity() == old(heap.Capacity())
    ensures Searched(old(heap.Weights()), heap.Weights(), heap.Queue(), names, allowed, avoid, source,
                     graph.Adjacency(), middleNode,
                     old(TargetsOf(heap.Payload())), maxDistance, maxNodes)
  {
    var nodes := 0;
    var numberOfTargetsFound := 0;
    ghost var last := 0;
    ghost var start := heap.Weights();
    ghost var settled: set<nat> := {};
    ghost var targets := TargetsOf(heap.Payload());
    while !heap.Empty()
      invariant heap.Valid() && heap.Capacity() == graph.numberOfNodes && TargetsOf(heap.Payload()) == targets
      invariant Looping(start, heap.Weights(), heap.Queue(), settled, last, names, allowed, avoid, source,
                        graph.Adjacency(), middleNode)
      invariant nodes == |settled| <= maxNodes && numberOfTargetsFound == |settled * targets|
      decreases maxNodes - nodes
    {
      var done;
      done, numberOfTargetsFound, settled, last :=
        SettleAndRelax(graph, heap, maxDistance, numberOfTargets, maxNodes, middleNode, nodes, numberOfTargetsFound,
                       start, settled, last, names, allowed, avoid, source);
      if done {
        return;
      }
      nodes := nodes + 1;
    }
    StopIsExact(graph.Adjacency(), middleNode, source, targets, heap.Weights(), settled, last, maxDistance);
  }

  /** What a finished search promises: keys are lengths of real walks, and if at most maxNodes nodes were
      settled, they are exact for the targets. */
  ghost predicate Searched(start: map<nat, int>, weights: map<nat, int>, queue: set<nat>, names: seq<nat>,
                           allowed: set<nat>, avoid: iset<Arc>, source: nat, adj: Adj, middle: nat, targets: set<nat>,
                           maxDistance: int, maxNodes: nat) {
    && KeysAreWalks(weights, names, allowed, avoid, source)
    && OnlyImproved(start, weights)
    && (|weights.Keys - queue| <= maxNodes ==> Exact(adj, middle, source, targets, weights, maxDistance))
  }

  /** One round of the search: settle a node, and unless that ends the search relax its edges. */
  method SettleAndRelax(graph: DynamicGraph<EdgeData>, heap: BinaryHeap<HeapData>, maxDistance: int,
                        numberOfTargets: nat, maxNodes: nat, middleNode: nat, before: nat, foundBefore: nat,
                        ghost start: map<nat, int>, ghost settledBefore: set<nat>, ghost lastBefore: int,
                        ghost names: seq<nat>, ghost allowed: set<nat>, ghost avoid: iset<Arc>, ghost source: nat)
      returns (done: bool, found: nat, ghost settled: set<nat>, ghost last: int)
    requires graph.Valid() && heap.Valid() && heap.Capacity() == graph.numberOfNodes && heap.Queue() != {}
    requires InGraph(graph.Adjacency()) && Follows(graph.Adjacency(), names, allowed, middleNode, avoid)
    requires Looping(start, heap.Weights(), heap.Queue(), settledBefore, lastBefore, names, allowed, avoid, source,
                     graph.Adjacency(), middleNode)
    requires before == |settledBefore| && foundBefore == |settledBefore * TargetsOf(heap.Payload())|
    requires numberOfTargets == |TargetsOf(heap.Payload())|
    modifies heap
    ensures heap.Valid() && heap.Capacity() == old(heap.Capacity())
    ensures TargetsOf(heap.Payload()) == old(TargetsOf(heap.Payload()))
    ensures done ==> Searched(start, heap.Weights(), heap.Queue(), names, allowed, avoid, source, graph.Adjacency(),
                              middleNode,
                              TargetsOf(heap.Payload()), maxDistance, maxNodes)
    ensures !done ==> Looping(start, heap.Weights(), heap.Queue(), settled, last, names, allowed, avoid, source,
                              graph.Adjacency(), middleNode)
    ensures !done ==> |settled| == before + 1 <= maxNodes && found == |settled * TargetsOf(heap.Payload())|
  {
    var node, distance, data := Settle(heap, start, settledBefore, lastBefore, names, allowed, avoid, source,
                                       graph.Adjacency(), middleNode,
                                       maxDistance, maxNodes);
    last, settled := distance, settledBefore + {node};
    found := if data.target then foundBefore + 1 else foundBefore;
    done := before + 1 > maxNodes || distance > maxDistance || (data.target && found >= numberOfTargets);
    if !done {
      Relax(graph, heap, node, distance, data.hop + 1, middleNode, start, settled, names, allowed, avoid, source);
    }
  }

  /** Any of the three reasons to stop makes the search one that keeps its promise. */
  lemma {:induction false} Stopping(start: map<nat, int>, weights: map<nat, int>, queue: set<nat>, settled: set<nat>,
                 names: seq<nat>, allowed: set<nat>, avoid: iset<Arc>, source: nat, adj: Adj, middle: nat,
                 node: nat, targets: set<nat>, maxDistance: int, maxNodes: nat)
    requires node in weights && Settled(start, weights, queue, settled, names, allowed, avoid, source, adj, middle,
                                        node, targets, maxDistance)
    ensures |settled| + 1 > maxNodes || weights[node] > maxDistance
            || (node in targets && |settled * targets| + 1 >= |targets|) ==>
              Searched(start, weights, queue, names, allowed, avoid, source, adj, middle, targets, maxDistance,
                       maxNodes)
  {
    assert weights.Keys - queue == settled + {node};
    if node in targets && |settled * targets| + 1 >= |targets| {
      AllSettled(settled + {node}, targets);
    }
  }

  /** Takes the next node from the heap. */
  method Settle(heap: BinaryHeap<HeapData>, ghost start: map<nat, int>, ghost settled: set<nat>, ghost last: int,
                ghost names: seq<nat>, ghost allowed: set<nat>, ghost avoid: iset<Arc>, ghost source: nat,
                ghost adj: Adj, ghost middle: nat, ghost maxDistance: int, ghost maxNodes: nat)
      returns (node: nat, distance: int, data: HeapData)
    requires heap.Valid() && heap.Queue() != {} && InGraph(adj)
    requires Looping(start, heap.Weights(), heap.Queue(), settled, last, names, allowed, avoid, source, adj, middle)
    modifies heap
    ensures heap.Valid() && heap.Capacity() == old(heap.Capacity())
    ensures heap.Weights() == old(heap.Weights()) && TargetsOf(heap.Payload()) == old(TargetsOf(heap.Payload()))
    ensures node in heap.Weights() && distance == heap.Weights()[node]
            && (data.target <==> node in TargetsOf(heap.Payload()))
    ensures Searching(start, heap.Weights(), heap.Queue(), settled + {node}, distance, names, allowed, avoid, source)
    ensures 0 <= distance && Expanded(adj, middle, heap.Weights(), settled + {node} - {node})
    ensures |settled + {node}| == |settled| + 1
    ensures var targets := TargetsOf(heap.Payload());
            && |(settled + {node}) * targets| == |settled * targets| + (if data.target then 1 else 0)
            && (|settled| + 1 > maxNodes || distance > maxDistance
                || (data.target && |settled * targets| + 1 >= |targets|) ==>
                  Searched(start, heap.Weights(), heap.Queue(), names, allowed, avoid, source, adj, middle, targets,
                           maxDistance, maxNodes))
  {
    ghost var weights, queue := heap.Weights(), heap.Queue();
    node := heap.DeleteMin();
    distance := heap.GetKey(node);
    data := heap.GetData(node);
    assert node in heap.Payload();
    SettleNext(start, weights, queue, settled, last, names, allowed, avoid, source, adj, middle, node,
               TargetsOf(heap.Payload()), maxDistance);
    Stopping(start, weights, heap.Queue(), settled, names, allowed, avoid, source, adj, middle, node,
             TargetsOf(heap.Payload()), maxDistance, maxNodes);
  }

  /** `node` was settled on top of `settled`. */
  ghost predicate Settled(start: map<nat, int>, weights: map<nat, int>, queue: set<nat>, settled: set<nat>,
                          names: seq<nat>, allowed: set<nat>, avoid: iset<Arc>, source: nat, adj: Adj, middle: nat,
                          node: nat, targets: set<nat>, maxDistance: int)
    requires node in weights
  {
    && Searching(start, weights, queue, settled + {node}, weights[node], names, allowed, avoid, source)
    && node !in settled && 0 <= weights[node] && Expanded(adj, middle, weights, settled + {node} - {node})
       && Reached(start, source, 0)
    && |settled + {node}| == |settled| + 1
       && |(settled + {node}) * targets| == |settled * targets| + (if node in targets then 1 else 0)
    && (weights[node] > maxDistance || targets <= settled + {node} ==>
          Exact(adj, middle, source, targets, weights, maxDistance))
  }

  /** The state between two rounds of the search: every settled node is expanded. */
  ghost predicate Looping(start: map<nat, int>, weights: map<nat, int>, queue: set<nat>, settled: set<nat>, last: int,
                          names: seq<nat>, allowed: set<nat>, avoid: iset<Arc>, source: nat, adj: Adj, middle: nat) {
    && Searching(start, weights, queue, settled, last, names, allowed, avoid, source)
    && 0 <= last && Expanded(adj, middle, weights, settled) && Reached(start, source, 0)
  }

  lemma {:induction false} AllSettled(settled: set<nat>, targets: set<nat>)
    requires |settled * targets| >= |targets|
    ensures targets <= settled
  {
    if t :| t in targets && t !in settled {
      SubsetSize(settled * targets, targets - {t});
    }
  }

  /** The smallest key of the queue becomes final; if it exceeds maxDistance, or the last target is
      settled with it, the keys are exact. */
  lemma {:induction false} SettleNext(start: map<nat, int>, weights: map<nat, int>, queue: set<nat>, settled: set<nat>,
                                      last: int, names: seq<nat>, allowed: set<nat>, avoid: iset<Arc>, source: nat,
                                      adj: Adj, middle: nat, node: nat, targets: set<nat>, maxDistance: int)
    requires InGraph(adj) && Looping(start, weights, queue, settled, last, names, allowed, avoid, source, adj, middle)
    requires node in queue && (forall n :: n in queue ==> weights[node] <= weights[n])
    ensures Settled(start, weights, queue - {node}, settled, names, allowed, avoid, source, adj, middle, node, targets,
                    maxDistance)
  {
    assert settled + {node} - {node} == settled;
    assert (settled + {node}) * targets == if node in targets then settled * targets + {node} else settled * targets;
    if weights[node] > maxDistance || targets <= settled + {node} {
      StopIsExact(adj, middle, source, targets, weights, settled, weights[node], maxDistance);
    }
  }

  /** The loop over the edges of a settled node. */
  method Relax(graph: DynamicGraph<EdgeData>, heap: BinaryHeap<HeapData>,
               node: nat, distance: int, currentHop: int, middleNode: nat,
               ghost start: map<nat, int>, ghost settled: set<nat>,
               ghost names: seq<nat>, ghost allowed: set<nat>, ghost avoid: iset<Arc>, ghost source: nat)
    requires graph.Valid() && heap.Valid() && heap.Capacity() == graph.numberOfNodes
    requires InGraph(graph.Adjacency()) && Follows(graph.Adjacency(), names, allowed, middleNode, avoid)
    requires Searching(start, heap.Weights(), heap.Queue(), settled, distance, names, allowed, avoid, source)
    requires node < graph.numberOfNodes && node in settled && heap.Weights()[node] == distance
    requires Expanded(graph.Adjacency(), middleNode, heap.Weights(), settled - {node})
    modifies heap
    ensures heap.Valid() && heap.Capacity() == old(heap.Capacity())
    ensures Searching(start, heap.Weights(), heap.Queue(), settled, distance, names, allowed, avoid, source)
    ensures Expanded(graph.Adjacency(), middleNode, heap.Weights(), settled)
    ensures TargetsOf(heap.Payload()) == old(TargetsOf(heap.Payload()))
  {
    var edges := graph.Edges(node);
    ghost var adj, targets := graph.Adjacency(), TargetsOf(heap.Payload());
    for k := 0 to |edges|
      invariant heap.Valid() && heap.Capacity() == graph.numberOfNodes
      invariant Relaxing(start, heap.Weights(), heap.Queue(), settled, distance, names, allowed, avoid, source, adj,
                         middleNode, node, k)
      invariant TargetsOf(heap.Payload()) == targets
    {
      var edge := edges[k];
      assert edge == adj[node][k];
      RelaxEdge(graph, heap, edge, distance, currentHop, middleNode, start, settled, names, allowed, avoid, source,
                node, k);
    }
    assert adj[node][..|edges|] == adj[node];
    ExpandedAll(adj, middleNode, heap.Weights(), settled, node);
  }

  lemma {:induction false} ExpandedAll(adj: Adj, middle: nat, weights: map<nat, int>, settled: set<nat>, node: nat)
    requires Expanded(adj, middle, weights, settled - {node}) && RelaxedAt(adj, middle, weights, node)
    ensures Expanded(adj, middle, weights, settled)
  {
    forall n | n in settled
      ensures RelaxedAt(adj, middle, weights, n)
    {
      assert n != node ==> n in settled - {node};
    }
  }

  method RelaxEdge(graph: DynamicGraph<EdgeData>, heap: BinaryHeap<HeapData>, edge: CEdge, distance: int,
                   currentHop: int, middleNode: nat, ghost start: map<nat, int>, ghost settled: set<nat>,
                   ghost names: seq<nat>, ghost allowed: set<nat>, ghost avoid: iset<Arc>, ghost source: nat,
                   ghost node: nat, ghost k: nat)
    requires graph.Valid() && heap.Valid() && heap.Capacity() == graph.numberOfNodes
    requires InGraph(graph.Adjacency()) && Follows(graph.Adjacency(), names, allowed, middleNode, avoid)
    requires Relaxing(start, heap.Weights(), heap.Queue(), settled, distance, names, allowed, avoid, source,
                      graph.Adjacency(), middleNode, node, k)
    requires k < |graph.Adjacency()[node]| && edge == graph.Adjacency()[node][k]
    modifies heap
    ensures heap.Valid() && heap.Capacity() == old(heap.Capacity())
    ensures Relaxing(start, heap.Weights(), heap.Queue(), settled, distance, names, allowed, avoid, source,
                     graph.Adjacency(), middleNode, node, k + 1)
    ensures TargetsOf(heap.Payload()) == old(TargetsOf(heap.Payload()))
  {
    ghost var adj, weights, queue := graph.Adjacency(), heap.Weights(), heap.Queue();
    if edge.data.forward && middleNode != edge.target {
      var to := edge.target;
      var toDistance := distance + edge.data.distance;
      assert edge in adj[node];
      RelaxEither(start, weights, queue, settled, distance, names, allowed, avoid, source, adj, middleNode, node, k, to,
                  toDistance);
      Reach(heap, to, toDistance, currentHop);
    } else {
      RelaxSkip(start, weights, queue, settled, distance, names, allowed, avoid, source, adj, middleNode, node, k);
    }
  }

  lemma {:induction false} RelaxEither(start: map<nat, int>, weights: map<nat, int>, queue: set<nat>, settled: set<nat>,
                                       last: int, names: seq<nat>, allowed: set<nat>, avoid: iset<Arc>, source: nat,
                                       adj: Adj, middle: nat, node: nat, k: nat, to: nat, d: int)
    requires InGraph(adj) && Follows(adj, names, allowed, middle, avoid)
    requires Relaxing(start, weights, queue, settled, last, names, allowed, avoid, source, adj, middle, node, k)
             && k < |adj[node]|
    requires var e := adj[node][k];
             e.data.forward && e.target != middle && e.target == to && d == last + e.data.distance
    ensures 0 < d && (to in weights && d < weights[to] ==> to in queue)
    ensures var weights', queue' := Improved(weights, to, d), if Reached(weights, to, d) then queue else queue + {to};
            Relaxing(start, weights', queue', settled, last, names, allowed, avoid, source, adj, middle, node, k + 1)
  {
    assert adj[node][k] in adj[node];
    if Reached(weights, to, d) {
      RelaxSkip(start, weights, queue, settled, last, names, allowed, avoid, source, adj, middle, node, k);
    } else {
      RelaxReach(start, weights, queue, settled, last, names, allowed, avoid, source, adj, middle, node, k, to, d);
    }
  }

  ghost function Improved(weights: map<nat, int>, to: nat, d: int): map<nat, int> {
    if Reached(weights, to, d) then weights else weights[to := d]
  }

  /** A node reached at distance d: new to the heap, cheaper than before, or neither. */
  method Reach(heap: BinaryHeap<HeapData>, to: nat, d: int, currentHop: int)
    requires heap.Valid() && to < heap.Capacity() && 0 < d
    requires to in heap.Weights() && d < heap.Weights()[to] ==> to in heap.Queue()
    modifies heap
    ensures heap.Valid() && heap.Capacity() == old(heap.Capacity())
    ensures heap.Weights() == old(Improved(heap.Weights(), to, d))
    ensures heap.Queue() == old(if Reached(heap.Weights(), to, d) then heap.Queue() else heap.Queue() + {to})
    ensures TargetsOf(heap.Payload()) == old(TargetsOf(heap.Payload()))
  {
    assert to in heap.Weights() <==> to in heap.Payload();
    if !heap.WasInserted(to) {
      heap.Insert(to, d, HeapData(currentHop, false));
    } else if d < heap.GetKey(to) {
      assert heap.Queue() + {to} == heap.Queue();
      heap.DecreaseKey(to, d);
      heap.SetData(to, heap.GetData(to).(hop := currentHop));
    }
  }
}
