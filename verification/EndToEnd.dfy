/** Preprocessing and query together: contraction and bucket search give the distances of
    the plain input graph. */
module EndToEnd {
  import opened Walks
  import opened Hierarchy
  import opened ContractionTheory
  import opened DynamicGraphs
  import opened EdgeMerging
  import opened ContractionRound
  import opened Contractors
  import opened BinaryHeaps
  import opened QueryGraphs
  import opened SearchTheory
  import opened ManyToMany

  /** What the contractor leaves behind is a hierarchy, unless a distance outgrew its field. */
  lemma {:induction false} ContractedIsHierarchy(base: iset<Arc>, out: iset<QueryEdge>, levels: seq<nat>,
                                                 left: set<nat>, rounds: nat)
    requires Consistent(base, out, levels, left, rounds) && Complete(base, out, left)
    requires forall q :: q in out ==> q.distance <= MAX_DISTANCE
    ensures IsHierarchy(base, out)
  {
    Sound(base, out, levels, left, rounds);
    forall s, t, len | Walk(base, s, t, len)
      ensures Meets(Forward(out), Backward(out), s, t, len)
    {
      CoveredMeets(Forward(out), Backward(out), left, s, t, len);
    }
  }

  /** Contract, lay out the query graph, answer a table query. Every entry is the shortest
      route of the input, whatever the priorities, the tie hash and the thresholds, provided
      the distances of the contracted edges fit their 30-bit field (`fits`). */
  method ContractAndQuery(nodes: nat, input: seq<EdgeBasedEdge>, contractTarget: nat, flushThreshold: nat,
                          priority: nat -> nat -> real, hash: nat -> nat,
                          sources: seq<seq<Seed>>, targets: seq<seq<Seed>>)
    returns (fits: bool, stuck: bool, edges: seq<QueryEdge>, table: seq<int>)
    requires nodes < DUMMY && forall e :: e in input ==> e.source < nodes && e.target < nodes
    requires forall i :: 0 <= i < |sources| ==> GoodSeeds(sources[i], nodes)
    requires forall j :: 0 <= j < |targets| ==> GoodSeeds(targets[j], nodes)
    ensures fits <==> forall q :: q in edges ==> q.distance <= MAX_DISTANCE
    ensures forall q :: q in edges && !q.shortcut ==> Numbered(input, q.source, q.target, q.id)
    ensures (forall r :: Decided(priority(r), hash)) && contractTarget <= nodes ==> !stuck
    ensures fits ==> |table| == |sources| * |targets|
    ensures fits ==> forall i, j :: 0 <= i < |sources| && 0 <= j < |targets| ==>
              EntryOf(InputArcs(input), sources[i], targets[j], table, i * |targets| + j)
  {
    ghost var base := InputArcs(input);
    stuck, edges := Contract(nodes, input, contractTarget, flushThreshold, priority, hash);
    fits := forall q :: q in edges ==> q.distance <= MAX_DISTANCE;
    table := [];
    if fits {
      var graph := BuildQueryGraph(nodes, edges);
      assert StoredEdges(graph.Adjacency()) == iset q | q in edges;
      forall n: nat, e | n < nodes && e in graph.Adjacency()[n]
        ensures e.target < nodes && (e.data.forward || e.data.backward)
      {
        assert Unrecord(n, e) in StoredEdges(graph.Adjacency());
      }
      var heap := new BinaryHeap<nat>(nodes);
      table := DistanceTable(graph, heap, sources, targets, base);
    }
  }

  /** Preprocessing alone: the edges handed out form a hierarchy over the input. */
  method Contract(nodes: nat, input: seq<EdgeBasedEdge>, contractTarget: nat, flushThreshold: nat,
                  priority: nat -> nat -> real, hash: nat -> nat)
    returns (stuck: bool, edges: seq<QueryEdge>)
    requires nodes < DUMMY && forall e :: e in input ==> e.source < nodes && e.target < nodes
    ensures (forall r :: Decided(priority(r), hash)) && contractTarget <= nodes ==> !stuck
    ensures forall q :: q in edges ==> q.source < nodes && q.target < nodes && (q.forward || q.backward)
    ensures forall q :: q in edges && !q.shortcut ==> Numbered(input, q.source, q.target, q.id)
    ensures (forall q :: q in edges ==> q.distance <= MAX_DISTANCE) ==>
              IsHierarchy(InputArcs(input), iset q | q in edges)
  {
    ghost var base := InputArcs(input);
    var contractor := new Contractor(nodes, input, hash);
    ghost var left, rounds, trace;
    stuck, left, rounds, trace := contractor.Run(contractTarget, flushThreshold, priority, base);
    edges := contractor.GetEdges();
    ghost var out := contractor.Edges();
    assert out == iset q | q in edges;
    forall q | q in edges
      ensures q.source < nodes && q.target < nodes && (q.forward || q.backward)
    {
      assert q in out;
      assert WellFormed(q) && Ranked(contractor.nodeLevels, left, rounds, q);
    }
    if forall q :: q in edges ==> q.distance <= MAX_DISTANCE {
      ContractedIsHierarchy(base, out, contractor.nodeLevels, left, rounds);
    }
  }
}
