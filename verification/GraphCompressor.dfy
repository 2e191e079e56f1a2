/** Degree-2 compression (algorithms/graph_compressor.cpp) on the stored graph, together with the
    restriction map and the geometry store. */
module GraphCompressor {
  import opened Basics
  import opened DG = DynamicGraphs
  import opened RoadNetwork
  import opened RoadGeometry
  import opened RoadWeights
  import opened FullCompression
  import RM = RestrictionMaps
  import RC = RestrictionCarry
  import CG = CompressedGeometry

  // ----- the stored graph as a set of roads -------------------------------------

  /** Slot i, owned by x, holds the road of the network that it is the id of. */
  ghost predicate HoldsRoad(list: seq<Edge<Road>>, net: Links, slots: Slots, x: nat, i: nat)
    requires i < |list|
  {
    var k := Key(x, list[i].target);
    k in net && k in slots && net[k] == list[i].data && slots[k] == i
  }

  ghost predicate HasSlot(nodes: seq<Node>, list: seq<Edge<Road>>, slots: Slots, k: Key)
    requires k in slots
  {
    k.from + 1 < |nodes| && k.to + 1 < |nodes| && Owns(nodes[k.from], slots[k]) && slots[k] < |list|
    && list[slots[k]].target == k.to
  }

  ghost predicate Represents(nodes: seq<Node>, list: seq<Edge<Road>>, net: Links, slots: Slots) {
    && |nodes| > 0 && Packed(nodes, list) && slots.Keys == net.Keys
    && (forall x: nat, i: nat {:trigger HoldsRoad(list, net, slots, x, i)} ::
          x + 1 < |nodes| && Owns(nodes[x], i) ==> HoldsRoad(list, net, slots, x, i))
    && (forall k {:trigger HasSlot(nodes, list, slots, k)} :: k in net ==> HasSlot(nodes, list, slots, k))
  }

  lemma {:induction false} SlotsDistinct(nodes: seq<Node>, list: seq<Edge<Road>>, net: Links, slots: Slots)
    requires Represents(nodes, list, net, slots)
    ensures forall k, l :: k in slots && l in slots && slots[k] == slots[l] ==> k == l
  {
    forall k, l | k in slots && l in slots && slots[k] == slots[l]
      ensures k == l
    {
      assert HasSlot(nodes, list, slots, k) && HasSlot(nodes, list, slots, l);
    }
  }

  /** The list after a step: two slots rewritten, the slots of v given up. */
  ghost predicate Rewritten(nodes: seq<Node>, list: seq<Edge<Road>>, list': seq<Edge<Road>>, net: Links, s: Signals,
                            slots: Slots, u: nat, v: nat, w: nat)
    requires Key(u, v) in net && Key(v, w) in net && Key(w, v) in net && Key(v, u) in net && slots.Keys == net.Keys
    requires v < |nodes|
  {
    && |list'| == |list|
    && slots[Key(u, v)] < |list| && list'[slots[Key(u, v)]] == Edge(w, Merged(net, s, u, v, w))
    && slots[Key(w, v)] < |list| && list'[slots[Key(w, v)]] == Edge(u, Merged(net, s, w, v, u))
    && forall i :: 0 <= i < |list| && i != slots[Key(u, v)] && i != slots[Key(w, v)] && !Owns(nodes[v], i) ==>
         list'[i] == list[i]
  }

  lemma {:induction false} StepHolds(nodes: seq<Node>, list: seq<Edge<Road>>, list': seq<Edge<Road>>, net: Links,
                                     s: Signals, slots: Slots, u: nat, v: nat, w: nat, x: nat, i: nat)
    requires Represents(nodes, list, net, slots) && Contractible(net, u, v, w) && v < |nodes|
    requires Rewritten(nodes, list, list', net, s, slots, u, v, w)
    requires x + 1 < |nodes| && x != v && Owns(nodes[x], i) && i >= 0
    ensures i < |list'| && HoldsRoad(list', Contracted(net, s, u, v, w), ContractedSlots(slots, u, v, w), x, i)
  {
    assert HoldsRoad(list, net, slots, x, i);
    assert HasSlot(nodes, list, slots, Key(u, v)) && HasSlot(nodes, list, slots, Key(w, v));
    if i == slots[Key(u, v)] {
      assert x == u;
    } else if i == slots[Key(w, v)] {
      assert x == w;
    } else {
      assert !Owns(nodes[v], i);
      var k := Key(x, list[i].target);
      assert k.to == v ==> Flip(k) in net;
      assert k.to != v;
    }
  }

  lemma {:induction false} StepSlot(nodes: seq<Node>, list: seq<Edge<Road>>, list': seq<Edge<Road>>, net: Links,
                                    s: Signals, slots: Slots, u: nat, v: nat, w: nat, k: Key)
    requires Represents(nodes, list, net, slots) && Contractible(net, u, v, w) && v < |nodes|
    requires Rewritten(nodes, list, list', net, s, slots, u, v, w)
    requires k in Contracted(net, s, u, v, w)
    ensures k in ContractedSlots(slots, u, v, w)
    ensures HasSlot(nodes[v := Node(nodes[v].firstEdge, 0)], list', ContractedSlots(slots, u, v, w), k)
  {
    var l := Before(k, u, v, w);
    assert l in net;
    assert HasSlot(nodes, list, slots, l) && HasSlot(nodes, list, slots, Key(u, v))
           && HasSlot(nodes, list, slots, Key(w, v));
    assert k != Key(u, w) && k != Key(w, u) ==> !Owns(nodes[v], slots[k]);
  }

  lemma {:induction false} StepRepresents(nodes: seq<Node>, list: seq<Edge<Road>>, list': seq<Edge<Road>>, net: Links,
                                          s: Signals, slots: Slots, u: nat, v: nat, w: nat)
    requires Represents(nodes, list, net, slots) && Contractible(net, u, v, w) && v + 1 < |nodes|
    requires Rewritten(nodes, list, list', net, s, slots, u, v, w)
    requires Packed(nodes[v := Node(nodes[v].firstEdge, 0)], list')
    ensures Represents(nodes[v := Node(nodes[v].firstEdge, 0)], list', Contracted(net, s, u, v, w),
                       ContractedSlots(slots, u, v, w))
  {
    var nodes', net', slots' := nodes[v := Node(nodes[v].firstEdge, 0)], Contracted(net, s, u, v,
          w), ContractedSlots(slots, u, v, w);
    assert slots'.Keys == net'.Keys;
    forall x: nat, i: nat | x + 1 < |nodes'| && Owns(nodes'[x], i)
      ensures HoldsRoad(list', net', slots', x, i)
    {
      StepHolds(nodes, list, list', net, s, slots, u, v, w, x, i);
    }
    forall k | k in net'
      ensures HasSlot(nodes', list', slots', k)
    {
      StepSlot(nodes, list, list', net, s, slots, u, v, w, k);
    }
  }

  // ----- reading the graph --------------------------------------------------------

  /** FindEdge finds the slot of a road, if there is one. */
  method FindRoad(graph: DynamicGraph<Road>, from: nat, to: nat, ghost net: Links, ghost slots: Slots)
      returns (r: Option<nat>)
    requires graph.Valid() && Represents(graph.nodeArray, graph.edgeList, net, slots) && from < graph.numberOfNodes
    ensures r.Some? <==> Key(from, to) in net
    ensures r.Some? ==> r.value == slots[Key(from, to)]
  {
    if Key(from, to) in net {
      assert HasSlot(graph.nodeArray, graph.edgeList, slots, Key(from, to));
      assert graph.Edges(from)[slots[Key(from, to)] - graph.BeginEdges(from)].target == to;
    }
    r := graph.FindEdge(from, to);
    if r.Some? {
      assert HoldsRoad(graph.edgeList, net, slots, from, r.value);
    }
  }

  /** The four roads at a node of degree two. */
  datatype Ends = Ends(u: nat, w: nat, forwardE1: nat, reverseE1: nat, forwardE2: nat, reverseE2: nat)

  ghost predicate RoadsAt(net: Links, slots: Slots, v: nat, e: Ends)
    requires slots.Keys == net.Keys
  {
    && Between(net, v, e.u, e.w) && Key(e.u, v) in net && Key(e.w, v) in net
    && e.forwardE1 == slots[Key(e.u, v)] && e.reverseE1 == slots[Key(e.w, v)]
    && e.forwardE2 == slots[Key(v, e.w)] && e.reverseE2 == slots[Key(v, e.u)]
  }

  /** Which of the two neighbours of v is u and which is w: w is that of the first slot, unless that road is
      reversed. */
  ghost predicate Oriented(net: Links, slots: Slots, v: nat, u: nat, w: nat) {
    && Key(v, u) in net && Key(v, w) in net && Key(v, u) in slots && Key(v, w) in slots
    && if slots[Key(v, w)] < slots[Key(v, u)] then !net[Key(v, w)].reversed else net[Key(v, u)].reversed
  }

  /** A node with two slots lies between their targets. */
  lemma {:induction false} TwoSlots(nodes: seq<Node>, list: seq<Edge<Road>>, net: Links, slots: Slots, v: nat, i: nat,
                                    j: nat)
    requires Represents(nodes, list, net, slots) && v + 1 < |nodes| && nodes[v].edges == 2
    requires i != j && Owns(nodes[v], i) && Owns(nodes[v], j)
    ensures Between(net, v, list[i].target, list[j].target)
    ensures slots[Key(v, list[i].target)] == i && slots[Key(v, list[j].target)] == j
  {
    assert HoldsRoad(list, net, slots, v, i) && HoldsRoad(list, net, slots, v, j);
    forall k | k in net && k.from == v
      ensures k.to == list[i].target || k.to == list[j].target
    {
      assert HasSlot(nodes, list, slots, k);
    }
  }

  method FindEnds(graph: DynamicGraph<Road>, v: nat, ghost net: Links, ghost slots: Slots) returns (e: Ends)
    requires graph.Valid() && Represents(graph.nodeArray, graph.edgeList, net, slots) && Simple(net)
    requires v < graph.numberOfNodes && graph.nodeArray[v].edges == 2
    ensures RoadsAt(net, slots, v, e) && e.u < graph.numberOfNodes && e.w < graph.numberOfNodes
    ensures Oriented(net, slots, v, e.u, e.w)
  {
    var begin := graph.BeginEdges(v);
    var reverseOrder := if graph.edgeList[begin].data.reversed then 1 else 0;
    var forwardE2, reverseE2 := begin + reverseOrder, begin + 1 - reverseOrder;
    TwoSlots(graph.nodeArray, graph.edgeList, net, slots, v, reverseE2, forwardE2);
    var w, u := graph.edgeList[forwardE2].target, graph.edgeList[reverseE2].target;
    assert HasSlot(graph.nodeArray, graph.edgeList, slots, Key(v, u))
           && HasSlot(graph.nodeArray, graph.edgeList, slots, Key(v, w));
    assert Flip(Key(v, u)) == Key(u, v) && Flip(Key(v, w)) == Key(w, v);
    assert HoldsRoad(graph.edgeList, net, slots, v, begin);
    var forwardE1 := FindRoad(graph, u, v, net, slots);
    var reverseE1 := FindRoad(graph, w, v, net, slots);
    e := Ends(u, w, forwardE1.value, reverseE1.value, forwardE2, reverseE2);
  }

  method FindInEitherDirection(graph: DynamicGraph<Road>, u: nat, w: nat, ghost net: Links, ghost slots: Slots)
      returns (found: bool)
    requires graph.Valid() && Represents(graph.nodeArray, graph.edgeList, net, slots)
    requires u < graph.numberOfNodes && w < graph.numberOfNodes
    ensures found <==> Key(u, w) in net || Key(w, u) in net
  {
    var there := FindRoad(graph, u, w, net, slots);
    if there.Some? {
      return true;
    }
    var back := FindRoad(graph, w, u, net, slots);
    return back.Some?;
  }

  /** The targets stored at a node, as FixupArrivingTurnRestriction reads them. */
  method TargetsOf(graph: DynamicGraph<Road>, x: nat, ghost net: Links, ghost slots: Slots) returns (targets: seq<nat>)
    requires graph.Valid() && Represents(graph.nodeArray, graph.edgeList, net, slots) && x < graph.numberOfNodes
    ensures RC.TargetsAt(net, x, targets)
  {
    targets := [];
    for i := graph.BeginEdges(x) to graph.EndEdges(x)
      invariant forall y :: y in targets <==> exists j :: graph.BeginEdges(x) <= j < i && graph.edgeList[j].target == y
    {
      targets := targets + [graph.edgeList[i].target];
    }
    forall y
      ensures y in targets <==> Key(x, y) in net
    {
      if y in targets {
        var j :| graph.BeginEdges(x) <= j < graph.EndEdges(x) && graph.edgeList[j].target == y;
        assert HoldsRoad(graph.edgeList, net, slots, x, j);
      }
      if Key(x, y) in net {
        assert HasSlot(graph.nodeArray, graph.edgeList, slots, Key(x, y));
      }
    }
  }

  // ----- rewriting it ---------------------------------------------------------------

  /** What the slots at a node of degree two look like. */
  lemma {:induction false} SlotFacts(nodes: seq<Node>, list: seq<Edge<Road>>, net: Links, slots: Slots, v: nat, e: Ends)
    requires Represents(nodes, list, net, slots) && RoadsAt(net, slots, v, e)
    ensures v + 1 < |nodes| && e.u + 1 < |nodes| && e.w + 1 < |nodes| && e.u != DUMMY && e.w != DUMMY
    ensures Owns(nodes[e.u], e.forwardE1) && Owns(nodes[e.w], e.reverseE1) && Owns(nodes[v], e.forwardE2)
            && Owns(nodes[v], e.reverseE2)
    ensures e.forwardE1 < |list| && e.reverseE1 < |list| && e.forwardE2 < |list| && e.reverseE2 < |list|
    ensures e.forwardE1 != e.reverseE1 && e.forwardE2 != e.reverseE2 && e.forwardE1 != e.forwardE2
            && e.reverseE1 != e.reverseE2
    ensures list[e.forwardE1].data == net[Key(e.u, v)] && list[e.reverseE1].data == net[Key(e.w, v)]
    ensures list[e.forwardE2].data == net[Key(v, e.w)] && list[e.reverseE2].data == net[Key(v, e.u)]
  {
    assert HasSlot(nodes, list, slots, Key(e.u, v)) && HasSlot(nodes, list, slots, Key(e.w, v));
    assert HasSlot(nodes, list, slots, Key(v, e.u)) && HasSlot(nodes, list, slots, Key(v, e.w));
    assert HoldsRoad(list, net, slots, e.u, e.forwardE1) && HoldsRoad(list, net, slots, e.w, e.reverseE1);
    assert HoldsRoad(list, net, slots, v, e.forwardE2) && HoldsRoad(list, net, slots, v, e.reverseE2);
  }

  /** The data of the two merged roads. */
  method MergedData(list: seq<Edge<Road>>, s: Signals, v: nat, e: Ends, ghost net: Links)
      returns (forward: Road, reverse: Road)
    requires e.forwardE1 < |list| && e.reverseE1 < |list| && e.forwardE2 < |list| && e.reverseE2 < |list|
    requires Key(e.u, v) in net && Key(v, e.w) in net && Key(e.w, v) in net && Key(v, e.u) in net
    requires list[e.forwardE1].data == net[Key(e.u, v)] && list[e.reverseE1].data == net[Key(e.w, v)]
    requires list[e.forwardE2].data == net[Key(v, e.w)] && list[e.reverseE2].data == net[Key(v, e.u)]
    ensures forward == Merged(net, s, e.u, v, e.w) && reverse == Merged(net, s, e.w, v, e.u)
  {
    forward, reverse := list[e.forwardE1].data, list[e.reverseE1].data;
    forward := forward.(distance := forward.distance + list[e.forwardE2].data.distance);
    reverse := reverse.(distance := reverse.distance + list[e.reverseE2].data.distance);
    if v in s.lights {
      forward := forward.(distance := forward.distance + s.penalty);
      reverse := reverse.(distance := reverse.distance + s.penalty);
    }
  }

  /** Merges the roads at v: the two roads to v are extended, those from v deleted. */
  method MergeRoads(graph: DynamicGraph<Road>, s: Signals, v: nat, e: Ends, ghost net: Links, ghost slots: Slots)
    requires graph.Valid() && Represents(graph.nodeArray, graph.edgeList, net, slots)
    requires v < graph.numberOfNodes && graph.nodeArray[v].edges == 2
    requires RoadsAt(net, slots, v, e) && Contractible(net, e.u, v, e.w)
    modifies graph
    ensures graph.Valid() && graph.numberOfNodes == old(graph.numberOfNodes)
    ensures Represents(graph.nodeArray, graph.edgeList, Contracted(net, s, e.u, v, e.w),
                       ContractedSlots(slots, e.u, v, e.w))
  {
    ghost var nodes, list := graph.nodeArray, graph.edgeList;
    SlotFacts(nodes, list, net, slots, v, e);
    var forward, reverse := MergedData(graph.edgeList, s, v, e, net);
    graph.SetEdge(e.u, e.forwardE1, e.w, forward);
    graph.SetEdge(e.w, e.reverseE1, e.u, reverse);
    assert !Owns(nodes[v], e.forwardE1) && !Owns(nodes[v], e.reverseE1);
    DeleteBoth(graph, v, e.forwardE2, e.reverseE2);
    StepRepresents(nodes, list, graph.edgeList, net, s, slots, e.u, v, e.w);
  }

  /** Deletes the two roads of v. The second id is out of date when the first was the first slot, but
      the range shrinks to nothing all the same. */
  method DeleteBoth(graph: DynamicGraph<Road>, v: nat, i: nat, j: nat)
    requires graph.Valid() && v < graph.numberOfNodes && graph.nodeArray[v].edges == 2
    requires i != j && Owns(graph.nodeArray[v], i) && Owns(graph.nodeArray[v], j)
    modifies graph
    ensures graph.Valid() && graph.numberOfNodes == old(graph.numberOfNodes)
    ensures graph.nodeArray == old(graph.nodeArray)[v := Node(old(graph.nodeArray[v].firstEdge), 0)]
    ensures |graph.edgeList| == old(|graph.edgeList|)
    ensures forall k :: 0 <= k < |graph.edgeList| && !Owns(old(graph.nodeArray[v]), k) ==>
              graph.edgeList[k] == old(graph.edgeList[k])
  {
    graph.DeleteEdge(v, i);
    graph.DeleteEdge(v, j);
  }

  // ----- the compressor ---------------------------------------------------------------

  /** The network behind the stored graph: its roads, what they stand for, their edge ids, the nodes
      compressed away so far, and the restrictions. */
  datatype State = State(net: Links, chains: Chains, slots: Slots, removed: set<nat>, rules: RM.Rules)

  /** Roads and geometry agree with the original network. */
  ghost predicate Faithful(net0: Links, s: Signals, st: State, g: CG.Geometry) {
    && Compressed(net0, s, st.removed, st.net, st.chains) && Matches(st.net, st.chains, s, st.slots, g)
    && Weighed(net0, s, st.net, st.chains, st.slots, g)
  }

  /** What becomes of a node: it stays, or the roads from its neighbours u and w are merged. The target lists
      are those of u and w after the merge. */
  datatype Step = Skip | Merge(u: nat, w: nat, targetsU: seq<nat>, targetsW: seq<nat>)

  ghost function NextState(st: State, s: Signals, v: nat, step: Step): State
    requires st.chains.Keys == st.net.Keys == st.slots.Keys
    requires step.Merge? ==> Contractible(st.net, step.u, v, step.w)
  {
    match step
    case Skip => st
    case Merge(u, w, targetsU, targetsW) =>
      State(Contracted(st.net, s, u, v, w), ContractedChains(st.chains, u, v, w), ContractedSlots(st.slots, u, v, w),
            st.removed + {v}, RC.FixedUp(st.rules, u, v, w, targetsU, targetsW))
  }

  lemma {:induction false} StepFaithful(net0: Links, s: Signals, st: State, g: CG.Geometry, v: nat, step: Step)
    requires Faithful(net0, s, st, g) && s.penalty >= 0 && v !in st.removed
    requires step.Merge? && Contractible(st.net, step.u, v, step.w)
    ensures Faithful(net0, s, NextState(st, s, v, step), ContractedGeometry(g, st.net, s, st.slots, step.u, v, step.w))
  {
    StepCompressed(net0, s, st.removed, st.net, st.chains, step.u, v, step.w);
    StepMatches(st.net, st.chains, s, st.slots, g, step.u, v, step.w);
    StepWeighed(net0, s, st.removed, st.net, st.chains, st.slots, g, step.u, v, step.w);
  }

  /** The fixups of one step. */
  method FixupRestrictions(restrictions: RM.RestrictionMap, u: nat, v: nat, w: nat, targetsU: seq<nat>,
                           targetsW: seq<nat>)
    requires restrictions.Valid() && u != v && v != w
    modifies restrictions
    ensures restrictions.Valid() && restrictions.vias == old(restrictions.vias)
    ensures restrictions.RulesOf() == RC.FixedUp(old(restrictions.RulesOf()), u, v, w, targetsU, targetsW)
  {
    restrictions.FixupStartingTurnRestriction(u, v, w);
    restrictions.FixupArrivingTurnRestriction(u, v, w, targetsU);
    restrictions.FixupStartingTurnRestriction(w, v, u);
    restrictions.FixupArrivingTurnRestriction(w, v, u, targetsW);
  }

  /** The two calls that store the geometry of one step. */
  method StoreGeometry(container: CG.CompressedEdgeContainer, s: Signals, v: nat, e: Ends, forward1: int, forward2: int,
                       reverse1: int, reverse2: int)
    requires container.Valid() && e.forwardE1 != e.forwardE2 && e.reverseE1 != e.reverseE2
    modifies container
    ensures container.Valid()
    ensures container.Geometries() ==
            CG.Compressed(CG.Compressed(old(container.Geometries()), e.forwardE1, e.forwardE2, v, e.w,
                                        forward1 + SignalCost(s, v), forward2),
                          e.reverseE1, e.reverseE2, v, e.u, reverse1, reverse2 + SignalCost(s, v))
  {
    container.CompressEdge(e.forwardE1, e.forwardE2, v, e.w, forward1 + (if v in s.lights then s.penalty else 0),
                           forward2);
    container.CompressEdge(e.reverseE1, e.reverseE2, v, e.u, reverse1,
                           reverse2 + (if v in s.lights then s.penalty else 0));
  }

  // ----- which nodes are compressed -----------------------------------------------------

  ghost predicate Eligible(net: Links, barriers: set<nat>, vias: set<nat>, v: nat) {
    v !in barriers && v !in vias && exists u, w :: Mergeable(net, u, v, w)
  }

  /** A node between two others is mergeable one way round if it is the other. */
  lemma {:induction false} EligibleEnds(net: Links, v: nat, u: nat, w: nat)
    requires Between(net, v, u, w) && exists a, b :: Mergeable(net, a, v, b)
    ensures Mergeable(net, u, v, w)
  {
    var a, b :| Mergeable(net, a, v, b);
    assert Key(v, a) in net && Key(v, b) in net;
  }

  /** A node between two others owns exactly two slots. */
  lemma {:induction false} TwoSlotsOnly(nodes: seq<Node>, list: seq<Edge<Road>>, net: Links, slots: Slots, v: nat,
                                        u: nat, w: nat)
    requires Represents(nodes, list, net, slots) && v + 1 < |nodes| && Between(net, v, u, w)
    ensures nodes[v].edges == 2
  {
    assert HasSlot(nodes, list, slots, Key(v, u)) && HasSlot(nodes, list, slots, Key(v, w));
    forall i: nat | Owns(nodes[v], i)
      ensures i == slots[Key(v, u)] || i == slots[Key(v, w)]
    {
      assert HoldsRoad(list, net, slots, v, i);
    }
    var first := nodes[v].firstEdge;
    assert nodes[v].edges >= 3 ==> Owns(nodes[v], first) && Owns(nodes[v], first + 1) && Owns(nodes[v], first + 2);
  }

  /** Whether the roads at v can be merged; a barrier, a via node, a node with another degree, or one
      whose merged road would double an existing one, stays. */
  method CanCompress(graph: DynamicGraph<Road>, restrictions: RM.RestrictionMap, barriers: set<nat>, v: nat,
                     ghost net: Links, ghost slots: Slots)
      returns (ok: bool, e: Ends)
    requires graph.Valid() && Represents(graph.nodeArray, graph.edgeList, net, slots) && Simple(net)
             && v < graph.numberOfNodes
    ensures ok <==> Eligible(net, barriers, restrictions.vias, v)
    ensures ok ==> graph.nodeArray[v].edges == 2
    ensures ok ==> RoadsAt(net, slots, v, e) && Contractible(net, e.u, v, e.w)
    ensures ok ==> e.u < graph.numberOfNodes && e.w < graph.numberOfNodes && Oriented(net, slots, v, e.u, e.w)
  {
    e := Ends(0, 0, 0, 0, 0, 0);
    ok := false;
    if a, b :| Mergeable(net, a, v, b) {
      TwoSlotsOnly(graph.nodeArray, graph.edgeList, net, slots, v, a, b);
    }
    if graph.nodeArray[v].edges != 2 || v in barriers || restrictions.IsViaNode(v) {
      return;
    }
    e := FindEnds(graph, v, net, slots);
    if exists a, b :: Mergeable(net, a, v, b) {
      EligibleEnds(net, v, e.u, e.w);
    }
    SlotFacts(graph.nodeArray, graph.edgeList, net, slots, v, e);
    var doubled := FindInEitherDirection(graph, e.u, e.w, net, slots);
    if doubled {
      return;
    }
    var fwd1, rev1 := graph.edgeList[e.forwardE1].data, graph.edgeList[e.reverseE1].data;
    var fwd2, rev2 := graph.edgeList[e.forwardE2].data, graph.edgeList[e.reverseE2].data;
    if fwd1.name != rev1.name || fwd2.name != rev2.name {
      return;
    }
    ok := Compatible(fwd1, fwd2) && Compatible(rev1, rev2);
    assert ok ==> Mergeable(net, e.u, v, e.w);
  }

  /** An eligible node is merged away, any other leaves everything as it is. */
  ghost predicate Turn(st: State, step: Step, st': State, s: Signals, barriers: set<nat>, vias: set<nat>, v: nat)
    requires st.chains.Keys == st.net.Keys == st.slots.Keys
  {
    if Eligible(st.net, barriers, vias, v)
    then
      && step.Merge? && Mergeable(st.net, step.u, v, step.w) && Oriented(st.net, st.slots, v, step.u, step.w)
      && RC.TargetsAt(Contracted(st.net, s, step.u, v, step.w), step.u, step.targetsU)
      && RC.TargetsAt(Contracted(st.net, s, step.u, v, step.w), step.w, step.targetsW)
      && st' == NextState(st, s, v, step)
    else step == Skip && st' == st
  }

  /** The graph part of a step, with what the other parts need of the graph before and after it. */
  method MergeAndRead(graph: DynamicGraph<Road>, s: Signals, v: nat, e: Ends, ghost net: Links, ghost slots: Slots)
      returns (forward1: int, forward2: int, reverse1: int, reverse2: int, targetsU: seq<nat>, targetsW: seq<nat>)
    requires graph.Valid() && Represents(graph.nodeArray, graph.edgeList, net, slots)
    requires v < graph.numberOfNodes && graph.nodeArray[v].edges == 2 && e.u < graph.numberOfNodes
             && e.w < graph.numberOfNodes
    requires RoadsAt(net, slots, v, e) && Contractible(net, e.u, v, e.w)
    modifies graph
    ensures graph.Valid() && graph.numberOfNodes == old(graph.numberOfNodes)
    ensures Represents(graph.nodeArray, graph.edgeList, Contracted(net, s, e.u, v, e.w),
                       ContractedSlots(slots, e.u, v, e.w))
    ensures forward1 == net[Key(e.u, v)].distance && forward2 == net[Key(v, e.w)].distance
    ensures reverse1 == net[Key(e.w, v)].distance && reverse2 == net[Key(v, e.u)].distance
    ensures RC.TargetsAt(Contracted(net, s, e.u, v, e.w), e.u, targetsU)
            && RC.TargetsAt(Contracted(net, s, e.u, v, e.w), e.w, targetsW)
  {
    SlotFacts(graph.nodeArray, graph.edgeList, net, slots, v, e);
    forward1, forward2 := graph.edgeList[e.forwardE1].data.distance, graph.edgeList[e.forwardE2].data.distance;
    reverse1, reverse2 := graph.edgeList[e.reverseE1].data.distance, graph.edgeList[e.reverseE2].data.distance;
    MergeRoads(graph, s, v, e, net, slots);
    ghost var net', slots' := Contracted(net, s, e.u, v, e.w), ContractedSlots(slots, e.u, v, e.w);
    targetsU := TargetsOf(graph, e.u, net', slots');
    targetsW := TargetsOf(graph, e.w, net', slots');
  }

  /** The restrictions and the geometry follow. */
  method FollowUp(restrictions: RM.RestrictionMap, container: CG.CompressedEdgeContainer, s: Signals, v: nat, e: Ends,
                  forward1: int, forward2: int, reverse1: int, reverse2: int, targetsU: seq<nat>, targetsW: seq<nat>,
                  ghost net: Links, ghost slots: Slots)
    requires restrictions.Valid() && container.Valid()
    requires slots.Keys == net.Keys && RoadsAt(net, slots, v, e) && Contractible(net, e.u, v, e.w)
    requires e.forwardE1 != e.forwardE2 && e.reverseE1 != e.reverseE2
    requires forward1 == net[Key(e.u, v)].distance && forward2 == net[Key(v, e.w)].distance
    requires reverse1 == net[Key(e.w, v)].distance && reverse2 == net[Key(v, e.u)].distance
    modifies restrictions, container
    ensures restrictions.Valid() && container.Valid() && restrictions.vias == old(restrictions.vias)
    ensures restrictions.RulesOf() == RC.FixedUp(old(restrictions.RulesOf()), e.u, v, e.w, targetsU, targetsW)
    ensures container.Geometries() == ContractedGeometry(old(container.Geometries()), net, s, slots, e.u, v, e.w)
  {
    assert Flip(Key(v, e.u)) == Key(e.u, v) && Flip(Key(v, e.w)) == Key(e.w, v);
    FixupRestrictions(restrictions, e.u, v, e.w, targetsU, targetsW);
    StoreGeometry(container, s, v, e, forward1, forward2, reverse1, reverse2);
  }

  /** One turn of the loop. */
  method CompressNode(graph: DynamicGraph<Road>, restrictions: RM.RestrictionMap, container: CG.CompressedEdgeContainer,
                      barriers: set<nat>, s: Signals, v: nat, ghost net0: Links, ghost st: State)
      returns (ghost step: Step, ghost st': State)
    requires graph.Valid() && restrictions.Valid() && container.Valid() && v < graph.numberOfNodes
    requires Represents(graph.nodeArray, graph.edgeList, st.net, st.slots) && restrictions.RulesOf() == st.rules
    requires Faithful(net0, s, st, container.Geometries()) && s.penalty >= 0 && v !in st.removed
    modifies graph, restrictions, container
    ensures graph.Valid() && restrictions.Valid() && container.Valid()
    ensures graph.numberOfNodes == old(graph.numberOfNodes) && restrictions.vias == old(restrictions.vias)
    ensures Represents(graph.nodeArray, graph.edgeList, st'.net, st'.slots) && restrictions.RulesOf() == st'.rules
    ensures Faithful(net0, s, st', container.Geometries())
    ensures Turn(st, step, st', s, barriers, restrictions.vias, v)
  {
    st', step := st, Skip;
    var ok, e := CanCompress(graph, restrictions, barriers, v, st.net, st.slots);
    if ok {
      SlotFacts(graph.nodeArray, graph.edgeList, st.net, st.slots, v, e);
      var forward1, forward2, reverse1, reverse2, targetsU, targetsW := MergeAndRead(graph, s, v, e, st.net, st.slots);
      step := Merge(e.u, e.w, targetsU, targetsW);
      StepFaithful(net0, s, st, container.Geometries(), v, step);
      FollowUp(restrictions, container, s, v, e, forward1, forward2, reverse1, reverse2, targetsU, targetsW, st.net,
               st.slots);
      EligibleEnds(st.net, v, e.u, e.w);
      st' := NextState(st, s, v, step);
    }
  }

  /** The original roads as the graph stores them. */
  ghost predicate Original(net0: Links, rules0: RM.Rules) {
    Simple(net0) && (forall k :: k in net0 ==> net0[k].distance > 0) && RC.OnRoads(net0, rules0)
  }

  /** The state before the first step. */
  ghost function StartState(net0: Links, slots: Slots, rules0: RM.Rules): State {
    State(net0, map k | k in net0 :: [], slots, {}, rules0)
  }

  lemma {:induction false} StartFaithful(net0: Links, s: Signals, rules0: RM.Rules, slots: Slots)
    requires Original(net0, rules0) && slots.Keys == net0.Keys
    requires forall k, l :: k in slots && l in slots && slots[k] == slots[l] ==> k == l
    ensures Faithful(net0, s, StartState(net0, slots, rules0), map[])
  {
    StartCompressed(net0, s);
    StartMatches(net0, s, slots);
    StartWeighed(net0, s, StartState(net0, slots, rules0).chains, slots);
  }

  /** The states before and after each of the first n nodes. */
  ghost predicate Ran(trace: seq<State>, steps: seq<Step>, n: nat, s: Signals, barriers: set<nat>, vias: set<nat>) {
    && |trace| == n + 1 && |steps| == n
    && (forall v :: 0 <= v <= n ==> trace[v].chains.Keys == trace[v].net.Keys == trace[v].slots.Keys)
    && forall v {:trigger Turn(trace[v], steps[v], trace[v + 1], s, barriers, vias, v)} :: 0 <= v < n ==>
         Turn(trace[v], steps[v], trace[v + 1], s, barriers, vias, v)
  }

  /** After the first n nodes: how the current state was reached, and which nodes are gone. */
  ghost predicate Progress(trace: seq<State>, steps: seq<Step>, n: nat, s: Signals, barriers: set<nat>, vias: set<nat>,
                           st: State) {
    && Ran(trace, steps, n, s, barriers, vias) && trace[n] == st
    && forall x :: x in st.removed ==> x < n && x !in barriers && x !in vias
  }

  lemma {:induction false} ProgressStep(trace: seq<State>, steps: seq<Step>, n: nat, s: Signals, barriers: set<nat>,
                                        vias: set<nat>, st: State, step: Step, st': State)
    requires Progress(trace, steps, n, s, barriers, vias, st) && st'.chains.Keys == st'.net.Keys == st'.slots.Keys
    requires Turn(st, step, st', s, barriers, vias, n)
    ensures Progress(trace + [st'], steps + [step], n + 1, s, barriers, vias, st')
  {
    var trace', steps' := trace + [st'], steps + [step];
    forall v | 0 <= v < n + 1
      ensures Turn(trace'[v], steps'[v], trace'[v + 1], s, barriers, vias, v)
    {
      if v < n {
        assert Turn(trace[v], steps[v], trace[v + 1], s, barriers, vias, v);
      }
    }
  }

  // ----- one pass is enough ---------------------------------------------------------------

  /** The nodes that the pass has been at are settled for good. */
  lemma {:induction false} PassSettles(trace: seq<State>, steps: seq<Step>, n: nat, s: Signals, barriers: set<nat>,
                                       vias: set<nat>, t: nat, v: nat)
    requires Ran(trace, steps, n, s, barriers, vias) && v < t <= n && v !in barriers && v !in vias
    ensures Settled(trace[t].net, v)
    decreases t
  {
    var x := t - 1;
    assert Turn(trace[x], steps[x], trace[x + 1], s, barriers, vias, x);
    if v < x {
      PassSettles(trace, steps, n, s, barriers, vias, x, v);
    }
    if steps[x].Merge? {
      StaysSettled(trace[x].net, s, steps[x].u, x, steps[x].w, v);
    }
  }

  lemma {:induction false} PassNames(trace: seq<State>, steps: seq<Step>, n: nat, s: Signals, barriers: set<nat>,
                                     vias: set<nat>, t: nat)
    requires Ran(trace, steps, n, s, barriers, vias) && t <= n && OneName(trace[0].net, trace[0].chains)
    ensures OneName(trace[t].net, trace[t].chains)
    decreases t
  {
    if t > 0 {
      var x := t - 1;
      PassNames(trace, steps, n, s, barriers, vias, x);
      assert Turn(trace[x], steps[x], trace[x + 1], s, barriers, vias, x);
      if steps[x].Merge? {
        StepOneName(trace[x].net, trace[x].chains, s, steps[x].u, x, steps[x].w);
      }
    }
  }

  /** After the pass nothing is left to merge, and every road is like the original roads it stands for. */
  lemma {:induction false} PassIsEnough(net0: Links, s: Signals, g: CG.Geometry, trace: seq<State>, steps: seq<Step>,
                                        n: nat, barriers: set<nat>, vias: set<nat>)
    requires Ran(trace, steps, n, s, barriers, vias) && Faithful(net0, s, trace[n], g)
    requires forall k :: k in trace[0].net ==> trace[0].chains[k] == []
    requires forall k :: k in trace[n].net ==> k.from < n
    ensures NothingLeft(trace[n].net, barriers, vias)
    ensures forall k :: k in trace[n].net ==> LikeItsRoads(net0, k, trace[n].chains[k], trace[n].net[k])
  {
    var st := trace[n];
    forall v: nat | v !in barriers && v !in vias
      ensures Settled(st.net, v)
    {
      if v < n {
        PassSettles(trace, steps, n, s, barriers, vias, n, v);
      }
    }
    SettledLeavesNothing(st.net, barriers, vias);
    PassNames(trace, steps, n, s, barriers, vias, n);
    forall k | k in st.net
      ensures LikeItsRoads(net0, k, st.chains[k], st.net[k])
    {
      CompressedIsLike(net0, s, st.removed, st.net, st.chains, k);
    }
  }

  /** Compress: whatever it removes, roads and geometry keep their meaning; barriers and via nodes stay, and nothing
      else is left to remove. */
  method Compress(graph: DynamicGraph<Road>, restrictions: RM.RestrictionMap, container: CG.CompressedEdgeContainer,
                  barriers: set<nat>, s: Signals, ghost net0: Links, ghost slots0: Slots)
      returns (ghost st: State, ghost trace: seq<State>, ghost steps: seq<Step>)
    requires graph.Valid() && restrictions.Valid() && container.Valid() && s.penalty >= 0
    requires Represents(graph.nodeArray, graph.edgeList, net0, slots0)
    requires Original(net0, restrictions.RulesOf()) && container.Geometries() == map[]
    modifies graph, restrictions, container
    ensures graph.Valid() && restrictions.Valid() && container.Valid()
            && graph.numberOfNodes == old(graph.numberOfNodes)
    ensures Represents(graph.nodeArray, graph.edgeList, st.net, st.slots) && restrictions.RulesOf() == st.rules
    ensures Faithful(net0, s, st, container.Geometries())
    ensures st.removed !! barriers && st.removed !! old(restrictions.vias)
    ensures NothingLeft(st.net, barriers, old(restrictions.vias))
    ensures forall k :: k in st.net ==> LikeItsRoads(net0, k, st.chains[k], st.net[k])
    ensures Ran(trace, steps, graph.numberOfNodes, s, barriers, old(restrictions.vias))
    ensures RC.Carried(st.net, st.chains, old(restrictions.RulesOf()), st.rules) <==>
              AllMet(trace, steps, graph.numberOfNodes)
    ensures RC.NoReturns(old(restrictions.RulesOf())) ==> AllMet(trace, steps, graph.numberOfNodes)
    ensures trace[0] == StartState(net0, slots0, old(restrictions.RulesOf())) && trace[graph.numberOfNodes] == st
  {
    ghost var start := StartState(net0, slots0, restrictions.RulesOf());
    ghost var vias := restrictions.vias;
    SlotsDistinct(graph.nodeArray, graph.edgeList, net0, slots0);
    StartFaithful(net0, s, restrictions.RulesOf(), slots0);
    StartCarriedState(net0, s, slots0, restrictions.RulesOf(), vias);
    st, trace, steps := start, [start], [];
    var n := graph.numberOfNodes;
    for v := 0 to n
      invariant Progress(trace, steps, v, s, barriers, vias, st) && trace[0] == start
      invariant graph.Valid() && restrictions.Valid() && container.Valid()
      invariant graph.numberOfNodes == n && restrictions.vias == vias
      invariant Represents(graph.nodeArray, graph.edgeList, st.net, st.slots) && restrictions.RulesOf() == st.rules
      invariant Faithful(net0, s, st, container.Geometries())
    {
      ghost var step, next := CompressNode(graph, restrictions, container, barriers, s, v, net0, st);
      ProgressStep(trace, steps, v, s, barriers, vias, st, step, next);
      st, trace, steps := next, trace + [next], steps + [step];
    }
    CarriedIff(net0, s, start.rules, trace, steps, n, barriers, vias);
    forall k | k in st.net
      ensures k.from < n
    {
      assert HasSlot(graph.nodeArray, graph.edgeList, st.slots, k);
    }
    PassIsEnough(net0, s, container.Geometries(), trace, steps, n, barriers, vias);
  }

  // ----- which restrictions survive -------------------------------------------------------

  /** No restriction leads back over the far end of the first merged road. */
  ghost predicate Met(st: State, step: Step, v: nat) {
    step.Merge? ==> RC.ReturnFree(st.rules, v, step.u)
  }

  ghost predicate AllMet(trace: seq<State>, steps: seq<Step>, n: nat)
    requires n <= |trace| && n <= |steps|
  {
    forall v {:trigger Met(trace[v], steps[v], v)} :: 0 <= v < n ==> Met(trace[v], steps[v], v)
  }

  /** Restrictions belong to roads that end at via nodes. */
  ghost predicate Placed(st: State, vias: set<nat>) {
    forall k :: k in st.rules ==> k in st.net && k.to in vias
  }

  /** Some restriction has a target that is gone. */
  ghost predicate Dangling(st: State) {
    exists k, t :: k in st.rules && t in st.rules[k] && t.node in st.removed
  }

  /** Carried restrictions have no such targets. */
  lemma {:induction false} CarriedNotDangling(net0: Links, s: Signals, rules0: RM.Rules, st: State)
    requires Compressed(net0, s, st.removed, st.net, st.chains) && RC.Carried(st.net, st.chains, rules0, st.rules)
    ensures !Dangling(st)
  {
    forall k, t | k in st.rules && t in st.rules[k]
      ensures t.node !in st.removed
    {
      assert RC.CarriedAt(st.net, st.chains, rules0, st.rules, k);
      var i :| 0 <= i < |st.rules[k]| && st.rules[k][i] == t;
      assert RC.Stands(st.net, st.chains, k.to, t, rules0[RC.Origin(st.net, st.chains, k)][i]);
      var l := Key(k.to, t.node);
      assert GoodLink(net0, s, st.removed, l, st.chains[l], st.net[l]);
    }
  }

  lemma {:induction false} StepPlaced(st: State, s: Signals, vias: set<nat>, v: nat, step: Step)
    requires st.chains.Keys == st.net.Keys == st.slots.Keys && Placed(st, vias) && v !in vias
    requires step.Merge? && Contractible(st.net, step.u, v, step.w)
    requires RC.TargetsAt(Contracted(st.net, s, step.u, v, step.w), step.u, step.targetsU)
    requires RC.TargetsAt(Contracted(st.net, s, step.u, v, step.w), step.w, step.targetsW)
    ensures Placed(NextState(st, s, v, step), vias)
  {
    var st' := NextState(st, s, v, step);
    forall k | k in st'.rules
      ensures k in st'.net && k.to in vias
    {
      RC.FixedUpAt(st.net, s, st.rules, step.u, v, step.w, step.targetsU, step.targetsW, k);
    }
  }

  /** A restriction back over u keeps the removed node as its target. */
  lemma {:induction false} LostDangles(st: State, s: Signals, vias: set<nat>, v: nat, step: Step)
    requires st.chains.Keys == st.net.Keys == st.slots.Keys && Placed(st, vias) && v !in vias
    requires step.Merge? && Contractible(st.net, step.u, v, step.w)
    requires RC.TargetsAt(Contracted(st.net, s, step.u, v, step.w), step.u, step.targetsU)
    requires RC.TargetsAt(Contracted(st.net, s, step.u, v, step.w), step.w, step.targetsW)
    requires !Met(st, step, v)
    ensures Dangling(NextState(st, s, v, step))
  {
    var st' := NextState(st, s, v, step);
    var k := Key(step.w, step.u);
    RC.FixedUpAt(st.net, s, st.rules, step.u, v, step.w, step.targetsU, step.targetsW, k);
    var t :| t in st.rules[Key(v, step.u)] && t.node == v;
    assert t in st'.rules[k];
  }

  /** What is gone stays gone. */
  lemma {:induction false} StepDangles(st: State, s: Signals, vias: set<nat>, v: nat, step: Step)
    requires st.chains.Keys == st.net.Keys == st.slots.Keys && Placed(st, vias) && v !in vias && v !in st.removed
    requires step.Merge? && Contractible(st.net, step.u, v, step.w)
    requires RC.TargetsAt(Contracted(st.net, s, step.u, v, step.w), step.u, step.targetsU)
    requires RC.TargetsAt(Contracted(st.net, s, step.u, v, step.w), step.w, step.targetsW)
    requires Dangling(st)
    ensures Dangling(NextState(st, s, v, step))
  {
    var st', u, w := NextState(st, s, v, step), step.u, step.w;
    var k, t :| k in st.rules && t in st.rules[k] && t.node in st.removed;
    var k' := if k == Key(v, w) then Key(u, w) else if k == Key(v, u) then Key(w, u) else k;
    RC.FixedUpAt(st.net, s, st.rules, u, v, w, step.targetsU, step.targetsW, k');
    var i :| 0 <= i < |st.rules[k]| && st.rules[k][i] == t;
    assert st'.rules[k'][i] == t;
  }

  /** Up to node n: the restrictions are carried, or one of them dangles. */
  ghost predicate CarriedSoFar(net0: Links, s: Signals, rules0: RM.Rules, st: State, n: nat, vias: set<nat>,
                               met: bool) {
    && Compressed(net0, s, st.removed, st.net, st.chains) && Placed(st, vias) && (forall x :: x in st.removed ==> x < n)
    && if met then RC.Carried(st.net, st.chains, rules0, st.rules) else Dangling(st)
  }

  lemma {:induction false} StartCarriedState(net0: Links, s: Signals, slots: Slots, rules0: RM.Rules, vias: set<nat>)
    requires Original(net0, rules0) && forall k :: k in rules0 ==> k.to in vias
    ensures CarriedSoFar(net0, s, rules0, StartState(net0, slots, rules0), 0, vias, true)
  {
    StartCompressed(net0, s);
    RC.StartCarried(net0, rules0);
  }

  lemma {:induction false} StepCarriedSoFar(net0: Links, s: Signals, rules0: RM.Rules, st: State, step: Step,
                                            st': State, n: nat, barriers: set<nat>, vias: set<nat>, met: bool)
    requires CarriedSoFar(net0, s, rules0, st, n, vias, met) && st.chains.Keys == st.net.Keys == st.slots.Keys
    requires Turn(st, step, st', s, barriers, vias, n)
    ensures CarriedSoFar(net0, s, rules0, st', n + 1, vias, met && Met(st, step, n))
  {
    if step.Merge? {
      StepCompressed(net0, s, st.removed, st.net, st.chains, step.u, n, step.w);
      StepPlaced(st, s, vias, n, step);
      if !met {
        StepDangles(st, s, vias, n, step);
      } else if !Met(st, step, n) {
        LostDangles(st, s, vias, n, step);
      } else {
        RC.StepCarried(st.net, st.chains, s, rules0, st.rules, step.u, n, step.w, step.targetsU, step.targetsW);
      }
    }
  }

  lemma {:induction false} AllMetStep(trace: seq<State>, steps: seq<Step>, n: nat)
    requires n < |trace| && n < |steps|
    ensures AllMet(trace, steps, n + 1) <==> AllMet(trace, steps, n) && Met(trace[n], steps[n], n)
  {
  }

  lemma {:induction false} NoReturnsMeet(net0: Links, s: Signals, rules0: RM.Rules, st: State, step: Step, v: nat,
                                         vias: set<nat>)
    requires CarriedSoFar(net0, s, rules0, st, v, vias, true) && RC.NoReturns(rules0)
    ensures Met(st, step, v)
  {
    if step.Merge? && Key(v, step.u) in st.rules {
      RC.NoReturnAt(st.net, st.chains, rules0, st.rules, Key(v, step.u));
    }
  }

  lemma {:induction false} RunCarried(net0: Links, s: Signals, rules0: RM.Rules, trace: seq<State>, steps: seq<Step>,
                                      n: nat, i: nat, barriers: set<nat>, vias: set<nat>)
    requires Ran(trace, steps, n, s, barriers, vias) && i <= n && CarriedSoFar(net0, s, rules0, trace[0], 0, vias, true)
    ensures CarriedSoFar(net0, s, rules0, trace[i], i, vias, AllMet(trace, steps, i))
    ensures RC.NoReturns(rules0) ==> AllMet(trace, steps, i)
  {
    if i > 0 {
      var v := i - 1;
      RunCarried(net0, s, rules0, trace, steps, n, v, barriers, vias);
      assert Turn(trace[v], steps[v], trace[v + 1], s, barriers, vias, v);
      StepCarriedSoFar(net0, s, rules0, trace[v], steps[v], trace[v + 1], v, barriers, vias, AllMet(trace, steps, v));
      AllMetStep(trace, steps, v);
      if RC.NoReturns(rules0) {
        NoReturnsMeet(net0, s, rules0, trace[v], steps[v], v, vias);
      }
    }
  }

  /** Restrictions survive compression if and only if every step meets the guard; they do if none of them leads
      back to where it comes from. */
  lemma {:induction false} CarriedIff(net0: Links, s: Signals, rules0: RM.Rules, trace: seq<State>, steps: seq<Step>,
                                      n: nat, barriers: set<nat>, vias: set<nat>)
    requires Ran(trace, steps, n, s, barriers, vias) && CarriedSoFar(net0, s, rules0, trace[0], 0, vias, true)
    ensures Simple(trace[n].net)
    ensures RC.Carried(trace[n].net, trace[n].chains, rules0, trace[n].rules) <==> AllMet(trace, steps, n)
    ensures RC.NoReturns(rules0) ==> AllMet(trace, steps, n)
  {
    RunCarried(net0, s, rules0, trace, steps, n, n, barriers, vias);
    if RC.Carried(trace[n].net, trace[n].chains, rules0, trace[n].rules) {
      CarriedNotDangling(net0, s, rules0, trace[n]);
    }
  }
}
