/** The node-based graph as it is first stored (data_structures/node_based_graph.hpp): directed roads sorted by
    source and target, one slot after the other. */
module RoadStorage {
  import opened DynamicGraphs
  import opened RoadNetwork
  import opened RoadGeometry
  import GC = GraphCompressor

  type RoadEdge = InputEdge<Road>

  function KeyOf(e: RoadEdge): Key {
    Key(e.source, e.target)
  }

  /** By source, then by target, and nothing twice. */
  ghost predicate Sorted(list: seq<RoadEdge>) {
    forall i, j :: 0 <= i < j < |list| ==>
      list[i].source < list[j].source || (list[i].source == list[j].source && list[i].target < list[j].target)
  }

  /** The network that a list of roads describes. */
  ghost predicate Describes(list: seq<RoadEdge>, net: Links) {
    && (forall e :: e in list ==> KeyOf(e) in net && net[KeyOf(e)] == e.data)
    && (forall k :: k in net ==> InputEdge(k.from, k.to, net[k]) in list)
  }

  /** Slots of one node are in the order of their targets. */
  ghost predicate InOrder(slots: Slots) {
    forall k, l :: k in slots && l in slots && k.from == l.from && k.to < l.to ==> slots[k] < slots[l]
  }

  ghost predicate Increasing(edges: seq<Edge<Road>>) {
    forall i, j :: 0 <= i < j < |edges| ==> edges[i].target < edges[j].target
  }

  lemma {:induction false} EdgesIncrease(list: seq<RoadEdge>, n: nat)
    requires Sorted(list)
    ensures Increasing(EdgesFrom(list, n))
    decreases |list|
  {
    if list != [] {
      var last := |list| - 1;
      var init := list[..last];
      EdgesIncrease(init, n);
      forall e | e in EdgesFrom(init, n) && list[last].source == n
        ensures e.target < list[last].target
      {
        EdgesFromMember(init, n, e);
        var i :| 0 <= i < |init| && init[i] == InputEdge(n, e.target, e.data);
        assert list[i] == init[i];
      }
    }
  }

  /** The slot of a road. */
  ghost function SlotOf(nodes: seq<Node>, list: seq<Edge<Road>>, k: Key): nat {
    if k.from < |nodes| && exists i: nat :: Owns(nodes[k.from], i) && i < |list| && list[i].target == k.to
    then var i: nat :| Owns(nodes[k.from], i) && i < |list| && list[i].target == k.to; i
    else 0
  }

  /** Of the increasing targets of a node, each has one slot. */
  lemma {:induction false} SlotIs(nodes: seq<Node>, list: seq<Edge<Road>>, n: nat, i: nat)
    requires Packed(nodes, list) && n < |nodes| && Owns(nodes[n], i) && Increasing(Slice(nodes, list, n))
    ensures i < |list| && SlotOf(nodes, list, Key(n, list[i].target)) == i
  {
    var j, first := SlotOf(nodes, list, Key(n, list[i].target)), nodes[n].firstEdge;
    assert Owns(nodes[n], i) && i < |list|;
    assert Owns(nodes[n], j) && list[j].target == list[i].target;
    assert Slice(nodes, list, n)[i - first] == list[i] && Slice(nodes, list, n)[j - first] == list[j];
  }

  /** Where a described road is stored. */
  lemma {:induction false} RoadHasSlot(nodes: seq<Node>, edges: seq<Edge<Road>>, list: seq<RoadEdge>, net: Links,
                                       k: Key)
    requires Packed(nodes, edges) && Describes(list, net) && k in net && k.from < |nodes|
    requires Slice(nodes, edges, k.from) == EdgesFrom(list, k.from) && Increasing(Slice(nodes, edges, k.from))
    ensures var i := SlotOf(nodes, edges, k);
            Owns(nodes[k.from], i) && i < |edges| && edges[i].target == k.to
  {
    var e := Edge(k.to, net[k]);
    EdgesFromMember(list, k.from, e);
    var slice := Slice(nodes, edges, k.from);
    var j :| 0 <= j < |slice| && slice[j] == e;
    var i := nodes[k.from].firstEdge + j;
    assert edges[i] == e && Owns(nodes[k.from], i);
    SlotIs(nodes, edges, k.from, i);
  }

  ghost function SlotsOf(nodes: seq<Node>, edges: seq<Edge<Road>>, net: Links): Slots {
    map k | k in net :: SlotOf(nodes, edges, k)
  }

  /** Every node owns exactly its roads of the list, in order. */
  ghost predicate LaidOut(nodes: seq<Node>, edges: seq<Edge<Road>>, list: seq<RoadEdge>) {
    && |nodes| > 0 && Packed(nodes, edges)
    && forall n {:trigger OwnList(nodes, edges, list, n)} :: 0 <= n < |nodes| - 1 ==> OwnList(nodes, edges, list, n)
  }

  ghost predicate OwnList(nodes: seq<Node>, edges: seq<Edge<Road>>, list: seq<RoadEdge>, n: nat)
    requires Packed(nodes, edges) && n < |nodes|
  {
    Slice(nodes, edges, n) == EdgesFrom(list, n) && Increasing(Slice(nodes, edges, n))
  }

  lemma {:induction false} StoredSlot(nodes: seq<Node>, edges: seq<Edge<Road>>, list: seq<RoadEdge>, net: Links, k: Key)
    requires LaidOut(nodes, edges, list) && Describes(list, net) && k in net
    requires forall e :: e in list ==> e.source + 1 < |nodes| && e.target + 1 < |nodes|
    ensures GC.HasSlot(nodes, edges, SlotsOf(nodes, edges, net), k)
  {
    assert InputEdge(k.from, k.to, net[k]) in list;
    assert OwnList(nodes, edges, list, k.from);
    RoadHasSlot(nodes, edges, list, net, k);
  }

  lemma {:induction false} StoredHolds(nodes: seq<Node>, edges: seq<Edge<Road>>, list: seq<RoadEdge>, net: Links,
                                       x: nat, i: nat)
    requires LaidOut(nodes, edges, list) && Describes(list, net) && x + 1 < |nodes| && Owns(nodes[x], i)
    ensures i < |edges| && GC.HoldsRoad(edges, net, SlotsOf(nodes, edges, net), x, i)
  {
    assert OwnList(nodes, edges, list, x);
    SlotIs(nodes, edges, x, i);
    assert Slice(nodes, edges, x)[i - nodes[x].firstEdge] == edges[i];
    EdgesFromMember(list, x, edges[i]);
    assert KeyOf(InputEdge(x, edges[i].target, edges[i].data)) in net;
  }

  lemma {:induction false} StoredInOrder(nodes: seq<Node>, edges: seq<Edge<Road>>, list: seq<RoadEdge>, slots: Slots,
                                         k: Key, l: Key)
    requires LaidOut(nodes, edges, list) && k in slots && l in slots && k.from == l.from && k.to < l.to
    requires GC.HasSlot(nodes, edges, slots, k) && GC.HasSlot(nodes, edges, slots, l)
    ensures slots[k] < slots[l]
  {
    assert OwnList(nodes, edges, list, k.from);
    var first, slice := nodes[k.from].firstEdge, Slice(nodes, edges, k.from);
    assert slice[slots[k] - first] == edges[slots[k]] && slice[slots[l] - first] == edges[slots[l]];
  }

  lemma {:induction false} StoredRepresents(nodes: seq<Node>, edges: seq<Edge<Road>>, list: seq<RoadEdge>, net: Links)
    requires LaidOut(nodes, edges, list) && Describes(list, net)
    requires forall e :: e in list ==> e.source + 1 < |nodes| && e.target + 1 < |nodes|
    ensures GC.Represents(nodes, edges, net, SlotsOf(nodes, edges, net)) && InOrder(SlotsOf(nodes, edges, net))
  {
    var slots := SlotsOf(nodes, edges, net);
    forall k | k in net
      ensures GC.HasSlot(nodes, edges, slots, k)
    {
      StoredSlot(nodes, edges, list, net, k);
    }
    forall x: nat, i: nat | x + 1 < |nodes| && Owns(nodes[x], i)
      ensures GC.HoldsRoad(edges, net, slots, x, i)
    {
      StoredHolds(nodes, edges, list, net, x, i);
    }
    forall k, l | k in slots && l in slots && k.from == l.from && k.to < l.to
      ensures slots[k] < slots[l]
    {
      StoredInOrder(nodes, edges, list, slots, k, l);
    }
  }

  /** Storing a sorted list of roads: the graph holds exactly these, the slots of a node in the order of targets. */
  method StoreRoads(nodes: nat, list: seq<RoadEdge>, ghost net: Links)
      returns (graph: DynamicGraph<Road>, ghost slots: Slots)
    requires nodes <= DUMMY && Sorted(list) && Describes(list, net)
    requires forall e :: e in list ==> e.source < nodes && e.target < nodes
    ensures fresh(graph) && graph.Valid() && graph.numberOfNodes == nodes
    ensures GC.Represents(graph.nodeArray, graph.edgeList, net, slots) && InOrder(slots)
  {
    graph := new DynamicGraph<Road>.FromSorted(nodes, list);
    slots := SlotsOf(graph.nodeArray, graph.edgeList, net);
    forall n | 0 <= n < nodes
      ensures OwnList(graph.nodeArray, graph.edgeList, list, n)
    {
      assert graph.Edges(n) == EdgesFrom(list, n);
      EdgesIncrease(list, n);
    }
    StoredRepresents(graph.nodeArray, graph.edgeList, list, net);
  }
}
