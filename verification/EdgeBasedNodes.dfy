/** The segments that the edge-based graph factory makes of compressed roads
    (extractor/edge_based_graph_factory.cpp, InsertEdgeBasedNode and GenerateEdgeExpandedNodes). */
module EdgeBasedNodes {
  import opened RoadNetwork
  import opened RoadGeometry
  import opened RoadWeights
  import opened RoadPartition
  import DG = DynamicGraphs
  import CG = CompressedGeometry
  import GC = GraphCompressor
  import RM = RestrictionMaps

  /** One original road of a chain, with its weights and its offsets from either end. */
  datatype Segment = Segment(u: nat, v: nat, forwardWeight: int, reverseWeight: int, forwardOffset: int,
                             reverseOffset: int)

  lemma {:induction false} WeightPrefix(b: seq<CG.GeoNode>, i: nat)
    requires i <= |b| && forall j :: 0 <= j < |b| ==> b[j].weight > 0
    ensures Weight(b[..i]) <= Weight(b) && (i < |b| ==> Weight(b[..i]) < Weight(b))
    decreases |b| - i
  {
    if i == |b| {
      assert b[..i] == b;
    } else {
      WeightPrefix(b, i + 1);
      assert b[..i + 1][..i] == b[..i];
    }
  }

  /** The weight of the last i entries. */
  lemma {:induction false} WeightSuffix(b: seq<CG.GeoNode>, i: nat)
    requires i < |b|
    ensures Weight(b[|b| - 1 - i..]) == b[|b| - 1 - i].weight + Weight(b[|b| - i..])
  {
    var m := |b| - 1 - i;
    assert b[m..] == [b[m]] + b[m + 1..];
    WeightJoin([b[m]], b[m + 1..]);
    assert [b[m]][..0] == [];
  }

  /** Offsets of the forward direction: the weight before each segment. */
  method ForwardOffsets(forward: seq<CG.GeoNode>) returns (offsets: seq<int>)
    ensures |offsets| == |forward| && forall i :: 0 <= i < |forward| ==> offsets[i] == Weight(forward[..i])
  {
    offsets := [];
    var sum := 0;
    for i := 0 to |forward|
      invariant |offsets| == i && sum == Weight(forward[..i])
      invariant forall j :: 0 <= j < i ==> offsets[j] == Weight(forward[..j])
    {
      offsets := offsets + [sum];
      assert forward[..i + 1][..i] == forward[..i];
      sum := sum + forward[i].weight;
    }
  }

  /** Offsets of the reverse direction: the distance left after the segments seen from the far end. */
  method ReverseOffsets(reverse: seq<CG.GeoNode>, distance: int) returns (offsets: seq<int>)
    ensures |offsets| == |reverse|
    ensures forall i :: 0 <= i < |reverse| ==> offsets[i] == distance - Weight(reverse[|reverse| - 1 - i..])
  {
    offsets := [];
    var sum, n := 0, |reverse|;
    assert reverse[n..] == [];
    for i := 0 to n
      invariant |offsets| == i && sum == Weight(reverse[n - i..])
      invariant forall j :: 0 <= j < i ==> offsets[j] == distance - Weight(reverse[n - 1 - j..])
    {
      WeightSuffix(reverse, i);
      sum := sum + reverse[n - 1 - i].weight;
      offsets := offsets + [distance - sum];
    }
  }

  /** The segments lead from one end to the other, and their offsets telescope in both directions. */
  ghost predicate Telescopes(segments: seq<Segment>, u: nat, v: nat, forwardDistance: int, reverseDistance: int) {
    && segments != []
    && segments[0].u == u && segments[|segments| - 1].v == v
    && segments[0].forwardOffset == 0
    && segments[0].reverseOffset + segments[0].reverseWeight == reverseDistance
    && (forall i :: 0 <= i < |segments| ==> segments[i].forwardOffset + segments[i].forwardWeight <= forwardDistance)
    && (forall i :: 0 <= i < |segments| ==> 0 <= segments[i].reverseOffset)
    && forall i, j :: 0 <= i < |segments| - 1 && j == i + 1 ==> Adjoin(segments[i], segments[j])
  }

  ghost predicate Adjoin(a: Segment, b: Segment) {
    && a.v == b.u
    && b.forwardOffset == a.forwardOffset + a.forwardWeight
    && a.reverseOffset == b.reverseOffset + b.reverseWeight
  }

  /** The two geometries of a road, as the container holds them. */
  ghost predicate Opposite(s: Signals, chain: seq<nat>, u: nat, v: nat, forward: seq<CG.GeoNode>,
                           reverse: seq<CG.GeoNode>, forwardDistance: int, reverseDistance: int) {
    Fits(s, chain, v, forward, forwardDistance) && Fits(s, Rev(chain), u, reverse, reverseDistance)
  }

  /** Segment j of a road whose geometries are given. */
  ghost function SegmentAt(u: nat, forward: seq<CG.GeoNode>, reverse: seq<CG.GeoNode>, reverseDistance: int,
                           j: nat): Segment
    requires j < |forward| == |reverse|
  {
    Segment(if j == 0 then u else forward[j - 1].node, forward[j].node, forward[j].weight,
            reverse[|forward| - 1 - j].weight,
            Weight(forward[..j]), reverseDistance - Weight(reverse[|forward| - 1 - j..]))
  }

  ghost predicate Laid(u: nat, forward: seq<CG.GeoNode>, reverse: seq<CG.GeoNode>, reverseDistance: int,
                       segments: seq<Segment>) {
    && |segments| <= |forward| == |reverse|
    && forall j {:trigger segments[j]} ::
         0 <= j < |segments| ==> segments[j] == SegmentAt(u, forward, reverse, reverseDistance, j)
  }

  /** The segments of a compressed road, from its two geometries. */
  method LayRoad(forward: seq<CG.GeoNode>, reverse: seq<CG.GeoNode>, u: nat, v: nat, forwardDistance: int,
                 reverseDistance: int, ghost s: Signals, ghost chain: seq<nat>)
      returns (segments: seq<Segment>)
    requires Opposite(s, chain, u, v, forward, reverse, forwardDistance, reverseDistance)
    ensures |segments| == |chain| + 1 && Telescopes(segments, u, v, forwardDistance, reverseDistance)
    ensures Laid(u, forward, reverse, reverseDistance, segments)
    ensures forall i {:trigger segments[i]} :: 0 <= i < |segments| ==> segments[i].u == reverse[|segments| - 1 - i].node
    ensures Clear(s, chain) ==> segments[|chain|].forwardOffset + segments[|chain|].forwardWeight == forwardDistance
    ensures Clear(s, chain) ==> segments[|chain|].reverseOffset == 0
  {
    MirrorNodes(forward, reverse, chain, u, v, 0);
    segments := LaySegments(forward, reverse, u, reverseDistance);
    Joints(u, forward, reverse, reverseDistance, segments);
    Bounds(s, chain, u, v, forward, reverse, forwardDistance, reverseDistance, segments);
    forall i | 0 <= i < |segments|
      ensures segments[i].u == reverse[|segments| - 1 - i].node
    {
      MirrorNodes(forward, reverse, chain, u, v, i);
    }
    forall i | 0 <= i < |segments|
      ensures segments[i].forwardOffset + segments[i].forwardWeight <= forwardDistance && 0 <= segments[i].reverseOffset
    {
      PartialSums(s, chain, u, v, forward, reverse, forwardDistance, reverseDistance, segments, i);
    }
  }

  /** After compression the two geometries of any road are such opposites. */
  lemma {:induction false} MatchedIsOpposite(net: Links, chains: Chains, s: Signals, slots: Slots, g: CG.Geometry,
                                             k: Key)
    requires Matches(net, chains, s, slots, g) && k in net && Flip(k) in net && Mirrored(net, chains, k)
    ensures Opposite(s, chains[k], k.from, k.to, Segments(g, slots[k], k, net[k]),
                     Segments(g, slots[Flip(k)], Flip(k), net[Flip(k)]),
                     net[k].distance, net[Flip(k)].distance)
  {
    assert MatchesAt(net, chains, s, slots, g, k) && MatchesAt(net, chains, s, slots, g, Flip(k));
  }

  /** The original nodes before and after the via node of a turn, as the geometry store gives them. */
  method TurnEnds(container: CG.CompressedEdgeContainer, u: nat, v: nat, w: nat, e1: nat, e2: nat,
                  ghost net: Links, ghost chains: Chains, ghost s: Signals, ghost slots: Slots)
      returns (before: nat, after: nat)
    requires container.Valid() && Matches(net, chains, s, slots, container.Geometries())
    requires Key(u, v) in net && Key(v, w) in net && Mirrored(net, chains, Key(u, v))
    requires e1 == slots[Key(u, v)] && e2 == slots[Key(v, w)]
    ensures before == First(chains, Key(v, u)) && after == First(chains, Key(v, w))
  {
    assert MatchesAt(net, chains, s, slots, container.Geometries(), Key(u, v));
    assert MatchesAt(net, chains, s, slots, container.Geometries(), Key(v, w));
    before := if container.HasEntryForID(e1) then container.GetLastEdgeSourceID(e1) else u;
    after := if container.HasEntryForID(e2) then container.GetFirstEdgeTargetID(e2) else w;
  }

  method LaySegments(forward: seq<CG.GeoNode>, reverse: seq<CG.GeoNode>, u: nat, reverseDistance: int)
      returns (segments: seq<Segment>)
    requires |forward| == |reverse|
    ensures |segments| == |forward| && Laid(u, forward, reverse, reverseDistance, segments)
  {
    var n := |forward|;
    var forwardOffsets := ForwardOffsets(forward);
    var reverseOffsets := ReverseOffsets(reverse, reverseDistance);
    segments := [];
    var source := u;
    for i := 0 to n
      invariant |segments| == i && source == (if i == 0 then u else forward[i - 1].node)
      invariant Laid(u, forward, reverse, reverseDistance, segments)
    {
      var target := forward[i].node;
      segments := segments + [Segment(source, target, forward[i].weight, reverse[n - 1 - i].weight, forwardOffsets[i],
                                      reverseOffsets[i])];
      source := target;
    }
  }

  /** No partial sum exceeds the distance, in either direction. */
  lemma {:induction false} PartialSums(s: Signals, chain: seq<nat>, u: nat, v: nat, forward: seq<CG.GeoNode>,
                                       reverse: seq<CG.GeoNode>, forwardDistance: int, reverseDistance: int,
                                       segments: seq<Segment>, i: nat)
    requires Opposite(s, chain, u, v, forward, reverse, forwardDistance, reverseDistance)
    requires i < |segments| == |forward| && Laid(u, forward, reverse, reverseDistance, segments)
    ensures segments[i].forwardOffset + segments[i].forwardWeight <= forwardDistance && 0 <= segments[i].reverseOffset
  {
    WeightPrefix(forward, i + 1);
    assert forward[..i + 1][..i] == forward[..i];
    var m := |reverse| - 1 - i;
    assert reverse[..m] + reverse[m..] == reverse;
    WeightJoin(reverse[..m], reverse[m..]);
    WeightPrefix(reverse[..m], 0);
  }

  lemma {:induction false} Joints(u: nat, forward: seq<CG.GeoNode>, reverse: seq<CG.GeoNode>, reverseDistance: int,
                                  segments: seq<Segment>)
    requires |segments| == |forward| && Laid(u, forward, reverse, reverseDistance, segments)
    ensures forall i, j :: 0 <= i < |segments| - 1 && j == i + 1 ==> Adjoin(segments[i], segments[j])
  {
    forall i, j | 0 <= i < |segments| - 1 && j == i + 1
      ensures Adjoin(segments[i], segments[j])
    {
      assert forward[..j][..i] == forward[..i];
      WeightSuffix(reverse, j);
    }
  }

  lemma {:induction false} Bounds(s: Signals, chain: seq<nat>, u: nat, v: nat, forward: seq<CG.GeoNode>,
                                  reverse: seq<CG.GeoNode>, forwardDistance: int, reverseDistance: int,
                                  segments: seq<Segment>)
    requires Opposite(s, chain, u, v, forward, reverse, forwardDistance, reverseDistance)
    requires |segments| == |forward| == |chain| + 1 && Laid(u, forward, reverse, reverseDistance, segments)
    ensures segments[0].u == u && segments[|chain|].v == v && segments[0].forwardOffset == 0
    ensures segments[0].reverseOffset + segments[0].reverseWeight == reverseDistance
    ensures segments[|chain|].forwardOffset + segments[|chain|].forwardWeight == Weight(forward)
    ensures segments[|chain|].reverseOffset == reverseDistance - Weight(reverse)
    ensures Clear(s, chain) ==> Weight(forward) == forwardDistance && Weight(reverse) == reverseDistance
  {
    var n := |forward|;
    assert forward[..0] == [] && forward[..n - 1] == forward[..|forward| - 1];
    assert reverse[0..] == reverse && reverse[n..] == [];
    WeightSuffix(reverse, 0);
    assert Clear(s, chain) ==> Clear(s, Rev(chain));
  }

  // ----- one road ----------------------------------------------------------------------------

  /** The original road that a segment is. */
  ghost function SegmentKey(segment: Segment): Key {
    Key(segment.u, segment.v)
  }

  /** A segment is a road of the original network between two different nodes, and not the compressed road
      itself, in either direction. */
  ghost predicate ProperSegment(net0: Links, k: Key, compressed: bool, segment: Segment) {
    && SegmentKey(segment) in net0 && segment.u != segment.v
    && (compressed ==> SegmentKey(segment) != k && SegmentKey(segment) != Flip(k))
  }

  /** Segment i weighs what the original road does, forth and back; next to a removed light it may weigh one penalty
      more, in both directions. */
  ghost predicate SegmentWeighs(net0: Links, s: Signals, p: seq<nat>, segment: Segment, i: nat)
    requires i + 1 < |p|
  {
    && HopWeighs(net0, s, p, i, segment.forwardWeight)
    && HopAlike(net0, p, i, segment.forwardWeight, segment.reverseWeight)
  }

  /** The segments of road k are, in order, the original roads it stands for, with their weights, and account for its
      distances. */
  ghost predicate RoadLaid(net0: Links, s: Signals, st: GC.State, k: Key, segments: seq<Segment>)
    requires k in st.net && Flip(k) in st.net && k in st.chains
  {
    var chain := st.chains[k];
    && |segments| == |chain| + 1
    && (forall i {:trigger segments[i]} :: 0 <= i < |segments| ==>
          && SegmentKey(segments[i]) == Hop(PathOf(k, chain), i) && ProperSegment(net0, k, chain != [], segments[i])
          && SegmentWeighs(net0, s, PathOf(k, chain), segments[i], i))
    && Telescopes(segments, k.from, k.to, st.net[k].distance, st.net[Flip(k)].distance)
    && (Clear(s, chain) ==>
          && segments[|chain|].forwardOffset + segments[|chain|].forwardWeight == st.net[k].distance
          && segments[|chain|].reverseOffset == 0)
  }

  /** Every hop of a compressed road is a proper segment. */
  lemma {:induction false} HopsAreProper(net0: Links, s: Signals, removed: set<nat>, k: Key, chain: seq<nat>,
                                         road: Road, segment: Segment, i: nat)
    requires Simple(net0) && GoodLink(net0, s, removed, k, chain, road) && i <= |chain|
    requires SegmentKey(segment) == Hop(PathOf(k, chain), i)
    ensures ProperSegment(net0, k, chain != [], segment)
  {
    var p := PathOf(k, chain);
    assert Hop(p, i) in net0;
    assert Flip(Hop(p, i)) in net0;
    assert i > 0 ==> Passes(net0, removed, p, i);
    assert i + 1 < |p| - 1 ==> Passes(net0, removed, p, i + 1);
  }

  lemma {:induction false} LaidKeys(forward: seq<CG.GeoNode>, reverse: seq<CG.GeoNode>, reverseDistance: int,
                                    chain: seq<nat>, k: Key, segments: seq<Segment>, i: nat)
    requires Through(chain, k.to, forward) && |forward| == |reverse| && |segments| == |chain| + 1 && i < |segments|
    requires Laid(k.from, forward, reverse, reverseDistance, segments)
    ensures SegmentKey(segments[i]) == Hop(PathOf(k, chain), i)
  {
  }

  /** The segments have the weights of the two geometries. */
  ghost predicate Copied(forward: seq<CG.GeoNode>, reverse: seq<CG.GeoNode>, segments: seq<Segment>) {
    && |segments| == |forward| == |reverse|
    && (forall i {:trigger segments[i]} :: 0 <= i < |segments| ==>
          segments[i].forwardWeight == forward[i].weight
          && segments[i].reverseWeight == reverse[|reverse| - 1 - i].weight)
  }

  lemma {:induction false} LaidIsRoad(net0: Links, s: Signals, st: GC.State, g: CG.Geometry, k: Key,
                                      segments: seq<Segment>)
    requires GC.Faithful(net0, s, st, g) && k in st.net && Flip(k) in st.net
    requires |segments| == |st.chains[k]| + 1
             && Telescopes(segments, k.from, k.to, st.net[k].distance, st.net[Flip(k)].distance)
    requires forall i {:trigger segments[i]} ::
               0 <= i < |segments| ==> SegmentKey(segments[i]) == Hop(PathOf(k, st.chains[k]), i)
    requires Copied(Segments(g, st.slots[k], k, st.net[k]), Segments(g, st.slots[Flip(k)], Flip(k), st.net[Flip(k)]),
                    segments)
    requires Clear(s, st.chains[k]) ==>
               && segments[|st.chains[k]|].forwardOffset + segments[|st.chains[k]|].forwardWeight == st.net[k].distance
               && segments[|st.chains[k]|].reverseOffset == 0
    ensures RoadLaid(net0, s, st, k, segments)
  {
    forall i | 0 <= i < |segments|
      ensures ProperSegment(net0, k, st.chains[k] != [], segments[i])
      ensures SegmentWeighs(net0, s, PathOf(k, st.chains[k]), segments[i], i)
    {
      assert GoodLink(net0, s, st.removed, k, st.chains[k], st.net[k]);
      assert WeighedAt(net0, s, st.net, st.chains, st.slots, g, k);
      HopsAreProper(net0, s, st.removed, k, st.chains[k], st.net[k], segments[i], i);
    }
  }

  /** A compressed road, with its geometries from the store. */
  method InsertCompressed(container: CG.CompressedEdgeContainer, k: Key, e1: nat, e2: nat, forward: Road, reverse: Road,
                          ghost net0: Links, ghost s: Signals, ghost st: GC.State) returns (segments: seq<Segment>)
    requires container.Valid() && GC.Faithful(net0, s, st, container.Geometries()) && k in st.net && Flip(k) in st.net
    requires e1 == st.slots[k] && e2 == st.slots[Flip(k)] && forward == st.net[k] && reverse == st.net[Flip(k)]
    requires container.HasEntryForID(e1) && container.HasEntryForID(e2)
    ensures RoadLaid(net0, s, st, k, segments)
  {
    assert Mirrored(st.net, st.chains, k);
    MatchedIsOpposite(st.net, st.chains, s, st.slots, container.Geometries(), k);
    segments := LayRoad(container.Bucket(e1), container.Bucket(e2), k.from, k.to, forward.distance, reverse.distance, s,
                        st.chains[k]);
    forall i | 0 <= i < |segments|
      ensures SegmentKey(segments[i]) == Hop(PathOf(k, st.chains[k]), i)
    {
      LaidKeys(container.Bucket(e1), container.Bucket(e2), reverse.distance, st.chains[k], k, segments, i);
    }
    LaidIsRoad(net0, s, st, container.Geometries(), k, segments);
  }

  /** Neither direction can be driven: no road id was given out. */
  ghost predicate Blocked(net: Links, k: Key)
    requires k in net && Flip(k) in net
  {
    net[k].reversed && net[Flip(k)].reversed
  }

  /** InsertEdgeBasedNode, for a road of the compressed network. A direction has an id exactly if it can be
      driven. */
  method InsertEdgeBasedNode(graph: DG.DynamicGraph<Road>, container: CG.CompressedEdgeContainer, u: nat, v: nat,
                             ghost net0: Links, ghost s: Signals, ghost st: GC.State) returns (segments: seq<Segment>)
    requires graph.Valid() && container.Valid() && GC.Represents(graph.nodeArray, graph.edgeList, st.net, st.slots)
    requires GC.Faithful(net0, s, st, container.Geometries()) && u < graph.numberOfNodes && v < graph.numberOfNodes
    requires Key(u, v) in st.net && Key(v, u) in st.net
    ensures if Blocked(st.net, Key(u, v)) then segments == [] else RoadLaid(net0, s, st, Key(u, v), segments)
  {
    ghost var k, g := Key(u, v), container.Geometries();
    var found1 := GC.FindRoad(graph, u, v, st.net, st.slots);
    var found2 := GC.FindRoad(graph, v, u, st.net, st.slots);
    var e1, e2 := found1.value, found2.value;
    assert GC.HasSlot(graph.nodeArray, graph.edgeList, st.slots, k)
           && GC.HasSlot(graph.nodeArray, graph.edgeList, st.slots, Flip(k));
    assert GC.HoldsRoad(graph.edgeList, st.net, st.slots, u, e1)
           && GC.HoldsRoad(graph.edgeList, st.net, st.slots, v, e2);
    var forward, reverse := graph.edgeList[e1].data, graph.edgeList[e2].data;
    if forward.reversed && reverse.reversed {
      return [];
    }
    assert MatchesAt(st.net, st.chains, s, st.slots, g, k) && MatchesAt(st.net, st.chains, s, st.slots, g, Flip(k));
    assert Mirrored(st.net, st.chains, k);
    assert container.HasEntryForID(e1) == container.HasEntryForID(e2);
    if container.HasEntryForID(e1) {
      segments := InsertCompressed(container, Key(u, v), e1, e2, forward, reverse, net0, s, st);
    } else {
      segments := [Segment(u, v, forward.distance, reverse.distance, 0, 0)];
      LaidIsRoad(net0, s, st, g, k, segments);
    }
  }

  // ----- all roads -----------------------------------------------------------------------------

  /** The direction that is stored at the lower node. */
  ghost function Low(k: Key): Key {
    if k.from < k.to then k else Flip(k)
  }

  /** The direction in which a road is inserted: from the lower node, unless that way is closed. */
  ghost predicate Chosen(net: Links, k: Key) {
    && k in net && Flip(k) in net && !Blocked(net, k)
    && k == if net[Low(k)].reversed then Flip(Low(k)) else Low(k)
  }

  /** The loops have come past the slot of k. */
  ghost predicate Visited(slots: Slots, k: Key, u: nat, e: nat) {
    k.from < u || (k.from == u && k in slots && slots[k] < e)
  }

  ghost predicate InList(list: seq<Segment>, o: Key) {
    exists i :: 0 <= i < |list| && SegmentKey(list[i]) == o
  }

  ghost predicate Distinct(list: seq<Segment>) {
    forall i, j :: 0 <= i < j < |list| ==> SegmentKey(list[i]) != SegmentKey(list[j])
  }

  /** The original road o belongs to a road that the loops have come past. */
  ghost predicate Inserted(st: GC.State, u: nat, e: nat, o: Key) {
    exists k, i :: Chosen(st.net, k) && Visited(st.slots, Low(k), u, e) && Lies(st.chains, k, i, o)
  }

  /** The list holds the segments of the roads so far, each once. */
  ghost predicate Collected(st: GC.State, u: nat, e: nat, list: seq<Segment>) {
    Distinct(list) && forall o {:trigger InList(list, o)} :: InList(list, o) <==> Inserted(st, u, e, o)
  }

  /** The list falls into the segments of one road after the other. */
  ghost predicate Blocks(net0: Links, s: Signals, st: GC.State, list: seq<Segment>, roads: seq<Key>, cuts: seq<nat>) {
    && |cuts| == |roads| + 1 && cuts[0] == 0 && cuts[|roads|] == |list|
    && forall r {:trigger Block(net0, s, st, list, roads, cuts, r)} ::
         0 <= r < |roads| ==> Block(net0, s, st, list, roads, cuts, r)
  }

  ghost predicate Block(net0: Links, s: Signals, st: GC.State, list: seq<Segment>, roads: seq<Key>, cuts: seq<nat>,
                        r: nat)
    requires r < |roads| && r + 1 < |cuts|
  {
    && Chosen(st.net, roads[r]) && roads[r] in st.chains && cuts[r] <= cuts[r + 1] <= |list|
    && RoadLaid(net0, s, st, roads[r], list[cuts[r]..cuts[r + 1]])
  }

  lemma {:induction false} AppendBlock(net0: Links, s: Signals, st: GC.State, list: seq<Segment>, roads: seq<Key>,
                                       cuts: seq<nat>, k: Key, segments: seq<Segment>)
    requires Blocks(net0, s, st, list, roads, cuts) && Chosen(st.net, k) && k in st.chains
             && RoadLaid(net0, s, st, k, segments)
    ensures Blocks(net0, s, st, list + segments, roads + [k], cuts + [|list + segments|])
  {
    var list', roads', cuts' := list + segments, roads + [k], cuts + [|list + segments|];
    forall r | 0 <= r < |roads'|
      ensures Block(net0, s, st, list', roads', cuts', r)
    {
      if r < |roads| {
        assert Block(net0, s, st, list, roads, cuts, r);
        SliceStays(list, segments, cuts[r], cuts[r + 1]);
      } else {
        SliceAdded(list, segments);
      }
    }
  }

  lemma {:induction false} SliceStays(list: seq<Segment>, segments: seq<Segment>, a: nat, b: nat)
    requires a <= b <= |list|
    ensures (list + segments)[a..b] == list[a..b]
  {
  }

  lemma {:induction false} SliceAdded(list: seq<Segment>, segments: seq<Segment>)
    ensures (list + segments)[|list|..|list + segments|] == segments
  {
  }

  /** Coming past a slot makes a difference only for its own road. */
  lemma {:induction false} VisitedStep(slots: Slots, k: Key, u: nat, e: nat, l: Key)
    requires k in slots && l in slots && l.from == u && slots[l] == e
    requires forall k, l :: k in slots && l in slots && slots[k] == slots[l] ==> k == l
    ensures Visited(slots, k, u, e + 1) <==> Visited(slots, k, u, e) || k == l
  {
  }

  lemma {:induction false} InsertedStep(st: GC.State, u: nat, e: nat, l: Key, k: Key, o: Key)
    requires Simple(st.net) && st.slots.Keys == st.net.Keys == st.chains.Keys
    requires forall k, l :: k in st.slots && l in st.slots && st.slots[k] == st.slots[l] ==> k == l
    requires l in st.slots && l.from == u && st.slots[l] == e
    requires k == if l.from < l.to && st.net[l].reversed then Flip(l) else l
    ensures Inserted(st, u, e + 1, o) <==>
              Inserted(st, u, e, o) || (l.from < l.to && Chosen(st.net, k) && LiesOn(st.chains, k, o))
  {
    assert Flip(l) in st.net;
    if Inserted(st, u, e + 1, o) {
      var m, i :| Chosen(st.net, m) && Visited(st.slots, Low(m), u, e + 1) && Lies(st.chains, m, i, o);
      VisitedStep(st.slots, Low(m), u, e, l);
      if !Visited(st.slots, Low(m), u, e) {
        assert Low(m) == l && m == k;
      }
    }
    if Inserted(st, u, e, o) {
      var m, i :| Chosen(st.net, m) && Visited(st.slots, Low(m), u, e) && Lies(st.chains, m, i, o);
      VisitedStep(st.slots, Low(m), u, e, l);
    }
    if l.from < l.to && Chosen(st.net, k) && LiesOn(st.chains, k, o) {
      var i: nat :| Lies(st.chains, k, i, o);
      assert Low(k) == l;
      VisitedStep(st.slots, Low(k), u, e, l);
    }
  }

  /** The segments of a road are the roads that lie on it. */
  lemma {:induction false} LaidLies(net0: Links, s: Signals, st: GC.State, k: Key, segments: seq<Segment>, o: Key)
    requires k in st.net && Flip(k) in st.net && k in st.chains && RoadLaid(net0, s, st, k, segments)
    ensures InList(segments, o) <==> LiesOn(st.chains, k, o)
    ensures forall i :: 0 <= i < |segments| ==> Lies(st.chains, k, i, SegmentKey(segments[i]))
  {
    if InList(segments, o) {
      var i :| 0 <= i < |segments| && SegmentKey(segments[i]) == o;
      assert Lies(st.chains, k, i, o);
    }
    if LiesOn(st.chains, k, o) {
      var i: nat :| Lies(st.chains, k, i, o);
      assert SegmentKey(segments[i]) == o;
    }
  }

  lemma {:induction false} InListAppend(list: seq<Segment>, segments: seq<Segment>, o: Key)
    ensures InList(list + segments, o) <==> InList(list, o) || InList(segments, o)
  {
    var all := list + segments;
    if InList(list, o) {
      var i :| 0 <= i < |list| && SegmentKey(list[i]) == o;
      assert all[i] == list[i];
    }
    if InList(segments, o) {
      var i :| 0 <= i < |segments| && SegmentKey(segments[i]) == o;
      assert all[|list| + i] == segments[i];
    }
  }

  /** The segments of another road are new. */
  lemma {:induction false} DistinctAppend(net0: Links, s: Signals, st: GC.State, u: nat, e: nat, list: seq<Segment>,
                                          k: Key, segments: seq<Segment>)
    requires Unique(st.chains) && Collected(st, u, e, list) && !Visited(st.slots, Low(k), u, e)
    requires k in st.net && Flip(k) in st.net && k in st.chains && RoadLaid(net0, s, st, k, segments)
    ensures Distinct(list + segments)
  {
    var all := list + segments;
    forall i, j | 0 <= i < j < |all|
      ensures SegmentKey(all[i]) != SegmentKey(all[j])
    {
      if j >= |list| {
        var o := SegmentKey(all[j]);
        LaidLies(net0, s, st, k, segments, o);
        assert Lies(st.chains, k, j - |list|, o);
        if i < |list| {
          assert all[i] == list[i];
          assert InList(list, SegmentKey(all[i]));
        } else {
          assert Lies(st.chains, k, i - |list|, SegmentKey(all[i]));
        }
      }
    }
  }

  lemma {:induction false} CollectedStep(net0: Links, s: Signals, st: GC.State, u: nat, e: nat, list: seq<Segment>,
                                         l: Key, k: Key, segments: seq<Segment>)
    requires Simple(st.net) && st.slots.Keys == st.net.Keys == st.chains.Keys && Unique(st.chains)
             && Collected(st, u, e, list)
    requires forall k, l :: k in st.slots && l in st.slots && st.slots[k] == st.slots[l] ==> k == l
    requires l in st.slots && l.from == u && st.slots[l] == e
    requires k == if l.from < l.to && st.net[l].reversed then Flip(l) else l
    requires if l.from < l.to && Chosen(st.net, k) then RoadLaid(net0, s, st, k, segments) else segments == []
    ensures Collected(st, u, e + 1, list + segments)
  {
    assert Flip(l) in st.net;
    if l.from < l.to && Chosen(st.net, k) {
      assert Low(k) == l;
      DistinctAppend(net0, s, st, u, e, list, k, segments);
    } else {
      assert list + segments == list;
    }
    forall o
      ensures InList(list + segments, o) <==> Inserted(st, u, e + 1, o)
    {
      InsertedStep(st, u, e, l, k, o);
      InListAppend(list, segments, o);
      if l.from < l.to && Chosen(st.net, k) {
        LaidLies(net0, s, st, k, segments, o);
      }
    }
  }

  /** Every road that can be driven either way is one segment, in a direction that can be driven. */
  ghost predicate EachRoadOnce(net0: Links, list: seq<Segment>) {
    && Distinct(list)
    && (forall o :: InList(list, o) ==> o in net0 && !net0[o].reversed)
    && (forall o :: o in net0 && Flip(o) in net0 && !Blocked(net0, o) ==> InList(list, o) != InList(list, Flip(o)))
  }

  /** An original road can be driven as the road it lies on can. */
  lemma {:induction false} LiesAlike(net0: Links, s: Signals, st: GC.State, g: CG.Geometry, k: Key, i: nat, o: Key)
    requires GC.Faithful(net0, s, st, g) && Lies(st.chains, k, i, o)
    ensures k in st.net && Flip(k) in st.net && o in net0 && Flip(o) in net0
    ensures net0[o].reversed == st.net[k].reversed && net0[Flip(o)].reversed == st.net[Flip(k)].reversed
    ensures LiesOn(st.chains, Flip(k), Flip(o))
  {
    assert GoodLink(net0, s, st.removed, k, st.chains[k], st.net[k]) && Mirrored(st.net, st.chains, k);
    assert Hop(PathOf(k, st.chains[k]), i) in net0;
    LiesOpposite(st.net, st.chains, k, i, o);
    var l, j := Flip(k), |st.chains[k]| - i;
    assert GoodLink(net0, s, st.removed, l, st.chains[l], st.net[l]);
    assert Hop(PathOf(l, st.chains[l]), j) in net0;
  }

  /** A road is laid in a direction that can be driven, and from its higher end only if the other direction cannot. */
  ghost predicate FromLowerEnd(net: Links, k: Key) {
    k in net && Flip(k) in net && !net[k].reversed && (k.to < k.from ==> net[Flip(k)].reversed)
  }

  /** Of the two directions exactly one is chosen, unless both are closed. */
  lemma {:induction false} OneIsChosen(net: Links, k: Key)
    requires Simple(net) && k in net
    ensures Flip(k) in net && (Chosen(net, k) ==> !net[k].reversed && (k.to < k.from ==> net[Flip(k)].reversed))
    ensures !Blocked(net, k) ==> Chosen(net, k) != Chosen(net, Flip(k))
  {
    assert Flip(k) in net;
  }

  /** Where an inserted road lies. */
  lemma {:induction false} InsertedAt(st: GC.State, n: nat, k: Key, i: nat, o: Key)
    requires Unique(st.chains) && Lies(st.chains, k, i, o) && Simple(st.net) && st.chains.Keys == st.net.Keys
    requires forall k :: k in st.net ==> k.from < n
    ensures Inserted(st, n, 0, o) <==> Chosen(st.net, k)
  {
    assert Flip(k) in st.net;
  }

  lemma {:induction false} AllInserted(net0: Links, s: Signals, st: GC.State, g: CG.Geometry, n: nat,
                                       list: seq<Segment>)
    requires GC.Faithful(net0, s, st, g) && Partitions(net0, st.chains) && Collected(st, n, 0, list)
    requires forall k :: k in st.net ==> k.from < n
    ensures EachRoadOnce(net0, list)
  {
    forall o | InList(list, o)
      ensures o in net0 && !net0[o].reversed
    {
      assert Inserted(st, n, 0, o);
      var k, i :| Chosen(st.net, k) && Lies(st.chains, k, i, o);
      LiesAlike(net0, s, st, g, k, i, o);
      OneIsChosen(st.net, k);
    }
    forall o | o in net0 && Flip(o) in net0 && !Blocked(net0, o)
      ensures InList(list, o) != InList(list, Flip(o))
    {
      assert LiesOnOne(st.chains, o);
      var k, i :| Lies(st.chains, k, i, o);
      LiesAlike(net0, s, st, g, k, i, o);
      var j: nat :| Lies(st.chains, Flip(k), j, Flip(o));
      InsertedAt(st, n, k, i, o);
      InsertedAt(st, n, Flip(k), j, Flip(o));
      OneIsChosen(st.net, k);
    }
  }

  /** The roads that are inserted from one node. */
  method InsertFrom(graph: DG.DynamicGraph<Road>, container: CG.CompressedEdgeContainer, u: nat, list0: seq<Segment>,
                    ghost net0: Links, ghost s: Signals, ghost st: GC.State, ghost roads0: seq<Key>,
                    ghost cuts0: seq<nat>)
      returns (list: seq<Segment>, ghost roads: seq<Key>, ghost cuts: seq<nat>)
    requires graph.Valid() && container.Valid() && GC.Represents(graph.nodeArray, graph.edgeList, st.net, st.slots)
    requires GC.Faithful(net0, s, st, container.Geometries()) && u < graph.numberOfNodes && Unique(st.chains)
    requires Collected(st, u, graph.BeginEdges(u), list0) && Blocks(net0, s, st, list0, roads0, cuts0)
    ensures Collected(st, u, graph.EndEdges(u), list) && Blocks(net0, s, st, list, roads, cuts)
  {
    list, roads, cuts := list0, roads0, cuts0;
    for e := graph.BeginEdges(u) to graph.EndEdges(u)
      invariant Collected(st, u, e, list) && Blocks(net0, s, st, list, roads, cuts)
    {
      assert GC.HoldsRoad(graph.edgeList, st.net, st.slots, u, e);
      var v := graph.edgeList[e].target;
      ghost var l := Key(u, v);
      assert GC.HasSlot(graph.nodeArray, graph.edgeList, st.slots, l) && Flip(l) in st.net;
      var segments: seq<Segment> := [];
      ghost var k := l;
      if u < v {
        if graph.edgeList[e].data.reversed {
          segments := InsertEdgeBasedNode(graph, container, v, u, net0, s, st);
          k := Flip(l);
        } else {
          segments := InsertEdgeBasedNode(graph, container, u, v, net0, s, st);
        }
        if !Blocked(st.net, k) {
          AppendBlock(net0, s, st, list, roads, cuts, k, segments);
          roads, cuts := roads + [k], cuts + [|list + segments|];
        }
      }
      assert segments == [] ==> list + segments == list;
      CollectedStep(net0, s, st, u, e, list, l, k, segments);
      list := list + segments;
    }
  }

  lemma {:induction false} NothingYet(nodes: seq<DG.Node>, edges: seq<DG.Edge<Road>>, st: GC.State, e: nat)
    requires GC.Represents(nodes, edges, st.net, st.slots) && Simple(st.net)
             && (|nodes| > 1 ==> e <= nodes[0].firstEdge)
    ensures Collected(st, 0, e, [])
  {
    forall o
      ensures !Inserted(st, 0, e, o)
    {
      forall k | Chosen(st.net, k)
        ensures !Visited(st.slots, Low(k), 0, e)
      {
        assert GC.HasSlot(nodes, edges, st.slots, Low(k));
      }
    }
  }

  /** Which slots of a node count does not matter between two nodes. */
  lemma {:induction false} NextNode(nodes: seq<DG.Node>, edges: seq<DG.Edge<Road>>, st: GC.State, u: nat, e: nat,
                                    e': nat, list: seq<Segment>)
    requires GC.Represents(nodes, edges, st.net, st.slots) && u + 1 < |nodes| && Simple(st.net)
             && Collected(st, u, e, list)
    requires e == nodes[u].firstEdge + nodes[u].edges
    requires u + 2 < |nodes| ==> e' <= nodes[u + 1].firstEdge
    requires u + 2 >= |nodes| ==> e' == 0
    ensures Collected(st, u + 1, e', list)
  {
    forall o
      ensures Inserted(st, u + 1, e', o) <==> Inserted(st, u, e, o)
    {
      if Inserted(st, u + 1, e', o) {
        var k, i :| Chosen(st.net, k) && Visited(st.slots, Low(k), u + 1, e') && Lies(st.chains, k, i, o);
        assert GC.HasSlot(nodes, edges, st.slots, Low(k));
        assert Visited(st.slots, Low(k), u, e);
      }
      if Inserted(st, u, e, o) {
        var k, i :| Chosen(st.net, k) && Visited(st.slots, Low(k), u, e) && Lies(st.chains, k, i, o);
        assert Visited(st.slots, Low(k), u + 1, e');
      }
    }
    forall o
      ensures InList(list, o) <==> Inserted(st, u + 1, e', o)
    {
    }
  }

  /** GenerateEdgeExpandedNodes: the list holds the segments of one road after the other, and every original road
      that can be driven is one of them. */
  method GenerateEdgeExpandedNodes(graph: DG.DynamicGraph<Road>, container: CG.CompressedEdgeContainer,
                                   ghost net0: Links, ghost s: Signals, ghost st: GC.State)
      returns (list: seq<Segment>, ghost roads: seq<Key>, ghost cuts: seq<nat>)
    requires graph.Valid() && container.Valid() && GC.Represents(graph.nodeArray, graph.edgeList, st.net, st.slots)
    requires GC.Faithful(net0, s, st, container.Geometries()) && Partitions(net0, st.chains)
    ensures EachRoadOnce(net0, list) && Blocks(net0, s, st, list, roads, cuts)
    ensures forall r :: 0 <= r < |roads| ==> FromLowerEnd(st.net, roads[r])
  {
    list, roads, cuts := [], [], [0];
    var n := graph.numberOfNodes;
    NothingYet(graph.nodeArray, graph.edgeList, st, if 0 < n then graph.BeginEdges(0) else 0);
    for u := 0 to n
      invariant Collected(st, u, if u < n then graph.BeginEdges(u) else 0, list)
                && Blocks(net0, s, st, list, roads, cuts)
    {
      list, roads, cuts := InsertFrom(graph, container, u, list, net0, s, st, roads, cuts);
      NextNode(graph.nodeArray, graph.edgeList, st, u, graph.EndEdges(u),
               if u + 1 < n then graph.BeginEdges(u + 1) else 0, list);
    }
    forall k | k in st.net
      ensures k.from < n
    {
      assert GC.HasSlot(graph.nodeArray, graph.edgeList, st.slots, k);
    }
    AllInserted(net0, s, st, container.Geometries(), n, list);
    forall r | 0 <= r < |roads|
      ensures FromLowerEnd(st.net, roads[r])
    {
      assert Block(net0, s, st, list, roads, cuts, r);
      OneIsChosen(st.net, roads[r]);
    }
  }

  /** Compress the network, then lay out its roads. */
  method CompressAndExpand(graph: DG.DynamicGraph<Road>, restrictions: RM.RestrictionMap,
                           container: CG.CompressedEdgeContainer, barriers: set<nat>, s: Signals, ghost net0: Links,
                           ghost slots0: Slots)
      returns (list: seq<Segment>, ghost st: GC.State, ghost roads: seq<Key>, ghost cuts: seq<nat>)
    requires graph.Valid() && restrictions.Valid() && container.Valid() && s.penalty >= 0
    requires GC.Represents(graph.nodeArray, graph.edgeList, net0, slots0)
    requires GC.Original(net0, restrictions.RulesOf()) && container.Geometries() == map[]
    modifies graph, restrictions, container
    ensures EachRoadOnce(net0, list) && Blocks(net0, s, st, list, roads, cuts)
    ensures st.removed !! barriers && st.removed !! old(restrictions.vias)
  {
    ghost var vias, trace, steps := restrictions.vias, [], [];
    st, trace, steps := GC.Compress(graph, restrictions, container, barriers, s, net0, slots0);
    RunPartitions(net0, trace, steps, graph.numberOfNodes, graph.numberOfNodes, s, barriers, vias);
    list, roads, cuts := GenerateEdgeExpandedNodes(graph, container, net0, s, st);
  }
}
