/** Which turns of the compressed network become edges of the edge-based graph
    (extractor/edge_based_graph_factory.cpp, the loops of GenerateEdgeExpandedEdges). */
module TurnFilter {
  import opened Basics
  import opened RoadNetwork
  import opened RoadGeometry
  import opened DynamicGraphs
  import RM = RestrictionMaps
  import RC = RestrictionCarry
  import GC = GraphCompressor

  datatype TurnOf = TurnOf(u: nat, v: nat, w: nat)

  /** More than one road leaves v. */
  ghost predicate SeveralRoads(net: Links, v: nat) {
    exists k, l :: k in net && l in net && k != l && k.from == l.from == v
  }

  /** At a barrier one can only turn round, elsewhere only in a dead end. */
  ghost predicate PassesBarrier(net: Links, barriers: set<nat>, t: TurnOf) {
    if t.v in barriers then t.u == t.w else t.u == t.w ==> !SeveralRoads(net, t.v)
  }

  /** What the filter asks of the restrictions: the forced turn if there is one, else no forbidden one. */
  ghost predicate PassesRules(rules: RM.Rules, t: TurnOf) {
    match RM.OnlyTurn(rules, t.u, t.v)
    case Some(only) => t.w == only
    case None => !RM.Forbidden(rules, t.u, t.v, t.w)
  }

  ghost predicate Usable(net: Links, a: nat, b: nat) {
    Key(a, b) in net && !net[Key(a, b)].reversed
  }

  /** The turn becomes an edge of the edge-based graph. */
  ghost predicate Generated(net: Links, barriers: set<nat>, rules: RM.Rules, t: TurnOf) {
    && Usable(net, t.u, t.v) && Usable(net, t.v, t.w)
    && PassesRules(rules, t) && PassesBarrier(net, barriers, t)
  }

  /** In settled buckets the two checks agree: a turn passes if it is not forbidden. */
  lemma {:induction false} PassesIsAllowed(rules: RM.Rules, t: TurnOf)
    requires Key(t.u, t.v) in rules ==> RC.Uniform(rules[Key(t.u, t.v)])
    ensures PassesRules(rules, t) <==> !RM.Forbidden(rules, t.u, t.v, t.w)
  {
    if Key(t.u, t.v) in rules && RM.OnlyTurn(rules, t.u, t.v).Some? {
      var bucket, only := rules[Key(t.u, t.v)], RM.OnlyTurn(rules, t.u, t.v).value;
      assert RM.Target(only, true) in bucket;
      assert bucket == [RM.Target(only, true)];
      assert t.w != only ==> RM.Blocks(bucket[0], t.w);
    }
  }

  /** What a list of turns promises, in terms of roads, barriers and restrictions: all of them lead over two roads
      open in that direction, none leads through a barrier, none turns round where another road leaves, none is
      forbidden, and no other turn over open roads is left out. */
  ghost predicate Complies(net: Links, barriers: set<nat>, rules: RM.Rules, turns: seq<TurnOf>) {
    && (forall t :: t in turns ==>
          && Key(t.u, t.v) in net && !net[Key(t.u, t.v)].reversed
          && Key(t.v, t.w) in net && !net[Key(t.v, t.w)].reversed)
    && (forall t :: t in turns && t.v in barriers ==> t.u == t.w)
    && (forall t, x :: t in turns && t.v !in barriers && t.u == t.w && Key(t.v, x) in net ==> x == t.w)
    && (forall t :: t in turns && (Key(t.u, t.v) in rules ==> RC.Uniform(rules[Key(t.u, t.v)])) ==>
          !RM.Forbidden(rules, t.u, t.v, t.w))
    && (forall t: TurnOf ::
          && Key(t.u, t.v) in net && !net[Key(t.u, t.v)].reversed
          && Key(t.v, t.w) in net && !net[Key(t.v, t.w)].reversed
          && !RM.Forbidden(rules, t.u, t.v, t.w)
          && (t.v in barriers ==> t.u == t.w)
          && (t.v !in barriers && t.u == t.w ==> forall x :: Key(t.v, x) in net ==> x == t.w) ==>
          t in turns)
  }

  /** The generated turns are such a list. */
  lemma {:induction false} GeneratedComplies(net: Links, barriers: set<nat>, rules: RM.Rules, turns: seq<TurnOf>)
    requires forall t :: t in turns <==> Generated(net, barriers, rules, t)
    ensures Complies(net, barriers, rules, turns)
  {
    forall t, x | t in turns && t.v !in barriers && t.u == t.w && Key(t.v, x) in net
      ensures x == t.w
    {
      assert x != t.w ==> SeveralRoads(net, t.v);
    }
    forall t | t in turns && (Key(t.u, t.v) in rules ==> RC.Uniform(rules[Key(t.u, t.v)]))
      ensures !RM.Forbidden(rules, t.u, t.v, t.w)
    {
      PassesIsAllowed(rules, t);
    }
    forall t: TurnOf | Usable(net, t.u, t.v) && Usable(net, t.v, t.w) && !RM.Forbidden(rules, t.u, t.v, t.w)
      ensures PassesRules(rules, t)
    {
      AllowedPasses(rules, t);
    }
  }

  lemma {:induction false} AllowedPasses(rules: RM.Rules, t: TurnOf)
    requires !RM.Forbidden(rules, t.u, t.v, t.w)
    ensures PassesRules(rules, t)
  {
    if RM.OnlyTurn(rules, t.u, t.v).Some? {
      var bucket, only := rules[Key(t.u, t.v)], RM.OnlyTurn(rules, t.u, t.v).value;
      var i :| 0 <= i < |bucket| && bucket[i] == RM.Target(only, true);
      assert !RM.Blocks(bucket[i], t.w);
    }
  }

  // ----- the same turns as before compression ------------------------------------------------

  /** The turn over original roads that a turn over compressed roads stands for. */
  ghost function OriginalTurn(chains: Chains, t: TurnOf): TurnOf
    requires Key(t.v, t.u) in chains && Key(t.v, t.w) in chains
  {
    TurnOf(First(chains, Key(t.v, t.u)), t.v, First(chains, Key(t.v, t.w)))
  }

  /** The first original road of a compressed one is usable in the same direction. */
  lemma {:induction false} FirstRoadOf(net0: Links, s: Signals, removed: set<nat>, net: Links, chains: Chains, k: Key)
    requires Compressed(net0, s, removed, net, chains) && k in net
    ensures Key(k.from, First(chains, k)) in net0 && net0[Key(k.from, First(chains, k))].reversed == net[k].reversed
  {
    assert GoodLink(net0, s, removed, k, chains[k], net[k]);
    var p := PathOf(k, chains[k]);
    assert Hop(p, 0) == Key(k.from, First(chains, k));
  }

  lemma {:induction false} LastRoadOf(net0: Links, s: Signals, removed: set<nat>, net: Links, chains: Chains, k: Key)
    requires Compressed(net0, s, removed, net, chains) && k in net
    ensures Flip(k) in net && Key(First(chains, Flip(k)), k.to) in net0
    ensures net0[Key(First(chains, Flip(k)), k.to)].reversed == net[k].reversed
  {
    assert GoodLink(net0, s, removed, k, chains[k], net[k]) && Mirrored(net, chains, k);
    var p := PathOf(k, chains[k]);
    assert Hop(p, |p| - 2) == Key(First(chains, Flip(k)), k.to);
  }

  /** A surviving node has as many roads as ever. */
  lemma {:induction false} SameDegree(net0: Links, s: Signals, removed: set<nat>, net: Links, chains: Chains, v: nat)
    requires Compressed(net0, s, removed, net, chains) && v !in removed
    ensures SeveralRoads(net, v) <==> SeveralRoads(net0, v)
  {
    if SeveralRoads(net, v) {
      var k, l :| k in net && l in net && k != l && k.from == l.from == v;
      FirstRoadOf(net0, s, removed, net, chains, k);
      FirstRoadOf(net0, s, removed, net, chains, l);
      assert Key(v, First(chains, k)) != Key(v, First(chains, l));
    }
    if SeveralRoads(net0, v) {
      var k, l :| k in net0 && l in net0 && k != l && k.from == l.from == v;
      assert Covers(net, chains, k) && Covers(net, chains, l);
      var k', l' :| k' in net && k'.from == v && First(chains, k') == k.to && l' in net && l'.from == v
                    && First(chains, l') == l.to;
      assert k' != l';
    }
  }

  /** Whether the original turn has both of its roads, in the right direction, and passes the barrier test. */
  lemma {:induction false} SamePassage(net0: Links, s: Signals, removed: set<nat>, net: Links, chains: Chains,
                                       barriers: set<nat>, t: TurnOf)
    requires Compressed(net0, s, removed, net, chains) && Key(t.u, t.v) in net && Key(t.v, t.w) in net
    ensures Key(t.v, t.u) in net
    ensures var t0 := OriginalTurn(chains, t);
            && (Usable(net, t.u, t.v) <==> Usable(net0, t0.u, t0.v))
            && (Usable(net, t.v, t.w) <==> Usable(net0, t0.v, t0.w))
            && (PassesBarrier(net, barriers, t) <==> PassesBarrier(net0, barriers, t0))
  {
    var k, l := Key(t.u, t.v), Key(t.v, t.w);
    LastRoadOf(net0, s, removed, net, chains, k);
    FirstRoadOf(net0, s, removed, net, chains, l);
    assert GoodLink(net0, s, removed, k, chains[k], net[k]);
    SameDegree(net0, s, removed, net, chains, t.v);
  }

  ghost function OriginalTurnOf(st: GC.State, t: TurnOf): TurnOf {
    if Key(t.v, t.u) in st.chains && Key(t.v, t.w) in st.chains then OriginalTurn(st.chains, t) else t
  }

  /** The turn is generated exactly when the original one would have been. */
  ghost predicate SameAnswer(net0: Links, barriers: set<nat>, rules0: RM.Rules, st: GC.State, t: TurnOf) {
    Generated(st.net, barriers, st.rules, t) <==> Generated(net0, barriers, rules0, OriginalTurnOf(st, t))
  }

  /** A turn is generated from the compressed network exactly when the original turn at that node is
      generated from the original one, as far as the restrictions from its first road are carried. */
  lemma {:induction false} SameGenerated(net0: Links, s: Signals, rules0: RM.Rules, st: GC.State, g: GC.CG.Geometry,
                                         barriers: set<nat>, t: TurnOf)
    requires GC.Faithful(net0, s, st, g) && Key(t.u, t.v) in st.net && Key(t.v, t.w) in st.net
    requires Key(t.v, t.u) in st.net ==> RC.CarriedAt(st.net, st.chains, rules0, st.rules, Key(t.u, t.v))
    ensures Key(t.v, t.u) in st.net && SameAnswer(net0, barriers, rules0, st, t)
  {
    SamePassage(net0, s, st.removed, st.net, st.chains, barriers, t);
    SameRules(st.net, st.chains, rules0, st.rules, t);
  }

  lemma {:induction false} SameRules(net: Links, chains: Chains, rules0: RM.Rules, rules: RM.Rules, t: TurnOf)
    requires chains.Keys == net.Keys && DistinctFirsts(net, chains)
    requires Key(t.u, t.v) in net && Key(t.v, t.u) in net && Key(t.v, t.w) in net
    requires RC.CarriedAt(net, chains, rules0, rules, Key(t.u, t.v))
    ensures PassesRules(rules, t) <==> PassesRules(rules0, OriginalTurn(chains, t))
  {
    RC.SameTurns(net, chains, rules0, rules, t.u, t.v, t.w);
    RC.SameOnlyTurn(net, chains, rules0, rules, t.u, t.v);
  }

  // ----- the loops -------------------------------------------------------------------------------

  /** GetOutDegree counts the roads. */
  lemma {:induction false} DegreeIsRoads(nodes: seq<Node>, list: seq<Edge<Road>>, net: Links, slots: Slots, v: nat)
    requires GC.Represents(nodes, list, net, slots) && v + 1 < |nodes|
    ensures nodes[v].edges > 1 <==> SeveralRoads(net, v)
  {
    if nodes[v].edges > 1 {
      var i := nodes[v].firstEdge;
      assert GC.HoldsRoad(list, net, slots, v, i) && GC.HoldsRoad(list, net, slots, v, i + 1);
      assert Key(v, list[i].target) != Key(v, list[i + 1].target);
    }
    if SeveralRoads(net, v) {
      var k, l :| k in net && l in net && k != l && k.from == l.from == v;
      assert GC.HasSlot(nodes, list, slots, k) && GC.HasSlot(nodes, list, slots, l);
      assert slots[k] != slots[l];
    }
  }

  /** Whether one turn over two usable roads passes the filter. */
  method TurnPasses(graph: DynamicGraph<Road>, restrictions: RM.RestrictionMap, barriers: set<nat>, only: Option<nat>,
                    t: TurnOf, ghost net: Links, ghost slots: Slots)
      returns (ok: bool)
    requires graph.Valid() && restrictions.Valid() && GC.Represents(graph.nodeArray, graph.edgeList, net, slots)
    requires t.v < graph.numberOfNodes && only == RM.OnlyTurn(restrictions.RulesOf(), t.u, t.v)
    ensures ok <==> PassesRules(restrictions.RulesOf(), t) && PassesBarrier(net, barriers, t)
  {
    DegreeIsRoads(graph.nodeArray, graph.edgeList, net, slots, t.v);
    if only.Some? && t.w != only.value {
      return false;
    }
    if t.v in barriers {
      if t.u != t.w {
        return false;
      }
    } else {
      if t.u == t.w && graph.nodeArray[t.v].edges > 1 {
        return false;
      }
    }
    var restricted := restrictions.CheckIfTurnIsRestricted(t.u, t.v, t.w);
    ok := !(restricted && only.None?);
  }

  ghost predicate Once(turns: seq<TurnOf>) {
    forall i, j :: 0 <= i < j < |turns| ==> turns[i] != turns[j]
  }

  lemma {:induction false} OnceAppend(turns: seq<TurnOf>, more: seq<TurnOf>)
    requires Once(turns) && Once(more) && forall t :: t in turns ==> t !in more
    ensures Once(turns + more)
  {
    var all := turns + more;
    forall i, j | 0 <= i < j < |all|
      ensures all[i] != all[j]
    {
      if i < |turns| <= j {
        assert all[i] in turns && all[j] in more;
      }
    }
  }

  /** No two slots of a node lead to the same node. */
  lemma {:induction false} TargetsDiffer(nodes: seq<Node>, list: seq<Edge<Road>>, net: Links, slots: Slots, v: nat,
                                         edges: seq<Edge<Road>>)
    requires GC.Represents(nodes, list, net, slots) && v + 1 < |nodes| && |edges| == nodes[v].edges
    requires nodes[v].firstEdge + |edges| <= |list|
    requires forall i :: 0 <= i < |edges| ==> edges[i] == list[nodes[v].firstEdge + i]
    ensures forall i, j :: 0 <= i < j < |edges| ==> edges[i].target != edges[j].target
  {
    var first := nodes[v].firstEdge;
    forall i, j | 0 <= i < j < |edges|
      ensures edges[i].target != edges[j].target
    {
      assert GC.HoldsRoad(list, net, slots, v, first + i) && GC.HoldsRoad(list, net, slots, v, first + j);
    }
  }

  ghost predicate LeadsTo(edges: seq<Edge<Road>>, w: nat) {
    exists i :: 0 <= i < |edges| && edges[i].target == w
  }

  /** The turns from one road, among the first slots of its target. */
  ghost predicate Listed(net: Links, barriers: set<nat>, rules: RM.Rules, u: nat, v: nat, edges: seq<Edge<Road>>,
                         turns: seq<TurnOf>) {
    Once(turns) && forall t :: t in turns <==>
      t.u == u && t.v == v && Generated(net, barriers, rules, t) && LeadsTo(edges, t.w)
  }

  method TurnsFrom(graph: DynamicGraph<Road>, restrictions: RM.RestrictionMap, barriers: set<nat>, u: nat, v: nat,
                   ghost net: Links, ghost slots: Slots) returns (turns: seq<TurnOf>)
    requires graph.Valid() && restrictions.Valid() && GC.Represents(graph.nodeArray, graph.edgeList, net, slots)
    requires v < graph.numberOfNodes && Usable(net, u, v)
    ensures forall t :: t in turns <==> t.u == u && t.v == v && Generated(net, barriers, restrictions.RulesOf(), t)
    ensures Once(turns)
  {
    turns := [];
    var only := restrictions.CheckForEmanatingIsOnlyTurn(u, v);
    var edges := graph.Edges(v);
    TargetsDiffer(graph.nodeArray, graph.edgeList, net, slots, v, edges);
    ghost var rules := restrictions.RulesOf();
    for k := 0 to |edges|
      invariant Listed(net, barriers, rules, u, v, edges[..k], turns)
    {
      assert GC.HoldsRoad(graph.edgeList, net, slots, v, graph.BeginEdges(v) + k);
      ghost var before := turns;
      turns := TurnOver(graph, restrictions, barriers, only, u, v, edges[k], turns, net, slots);
      ListedStep(net, barriers, rules, u, v, edges, k, before, turns);
    }
    assert edges[..|edges|] == edges;
    ListedAll(graph.nodeArray, graph.edgeList, net, slots, barriers, rules, u, v, edges, turns);
  }

  /** The turn from one road into another. */
  method TurnOver(graph: DynamicGraph<Road>, restrictions: RM.RestrictionMap, barriers: set<nat>, only: Option<nat>,
                  u: nat, v: nat, edge: Edge<Road>, before: seq<TurnOf>, ghost net: Links, ghost slots: Slots)
      returns (turns: seq<TurnOf>)
    requires graph.Valid() && restrictions.Valid() && GC.Represents(graph.nodeArray, graph.edgeList, net, slots)
    requires v < graph.numberOfNodes && Usable(net, u, v) && only == RM.OnlyTurn(restrictions.RulesOf(), u, v)
    requires Key(v, edge.target) in net && net[Key(v, edge.target)] == edge.data
    ensures var t := TurnOf(u, v, edge.target);
            turns == if Generated(net, barriers, restrictions.RulesOf(), t) then before + [t] else before
  {
    var t := TurnOf(u, v, edge.target);
    turns := before;
    if !edge.data.reversed {
      var ok := TurnPasses(graph, restrictions, barriers, only, t, net, slots);
      if ok {
        turns := turns + [t];
      }
    }
  }

  lemma {:induction false} ListedAll(nodes: seq<Node>, list: seq<Edge<Road>>, net: Links, slots: Slots,
                                     barriers: set<nat>, rules: RM.Rules, u: nat, v: nat, edges: seq<Edge<Road>>,
                                     turns: seq<TurnOf>)
    requires GC.Represents(nodes, list, net, slots) && v + 1 < |nodes| && |edges| == nodes[v].edges
    requires nodes[v].firstEdge + |edges| <= |list|
    requires forall i :: 0 <= i < |edges| ==> edges[i] == list[nodes[v].firstEdge + i]
    requires Listed(net, barriers, rules, u, v, edges, turns)
    ensures forall t :: t in turns <==> t.u == u && t.v == v && Generated(net, barriers, rules, t)
  {
    forall t: TurnOf | t.u == u && t.v == v && Generated(net, barriers, rules, t)
      ensures LeadsTo(edges, t.w)
    {
      var l := Key(v, t.w);
      assert GC.HasSlot(nodes, list, slots, l);
      assert edges[slots[l] - nodes[v].firstEdge].target == t.w;
    }
  }

  lemma {:induction false} ListedStep(net: Links, barriers: set<nat>, rules: RM.Rules, u: nat, v: nat,
                                      edges: seq<Edge<Road>>, k: nat, before: seq<TurnOf>, turns: seq<TurnOf>)
    requires k < |edges| && Listed(net, barriers, rules, u, v, edges[..k], before)
    requires forall i :: 0 <= i < k ==> edges[i].target != edges[k].target
    requires var t := TurnOf(u, v, edges[k].target);
             turns == if Generated(net, barriers, rules, t) then before + [t] else before
    ensures Listed(net, barriers, rules, u, v, edges[..k + 1], turns)
  {
    var x := TurnOf(u, v, edges[k].target);
    if Generated(net, barriers, rules, x) {
      OnceAppend(before, [x]);
    }
    assert edges[..k + 1] == edges[..k] + [edges[k]];
    forall t
      ensures t in turns <==>
              t.u == u && t.v == v && Generated(net, barriers, rules, t) && LeadsTo(edges[..k + 1], t.w)
    {
      if LeadsTo(edges[..k], t.w) {
        var i :| 0 <= i < k && edges[..k][i].target == t.w;
        assert edges[..k + 1][i].target == t.w;
      }
      assert edges[..k + 1][k].target == x.w;
      assert t in turns <==> t in before || (t == x && Generated(net, barriers, rules, x));
    }
  }

  /** The loops over all roads and the roads that continue them: exactly the turns of the network that
      pass the filter. */
  method GenerateTurns(graph: DynamicGraph<Road>, restrictions: RM.RestrictionMap, barriers: set<nat>, ghost net: Links,
                       ghost slots: Slots)
      returns (turns: seq<TurnOf>)
    requires graph.Valid() && restrictions.Valid() && GC.Represents(graph.nodeArray, graph.edgeList, net, slots)
    ensures forall t :: t in turns <==> Generated(net, barriers, restrictions.RulesOf(), t)
    ensures Complies(net, barriers, restrictions.RulesOf(), turns) && Once(turns)
  {
    turns := [];
    ghost var rules := restrictions.RulesOf();
    for u := 0 to graph.numberOfNodes
      invariant forall t :: t in turns <==> t.u < u && Generated(net, barriers, rules, t)
      invariant Once(turns)
    {
      var more := TurnsAt(graph, restrictions, barriers, u, net, slots);
      OnceAppend(turns, more);
      turns := turns + more;
    }
    forall t | Generated(net, barriers, rules, t)
      ensures t.u < graph.numberOfNodes
    {
      assert GC.HasSlot(graph.nodeArray, graph.edgeList, slots, Key(t.u, t.v));
    }
    GeneratedComplies(net, barriers, rules, turns);
  }

  method TurnsAt(graph: DynamicGraph<Road>, restrictions: RM.RestrictionMap, barriers: set<nat>, u: nat,
                 ghost net: Links, ghost slots: Slots)
      returns (turns: seq<TurnOf>)
    requires graph.Valid() && restrictions.Valid() && GC.Represents(graph.nodeArray, graph.edgeList, net, slots)
             && u < graph.numberOfNodes
    ensures forall t :: t in turns <==> t.u == u && Generated(net, barriers, restrictions.RulesOf(), t)
    ensures Once(turns)
  {
    turns := [];
    var edges := graph.Edges(u);
    TargetsDiffer(graph.nodeArray, graph.edgeList, net, slots, u, edges);
    ghost var rules := restrictions.RulesOf();
    for k := 0 to |edges|
      invariant forall t :: t in turns <==> t.u == u && Generated(net, barriers, rules, t) && exists i ::
                  0 <= i < k && edges[i].target == t.v
      invariant Once(turns)
    {
      assert GC.HoldsRoad(graph.edgeList, net, slots, u, graph.BeginEdges(u) + k);
      if !edges[k].data.reversed {
        var v := edges[k].target;
        assert GC.HasSlot(graph.nodeArray, graph.edgeList, slots, Key(u, v));
        var more := TurnsFrom(graph, restrictions, barriers, u, v, net, slots);
        OnceAppend(turns, more);
        turns := turns + more;
      }
    }
    forall t: TurnOf | t.u == u && Generated(net, barriers, rules, t)
      ensures exists i :: 0 <= i < |edges| && edges[i].target == t.v
    {
      var l := Key(u, t.v);
      assert GC.HasSlot(graph.nodeArray, graph.edgeList, slots, l);
      assert edges[slots[l] - graph.BeginEdges(u)].target == t.v;
    }
  }

  // ----- compression and filter together ------------------------------------------------------------

  /** Every original turn at a surviving node is still there. */
  lemma {:induction false} TurnSurvives(net0: Links, s: Signals, removed: set<nat>, net: Links, chains: Chains,
                                        t0: TurnOf)
      returns (t: TurnOf)
    requires Compressed(net0, s, removed, net, chains) && t0.v !in removed
    requires Key(t0.u, t0.v) in net0 && Key(t0.v, t0.w) in net0
    ensures Key(t.u, t.v) in net && Key(t.v, t.u) in net && Key(t.v, t.w) in net && OriginalTurn(chains, t) == t0
  {
    assert Flip(Key(t0.u, t0.v)) in net0;
    assert Covers(net, chains, Key(t0.v, t0.u)) && Covers(net, chains, Key(t0.v, t0.w));
    var k :| k in net && k.from == t0.v && First(chains, k) == t0.u;
    var l :| l in net && l.from == t0.v && First(chains, l) == t0.w;
    assert Flip(k) in net;
    t := TurnOf(k.to, t0.v, l.to);
  }

  /** The turns of the compressed network are the original ones at surviving nodes, one for one. */
  ghost predicate SameTurns(net0: Links, barriers: set<nat>, rules0: RM.Rules, st: GC.State, turns: seq<TurnOf>) {
    && (forall t :: t in turns ==>
          Key(t.v, t.u) in st.chains && Key(t.v, t.w) in st.chains
          && Generated(net0, barriers, rules0, OriginalTurn(st.chains, t)))
    && (forall t0 :: Generated(net0, barriers, rules0, t0) && t0.v !in st.removed ==> StandsIn(st, turns, t0))
    && (forall t, t' :: t in turns && t' in turns && OriginalTurnOf(st, t) == OriginalTurnOf(st, t') ==> t == t')
  }

  ghost predicate StandsIn(st: GC.State, turns: seq<TurnOf>, t0: TurnOf) {
    exists t :: t in turns && OriginalTurnOf(st, t) == t0
  }

  lemma {:induction false} DistinctOriginals(net0: Links, s: Signals, st: GC.State, g: GC.CG.Geometry, t: TurnOf,
                                             t': TurnOf)
    requires GC.Faithful(net0, s, st, g) && OriginalTurnOf(st, t) == OriginalTurnOf(st, t')
    requires Key(t.v, t.u) in st.net && Key(t.v, t.w) in st.net && Key(t'.v, t'.u) in st.net
             && Key(t'.v, t'.w) in st.net
    ensures t == t'
  {
    assert First(st.chains, Key(t.v, t.u)) == First(st.chains, Key(t'.v, t'.u)) && t.v == t'.v;
  }

  /** All turns over roads of the compressed network. */
  ghost predicate SameAnswers(net0: Links, barriers: set<nat>, rules0: RM.Rules, st: GC.State) {
    forall t: TurnOf {:trigger SameAnswer(net0, barriers, rules0, st, t)} ::
      Key(t.u, t.v) in st.net && Key(t.v, t.w) in st.net ==> SameAnswer(net0, barriers, rules0, st, t)
  }

  lemma {:induction false} FilteredTurns(net0: Links, s: Signals, rules0: RM.Rules, st: GC.State, g: GC.CG.Geometry,
                                         barriers: set<nat>, turns: seq<TurnOf>)
    requires GC.Faithful(net0, s, st, g) && SameAnswers(net0, barriers, rules0, st)
    requires forall t :: t in turns <==> Generated(st.net, barriers, st.rules, t)
    ensures SameTurns(net0, barriers, rules0, st, turns)
  {
    forall t | t in turns
      ensures Key(t.v, t.u) in st.chains && Key(t.v, t.w) in st.chains
      ensures Generated(net0, barriers, rules0, OriginalTurn(st.chains, t))
    {
      assert Flip(Key(t.u, t.v)) in st.net;
      assert SameAnswer(net0, barriers, rules0, st, t);
    }
    forall t0 | Generated(net0, barriers, rules0, t0) && t0.v !in st.removed
      ensures StandsIn(st, turns, t0)
    {
      var t := TurnSurvives(net0, s, st.removed, st.net, st.chains, t0);
      assert SameAnswer(net0, barriers, rules0, st, t);
    }
    forall t, t' | t in turns && t' in turns && OriginalTurnOf(st, t) == OriginalTurnOf(st, t')
      ensures t == t'
    {
      DistinctOriginals(net0, s, st, g, t, t');
    }
  }
}
