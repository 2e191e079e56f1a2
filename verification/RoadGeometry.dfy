/** The compressed geometries describe the chains of removed nodes, edge by edge, and their weights
    account for the distances of the roads. */
module RoadGeometry {
  import opened RoadNetwork
  import G = CompressedGeometry

  /** The edge id under which each road is stored. */
  type Slots = map<Key, nat>

  /** The segments run through the nodes of the chain and end at `to`. */
  ghost predicate Through(chain: seq<nat>, to: nat, b: seq<G.GeoNode>) {
    && |b| == |chain| + 1
    && forall i :: 0 <= i < |b| ==> b[i].node == if i < |chain| then chain[i] else to
  }

  function Weight(b: seq<G.GeoNode>): int {
    if b == [] then 0 else Weight(b[..|b| - 1]) + b[|b| - 1].weight
  }

  lemma {:induction false} WeightJoin(a: seq<G.GeoNode>, b: seq<G.GeoNode>)
    ensures Weight(a + b) == Weight(a) + Weight(b)
    decreases |b|
  {
    if b == [] {
      assert a + b == a;
    } else {
      WeightJoin(a, b[..|b| - 1]);
      assert (a + b)[..|a + b| - 1] == a + b[..|b| - 1];
    }
  }

  lemma {:induction false} ThroughJoin(c1: seq<nat>, v: nat, a: seq<G.GeoNode>, c2: seq<nat>, to: nat,
                                       b: seq<G.GeoNode>)
    requires Through(c1, v, a) && Through(c2, to, b)
    ensures Through(c1 + [v] + c2, to, a + b)
  {
    var c := c1 + [v] + c2;
    forall i | 0 <= i < |a + b|
      ensures (a + b)[i].node == if i < |c| then c[i] else to
    {
      if i >= |a| {
        assert (a + b)[i] == b[i - |a|];
      }
    }
  }

  /** The segments of a road; one that was never compressed is its own segment. */
  function Segments(g: G.Geometry, slot: nat, k: Key, road: Road): seq<G.GeoNode> {
    if slot in g then g[slot] else [G.GeoNode(k.to, road.distance)]
  }

  ghost predicate Clear(s: Signals, chain: seq<nat>) {
    forall v :: v in chain ==> v !in s.lights
  }

  /** Positive segments through the chain to k.to, together at most `distance` long, and exactly that
      when no removed node is a traffic light. */
  ghost predicate Fits(s: Signals, chain: seq<nat>, to: nat, b: seq<G.GeoNode>, distance: int) {
    FitsIf(Clear(s, chain), chain, to, b, distance)
  }

  ghost predicate FitsIf(exact: bool, chain: seq<nat>, to: nat, b: seq<G.GeoNode>, distance: int) {
    && Through(chain, to, b)
    && (forall i :: 0 <= i < |b| ==> b[i].weight > 0)
    && Weight(b) <= distance
    && (exact ==> Weight(b) == distance)
  }

  ghost predicate MatchesAt(net: Links, chains: Chains, s: Signals, slots: Slots, g: G.Geometry, k: Key)
    requires k in net && k in chains && k in slots
  {
    && (slots[k] in g <==> chains[k] != [])
    && Fits(s, chains[k], k.to, Segments(g, slots[k], k, net[k]), net[k].distance)
  }

  ghost predicate Owned(slots: Slots, e: nat) {
    exists k :: k in slots && slots[k] == e
  }

  ghost predicate Matches(net: Links, chains: Chains, s: Signals, slots: Slots, g: G.Geometry) {
    && chains.Keys == net.Keys && slots.Keys == net.Keys
    && (forall k, l :: k in slots && l in slots && slots[k] == slots[l] ==> k == l)
    && (forall k {:trigger MatchesAt(net, chains, s, slots, g, k)} ::
          k in net ==> MatchesAt(net, chains, s, slots, g, k))
    && (forall e {:trigger Owned(slots, e)} :: e in g ==> Owned(slots, e))
  }

  lemma {:induction false} OneSegment(exact: bool, to: nat, distance: int)
    requires distance > 0
    ensures FitsIf(exact, [], to, [G.GeoNode(to, distance)], distance)
  {
    var b := [G.GeoNode(to, distance)];
    assert b[..0] == [];
  }

  lemma {:induction false} StartMatchesAt(net0: Links, chains: Chains, s: Signals, slots: Slots, k: Key)
    requires k in net0 && k in chains && k in slots && chains[k] == [] && net0[k].distance > 0
    ensures MatchesAt(net0, chains, s, slots, map[], k)
  {
    OneSegment(Clear(s, []), k.to, net0[k].distance);
  }

  lemma {:induction false} StartMatchesAll(net0: Links, chains: Chains, s: Signals, slots: Slots)
    requires slots.Keys == net0.Keys == chains.Keys
             && (forall k, l :: k in slots && l in slots && slots[k] == slots[l] ==> k == l)
    requires forall k :: k in net0 ==> net0[k].distance > 0 && chains[k] == []
    ensures Matches(net0, chains, s, slots, map[])
  {
    forall k | k in net0
      ensures MatchesAt(net0, chains, s, slots, map[], k)
    {
      StartMatchesAt(net0, chains, s, slots, k);
    }
  }

  /** At first every road is its own segment. */
  lemma {:induction false} StartMatches(net0: Links, s: Signals, slots: Slots)
    requires slots.Keys == net0.Keys && forall k, l :: k in slots && l in slots && slots[k] == slots[l] ==> k == l
    requires forall k :: k in net0 ==> net0[k].distance > 0
    ensures Matches(net0, map k | k in net0 :: [], s, slots, map[])
  {
    StartMatchesAll(net0, map k | k in net0 :: [], s, slots);
  }

  // ----- the two directions mirror each other --------------------------------------

  /** The geometry of the opposite road runs through the same nodes backwards, one place on: it ends
      where this one starts. */
  lemma {:induction false} MirrorNodes(f: seq<G.GeoNode>, r: seq<G.GeoNode>, chain: seq<nat>, from: nat, to: nat,
                                       i: nat)
    requires Through(chain, to, f) && Through(Rev(chain), from, r) && i <= |chain|
    ensures |f| == |r| == |chain| + 1
    ensures f[i].node == (if i == |chain| then to else chain[i])
    ensures r[|r| - 1 - i].node == (if i == 0 then from else f[i - 1].node)
  {
  }

  // ----- one compression step ------------------------------------------------------

  function ContractedSlots(slots: Slots, u: nat, v: nat, w: nat): Slots
    requires Key(u, v) in slots && Key(w, v) in slots
  {
    (map k | k in slots && k.from != v && k.to != v ::
       slots[k])[Key(u, w) := slots[Key(u, v)]][Key(w, u) := slots[Key(w, v)]]
  }

  /** The two calls of CompressEdge in one step. */
  function ContractedGeometry(g: G.Geometry, net: Links, s: Signals, slots: Slots, u: nat, v: nat, w: nat): G.Geometry
    requires slots.Keys == net.Keys
    requires Key(u, v) in net && Key(v, w) in net && Key(w, v) in net && Key(v, u) in net
  {
    var penalty := SignalCost(s, v);
    var forward := G.Compressed(g, slots[Key(u, v)], slots[Key(v, w)], v, w,
                                net[Key(u, v)].distance + penalty, net[Key(v, w)].distance);
    G.Compressed(forward, slots[Key(w, v)], slots[Key(v, u)], v, u,
                 net[Key(w, v)].distance, net[Key(v, u)].distance + penalty)
  }

  lemma {:induction false} FitsJoin(x: bool, c1: seq<nat>, v: nat, a: seq<G.GeoNode>, d1: int, y: bool, c2: seq<nat>,
                                    to: nat, b: seq<G.GeoNode>, d2: int)
    requires FitsIf(x, c1, v, a, d1) && FitsIf(y, c2, to, b, d2)
    ensures FitsIf(x && y, c1 + [v] + c2, to, a + b, d1 + d2)
  {
    WeightJoin(a, b);
    ThroughJoin(c1, v, a, c2, to, b);
  }

  /** Making room for a signal penalty: a road that is its own segment takes it, another one falls
      short of it. */
  lemma {:induction false} FitsPenalty(exact: bool, chain: seq<nat>, to: nat, b: seq<G.GeoNode>, distance: int,
                                       extra: int, b': seq<G.GeoNode>)
    requires FitsIf(exact, chain, to, b, distance) && extra >= 0
    requires b' == if chain == [] then [G.GeoNode(to, distance + extra)] else b
    ensures FitsIf(exact && extra == 0, chain, to, b', distance + extra)
  {
    if chain == [] {
      assert b'[..0] == [];
      assert b[..0] == [];
      assert b[0].weight > 0 && Weight(b) == Weight(b[..0]) + b[0].weight;
    }
  }

  /** The merged geometry fits the merged road. */
  lemma {:induction false} MergedFits(s: Signals, c1: seq<nat>, v: nat, c2: seq<nat>, to: nat, a: seq<G.GeoNode>,
                                      b: seq<G.GeoNode>, a': seq<G.GeoNode>, b': seq<G.GeoNode>, d1: int, d2: int,
                                      extra1: int, extra2: int)
    requires Fits(s, c1, v, a, d1) && Fits(s, c2, to, b, d2)
    requires extra1 >= 0 && extra2 >= 0 && extra1 + extra2 == SignalCost(s, v)
    requires a' == if c1 == [] then [G.GeoNode(v, d1 + extra1)] else a
    requires b' == if c2 == [] then [G.GeoNode(to, d2 + extra2)] else b
    ensures Fits(s, c1 + [v] + c2, to, a' + b', d1 + d2 + SignalCost(s, v))
  {
    FitsPenalty(Clear(s, c1), c1, v, a, d1, extra1, a');
    FitsPenalty(Clear(s, c2), c2, to, b, d2, extra2, b');
    FitsJoin(Clear(s, c1) && extra1 == 0, c1, v, a', d1 + extra1, Clear(s, c2) && extra2 == 0, c2, to, b', d2 + extra2);
    ClearJoin(s, c1, v, c2);
  }

  lemma {:induction false} ClearJoin(s: Signals, c1: seq<nat>, v: nat, c2: seq<nat>)
    ensures Clear(s, c1 + [v] + c2) ==> Clear(s, c1) && Clear(s, c2) && SignalCost(s, v) == 0
  {
    var c := c1 + [v] + c2;
    assert c[|c1|] == v;
    assert forall i :: 0 <= i < |c1| ==> c[i] == c1[i];
    assert forall i :: 0 <= i < |c2| ==> c[|c1| + 1 + i] == c2[i];
  }

  // ----- the step keeps the match ----------------------------------------------------

  /** The merged segments of u-v-w, with the shares of the penalty that single segments take. */
  function Merging(g: G.Geometry, net: Links, slots: Slots, u: nat, v: nat, w: nat, extra1: int,
                   extra2: int): seq<G.GeoNode>
    requires Key(u, v) in net && Key(v, w) in net && slots.Keys == net.Keys
  {
    G.Opened(g, slots[Key(u, v)], v, net[Key(u, v)].distance + extra1) +
    (if slots[Key(v, w)] in g then g[slots[Key(v, w)]] else [G.GeoNode(w, net[Key(v, w)].distance + extra2)])
  }

  /** The geometry after both calls, edge by edge. */
  lemma {:induction false} ContractedGeometryAt(g: G.Geometry, net: Links, s: Signals, slots: Slots, u: nat, v: nat,
                                                w: nat, e: nat)
    requires slots.Keys == net.Keys && Contractible(net, u, v, w)
    requires forall k, l :: k in slots && l in slots && slots[k] == slots[l] ==> k == l
    ensures var g', p := ContractedGeometry(g, net, s, slots, u, v, w), SignalCost(s, v);
            && (e in g' <==>
                  || e == slots[Key(u, v)] || e == slots[Key(w, v)]
                  || (e in g && e != slots[Key(v, w)] && e != slots[Key(v, u)]))
            && (e == slots[Key(u, v)] ==> g'[e] == Merging(g, net, slots, u, v, w, p, 0))
            && (e == slots[Key(w, v)] ==> g'[e] == Merging(g, net, slots, w, v, u, 0, p))
            && (e in g' && e != slots[Key(u, v)] && e != slots[Key(w, v)] ==> g'[e] == g[e])
  {
    var a, b, c, d := slots[Key(u, v)], slots[Key(v, w)], slots[Key(w, v)], slots[Key(v, u)];
    assert a != b && a != c && a != d && b != c && b != d && c != d;
  }

  lemma {:induction false} StepOwned(g: G.Geometry, net: Links, s: Signals, slots: Slots, u: nat, v: nat, w: nat,
                                     e: nat)
    requires slots.Keys == net.Keys && Contractible(net, u, v, w)
    requires e in g ==> Owned(slots, e)
    requires e == slots[Key(u, v)] || e == slots[Key(w, v)]
             || (e in g && e != slots[Key(v, w)] && e != slots[Key(v, u)])
    ensures Owned(ContractedSlots(slots, u, v, w), e)
  {
    var slots' := ContractedSlots(slots, u, v, w);
    if e == slots[Key(u, v)] {
      assert slots'[Key(u, w)] == e;
    } else if e == slots[Key(w, v)] {
      assert slots'[Key(w, u)] == e;
    } else {
      var k :| k in slots && slots[k] == e;
      assert k.from == v ==> k == Key(v, k.to);
      assert k.to == v ==> Flip(k) in net && k == Key(k.from, v);
      assert slots'[k] == e;
    }
  }

  lemma {:induction false} StepInjective(net: Links, slots: Slots, u: nat, v: nat, w: nat)
    requires slots.Keys == net.Keys && Contractible(net, u, v, w)
    requires forall k, l :: k in slots && l in slots && slots[k] == slots[l] ==> k == l
    ensures var slots' := ContractedSlots(slots, u, v, w);
            forall k, l :: k in slots' && l in slots' && slots'[k] == slots'[l] ==> k == l
  {
    var slots' := ContractedSlots(slots, u, v, w);
    forall k | k in slots'
      ensures Before(k, u, v, w) in slots && slots'[k] == slots[Before(k, u, v, w)]
    {
    }
  }

  lemma {:induction false} StepMatchesAt(net: Links, chains: Chains, s: Signals, slots: Slots, g: G.Geometry, u: nat,
                                         v: nat, w: nat, k: Key)
    requires Matches(net, chains, s, slots, g) && Contractible(net, u, v, w) && s.penalty >= 0
    requires k in Contracted(net, s, u, v, w)
    ensures var net', chains', slots' := Contracted(net, s, u, v, w), ContractedChains(chains, u, v,
          w), ContractedSlots(slots, u, v, w);
            && k in chains' && k in slots'
               && MatchesAt(net', chains', s, slots', ContractedGeometry(g, net, s, slots, u, v, w), k)
  {
    var slots' := ContractedSlots(slots, u, v, w);
    ContractedGeometryAt(g, net, s, slots, u, v, w, slots'[k]);
    if k == Key(u, w) {
      assert MatchesAt(net, chains, s, slots, g, Key(u, v)) && MatchesAt(net, chains, s, slots, g, Key(v, w));
      MergedAt(net, chains, s, slots, g, u, v, w, SignalCost(s, v), 0);
    } else if k == Key(w, u) {
      assert MatchesAt(net, chains, s, slots, g, Key(w, v)) && MatchesAt(net, chains, s, slots, g, Key(v, u));
      MergedAt(net, chains, s, slots, g, w, v, u, 0, SignalCost(s, v));
    } else {
      assert MatchesAt(net, chains, s, slots, g, k);
      assert k.from != v && k.to != v;
      assert slots[k] != slots[Key(u, v)] && slots[k] != slots[Key(w, v)] && slots[k] != slots[Key(v, w)]
             && slots[k] != slots[Key(v, u)];
    }
  }

  lemma {:induction false} MergedAt(net: Links, chains: Chains, s: Signals, slots: Slots, g: G.Geometry, u: nat, v: nat,
                                    w: nat, extra1: int, extra2: int)
    requires chains.Keys == net.Keys == slots.Keys && Key(u, v) in net && Key(v, w) in net
    requires MatchesAt(net, chains, s, slots, g, Key(u, v)) && MatchesAt(net, chains, s, slots, g, Key(v, w))
    requires extra1 >= 0 && extra2 >= 0 && extra1 + extra2 == SignalCost(s, v)
    ensures Fits(s, MergedChain(chains, u, v, w), w, Merging(g, net, slots, u, v, w, extra1, extra2),
                 Merged(net, s, u, v, w).distance)
  {
    var k, l := Key(u, v), Key(v, w);
    var a, b := Segments(g, slots[k], k, net[k]), Segments(g, slots[l], l, net[l]);
    var a' := G.Opened(g, slots[k], v, net[k].distance + extra1);
    var b' := if slots[l] in g then g[slots[l]] else [G.GeoNode(w, net[l].distance + extra2)];
    MergedFits(s, chains[k], v, chains[l], w, a, b, a', b', net[k].distance, net[l].distance, extra1, extra2);
  }

  /** Compressing one more node keeps geometry and roads in step. */
  lemma {:induction false} StepMatches(net: Links, chains: Chains, s: Signals, slots: Slots, g: G.Geometry, u: nat,
                                       v: nat, w: nat)
    requires Matches(net, chains, s, slots, g) && Contractible(net, u, v, w) && s.penalty >= 0
    ensures Matches(Contracted(net, s, u, v, w), ContractedChains(chains, u, v, w), s, ContractedSlots(slots, u, v, w),
                    ContractedGeometry(g, net, s, slots, u, v, w))
  {
    var net', chains', slots' := Contracted(net, s, u, v, w), ContractedChains(chains, u, v, w), ContractedSlots(slots,
          u, v, w);
    var g' := ContractedGeometry(g, net, s, slots, u, v, w);
    SameKeys(net, chains, s, u, v, w);
    assert slots'.Keys == net'.Keys;
    StepInjective(net, slots, u, v, w);
    forall k | k in net'
      ensures MatchesAt(net', chains', s, slots', g', k)
    {
      StepMatchesAt(net, chains, s, slots, g, u, v, w, k);
    }
    forall e | e in g'
      ensures Owned(slots', e)
    {
      ContractedGeometryAt(g, net, s, slots, u, v, w, e);
      assert e in g ==> Owned(slots, e);
      StepOwned(g, net, s, slots, u, v, w, e);
    }
  }
}
