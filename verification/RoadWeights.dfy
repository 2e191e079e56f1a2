/** The weights in the compressed geometries are the distances of the original roads, hop by hop
    (algorithms/graph_compressor.cpp and data_structures/compressed_edge_container.cpp). */
module RoadWeights {
  import opened RoadNetwork
  import opened RoadGeometry
  import G = CompressedGeometry

  /** An end of hop i is a traffic light inside the path, which compression has removed. */
  ghost predicate NextToLight(s: Signals, p: seq<nat>, i: nat)
    requires i + 1 < |p|
  {
    (0 < i && p[i] in s.lights) || (i + 2 < |p| && p[i + 1] in s.lights)
  }

  /** A hop weighs what its road does in the original network. Next to a removed light it may weigh one penalty
      more. */
  ghost predicate HopWeighs(net0: Links, s: Signals, p: seq<nat>, i: nat, weight: int)
    requires i + 1 < |p|
  {
    var distance := Distance(net0, p[i], p[i + 1]);
    weight == distance || (weight == distance + s.penalty && NextToLight(s, p, i))
  }

  ghost predicate Weighs(net0: Links, s: Signals, p: seq<nat>, b: seq<G.GeoNode>) {
    && |b| + 1 == |p|
    && forall i {:trigger b[i]} :: 0 <= i < |b| ==> HopWeighs(net0, s, p, i, b[i].weight)
  }

  /** The two directions of a hop carry the same penalty. */
  ghost predicate HopAlike(net0: Links, p: seq<nat>, i: nat, weight: int, back: int)
    requires i + 1 < |p|
  {
    weight - Distance(net0, p[i], p[i + 1]) == back - Distance(net0, p[i + 1], p[i])
  }

  ghost predicate Alike(net0: Links, p: seq<nat>, b: seq<G.GeoNode>, r: seq<G.GeoNode>) {
    && |b| + 1 == |r| + 1 == |p|
    && forall i {:trigger b[i]} :: 0 <= i < |b| ==> HopAlike(net0, p, i, b[i].weight, r[|r| - 1 - i].weight)
  }

  ghost predicate WeighedAt(net0: Links, s: Signals, net: Links, chains: Chains, slots: Slots, g: G.Geometry, k: Key)
    requires k in net && Flip(k) in net && chains.Keys == net.Keys == slots.Keys
  {
    var p, b := PathOf(k, chains[k]), Segments(g, slots[k], k, net[k]);
    Weighs(net0, s, p, b) && Alike(net0, p, b, Segments(g, slots[Flip(k)], Flip(k), net[Flip(k)]))
  }

  ghost predicate Weighed(net0: Links, s: Signals, net: Links, chains: Chains, slots: Slots, g: G.Geometry)
    requires Simple(net) && chains.Keys == net.Keys == slots.Keys
  {
    forall k {:trigger WeighedAt(net0, s, net, chains, slots, g, k)} :: k in net ==>
      Flip(k) in net && WeighedAt(net0, s, net, chains, slots, g, k)
  }

  lemma {:induction false} StartWeighed(net0: Links, s: Signals, chains: Chains, slots: Slots)
    requires Simple(net0) && chains.Keys == net0.Keys == slots.Keys && forall k :: k in net0 ==> chains[k] == []
    ensures Weighed(net0, s, net0, chains, slots, map[])
  {
    forall k | k in net0
      ensures Flip(k) in net0 && WeighedAt(net0, s, net0, chains, slots, map[], k)
    {
      assert PathOf(k, []) == [k.from, k.to] && Flip(k) in net0;
    }
  }

  // ----- one step --------------------------------------------------------------------

  /** A road that is its own segment takes its share of the penalty at v, a longer one takes nothing. */
  ghost predicate Shared(net0: Links, p: seq<nat>, b: seq<G.GeoNode>, extra: int, b': seq<G.GeoNode>) {
    && |p| >= 2 && |b'| == |b| == |p| - 1
    && (|p| > 2 ==> b' == b)
    && (|p| == 2 ==> b'[0].weight == Distance(net0, p[0], p[1]) + extra)
  }

  lemma {:induction false} MergedWeighs(net0: Links, s: Signals, p: seq<nat>, a: seq<G.GeoNode>, a': seq<G.GeoNode>,
                                        q: seq<nat>, b: seq<G.GeoNode>, b': seq<G.GeoNode>, extra1: int, extra2: int)
    requires Weighs(net0, s, p, a) && Weighs(net0, s, q, b) && |p| >= 2 && |q| >= 2 && p[|p| - 1] == q[0]
    requires Shared(net0, p, a, extra1, a') && Shared(net0, q, b, extra2, b')
    requires extra1 == 0 || extra1 == SignalCost(s, q[0])
    requires extra2 == 0 || extra2 == SignalCost(s, q[0])
    ensures Weighs(net0, s, Joined(p, q), a' + b')
  {
    var all, c := Joined(p, q), a' + b';
    JoinedAt(p, q);
    forall i | 0 <= i < |c|
      ensures HopWeighs(net0, s, all, i, c[i].weight)
    {
      if i < |a'| {
        assert HopWeighs(net0, s, p, i, a[i].weight);
      } else {
        assert HopWeighs(net0, s, q, i - |a'|, b[i - |a'|].weight);
      }
    }
  }

  lemma {:induction false} MergedAlike(net0: Links, p: seq<nat>, a: seq<G.GeoNode>, ra: seq<G.GeoNode>,
                                       a': seq<G.GeoNode>, ra': seq<G.GeoNode>, q: seq<nat>, b: seq<G.GeoNode>,
                                       rb: seq<G.GeoNode>, b': seq<G.GeoNode>, rb': seq<G.GeoNode>, extra1: int,
                                       extra2: int)
    requires Alike(net0, p, a, ra) && Alike(net0, q, b, rb) && |p| >= 2 && |q| >= 2 && p[|p| - 1] == q[0]
    requires Shared(net0, p, a, extra1, a') && Shared(net0, q, b, extra2, b')
    requires Shared(net0, Rev(p), ra, extra1, ra') && Shared(net0, Rev(q), rb, extra2, rb')
    ensures Alike(net0, Joined(p, q), a' + b', rb' + ra')
  {
    var all, c, r := Joined(p, q), a' + b', rb' + ra';
    JoinedAt(p, q);
    forall i | 0 <= i < |c|
      ensures HopAlike(net0, all, i, c[i].weight, r[|r| - 1 - i].weight)
    {
      if i < |a'| {
        assert HopAlike(net0, p, i, a[i].weight, ra[|ra| - 1 - i].weight);
      } else {
        var j := i - |a'|;
        assert HopAlike(net0, q, j, b[j].weight, rb[|rb| - 1 - j].weight);
      }
    }
  }

  /** Both directions of a road, before and after taking their share. */
  ghost predicate Ready(net0: Links, s: Signals, p: seq<nat>, b: seq<G.GeoNode>, r: seq<G.GeoNode>, extra: int,
                        b': seq<G.GeoNode>, r': seq<G.GeoNode>) {
    && Weighs(net0, s, p, b) && Alike(net0, p, b, r)
    && Shared(net0, p, b, extra, b') && Shared(net0, Rev(p), r, extra, r')
  }

  lemma {:induction false} MergedBoth(net0: Links, s: Signals, p: seq<nat>, a: seq<G.GeoNode>, ra: seq<G.GeoNode>,
                                      a': seq<G.GeoNode>, ra': seq<G.GeoNode>, q: seq<nat>, b: seq<G.GeoNode>,
                                      rb: seq<G.GeoNode>, b': seq<G.GeoNode>, rb': seq<G.GeoNode>, extra1: int,
                                      extra2: int)
    requires Ready(net0, s, p, a, ra, extra1, a', ra') && Ready(net0, s, q, b, rb, extra2, b', rb')
    requires p[|p| - 1] == q[0]
    requires extra1 == 0 || extra1 == SignalCost(s, q[0])
    requires extra2 == 0 || extra2 == SignalCost(s, q[0])
    ensures Weighs(net0, s, Joined(p, q), a' + b') && Alike(net0, Joined(p, q), a' + b', rb' + ra')
  {
    MergedWeighs(net0, s, p, a, a', q, b, b', extra1, extra2);
    MergedAlike(net0, p, a, ra, a', ra', q, b, rb, b', rb', extra1, extra2);
  }

  /** What a road contributes to a merged one. */
  ghost function Part(net: Links, slots: Slots, g: G.Geometry, k: Key, extra: int): seq<G.GeoNode>
    requires k in net && k in slots
  {
    if slots[k] in g then g[slots[k]] else [G.GeoNode(k.to, net[k].distance + extra)]
  }

  lemma {:induction false} PartIsShared(net0: Links, s: Signals, removed: set<nat>, net: Links, chains: Chains,
                                        slots: Slots, g: G.Geometry, k: Key, extra: int)
    requires Compressed(net0, s, removed, net, chains) && k in net && k in slots
    requires MatchesAt(net, chains, s, slots, g, k)
    ensures Shared(net0, PathOf(k, chains[k]), Segments(g, slots[k], k, net[k]), extra, Part(net, slots, g, k, extra))
  {
    var p := PathOf(k, chains[k]);
    assert GoodLink(net0, s, removed, k, chains[k], net[k]);
    if chains[k] == [] {
      assert p[1..] == [k.to] && Cost(net0, s, p[1..]) == 0;
    }
  }

  lemma {:induction false} ReversedPath(net: Links, chains: Chains, k: Key)
    requires chains.Keys == net.Keys && k in net && Mirrored(net, chains, k)
    ensures PathOf(Flip(k), chains[Flip(k)]) == Rev(PathOf(k, chains[k]))
  {
  }

  /** The merged road of u-v-w, in the direction in which the penalty is shared as given. */
  lemma {:induction false} StepMerged(net0: Links, s: Signals, removed: set<nat>, net: Links, chains: Chains,
                                      slots: Slots, g: G.Geometry, u: nat, v: nat, w: nat, extra1: int, extra2: int)
    requires Compressed(net0, s, removed, net, chains) && Matches(net, chains, s, slots, g)
    requires Contractible(net, u, v, w) && Weighed(net0, s, net, chains, slots, g)
    requires extra1 == 0 || extra1 == SignalCost(s, v)
    requires extra2 == 0 || extra2 == SignalCost(s, v)
    ensures var p := PathOf(Key(u, w), MergedChain(chains, u, v, w));
            && Weighs(net0, s, p, Merging(g, net, slots, u, v, w, extra1, extra2))
            && Alike(net0, p, Merging(g, net, slots, u, v, w, extra1, extra2),
                     Merging(g, net, slots, w, v, u, extra2, extra1))
  {
    var k, l, k', l' := Key(u, v), Key(v, w), Key(v, u), Key(w, v);
    var p, q := PathOf(k, chains[k]), PathOf(l, chains[l]);
    PartsOf(net0, s, removed, net, chains, slots, g, k, extra1);
    PartsOf(net0, s, removed, net, chains, slots, g, l, extra2);
    MergingParts(net, chains, s, slots, g, u, v, w, extra1, extra2);
    MergingParts(net, chains, s, slots, g, w, v, u, extra2, extra1);
    JoinedPath(chains, u, v, w);
    MergedBoth(net0, s, p, Segments(g, slots[k], k, net[k]), Segments(g, slots[k'], k', net[k']),
               Part(net, slots, g, k, extra1), Part(net, slots, g, k', extra1),
               q, Segments(g, slots[l], l, net[l]), Segments(g, slots[l'], l', net[l']),
               Part(net, slots, g, l, extra2), Part(net, slots, g, l', extra2), extra1, extra2);
  }

  lemma {:induction false} JoinedPath(chains: Chains, u: nat, v: nat, w: nat)
    requires Key(u, v) in chains && Key(v, w) in chains
    ensures Joined(PathOf(Key(u, v), chains[Key(u, v)]), PathOf(Key(v, w), chains[Key(v, w)])) ==
              PathOf(Key(u, w), MergedChain(chains, u, v, w))
  {
  }

  lemma {:induction false} MergingParts(net: Links, chains: Chains, s: Signals, slots: Slots, g: G.Geometry, u: nat,
                                        v: nat, w: nat, extra1: int, extra2: int)
    requires Matches(net, chains, s, slots, g) && Key(u, v) in net && Key(v, w) in net
    ensures Merging(g, net, slots, u, v, w, extra1, extra2) ==
              Part(net, slots, g, Key(u, v), extra1) + Part(net, slots, g, Key(v, w), extra2)
  {
    assert MatchesAt(net, chains, s, slots, g, Key(u, v));
  }

  /** Both directions of a road that takes part in a merge. */
  lemma {:induction false} PartsOf(net0: Links, s: Signals, removed: set<nat>, net: Links, chains: Chains,
                                   slots: Slots, g: G.Geometry, k: Key, extra: int)
    requires Compressed(net0, s, removed, net, chains) && Matches(net, chains, s, slots, g)
    requires Weighed(net0, s, net, chains, slots, g) && k in net
    ensures Flip(k) in net
    ensures Ready(net0, s, PathOf(k, chains[k]), Segments(g, slots[k], k, net[k]),
                  Segments(g, slots[Flip(k)], Flip(k), net[Flip(k)]), extra, Part(net, slots, g, k, extra),
                  Part(net, slots, g, Flip(k), extra))
  {
    assert WeighedAt(net0, s, net, chains, slots, g, k);
    assert MatchesAt(net, chains, s, slots, g, k) && MatchesAt(net, chains, s, slots, g, Flip(k));
    assert Mirrored(net, chains, k);
    ReversedPath(net, chains, k);
    PartIsShared(net0, s, removed, net, chains, slots, g, k, extra);
    PartIsShared(net0, s, removed, net, chains, slots, g, Flip(k), extra);
  }

  /** Compressing one more node keeps the weights. */
  lemma {:induction false} StepWeighed(net0: Links, s: Signals, removed: set<nat>, net: Links, chains: Chains,
                                       slots: Slots, g: G.Geometry, u: nat, v: nat, w: nat)
    requires Compressed(net0, s, removed, net, chains) && Matches(net, chains, s, slots, g)
    requires Contractible(net, u, v, w) && Weighed(net0, s, net, chains, slots, g)
    ensures var net', slots' := Contracted(net, s, u, v, w), ContractedSlots(slots, u, v, w);
            && Simple(net') && ContractedChains(chains, u, v, w).Keys == net'.Keys == slots'.Keys
            && Weighed(net0, s, net', ContractedChains(chains, u, v, w), slots',
                       ContractedGeometry(g, net, s, slots, u, v, w))
  {
    var net', chains', slots' :=
      Contracted(net, s, u, v, w), ContractedChains(chains, u, v, w), ContractedSlots(slots, u, v, w);
    ContractedSimple(net, s, u, v, w);
    SameKeys(net, chains, s, u, v, w);
    assert slots'.Keys == net'.Keys;
    forall k | k in net'
      ensures Flip(k) in net'
      ensures WeighedAt(net0, s, net', chains', slots', ContractedGeometry(g, net, s, slots, u, v, w), k)
    {
      assert Flip(k) in net';
      if k == Key(u, w) || k == Key(w, u) {
        MergedWeighed(net0, s, removed, net, chains, slots, g, u, v, w, k);
      } else {
        KeptWeighed(net0, s, net, chains, slots, g, u, v, w, k);
      }
    }
  }

  lemma {:induction false} MergedWeighed(net0: Links, s: Signals, removed: set<nat>, net: Links, chains: Chains,
                                         slots: Slots, g: G.Geometry, u: nat, v: nat, w: nat, k: Key)
    requires Compressed(net0, s, removed, net, chains) && Matches(net, chains, s, slots, g)
    requires Contractible(net, u, v, w) && Weighed(net0, s, net, chains, slots, g)
    requires k == Key(u, w) || k == Key(w, u)
    requires var net', slots' := Contracted(net, s, u, v, w), ContractedSlots(slots, u, v, w);
             k in net' && Flip(k) in net' && ContractedChains(chains, u, v, w).Keys == net'.Keys == slots'.Keys
    ensures WeighedAt(net0, s, Contracted(net, s, u, v, w), ContractedChains(chains, u, v, w),
                      ContractedSlots(slots, u, v, w), ContractedGeometry(g, net, s, slots, u, v, w), k)
  {
    var penalty := SignalCost(s, v);
    ContractedGeometryAt(g, net, s, slots, u, v, w, slots[Key(u, v)]);
    ContractedGeometryAt(g, net, s, slots, u, v, w, slots[Key(w, v)]);
    if k == Key(u, w) {
      StepMerged(net0, s, removed, net, chains, slots, g, u, v, w, penalty, 0);
    } else {
      StepMerged(net0, s, removed, net, chains, slots, g, w, v, u, 0, penalty);
    }
  }

  lemma {:induction false} KeptWeighed(net0: Links, s: Signals, net: Links, chains: Chains, slots: Slots,
                                       g: G.Geometry, u: nat, v: nat, w: nat, k: Key)
    requires Matches(net, chains, s, slots, g) && Contractible(net, u, v, w)
    requires Weighed(net0, s, net, chains, slots, g)
    requires k != Key(u, w) && k != Key(w, u)
    requires var net', slots' := Contracted(net, s, u, v, w), ContractedSlots(slots, u, v, w);
             k in net' && Flip(k) in net' && ContractedChains(chains, u, v, w).Keys == net'.Keys == slots'.Keys
    ensures WeighedAt(net0, s, Contracted(net, s, u, v, w), ContractedChains(chains, u, v, w),
                      ContractedSlots(slots, u, v, w), ContractedGeometry(g, net, s, slots, u, v, w), k)
  {
    assert WeighedAt(net0, s, net, chains, slots, g, k);
    KeptSegments(net, s, slots, g, u, v, w, k);
    KeptSegments(net, s, slots, g, u, v, w, Flip(k));
  }

  lemma {:induction false} KeptSegments(net: Links, s: Signals, slots: Slots, g: G.Geometry, u: nat, v: nat, w: nat,
                                        k: Key)
    requires slots.Keys == net.Keys && Contractible(net, u, v, w) && k in net && k.from != v && k.to != v
    requires forall k, l :: k in slots && l in slots && slots[k] == slots[l] ==> k == l
    ensures Segments(ContractedGeometry(g, net, s, slots, u, v, w), slots[k], k, net[k]) ==
              Segments(g, slots[k], k, net[k])
  {
    ContractedGeometryAt(g, net, s, slots, u, v, w, slots[k]);
    assert slots[k] != slots[Key(u, v)] && slots[k] != slots[Key(w, v)] && slots[k] != slots[Key(v, w)]
           && slots[k] != slots[Key(v, u)];
  }
}
