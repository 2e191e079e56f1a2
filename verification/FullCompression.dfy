/** When degree-2 compression (algorithms/graph_compressor.cpp) is through: one pass over the nodes leaves nothing to
    merge, and what was merged is alike. */
module FullCompression {
  import opened RoadNetwork

  /** The roads at v can be merged: v lies between u and w, no road leads from u to w, and the roads are alike. */
  ghost predicate Mergeable(net: Links, u: nat, v: nat, w: nat) {
    && Contractible(net, u, v, w)
    && net[Key(u, v)].name == net[Key(w, v)].name && net[Key(v, w)].name == net[Key(v, u)].name
  }

  ghost predicate Settled(net: Links, v: nat) {
    forall u, w :: !Mergeable(net, u, v, w)
  }

  /** The neighbour of v in whose place y has come, when x between a and b is merged away. */
  ghost function Instead(a: nat, x: nat, b: nat, v: nat, y: nat): nat {
    if (v == a && y == b) || (v == b && y == a) then x else y
  }

  /** Merging x away makes no other node mergeable. */
  lemma {:induction false} MergeableBefore(net: Links, s: Signals, a: nat, x: nat, b: nat, u: nat, v: nat, w: nat)
    requires Mergeable(net, a, x, b) && v != x && Mergeable(Contracted(net, s, a, x, b), u, v, w)
    ensures Mergeable(net, Instead(a, x, b, v, u), v, Instead(a, x, b, v, w))
  {
    var u', w' := Instead(a, x, b, v, u), Instead(a, x, b, v, w);
    BetweenBefore(net, s, a, x, b, u, v, w);
    AlikeBefore(net, s, a, x, b, v, u);
    AlikeBefore(net, s, a, x, b, v, w);
    assert Key(u', w') in net ==> Flip(Key(u', w')) in net;
    assert Key(w', u') in net ==> Flip(Key(w', u')) in net;
    assert Key(x, u') in net ==> u' == a || u' == b;
    assert Key(x, w') in net ==> w' == a || w' == b;
    assert u != x && w != x && u != v && w != v;
  }

  lemma {:induction false} BetweenBefore(net: Links, s: Signals, a: nat, x: nat, b: nat, u: nat, v: nat, w: nat)
    requires Mergeable(net, a, x, b) && v != x && Between(Contracted(net, s, a, x, b), v, u, w)
    ensures Between(net, v, Instead(a, x, b, v, u), Instead(a, x, b, v, w))
  {
    var net' := Contracted(net, s, a, x, b);
    forall k | k in net && k.from == v
      ensures k.to == Instead(a, x, b, v, u) || k.to == Instead(a, x, b, v, w)
    {
      if k.to == x {
        assert Flip(k) in net;
        assert Key(v, if v == a then b else a) in net';
      } else {
        assert k in net';
      }
    }
  }

  /** The roads between v and a neighbour are like those that were there before. */
  lemma {:induction false} AlikeBefore(net: Links, s: Signals, a: nat, x: nat, b: nat, v: nat, y: nat)
    requires Mergeable(net, a, x, b) && v != x
    requires Key(v, y) in Contracted(net, s, a, x, b) && Key(y, v) in Contracted(net, s, a, x, b)
    ensures var net', y' := Contracted(net, s, a, x, b), Instead(a, x, b, v, y);
            && Key(v, y') in net && Key(y', v) in net
            && Compatible(net'[Key(v, y)], net[Key(v, y')]) && Compatible(net'[Key(y, v)], net[Key(y', v)])
  {
  }

  lemma {:induction false} GoneIsSettled(net: Links, s: Signals, a: nat, x: nat, b: nat)
    requires Mergeable(net, a, x, b)
    ensures Settled(Contracted(net, s, a, x, b), x)
  {
  }

  lemma {:induction false} StaysSettled(net: Links, s: Signals, a: nat, x: nat, b: nat, v: nat)
    requires Mergeable(net, a, x, b) && (v != x ==> Settled(net, v))
    ensures Settled(Contracted(net, s, a, x, b), v)
  {
    if v == x {
      GoneIsSettled(net, s, a, x, b);
    } else {
      forall u, w | Mergeable(Contracted(net, s, a, x, b), u, v, w)
        ensures false
      {
        MergeableBefore(net, s, a, x, b, u, v, w);
      }
    }
  }

  // ----- in terms of the roads ---------------------------------------------------------

  /** Nowhere but at barriers and via nodes do two roads meet that could be one: wherever both directions have one
      name, and agree in travel mode and direction, another road joins the two neighbours already. */
  ghost predicate NothingLeft(net: Links, barriers: set<nat>, vias: set<nat>) {
    forall u, v, w ::
      && v !in barriers && v !in vias && u != w
      && Key(u, v) in net && Key(v, u) in net && Key(v, w) in net && Key(w, v) in net
      && (forall x :: Key(v, x) in net ==> x == u || x == w)
      && net[Key(u, v)].name == net[Key(v, u)].name == net[Key(v, w)].name == net[Key(w, v)].name
      && net[Key(u, v)].mode == net[Key(v, w)].mode && net[Key(w, v)].mode == net[Key(v, u)].mode
      && net[Key(u, v)].reversed == net[Key(v, w)].reversed && net[Key(w, v)].reversed == net[Key(v, u)].reversed ==>
      Key(u, w) in net
  }

  lemma {:induction false} SettledLeavesNothing(net: Links, barriers: set<nat>, vias: set<nat>)
    requires Simple(net) && forall v :: v !in barriers && v !in vias ==> Settled(net, v)
    ensures NothingLeft(net, barriers, vias)
  {
    forall u, v, w |
      && v !in barriers && v !in vias && u != w
      && Key(u, v) in net && Key(v, u) in net && Key(v, w) in net && Key(w, v) in net
      && (forall x :: Key(v, x) in net ==> x == u || x == w)
      && net[Key(u, v)].name == net[Key(v, u)].name == net[Key(v, w)].name == net[Key(w, v)].name
      && net[Key(u, v)].mode == net[Key(v, w)].mode && net[Key(w, v)].mode == net[Key(v, u)].mode
      && net[Key(u, v)].reversed == net[Key(v, w)].reversed && net[Key(w, v)].reversed == net[Key(v, u)].reversed
      ensures Key(u, w) in net
    {
      assert !Mergeable(net, u, v, w);
      assert forall k :: k in net && k.from == v ==> k == Key(v, k.to);
      assert Key(w, u) in net ==> Flip(Key(w, u)) in net;
    }
  }

  /** A road has the name, the travel mode and the direction of every original road it stands for, and if they are
      several, they have one name in both directions. */
  ghost predicate LikeItsRoads(net0: Links, k: Key, chain: seq<nat>, road: Road) {
    forall i {:trigger Hop(PathOf(k, chain), i)} :: 0 <= i <= |chain| ==>
      var o := Hop(PathOf(k, chain), i);
      && o in net0 && net0[o].name == road.name && net0[o].mode == road.mode && net0[o].reversed == road.reversed
      && (chain != [] ==> Flip(o) in net0 && net0[Flip(o)].name == road.name)
  }

  /** The two directions of a merged road have one name. */
  ghost predicate OneName(net: Links, chains: Chains)
    requires chains.Keys == net.Keys
  {
    forall k {:trigger Flip(k)} :: k in net && chains[k] != [] ==> Flip(k) in net && net[Flip(k)].name == net[k].name
  }

  lemma {:induction false} StepOneName(net: Links, chains: Chains, s: Signals, a: nat, x: nat, b: nat)
    requires chains.Keys == net.Keys && Mergeable(net, a, x, b) && OneName(net, chains)
    requires ContractedChains(chains, a, x, b).Keys == Contracted(net, s, a, x, b).Keys
    ensures OneName(Contracted(net, s, a, x, b), ContractedChains(chains, a, x, b))
  {
    var net' := Contracted(net, s, a, x, b);
    ContractedSimple(net, s, a, x, b);
    forall k | k in net' && ContractedChains(chains, a, x, b)[k] != []
      ensures Flip(k) in net' && net'[Flip(k)].name == net'[k].name
    {
      assert Flip(k) in net';
    }
  }

  lemma {:induction false} CompressedIsLike(net0: Links, s: Signals, removed: set<nat>, net: Links, chains: Chains,
                                            k: Key)
    requires Compressed(net0, s, removed, net, chains) && OneName(net, chains) && k in net
    ensures LikeItsRoads(net0, k, chains[k], net[k])
  {
    var chain, l := chains[k], Flip(k);
    assert GoodLink(net0, s, removed, k, chain, net[k]) && Mirrored(net, chains, k);
    assert GoodLink(net0, s, removed, l, chains[l], net[l]);
    var p, r := PathOf(k, chain), PathOf(l, chains[l]);
    forall i | 0 <= i <= |chain|
      ensures var o := Hop(p, i);
              && o in net0 && Compatible(net0[o], net[k])
              && (chain != [] ==> Flip(o) in net0 && net0[Flip(o)].name == net[k].name)
    {
      assert Hop(r, |chain| - i) == Flip(Hop(p, i));
      assert Hop(p, i) in net0 && Hop(r, |chain| - i) in net0;
    }
  }
}
