/** Every original road lies on exactly one road of the compressed network, in exactly one place. */
module RoadPartition {
  import opened RoadNetwork
  import GC = GraphCompressor

  /** The original road o is the i-th that the road k stands for. */
  ghost predicate Lies(chains: Chains, k: Key, i: nat, o: Key) {
    k in chains && i <= |chains[k]| && Hop(PathOf(k, chains[k]), i) == o
  }

  ghost predicate LiesOn(chains: Chains, k: Key, o: Key) {
    exists i: nat :: Lies(chains, k, i, o)
  }

  ghost predicate LiesOnOne(chains: Chains, o: Key) {
    exists k, i :: Lies(chains, k, i, o)
  }

  ghost predicate Unique(chains: Chains) {
    forall o, k, i, l, j {:trigger Lies(chains, k, i, o), Lies(chains, l, j, o)} ::
      Lies(chains, k, i, o) && Lies(chains, l, j, o) ==> k == l && i == j
  }

  ghost predicate Partitions(net0: Links, chains: Chains) {
    Unique(chains) && forall o {:trigger LiesOnOne(chains, o)} :: o in net0 ==> LiesOnOne(chains, o)
  }

  /** At first every road stands for itself. */
  ghost predicate Untouched(net0: Links, chains: Chains) {
    chains.Keys == net0.Keys && forall k :: k in chains ==> chains[k] == []
  }

  lemma {:induction false} LiesOnItself(chains: Chains, k: Key, i: nat, o: Key)
    requires k in chains && chains[k] == []
    ensures Lies(chains, k, i, o) <==> k == o && i == 0
  {
  }

  lemma {:induction false} StartPartitions(net0: Links, chains: Chains)
    requires Untouched(net0, chains)
    ensures Partitions(net0, chains)
  {
    forall o | o in net0
      ensures LiesOnOne(chains, o)
    {
      LiesOnItself(chains, o, 0, o);
    }
    forall o, k, i, l, j | Lies(chains, k, i, o) && Lies(chains, l, j, o)
      ensures k == l && i == j
    {
      LiesOnItself(chains, k, i, o);
      LiesOnItself(chains, l, j, o);
    }
  }

  /** Where a road of the new network was before v was compressed away. */
  ghost function Was(chains: Chains, u: nat, v: nat, w: nat, k: Key, i: nat): (Key, int)
    requires Key(u, v) in chains && Key(w, v) in chains
  {
    if k == Key(u, w) then
      (if i <= |chains[Key(u, v)]| then (Key(u, v), i) else (Key(v, w), i - |chains[Key(u, v)]| - 1))
    else if k == Key(w, u) then
      (if i <= |chains[Key(w, v)]| then (Key(w, v), i) else (Key(v, u), i - |chains[Key(w, v)]| - 1))
    else (k, i)
  }

  /** The i-th hop of a merged chain is a hop of one of its parts. */
  lemma {:induction false} MergedHop(chains: Chains, u: nat, v: nat, w: nat, i: nat)
    requires Key(u, v) in chains && Key(v, w) in chains && i <= |MergedChain(chains, u, v, w)|
    ensures var m := |chains[Key(u, v)]|;
            Hop(PathOf(Key(u, w), MergedChain(chains, u, v, w)), i) ==
            if i <= m then Hop(PathOf(Key(u, v), chains[Key(u, v)]), i) else Hop(PathOf(Key(v, w), chains[Key(v, w)]),
                  i - m - 1)
  {
  }

  lemma {:induction false} WasThere(net: Links, chains: Chains, u: nat, v: nat, w: nat, k: Key, i: nat, o: Key)
    requires Contractible(net, u, v, w) && chains.Keys == net.Keys && Lies(ContractedChains(chains, u, v, w), k, i, o)
    ensures var was := Was(chains, u, v, w, k, i);
            was.1 >= 0 && Lies(chains, was.0, was.1, o)
  {
    if k == Key(u, w) {
      MergedHop(chains, u, v, w, i);
    } else if k == Key(w, u) {
      MergedHop(chains, w, v, u, i);
    }
  }

  lemma {:induction false} StaysThere(net: Links, chains: Chains, u: nat, v: nat, w: nat, k: Key, i: nat, o: Key)
    requires Contractible(net, u, v, w) && chains.Keys == net.Keys && Lies(chains, k, i, o)
    ensures LiesOnOne(ContractedChains(chains, u, v, w), o)
  {
    var chains' := ContractedChains(chains, u, v, w);
    assert k.to == v ==> Flip(k) in net;
    if k == Key(u, v) || k == Key(v, w) {
      var j := if k == Key(u, v) then i else i + |chains[Key(u, v)]| + 1;
      MergedHop(chains, u, v, w, j);
      assert Lies(chains', Key(u, w), j, o);
    } else if k == Key(w, v) || k == Key(v, u) {
      var j := if k == Key(w, v) then i else i + |chains[Key(w, v)]| + 1;
      MergedHop(chains, w, v, u, j);
      assert Lies(chains', Key(w, u), j, o);
    } else {
      assert Lies(chains', k, i, o);
    }
  }

  lemma {:induction false} StepPartitions(net0: Links, net: Links, chains: Chains, u: nat, v: nat, w: nat)
    requires Contractible(net, u, v, w) && chains.Keys == net.Keys && Partitions(net0, chains)
    ensures Partitions(net0, ContractedChains(chains, u, v, w))
  {
    var chains' := ContractedChains(chains, u, v, w);
    forall o | o in net0
      ensures LiesOnOne(chains', o)
    {
      assert LiesOnOne(chains, o);
      var k, i :| Lies(chains, k, i, o);
      StaysThere(net, chains, u, v, w, k, i, o);
    }
    forall o, k, i, l, j | Lies(chains', k, i, o) && Lies(chains', l, j, o)
      ensures k == l && i == j
    {
      WasThere(net, chains, u, v, w, k, i, o);
      WasThere(net, chains, u, v, w, l, j, o);
      assert Was(chains, u, v, w, k, i) == Was(chains, u, v, w, l, j);
    }
  }

  /** Compression keeps the original roads apart, and loses none of them. */
  lemma {:induction false} RunPartitions(net0: Links, trace: seq<GC.State>, steps: seq<GC.Step>, n: nat, i: nat,
                                         s: Signals, barriers: set<nat>, vias: set<nat>)
    requires GC.Ran(trace, steps, n, s, barriers, vias) && i <= n && Untouched(net0, trace[0].chains)
    ensures Partitions(net0, trace[i].chains)
  {
    if i == 0 {
      StartPartitions(net0, trace[0].chains);
    } else {
      var v := i - 1;
      RunPartitions(net0, trace, steps, n, v, s, barriers, vias);
      assert GC.Turn(trace[v], steps[v], trace[v + 1], s, barriers, vias, v);
      if steps[v].Merge? {
        StepPartitions(net0, trace[v].net, trace[v].chains, steps[v].u, v, steps[v].w);
      }
    }
  }

  /** The opposite road lies on the opposite road. */
  lemma {:induction false} LiesOpposite(net: Links, chains: Chains, k: Key, i: nat, o: Key)
    requires chains.Keys == net.Keys && k in net && Mirrored(net, chains, k) && Lies(chains, k, i, o)
    ensures Lies(chains, Flip(k), |chains[k]| - i, Flip(o))
  {
    var p, q := PathOf(k, chains[k]), PathOf(Flip(k), chains[Flip(k)]);
    assert forall j :: 0 <= j < |p| ==> q[j] == p[|p| - 1 - j];
  }
}
