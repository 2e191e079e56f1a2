/** What degree-2 compression (algorithms/graph_compressor.cpp) does to a road network, on values:
    every stored road stands for a chain of original roads through removed nodes. */
module RoadNetwork {

  /** The edge data the compressor looks at (NodeBasedEdgeData). */
  datatype Road = Road(distance: int, reversed: bool, name: nat, mode: nat)

  /** A road is stored at `from` and leads to `to`. */
  datatype Key = Key(from: nat, to: nat)

  type Links = map<Key, Road>

  function Flip(k: Key): Key {
    Key(k.to, k.from)
  }

  /** IsCompatibleTo. */
  predicate Compatible(a: Road, b: Road) {
    a.reversed == b.reversed && a.name == b.name && a.mode == b.mode
  }

  /** No loops, and every road is stored at both ends. */
  ghost predicate Simple(net: Links) {
    forall k {:trigger Flip(k)} :: k in net ==> k.from != k.to && Flip(k) in net
  }

  /** v has exactly the two neighbours u and w. */
  ghost predicate Between(net: Links, v: nat, u: nat, w: nat) {
    && u != w && Key(v, u) in net && Key(v, w) in net
    && forall k :: k in net && k.from == v ==> k.to == u || k.to == w
  }

  // ----- routes and their cost ----------------------------------------------

  /** Traffic lights and what each costs a route that passes one. */
  datatype Signals = Signals(lights: set<nat>, penalty: int)

  function SignalCost(s: Signals, v: nat): int {
    if v in s.lights then s.penalty else 0
  }

  ghost function Distance(net: Links, a: nat, b: nat): int {
    if Key(a, b) in net then net[Key(a, b)].distance else 0
  }

  /** The length of a node sequence, plus the penalty of every light strictly inside. */
  ghost function Cost(net: Links, s: Signals, p: seq<nat>): int {
    if |p| < 2 then 0
    else Distance(net, p[0], p[1]) + (if |p| > 2 then SignalCost(s, p[1]) else 0) + Cost(net, s, p[1..])
  }

  /** The road from p[i] on. */
  ghost function Hop(p: seq<nat>, i: nat): Key
    requires i + 1 < |p|
  {
    Key(p[i], p[i + 1])
  }

  ghost predicate IsRoute(net: Links, p: seq<nat>) {
    && p != []
    && forall i {:trigger Hop(p, i)} :: 0 <= i < |p| - 1 ==> Hop(p, i) in net && !net[Hop(p, i)].reversed
  }

  /** The two pieces meet in one node. */
  ghost function Joined(p: seq<nat>, q: seq<nat>): seq<nat>
    requires q != []
  {
    p + q[1..]
  }

  lemma {:induction false} JoinedCost(net: Links, s: Signals, p: seq<nat>, q: seq<nat>)
    requires |p| >= 2 && q != [] && p[|p| - 1] == q[0]
    ensures Cost(net, s, Joined(p, q)) ==
              Cost(net, s, p) + Cost(net, s, q) + (if |q| >= 2 then SignalCost(s, q[0]) else 0)
    decreases |p|
  {
    var all := Joined(p, q);
    if |p| == 2 {
      assert all[1..] == q;
    } else {
      assert all[1..] == Joined(p[1..], q);
      JoinedCost(net, s, p[1..], q);
    }
  }

  // ----- chains --------------------------------------------------------------

  function Rev(s: seq<nat>): (r: seq<nat>)
    ensures |r| == |s| && forall i :: 0 <= i < |s| ==> r[i] == s[|s| - 1 - i]
  {
    seq(|s|, i requires 0 <= i < |s| => s[|s| - 1 - i])
  }

  ghost function PathOf(k: Key, chain: seq<nat>): (p: seq<nat>)
    ensures |p| == |chain| + 2 && p[0] == k.from && p[|p| - 1] == k.to
  {
    [k.from] + chain + [k.to]
  }

  /** All neighbours of r are a and b. */
  ghost predicate OnlyNeighbours(net: Links, r: nat, a: nat, b: nat) {
    forall k :: k in net && k.from == r ==> k.to == a || k.to == b
  }

  /** Original roads like `road`, through removed nodes without any other road. */
  ghost predicate GoodPath(net0: Links, removed: set<nat>, p: seq<nat>, road: Road) {
    && |p| >= 2
    && (forall i {:trigger Hop(p, i)} :: 0 <= i < |p| - 1 ==> Hop(p, i) in net0 && Compatible(net0[Hop(p, i)], road))
    && (forall i {:trigger Passes(net0, removed, p, i)} :: 0 < i < |p| - 1 ==> Passes(net0, removed, p, i))
  }

  /** p[i] is a removed node, entered by one of its two roads and left by the other. */
  ghost predicate Passes(net0: Links, removed: set<nat>, p: seq<nat>, i: nat)
    requires 0 < i < |p| - 1
  {
    p[i] in removed && p[i - 1] != p[i + 1] && OnlyNeighbours(net0, p[i], p[i - 1], p[i + 1])
  }

  type Chains = map<Key, seq<nat>>

  /** The first original node on the way from k.from to k.to. */
  ghost function First(chains: Chains, k: Key): nat
    requires k in chains
  {
    if chains[k] == [] then k.to else chains[k][0]
  }

  ghost predicate GoodLink(net0: Links, s: Signals, removed: set<nat>, k: Key, chain: seq<nat>, road: Road) {
    && k.from !in removed && k.to !in removed
    && GoodPath(net0, removed, PathOf(k, chain), road)
    && road.distance == Cost(net0, s, PathOf(k, chain))
  }

  ghost predicate Covers(net: Links, chains: Chains, k: Key)
    requires chains.Keys == net.Keys
  {
    exists l :: l in net && l.from == k.from && First(chains, l) == k.to
  }

  /** The two directions of a road run through the same nodes. */
  ghost predicate Mirrored(net: Links, chains: Chains, k: Key)
    requires chains.Keys == net.Keys && k in net
  {
    Flip(k) in net && chains[Flip(k)] == Rev(chains[k])
  }

  /** net is what is left of net0 after the nodes in `removed` were compressed away. */
  ghost predicate Compressed(net0: Links, s: Signals, removed: set<nat>, net: Links, chains: Chains) {
    && Simple(net0) && Simple(net) && chains.Keys == net.Keys
    && (forall k {:trigger GoodLink(net0, s, removed, k, chains[k], net[k])} :: k in net ==>
          GoodLink(net0, s, removed, k, chains[k], net[k]))
    && (forall k {:trigger Mirrored(net, chains, k)} :: k in net ==> Mirrored(net, chains, k))
    && DistinctFirsts(net, chains)
    && (forall k {:trigger Covers(net, chains, k)} :: k in net0 && k.from !in removed ==> Covers(net, chains, k))
  }

  lemma {:induction false} StartCompressed(net0: Links, s: Signals)
    requires Simple(net0)
    ensures Compressed(net0, s, {}, net0, map k | k in net0 :: [])
  {
    var chains: Chains := map k | k in net0 :: [];
    forall k | k in net0
      ensures GoodLink(net0, s, {}, k, chains[k], net0[k]) && Covers(net0, chains, k)
    {
      assert PathOf(k, [])[1..] == [k.to];
      assert First(chains, k) == k.to;
    }
  }

  // ----- one compression step ------------------------------------------------

  /** The road from u to w that replaces u-v-w. */
  function Merged(net: Links, s: Signals, u: nat, v: nat, w: nat): Road
    requires Key(u, v) in net && Key(v, w) in net
  {
    var e1 := net[Key(u, v)];
    e1.(distance := e1.distance + net[Key(v, w)].distance + SignalCost(s, v))
  }

  function Contracted(net: Links, s: Signals, u: nat, v: nat, w: nat): Links
    requires Key(u, v) in net && Key(v, w) in net && Key(w, v) in net && Key(v, u) in net
  {
    (map k | k in net && k.from != v && k.to != v :: net[k])
      [Key(u, w) := Merged(net, s, u, v, w)][Key(w, u) := Merged(net, s, w, v, u)]
  }

  ghost function MergedChain(chains: Chains, u: nat, v: nat, w: nat): seq<nat>
    requires Key(u, v) in chains && Key(v, w) in chains
  {
    chains[Key(u, v)] + [v] + chains[Key(v, w)]
  }

  ghost function ContractedChains(chains: Chains, u: nat, v: nat, w: nat): Chains
    requires Key(u, v) in chains && Key(v, w) in chains && Key(w, v) in chains && Key(v, u) in chains
  {
    (map k | k in chains && k.from != v && k.to != v :: chains[k])
      [Key(u, w) := MergedChain(chains, u, v, w)][Key(w, u) := MergedChain(chains, w, v, u)]
  }

  /** When the compressor merges the roads at v. */
  ghost predicate Contractible(net: Links, u: nat, v: nat, w: nat) {
    && Simple(net) && Between(net, v, u, w) && Key(u, v) in net && Key(w, v) in net
    && Key(u, w) !in net && Key(w, u) !in net
    && Compatible(net[Key(u, v)], net[Key(v, w)]) && Compatible(net[Key(w, v)], net[Key(v, u)])
  }

  /** The original neighbours of v are the first nodes on its two roads. */
  lemma {:induction false} OriginalNeighbours(net0: Links, s: Signals, removed: set<nat>, net: Links, chains: Chains,
                                              v: nat, u: nat, w: nat)
    requires Compressed(net0, s, removed, net, chains) && Between(net, v, u, w) && v !in removed
    ensures OnlyNeighbours(net0, v, First(chains, Key(v, u)), First(chains, Key(v, w)))
    ensures First(chains, Key(v, u)) != First(chains, Key(v, w))
  {
    forall k | k in net0 && k.from == v
      ensures k.to == First(chains, Key(v, u)) || k.to == First(chains, Key(v, w))
    {
      assert Covers(net, chains, k);
      var l :| l in net && l.from == k.from && First(chains, l) == k.to;
      assert l == Key(v, l.to);
    }
  }

  lemma {:induction false} GrowRemoved(net0: Links, removed: set<nat>, more: set<nat>, p: seq<nat>, road: Road,
                                       road': Road)
    requires GoodPath(net0, removed, p, road) && removed <= more && Compatible(road, road')
    ensures GoodPath(net0, more, p, road')
  {
    forall i | 0 < i < |p| - 1
      ensures Passes(net0, more, p, i)
    {
      assert Passes(net0, removed, p, i);
    }
  }

  lemma {:induction false} JoinGood(net0: Links, removed: set<nat>, p: seq<nat>, q: seq<nat>, road: Road)
    requires GoodPath(net0, removed, p, road) && GoodPath(net0, removed, q, road) && p[|p| - 1] == q[0]
    requires q[0] in removed && p[|p| - 2] != q[1] && OnlyNeighbours(net0, q[0], p[|p| - 2], q[1])
    ensures GoodPath(net0, removed, Joined(p, q), road)
  {
    var all := Joined(p, q);
    var m := |p| - 1;
    JoinedAt(p, q);
    forall i | 0 <= i < |all| - 1
      ensures Hop(all, i) in net0 && Compatible(net0[Hop(all, i)], road)
    {
      if i >= m {
        assert Hop(all, i) == Hop(q, i - m);
      } else {
        assert Hop(all, i) == Hop(p, i);
      }
    }
    forall i | 0 < i < |all| - 1
      ensures Passes(net0, removed, all, i)
    {
      if i < m {
        assert Passes(net0, removed, p, i);
      } else if i > m {
        assert Passes(net0, removed, q, i - m);
      }
    }
  }

  lemma {:induction false} JoinedAt(p: seq<nat>, q: seq<nat>)
    requires p != [] && q != [] && p[|p| - 1] == q[0]
    ensures forall i :: 0 <= i < |p| ==> Joined(p, q)[i] == p[i]
    ensures forall i :: |p| - 1 <= i < |Joined(p, q)| ==> Joined(p, q)[i] == q[i - (|p| - 1)]
  {
  }

  /** The merged road is a chain of original roads again, of the same cost. */
  lemma {:induction false} MergedIsGood(net0: Links, s: Signals, removed: set<nat>, net: Links, chains: Chains, u: nat,
                                        v: nat, w: nat)
    requires Compressed(net0, s, removed, net, chains) && Contractible(net, u, v, w) && v !in removed
    ensures GoodLink(net0, s, removed + {v}, Key(u, w), MergedChain(chains, u, v, w), Merged(net, s, u, v, w))
  {
    var k, l := Key(u, v), Key(v, w);
    var p, q := PathOf(k, chains[k]), PathOf(l, chains[l]);
    var road := Merged(net, s, u, v, w);
    assert GoodLink(net0, s, removed, k, chains[k], net[k]) && GoodLink(net0, s, removed, l, chains[l], net[l]);
    GrowRemoved(net0, removed, removed + {v}, p, net[k], road);
    GrowRemoved(net0, removed, removed + {v}, q, net[l], road);
    OriginalNeighbours(net0, s, removed, net, chains, v, u, w);
    assert Mirrored(net, chains, Key(v, u));
    assert p[|p| - 2] == First(chains, Key(v, u)) && q[1] == First(chains, l);
    JoinGood(net0, removed + {v}, p, q, road);
    JoinedCost(net0, s, p, q);
    assert Joined(p, q) == PathOf(Key(u, w), MergedChain(chains, u, v, w));
  }

  lemma {:induction false} KeptIsGood(net0: Links, s: Signals, removed: set<nat>, k: Key, chain: seq<nat>, road: Road,
                                      v: nat)
    requires GoodLink(net0, s, removed, k, chain, road) && k.from != v && k.to != v
    ensures GoodLink(net0, s, removed + {v}, k, chain, road)
  {
    GrowRemoved(net0, removed, removed + {v}, PathOf(k, chain), road, road);
  }

  lemma {:induction false} MergedMirror(chains: Chains, u: nat, v: nat, w: nat)
    requires Key(u, v) in chains && Key(v, w) in chains && Key(w, v) in chains && Key(v, u) in chains
    requires chains[Key(v, u)] == Rev(chains[Key(u, v)]) && chains[Key(w, v)] == Rev(chains[Key(v, w)])
    ensures MergedChain(chains, w, v, u) == Rev(MergedChain(chains, u, v, w))
  {
    var a, b := MergedChain(chains, w, v, u), Rev(MergedChain(chains, u, v, w));
    var m := |chains[Key(w, v)]|;
    forall i | 0 <= i < |a|
      ensures a[i] == b[i]
    {
      if i < m {
        assert a[i] == chains[Key(w, v)][i];
      } else if i > m {
        assert a[i] == chains[Key(v, u)][i - m - 1];
      }
    }
  }

  lemma {:induction false} StepMirror(net: Links, chains: Chains, s: Signals, u: nat, v: nat, w: nat, k: Key)
    requires Contractible(net, u, v, w) && chains.Keys == net.Keys
    requires forall k {:trigger Mirrored(net, chains, k)} :: k in net ==> Mirrored(net, chains, k)
    requires k in Contracted(net, s, u, v, w)
    ensures ContractedChains(chains, u, v, w).Keys == Contracted(net, s, u, v, w).Keys
    ensures Mirrored(Contracted(net, s, u, v, w), ContractedChains(chains, u, v, w), k)
  {
    assert Mirrored(net, chains, Key(u, v)) && Mirrored(net, chains, Key(v, w));
    assert Mirrored(net, chains, Key(v, u)) && Mirrored(net, chains, Key(w, v));
    MergedMirror(chains, u, v, w);
    MergedMirror(chains, w, v, u);
    if k != Key(u, w) && k != Key(w, u) {
      assert Mirrored(net, chains, k);
    }
  }

  /** Outgoing directions keep their first node; u looks to w where it looked to v. */
  lemma {:induction false} FirstAfter(net: Links, chains: Chains, u: nat, v: nat, w: nat, k: Key)
    requires Contractible(net, u, v, w) && chains.Keys == net.Keys
    requires k in ContractedChains(chains, u, v, w)
    ensures First(ContractedChains(chains, u, v, w), k) == First(chains, Before(k, u, v, w))
    ensures Before(k, u, v, w) in net && Before(k, u, v, w).from == k.from
  {
  }

  /** The road that has become k. */
  ghost function Before(k: Key, u: nat, v: nat, w: nat): Key {
    if k == Key(u, w) then Key(u, v) else if k == Key(w, u) then Key(w, v) else k
  }

  lemma {:induction false} ContractedSimple(net: Links, s: Signals, u: nat, v: nat, w: nat)
    requires Contractible(net, u, v, w)
    ensures Simple(Contracted(net, s, u, v, w))
  {
    var net' := Contracted(net, s, u, v, w);
    forall k | k in net'
      ensures k.from != k.to && Flip(k) in net'
    {
      assert k in net ==> Flip(k) in net;
    }
  }

  lemma {:induction false} SameKeys(net: Links, chains: Chains, s: Signals, u: nat, v: nat, w: nat)
    requires Contractible(net, u, v, w) && chains.Keys == net.Keys
    ensures ContractedChains(chains, u, v, w).Keys == Contracted(net, s, u, v, w).Keys
  {
  }

  ghost predicate DistinctFirsts(net: Links, chains: Chains)
    requires chains.Keys == net.Keys
  {
    forall k, l :: k in net && l in net && k.from == l.from && First(chains, k) == First(chains, l) ==> k == l
  }

  lemma {:induction false} StepFirsts(net: Links, chains: Chains, s: Signals, u: nat, v: nat, w: nat)
    requires Contractible(net, u, v, w) && chains.Keys == net.Keys && DistinctFirsts(net, chains)
    requires ContractedChains(chains, u, v, w).Keys == Contracted(net, s, u, v, w).Keys
    ensures DistinctFirsts(Contracted(net, s, u, v, w), ContractedChains(chains, u, v, w))
  {
    var net', chains' := Contracted(net, s, u, v, w), ContractedChains(chains, u, v, w);
    forall k, l | k in net' && l in net' && k.from == l.from && First(chains', k) == First(chains', l)
      ensures k == l
    {
      FirstAfter(net, chains, u, v, w, k);
      FirstAfter(net, chains, u, v, w, l);
    }
  }

  lemma {:induction false} StepCovers(net: Links, chains: Chains, s: Signals, u: nat, v: nat, w: nat, k: Key)
    requires Contractible(net, u, v, w) && chains.Keys == net.Keys
    requires ContractedChains(chains, u, v, w).Keys == Contracted(net, s, u, v, w).Keys
    requires k.from != v && Covers(net, chains, k)
    ensures Covers(Contracted(net, s, u, v, w), ContractedChains(chains, u, v, w), k)
  {
    var net', chains' := Contracted(net, s, u, v, w), ContractedChains(chains, u, v, w);
    var l :| l in net && l.from == k.from && First(chains, l) == k.to;
    var l' := if l == Key(u, v) then Key(u, w) else if l == Key(w, v) then Key(w, u) else l;
    assert Flip(l) in net;
    assert l' in net';
    FirstAfter(net, chains, u, v, w, l');
  }

  /** Compressing one more node keeps the correspondence with the original network. */
  lemma {:induction false} StepCompressed(net0: Links, s: Signals, removed: set<nat>, net: Links, chains: Chains,
                                          u: nat, v: nat, w: nat)
    requires Compressed(net0, s, removed, net, chains) && Contractible(net, u, v, w) && v !in removed
    ensures Compressed(net0, s, removed + {v}, Contracted(net, s, u, v, w), ContractedChains(chains, u, v, w))
  {
    var net', chains' := Contracted(net, s, u, v, w), ContractedChains(chains, u, v, w);
    ContractedSimple(net, s, u, v, w);
    SameKeys(net, chains, s, u, v, w);
    StepFirsts(net, chains, s, u, v, w);
    forall k | k in net0 && k.from !in removed + {v}
      ensures Covers(net', chains', k)
    {
      assert Covers(net, chains, k);
      StepCovers(net, chains, s, u, v, w, k);
    }
    MergedIsGood(net0, s, removed, net, chains, u, v, w);
    MergedIsGood(net0, s, removed, net, chains, w, v, u);
    forall k | k in net'
      ensures GoodLink(net0, s, removed + {v}, k, chains'[k], net'[k])
    {
      if k != Key(u, w) && k != Key(w, u) {
        assert GoodLink(net0, s, removed, k, chains[k], net[k]);
        KeptIsGood(net0, s, removed, k, chains[k], net[k], v);
      }
    }
    forall k | k in net'
      ensures Mirrored(net', chains', k)
    {
      StepMirror(net, chains, s, u, v, w, k);
    }
  }

  // ----- routes before and after ----------------------------------------------

  /** Starts and ends at a surviving node and does not turn round at a removed one. */
  ghost predicate Proper(removed: set<nat>, p: seq<nat>) {
    && p != [] && p[0] !in removed && p[|p| - 1] !in removed
    && forall i {:trigger TurnsRound(p, i)} :: 0 < i < |p| - 1 && p[i] in removed ==> !TurnsRound(p, i)
  }

  ghost predicate TurnsRound(p: seq<nat>, i: nat)
    requires 0 < i < |p| - 1
  {
    p[i - 1] == p[i + 1]
  }

  /** What is left of a node sequence without the removed nodes. */
  function Survivors(removed: set<nat>, p: seq<nat>): seq<nat> {
    if p == [] then []
    else if p[0] in removed then Survivors(removed, p[1..])
    else [p[0]] + Survivors(removed, p[1..])
  }

  /** A route over stored roads, written out in original nodes. */
  ghost function Expand(chains: Chains, q: seq<nat>): (p: seq<nat>)
    requires q != [] && forall i {:trigger Hop(q, i)} :: 0 <= i < |q| - 1 ==> Hop(q, i) in chains
    ensures p != [] && p[0] == q[0] && p[|p| - 1] == q[|q| - 1]
    ensures |q| >= 2 <==> |p| >= 2
    decreases |q|
  {
    if |q| == 1 then q
    else
      assert Hop(q, 0) in chains;
      assert forall i {:trigger Hop(q[1..], i)} :: 0 <= i < |q| - 2 ==> Hop(q[1..], i) == Hop(q, i + 1);
      Joined(PathOf(Hop(q, 0), chains[Hop(q, 0)]), Expand(chains, q[1..]))
  }

  lemma {:induction false} SurvivorsJoin(removed: set<nat>, p: seq<nat>, q: seq<nat>)
    ensures Survivors(removed, p + q) == Survivors(removed, p) + Survivors(removed, q)
    decreases |p|
  {
    if p == [] {
      assert p + q == q;
    } else {
      SurvivorsJoin(removed, p[1..], q);
      assert (p + q)[1..] == p[1..] + q;
    }
  }

  lemma {:induction false} NoSurvivors(removed: set<nat>, p: seq<nat>)
    requires forall v :: v in p ==> v in removed
    ensures Survivors(removed, p) == []
  {
    if p != [] {
      NoSurvivors(removed, p[1..]);
    }
  }

  /** Of a road's path only the ends survive. */
  lemma {:induction false} PathSurvivors(net0: Links, s: Signals, removed: set<nat>, k: Key, chain: seq<nat>,
                                         road: Road, rest: seq<nat>)
    requires GoodLink(net0, s, removed, k, chain, road) && rest != [] && rest[0] == k.to
    ensures Survivors(removed, Joined(PathOf(k, chain), rest)) == [k.from] + Survivors(removed, rest)
  {
    var p := PathOf(k, chain);
    forall v | v in chain
      ensures v in removed
    {
      var i :| 0 <= i < |chain| && chain[i] == v;
      assert Passes(net0, removed, p, i + 1);
    }
    NoSurvivors(removed, chain);
    assert Joined(p, rest) == [k.from] + (chain + rest);
    assert ([k.from] + (chain + rest))[1..] == chain + rest;
    SurvivorsJoin(removed, chain, rest);
  }

  lemma {:induction false} JoinRoute(net0: Links, removed: set<nat>, p: seq<nat>, road: Road, rest: seq<nat>)
    requires GoodPath(net0, removed, p, road) && !road.reversed && p[0] !in removed
    requires IsRoute(net0, rest) && Proper(removed, rest) && rest[0] == p[|p| - 1]
    ensures IsRoute(net0, Joined(p, rest)) && Proper(removed, Joined(p, rest))
  {
    var all := Joined(p, rest);
    var m := |p| - 1;
    JoinedAt(p, rest);
    forall i | 0 <= i < |all| - 1
      ensures Hop(all, i) in net0 && !net0[Hop(all, i)].reversed
    {
      if i < m {
        assert Hop(all, i) == Hop(p, i);
      } else {
        assert Hop(all, i) == Hop(rest, i - m);
      }
    }
    forall i | 0 < i < |all| - 1 && all[i] in removed
      ensures !TurnsRound(all, i)
    {
      if i < m {
        assert Passes(net0, removed, p, i);
      } else if i > m {
        assert !TurnsRound(rest, i - m);
      }
    }
  }

  ghost predicate Surviving(removed: set<nat>, q: seq<nat>) {
    forall v :: v in q ==> v !in removed
  }

  lemma {:induction false} TailRoute(net: Links, q: seq<nat>)
    requires IsRoute(net, q) && |q| >= 2
    ensures IsRoute(net, q[1..]) && Hop(q, 0) in net && !net[Hop(q, 0)].reversed
  {
    assert Hop(q, 0) in net;
    forall i | 0 <= i < |q[1..]| - 1
      ensures Hop(q[1..], i) in net && !net[Hop(q[1..], i)].reversed
    {
      assert Hop(q[1..], i) == Hop(q, i + 1);
    }
  }

  /** Every route over the compressed network stands for one original route: same ends, same
      cost, no turn at a removed node, and nothing but removed nodes left out. */
  lemma {:induction false} ExpandedRoute(net0: Links, s: Signals, removed: set<nat>, net: Links, chains: Chains,
                                         q: seq<nat>)
    requires Compressed(net0, s, removed, net, chains) && IsRoute(net, q) && Surviving(removed, q)
    ensures IsRoute(net0, Expand(chains, q)) && Proper(removed, Expand(chains, q))
    ensures Survivors(removed, Expand(chains, q)) == q
    ensures Cost(net0, s, Expand(chains, q)) == Cost(net, s, q)
    decreases |q|
  {
    if |q| == 1 {
      assert q[1..] == [] && q[0] in q;
      assert q == [q[0]] + q[1..];
    } else {
      TailRoute(net, q);
      var k := Hop(q, 0);
      ExpandedRoute(net0, s, removed, net, chains, q[1..]);
      assert GoodLink(net0, s, removed, k, chains[k], net[k]);
      var p, rest := PathOf(k, chains[k]), Expand(chains, q[1..]);
      JoinRoute(net0, removed, p, net[k], rest);
      PathSurvivors(net0, s, removed, k, chains[k], net[k], rest);
      assert q == [q[0]] + q[1..];
      JoinedCost(net0, s, p, rest);
    }
  }

  /** A proper route that enters a chain follows it to its end. */
  lemma {:induction false} FollowsChain(net0: Links, removed: set<nat>, p: seq<nat>, path: seq<nat>, road: Road, i: nat)
    requires GoodPath(net0, removed, path, road) && IsRoute(net0, p) && Proper(removed, p) && |p| >= 2
    requires p[0] == path[0] && p[1] == path[1] && i < |path|
    ensures i < |p| && p[i] == path[i]
    ensures i > 0 ==> p[i - 1] == path[i - 1]
  {
    if i >= 2 {
      FollowsChain(net0, removed, p, path, road, i - 1);
      assert Passes(net0, removed, path, i - 1);
      assert i < |p|;
      assert Hop(p, i - 1) in net0 && !TurnsRound(p, i - 1);
    }
  }

  lemma {:induction false} TailProper(net0: Links, removed: set<nat>, p: seq<nat>, m: nat)
    requires IsRoute(net0, p) && Proper(removed, p) && m < |p| && p[m] !in removed
    ensures IsRoute(net0, p[m..]) && Proper(removed, p[m..])
  {
    forall i | 0 <= i < |p[m..]| - 1
      ensures Hop(p[m..], i) in net0 && !net0[Hop(p[m..], i)].reversed
    {
      assert Hop(p[m..], i) == Hop(p, i + m);
    }
    forall i | 0 < i < |p[m..]| - 1 && p[m..][i] in removed
      ensures !TurnsRound(p[m..], i)
    {
      assert !TurnsRound(p, i + m);
    }
  }

  /** The stored road on which an original route sets out. */
  lemma {:induction false} FirstRoad(net0: Links, s: Signals, removed: set<nat>, net: Links, chains: Chains,
                                     p: seq<nat>)
      returns (k: Key)
    requires Compressed(net0, s, removed, net, chains)
    requires IsRoute(net0, p) && Proper(removed, p) && |p| >= 2
    ensures k in net && k.from == p[0] && !net[k].reversed && GoodLink(net0, s, removed, k, chains[k], net[k])
    ensures |chains[k]| + 1 < |p| && p[..|chains[k]| + 2] == PathOf(k, chains[k])
  {
    assert Hop(p, 0) in net0;
    assert Covers(net, chains, Hop(p, 0));
    k :| k in net && k.from == p[0] && First(chains, k) == p[1];
    assert GoodLink(net0, s, removed, k, chains[k], net[k]);
    var path := PathOf(k, chains[k]);
    assert Hop(path, 0) == Hop(p, 0);
    forall i | 0 <= i < |path|
      ensures i < |p| && p[i] == path[i]
    {
      FollowsChain(net0, removed, p, path, net[k], i);
    }
    assert |path| - 1 < |p|;
  }

  /** Every original route between surviving nodes that does not turn round at a removed node is
      the expansion of its surviving nodes, which form a route over the compressed network. */
  lemma {:induction false} CompressedRoute(net0: Links, s: Signals, removed: set<nat>, net: Links, chains: Chains,
                                           p: seq<nat>)
    requires Compressed(net0, s, removed, net, chains) && IsRoute(net0, p) && Proper(removed, p)
    ensures IsRoute(net, Survivors(removed, p)) && Surviving(removed, Survivors(removed, p))
    ensures Expand(chains, Survivors(removed, p)) == p
    ensures Survivors(removed, p)[0] == p[0]
    decreases |p|
  {
    if |p| == 1 {
      assert p[1..] == [] && p == [p[0]] + p[1..];
    } else {
      var k := FirstRoad(net0, s, removed, net, chains, p);
      var path := PathOf(k, chains[k]);
      var m := |path| - 1;
      var rest := p[m..];
      assert p[m] == path[m] == k.to;
      TailProper(net0, removed, p, m);
      CompressedRoute(net0, s, removed, net, chains, rest);
      assert p == Joined(path, rest);
      PathSurvivors(net0, s, removed, k, chains[k], net[k], rest);
      ConsRoute(net, k, Survivors(removed, rest));
      var q := Survivors(removed, p);
      assert q == [k.from] + Survivors(removed, rest) && q[1..] == Survivors(removed, rest) && Hop(q, 0) == k;
    }
  }

  lemma {:induction false} ConsRoute(net: Links, k: Key, q: seq<nat>)
    requires k in net && !net[k].reversed && IsRoute(net, q) && q[0] == k.to
    ensures IsRoute(net, [k.from] + q)
  {
    var all := [k.from] + q;
    forall i | 0 <= i < |all| - 1
      ensures Hop(all, i) in net && !net[Hop(all, i)].reversed
    {
      if i == 0 {
        assert Hop(all, 0) == k;
      } else {
        assert Hop(all, i) == Hop(q, i - 1);
      }
    }
  }
}
