/** One upward search with stall-on-demand, over an abstract ground truth. */
module SearchTheory {
  import opened Walks
  import opened QueryGraphs

  /** A start node with the key it is inserted at. */
  datatype Seed = Seed(node: nat, offset: int)

  /** Some walk from a seed reaches n with this total. */
  ghost predicate SeedWalk(base: iset<Arc>, seeds: seq<Seed>, n: nat, len: int) {
    exists s :: s in seeds && Walk(base, s.node, n, len - s.offset)
  }

  ghost predicate Optimal(base: iset<Arc>, seeds: seq<Seed>, n: nat, len: int) {
    forall l :: SeedWalk(base, seeds, n, l) ==> len <= l
  }

  /** The flag that lets the search leave a node over an edge, and the one that stalls it. */
  predicate RelaxFlag(forward: bool, e: QEdge) {
    if forward then e.data.forward else e.data.backward
  }

  predicate StallFlag(forward: bool, e: QEdge) {
    if forward then e.data.backward else e.data.forward
  }

  /** Stored edges are walks of the ground truth, in the direction of the search. */
  ghost predicate SearchSound(adj: QAdj, forward: bool, base: iset<Arc>) {
    forall n: nat, e {:trigger EdgeSound(adj, forward, base, n, e)} ::
             n < |adj| && e in adj[n] ==> EdgeSound(adj, forward, base, n, e)
  }

  ghost predicate EdgeSound(adj: QAdj, forward: bool, base: iset<Arc>, n: nat, e: QEdge) {
    && e.target < |adj| && e.data.distance >= 1
    && (RelaxFlag(forward, e) ==> Walk(base, n, e.target, e.data.distance))
    && (StallFlag(forward, e) ==> Walk(base, e.target, n, e.data.distance))
  }

  ghost function RelaxArcs(adj: QAdj, forward: bool): iset<Arc> {
    iset a: Arc | HasRelax(adj, forward, a)
  }

  ghost predicate HasRelax(adj: QAdj, forward: bool, a: Arc) {
    a.src < |adj| && exists e :: e in adj[a.src] && RelaxFlag(forward, e) && e.target == a.dst && e.data.distance == a.w
  }

  // ----- the search state --------------------------------------------------

  ghost predicate KeysSound(base: iset<Arc>, seeds: seq<Seed>, weights: map<nat, int>) {
    forall n {:trigger SeedWalk(base, seeds, n, weights[n])} :: n in weights ==> SeedWalk(base, seeds, n, weights[n])
  }

  /** n was left over all its edges, or it was rightly stalled: something reaches it earlier. */
  ghost predicate Done(adj: QAdj, forward: bool, base: iset<Arc>, seeds: seq<Seed>, weights: map<nat, int>, n: nat)
    requires n in weights
  {
    || Beatable(base, seeds, n, weights[n])
    || (n < |adj| && Relaxed(adj[n], forward, weights, weights[n], |adj[n]|))
  }

  ghost predicate Beatable(base: iset<Arc>, seeds: seq<Seed>, n: nat, key: int) {
    exists l :: l < key && SeedWalk(base, seeds, n, l)
  }

  /** The first k edges have been relaxed from a node at distance d. */
  ghost predicate Relaxed(edges: seq<QEdge>, forward: bool, weights: map<nat, int>, d: int, k: nat)
    requires k <= |edges|
  {
    forall i :: 0 <= i < k && RelaxFlag(forward, edges[i]) ==>
      edges[i].target in weights && weights[edges[i].target] <= d + edges[i].data.distance
  }

  ghost predicate SeedsIn(seeds: seq<Seed>, weights: map<nat, int>) {
    forall s :: s in seeds ==> s.node in weights && weights[s.node] <= s.offset
  }

  /** Between two heap operations. Settled keys are at most `last`, queued keys at least. */
  ghost predicate Exploring(base: iset<Arc>, seeds: seq<Seed>, weights: map<nat, int>, queue: set<nat>,
                            settled: set<nat>, last: int) {
    KeysSound(base, seeds, weights) && SeedsIn(seeds, weights) && Sorted(weights, queue, settled, last)
  }

  ghost predicate Sorted(weights: map<nat, int>, queue: set<nat>, settled: set<nat>, last: int) {
    && queue <= weights.Keys && settled == weights.Keys - queue
    && (forall n :: n in queue ==> last <= weights[n])
    && (forall n :: n in settled ==> weights[n] <= last)
  }

  ghost predicate AllDone(adj: QAdj, forward: bool, base: iset<Arc>, seeds: seq<Seed>, weights: map<nat, int>,
                          done: set<nat>) {
    done <= weights.Keys && forall n {:trigger Done(adj, forward, base, seeds, weights, n)} ::
      n in done ==> Done(adj, forward, base, seeds, weights, n)
  }

  /** Keys only fall, and those of finished nodes do not change. */
  ghost predicate Advances(weights: map<nat, int>, weights': map<nat, int>, settled: set<nat>) {
    && (forall n :: n in weights ==> n in weights' && weights'[n] <= weights[n])
    && (forall n :: n in settled && n in weights ==> weights'[n] == weights[n])
  }

  lemma {:induction false} DoneAdvances(adj: QAdj, forward: bool, base: iset<Arc>, seeds: seq<Seed>,
                                        weights: map<nat, int>, weights': map<nat, int>, settled: set<nat>,
                                        done: set<nat>)
    requires AllDone(adj, forward, base, seeds, weights, done) && done <= settled
             && Advances(weights, weights', settled)
    ensures AllDone(adj, forward, base, seeds, weights', done)
  {
    forall n | n in done
      ensures Done(adj, forward, base, seeds, weights', n)
    {
      assert Done(adj, forward, base, seeds, weights, n);
    }
  }

  /** Reaching `to` over a relaxed edge, for the first time or earlier than before. */
  lemma {:induction false} Reach(base: iset<Arc>, seeds: seq<Seed>, weights: map<nat, int>, queue: set<nat>,
                                 settled: set<nat>, last: int, node: nat, to: nat, w: int)
    requires Exploring(base, seeds, weights, queue, settled, last)
    requires node in weights && weights[node] == last && Walk(base, node, to, w) && w >= 1
    requires to in weights ==> last + w < weights[to]
    ensures to in weights ==> to in queue
    ensures Exploring(base, seeds, weights[to := last + w], queue + {to}, settled, last)
    ensures Advances(weights, weights[to := last + w], settled)
  {
    ReachSound(base, seeds, weights, node, to, w);
    ReachSorted(weights, queue, settled, last, to, last + w);
  }

  lemma {:induction false} ReachSorted(weights: map<nat, int>, queue: set<nat>, settled: set<nat>, last: int, to: nat,
                                       d: int)
    requires Sorted(weights, queue, settled, last) && last < d && (to in weights ==> d < weights[to])
    ensures to in weights ==> to in queue
    ensures Sorted(weights[to := d], queue + {to}, settled, last)
    ensures Advances(weights, weights[to := d], settled)
  {
  }

  lemma {:induction false} ReachSound(base: iset<Arc>, seeds: seq<Seed>, weights: map<nat, int>, node: nat, to: nat,
                                      w: int)
    requires KeysSound(base, seeds, weights) && node in weights && Walk(base, node, to, w)
    ensures KeysSound(base, seeds, weights[to := weights[node] + w])
  {
    var weights' := weights[to := weights[node] + w];
    assert SeedWalk(base, seeds, node, weights[node]);
    var s :| s in seeds && Walk(base, s.node, node, weights[node] - s.offset);
    WalkTrans(base, s.node, node, to, weights[node] - s.offset, w);
    assert Walk(base, s.node, to, (weights[node] + w) - s.offset);
    forall n | n in weights'
      ensures SeedWalk(base, seeds, n, weights'[n])
    {
      if n != to {
        assert SeedWalk(base, seeds, n, weights[n]);
      }
    }
  }

  /** A successful stall test means that the node is reached earlier some other way. */
  lemma {:induction false} StallIsRight(adj: QAdj, forward: bool, base: iset<Arc>, seeds: seq<Seed>,
                                        weights: map<nat, int>, node: nat, e: QEdge)
    requires KeysSound(base, seeds, weights) && SearchSound(adj, forward, base)
    requires node in weights && node < |adj| && e in adj[node] && StallFlag(forward, e)
    requires e.target in weights && weights[e.target] + e.data.distance < weights[node]
    ensures Beatable(base, seeds, node, weights[node])
  {
    assert EdgeSound(adj, forward, base, node, e);
    assert SeedWalk(base, seeds, e.target, weights[e.target]);
    var s :| s in seeds && Walk(base, s.node, e.target, weights[e.target] - s.offset);
    WalkTrans(base, s.node, e.target, node, weights[e.target] - s.offset, e.data.distance);
    assert SeedWalk(base, seeds, node, weights[e.target] + e.data.distance);
  }

  // ----- what a finished search knows --------------------------------------

  /** The queue is empty and every reached node is done. */
  ghost predicate Finished(adj: QAdj, forward: bool, base: iset<Arc>, seeds: seq<Seed>, weights: map<nat, int>) {
    && KeysSound(base, seeds, weights) && SeedsIn(seeds, weights)
    && AllDone(adj, forward, base, seeds, weights, weights.Keys)
  }

  /** Stalling never hides an optimal route: if a walk over stored edges is as short as any
      walk of the ground truth, the search finds its end with exactly that key. */
  lemma {:induction false} FindsOptimal(adj: QAdj, forward: bool, base: iset<Arc>, seeds: seq<Seed>,
                                        weights: map<nat, int>, m: nat, p: Path, n: nat)
    requires Finished(adj, forward, base, seeds, weights) && SearchSound(adj, forward, base)
    requires m in weights && IsWalk(RelaxArcs(adj, forward), m, p, n)
    requires Optimal(base, seeds, n, weights[m] + Length(p))
    ensures n in weights && weights[n] == weights[m] + Length(p)
    decreases p
  {
    assert SeedWalk(base, seeds, m, weights[m]);
    match p
    case Stop =>
    case Step(a, rest) =>
      var e :| e in adj[m] && RelaxFlag(forward, e) && e.target == a.dst && e.data.distance == a.w;
      assert EdgeSound(adj, forward, base, m, e);
      RestIsWalk(adj, forward, base, a.dst, rest, n);
      NotBeatable(base, seeds, m, weights[m], n, a.w + Length(rest), a.dst, a.w, Length(rest));
      assert Done(adj, forward, base, seeds, weights, m);
      var i :| 0 <= i < |adj[m]| && adj[m][i] == e;
      assert a.dst in weights && weights[a.dst] <= weights[m] + a.w;
      NextOptimal(base, seeds, a.dst, weights[a.dst], n, weights[m] + a.w, Length(rest));
      FindsOptimal(adj, forward, base, seeds, weights, a.dst, rest, n);
  }

  lemma {:induction false} RestIsWalk(adj: QAdj, forward: bool, base: iset<Arc>, s: nat, p: Path, t: nat)
    requires SearchSound(adj, forward, base) && IsWalk(RelaxArcs(adj, forward), s, p, t)
    ensures Walk(base, s, t, Length(p))
  {
    forall a | a in RelaxArcs(adj, forward)
      ensures Walk(base, a.src, a.dst, a.w)
    {
      var e :| e in adj[a.src] && RelaxFlag(forward, e) && e.target == a.dst && e.data.distance == a.w;
      assert EdgeSound(adj, forward, base, a.src, e);
    }
    ExpandedWalk(RelaxArcs(adj, forward), base, s, p, t);
  }

  /** Nodes on an optimal route have optimal keys, so they cannot be beaten. */
  lemma {:induction false} NotBeatable(base: iset<Arc>, seeds: seq<Seed>, m: nat, key: int, n: nat, rest: int,
                                       next: nat, w: int, tail: int)
    requires Walk(base, m, next, w) && Walk(base, next, n, tail) && rest == w + tail
    requires Optimal(base, seeds, n, key + rest)
    ensures !Beatable(base, seeds, m, key)
  {
    forall l | SeedWalk(base, seeds, m, l)
      ensures key <= l
    {
      var s :| s in seeds && Walk(base, s.node, m, l - s.offset);
      WalkTrans(base, m, next, n, w, tail);
      WalkTrans(base, s.node, m, n, l - s.offset, rest);
      assert Walk(base, s.node, n, (l + rest) - s.offset);
      assert SeedWalk(base, seeds, n, l + rest);
    }
  }

  lemma {:induction false} NextOptimal(base: iset<Arc>, seeds: seq<Seed>, next: nat, key: int, n: nat, bound: int,
                                       tail: int)
    requires SeedWalk(base, seeds, next, key) && key <= bound && Walk(base, next, n, tail)
    requires Optimal(base, seeds, n, bound + tail)
    ensures key == bound
  {
    var s :| s in seeds && Walk(base, s.node, next, key - s.offset);
    WalkTrans(base, s.node, next, n, key - s.offset, tail);
    assert Walk(base, s.node, n, (key + tail) - s.offset);
    assert SeedWalk(base, seeds, n, key + tail);
  }

  /** The same from a seed. */
  lemma {:induction false} FindsFromSeed(adj: QAdj, forward: bool, base: iset<Arc>, seeds: seq<Seed>,
                                         weights: map<nat, int>, s: Seed, n: nat, len: int)
    requires Finished(adj, forward, base, seeds, weights) && SearchSound(adj, forward, base)
    requires s in seeds && Walk(RelaxArcs(adj, forward), s.node, n, len)
    requires Optimal(base, seeds, n, s.offset + len)
    ensures n in weights && weights[n] == s.offset + len
  {
    var p :| IsWalk(RelaxArcs(adj, forward), s.node, p, n) && Length(p) == len;
    RestIsWalk(adj, forward, base, s.node, p, n);
    assert SeedWalk(base, seeds, s.node, weights[s.node]);
    NextOptimal(base, seeds, s.node, weights[s.node], n, s.offset, len);
    FindsOptimal(adj, forward, base, seeds, weights, s.node, p, n);
  }
}
