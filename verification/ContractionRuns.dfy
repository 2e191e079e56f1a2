/** Whole runs of the contractor (contractor/contractor.hpp, Run): which nodes each round chooses, when the
    renumbering flush comes, and how a run ends. */
module ContractionRuns {
  import opened Walks
  import opened ContractionTheory
  import opened ContractorEdges
  import opened ContractionRound

  /** What the contractor holds when a round begins. `names` is empty until the flush. */
  datatype Snapshot = Snapshot(adj: Adj, names: seq<nat>, external: seq<QueryEdge>, levels: seq<nat>,
                               remaining: set<nat>)

  /** The nodes that a round leaves, because some node within two hops forbids to choose them. */
  ghost function Refused(s: Snapshot, priority: nat -> real, hash: nat -> nat): set<nat> {
    set x | x in s.remaining && !Unbeaten(s.adj, priority, hash, x)
  }

  /** The same nodes, under their original numbers. */
  ghost function LeftAfter(s: Snapshot, priority: nat -> real, hash: nat -> nat): set<nat> {
    Image(s.names, Refused(s, priority, hash))
  }

  /** A round of a run over `nodes` nodes that stops after `target` contractions. The flush has come exactly
      if more than `threshold` nodes are gone. */
  ghost predicate RoundAt(base: iset<Arc>, nodes: nat, target: nat, threshold: nat, s: Snapshot, round: nat) {
    && GoodState(base, s.adj, s.names, s.external, s.levels, s.remaining, round)
    && |s.levels| == nodes > 2 && |s.remaining| <= nodes && nodes - |s.remaining| < target
    && (s.remaining != {} ==> (s.names == [] <==> nodes - |s.remaining| <= threshold))
  }

  /** The next round begins with the nodes that this one refused, and it did not refuse all. */
  ghost predicate NextRound(s: Snapshot, s': Snapshot, priority: nat -> real, hash: nat -> nat) {
    Image(s'.names, s'.remaining) == LeftAfter(s, priority, hash) && Refused(s, priority, hash) != s.remaining
  }

  /** The rounds so far, the nodes left after them, and whether the last one chose nobody. */
  ghost predicate Running(base: iset<Arc>, nodes: nat, target: nat, threshold: nat, priority: nat -> nat -> real,
                          hash: nat -> nat, trace: seq<Snapshot>, left: set<nat>, stuck: bool) {
    && (forall i {:trigger trace[i]} :: 0 <= i < |trace| ==> RoundAt(base, nodes, target, threshold, trace[i], i))
    && (trace != [] ==> Image(trace[0].names, trace[0].remaining) == Upto(nodes))
    && (forall i, j {:trigger trace[i], trace[j]} :: 0 <= i && j == i + 1 && j < |trace| ==>
          NextRound(trace[i], trace[j], priority(i), hash))
    && left == (if trace == [] then Upto(nodes) else LeftAfter(trace[|trace| - 1], priority(|trace| - 1), hash))
    && (stuck <==>
          && trace != []
          && Refused(trace[|trace| - 1], priority(|trace| - 1), hash) == trace[|trace| - 1].remaining)
  }

  /** A finished run: stuck, or enough nodes are gone. */
  ghost predicate Ran(base: iset<Arc>, nodes: nat, target: nat, threshold: nat, priority: nat -> nat -> real,
                      hash: nat -> nat, trace: seq<Snapshot>, left: set<nat>, stuck: bool) {
    && Running(base, nodes, target, threshold, priority, hash, trace, left, stuck)
    && (!stuck ==> nodes <= 2 || nodes - |left| >= target)
  }

  lemma {:induction false} OneMoreRound(base: iset<Arc>, nodes: nat, target: nat, threshold: nat,
                                        priority: nat -> nat -> real, hash: nat -> nat, trace: seq<Snapshot>,
                                        left: set<nat>, s: Snapshot)
    requires Running(base, nodes, target, threshold, priority, hash, trace, left, false)
    requires RoundAt(base, nodes, target, threshold, s, |trace|) && Image(s.names, s.remaining) == left
    ensures Running(base, nodes, target, threshold, priority, hash, trace + [s],
                    LeftAfter(s, priority(|trace|), hash), Refused(s, priority(|trace|), hash) == s.remaining)
  {
    var trace' := trace + [s];
    forall i, j | 0 <= i && j == i + 1 && j < |trace'|
      ensures NextRound(trace'[i], trace'[j], priority(i), hash)
    {
      if j < |trace| {
        assert NextRound(trace[i], trace[j], priority(i), hash);
      }
    }
  }

  // ----- why a run gets stuck ------------------------------------------------------------------

  /** z is to be contracted before x, by priority and, among equals, by the tie hash. */
  predicate Ahead(priority: nat -> real, hash: nat -> nat, z: nat, x: nat) {
    priority(z) < priority(x) || (priority(z) == priority(x) && Bias(hash, x, z))
  }

  /** x is ahead of y, by less than EPSILON, and loses the tie all the same: each of the two refuses the other. */
  predicate Undecided(priority: nat -> real, hash: nat -> nat, x: nat, y: nat) {
    priority(x) < priority(y) && priority(y) - priority(x) < EPSILON && Bias(hash, x, y)
  }

  lemma {:induction false} Foremost(priority: nat -> real, hash: nat -> nat, s: set<nat>) returns (x: nat)
    requires s != {}
    ensures x in s && forall z :: z in s ==> !Ahead(priority, hash, z, x)
    decreases |s|
  {
    x :| x in s;
    if s != {x} {
      var w := Foremost(priority, hash, s - {x});
      var first := if Ahead(priority, hash, w, x) then w else x;
      forall z | z in s
        ensures !Ahead(priority, hash, z, first)
      {
        assert z != x ==> z in s - {x};
      }
      x := first;
    }
  }

  /** Whoever refuses a remaining node remains, too. */
  lemma {:induction false} RefusedBy(base: iset<Arc>, s: Snapshot, round: nat, priority: nat -> real,
                                     hash: nat -> nat, x: nat) returns (y: nat)
    requires GoodState(base, s.adj, s.names, s.external, s.levels, s.remaining, round)
    requires x in Refused(s, priority, hash)
    ensures y in s.remaining && y != x && Beaten(priority, hash, x, y)
  {
    forall n, m | n in s.remaining && HasEdgeTo(s.adj, n, m)
      ensures m in s.remaining
    {
      var e :| e in s.adj[n] && e.target == m;
      StoredEdge(base, s.adj, s.names, s.external, s.levels, s.remaining, round, n, e);
    }
    if u :| HasEdgeTo(s.adj, x, u) && u != x && Beaten(priority, hash, x, u) {
      y := u;
    } else {
      var u, v :| HasEdgeTo(s.adj, x, u) && u != x && HasEdgeTo(s.adj, u, v) && v != x && Beaten(priority, hash, x, v);
      y := v;
    }
  }

  /** A round that refuses everybody does so for the sake of a near-tie that is not decided, between the foremost
      of the remaining nodes and another one. */
  lemma {:induction false} StuckPair(base: iset<Arc>, s: Snapshot, round: nat, priority: nat -> real,
                                     hash: nat -> nat) returns (x: nat, y: nat)
    requires GoodState(base, s.adj, s.names, s.external, s.levels, s.remaining, round)
    requires s.remaining != {} && Refused(s, priority, hash) == s.remaining
    ensures x in s.remaining && y in s.remaining && Undecided(priority, hash, x, y)
    ensures forall z :: z in s.remaining ==> !Ahead(priority, hash, z, x)
  {
    x := Foremost(priority, hash, s.remaining);
    y := RefusedBy(base, s, round, priority, hash, x);
  }

  /** A run gets stuck only in a round in which near-ties are not decided. */
  lemma {:induction false} StuckIsUndecided(base: iset<Arc>, nodes: nat, target: nat, threshold: nat,
                                            priority: nat -> nat -> real, hash: nat -> nat, trace: seq<Snapshot>,
                                            left: set<nat>)
    requires Running(base, nodes, target, threshold, priority, hash, trace, left, true) && target <= nodes
    ensures !Decided(priority(|trace| - 1), hash)
  {
    var s := trace[|trace| - 1];
    assert RoundAt(base, nodes, target, threshold, s, |trace| - 1);
    assert s.remaining != {};
    var x, y := StuckPair(base, s, |trace| - 1, priority(|trace| - 1), hash);
  }
}
