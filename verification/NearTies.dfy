/** When contraction makes progress (contractor/contractor.hpp, Run and IsNodeIndependent): the exact condition on
    cached priorities and tie hash under which no run stops short of its renumbering flush. */
module NearTies {
  import opened Walks
  import opened Hierarchy
  import opened ContractionTheory
  import opened DynamicGraphs
  import opened ContractorEdges
  import opened ContractionRound
  import opened ContractionRuns
  import opened EdgeMerging
  import opened Contractors

  // ----- a star ----------------------------------------------------------------------------------

  /** The nodes of a star around x; those in `front` are isolated. */
  predicate IsSpoke(nodes: nat, x: nat, front: set<nat>, z: nat) {
    z < nodes && z != x && z !in front
  }

  function Spoke(x: nat, z: nat): EdgeBasedEdge {
    EdgeBasedEdge(x, z, 0, 1, true, true)
  }

  /** Edges of weight 1, in both directions, between x and every spoke. */
  function StarInput(nodes: nat, x: nat, front: set<nat>): (input: seq<EdgeBasedEdge>)
    ensures forall e :: e in input ==> e == Spoke(x, e.target) && IsSpoke(nodes, x, front, e.target)
    ensures forall z :: IsSpoke(nodes, x, front, z) ==> Spoke(x, z) in input
  {
    if nodes == 0 then []
    else StarInput(nodes - 1, x, front) + if IsSpoke(nodes, x, front, nodes - 1) then [Spoke(x, nodes - 1)] else []
  }

  lemma {:induction false} StarArc(nodes: nat, x: nat, front: set<nat>, a: Arc)
    ensures a in InputArcs(StarInput(nodes, x, front)) <==>
              && a.w == 1
              && ((a.src == x && IsSpoke(nodes, x, front, a.dst)) || (a.dst == x && IsSpoke(nodes, x, front, a.src)))
  {
    var input := StarInput(nodes, x, front);
    if a.w == 1 && a.src == x && IsSpoke(nodes, x, front, a.dst) {
      assert Spoke(x, a.dst) in input && Allows(Spoke(x, a.dst), a);
    }
    if a.w == 1 && a.dst == x && IsSpoke(nodes, x, front, a.src) {
      assert Spoke(x, a.src) in input && Allows(Spoke(x, a.src), a);
    }
  }

  /** In every state of a contraction, stored edges lead between nodes of the star. */
  lemma {:induction false} StarEdge(nodes: nat, x: nat, front: set<nat>, out: iset<QueryEdge>, levels: seq<nat>,
                                    left: set<nat>, round: nat, q: QueryEdge)
    requires Consistent(InputArcs(StarInput(nodes, x, front)), out, levels, left, round) && q in out
    ensures q.source == x || IsSpoke(nodes, x, front, q.source)
  {
    var base := InputArcs(StarInput(nodes, x, front));
    Unpack(base, out, levels, left, round, q);
    assert WellFormed(q);
    if q.forward {
      var p :| IsWalk(base, q.source, p, q.target) && Length(p) == q.distance;
      StarArc(nodes, x, front, p.arc);
    } else {
      var p :| IsWalk(base, q.target, p, q.source) && Length(p) == q.distance;
      var init, last := SplitLast(base, q.target, p, q.source);
      StarArc(nodes, x, front, last);
    }
  }

  /** As long as the whole star is left, the edge between its centre and a spoke is stored at both ends. */
  lemma {:induction false} StarStays(nodes: nat, x: nat, front: set<nat>, s: Snapshot, round: nat, a: nat, b: nat)
    requires var base := InputArcs(StarInput(nodes, x, front));
             GoodState(base, s.adj, s.names, s.external, s.levels, s.remaining, round) && s.names == []
    requires x in s.remaining && forall z :: IsSpoke(nodes, x, front, z) ==> z in s.remaining
    requires (a == x && IsSpoke(nodes, x, front, b)) || (b == x && IsSpoke(nodes, x, front, a))
    ensures HasEdgeTo(s.adj, a, b)
  {
    var base, out := InputArcs(StarInput(nodes, x, front)), Out(s.adj, [], s.external);
    assert Image([], s.remaining) == s.remaining;
    forall q | q in out
      ensures q.source in s.remaining
    {
      StarEdge(nodes, x, front, out, s.levels, s.remaining, round, q);
    }
    StarArc(nodes, x, front, Arc(a, b, 1));
    WalkArc(base, Arc(a, b, 1));
    assert Within(base, a, b, 1);
    CoreDistances(base, out, s.levels, s.remaining, round, a, b, 1);
    Sound(base, out, s.levels, s.remaining, round);
    var q := StoredArc(out, s.remaining, a, b);
    assert Emits(s.adj, [], q);
  }

  lemma {:induction false} StoredArc(out: iset<QueryEdge>, left: set<nat>, a: nat, b: nat) returns (q: QueryEdge)
    requires Within(Core(Forward(out), left), a, b, 1) && a != b && forall a :: a in Forward(out) ==> a.w >= 1
    ensures q in out && q.source == a && q.target == b
  {
    var core := Core(Forward(out), left);
    var p :| IsWalk(core, a, p, b) && Length(p) <= 1;
    OneStep(core, a, p, b);
    assert p.arc in Forward(out);
    q :| q in out && q.forward && p.arc == Arc(q.source, q.target, q.distance);
  }

  lemma {:induction false} OneStep(arcs: iset<Arc>, a: nat, p: Path, b: nat)
    requires Positive(arcs) && IsWalk(arcs, a, p, b) && Length(p) <= 1 && a != b
    ensures p.Step? && p.rest == Stop && p.arc in arcs && p.arc.src == a && p.arc.dst == b
  {
    LengthNonNegative(arcs, p.arc.dst, p.rest, b);
  }

  // ----- runs on the star ---------------------------------------------------------------------------

  /** Cached priorities do not change from round to round. */
  function Cached(priority: nat -> real): nat -> nat -> real {
    (r: nat) => priority
  }

  /** The nodes that are to be contracted before x. */
  ghost function InFront(nodes: nat, priority: nat -> real, hash: nat -> nat, x: nat): (front: set<nat>)
    ensures forall z: nat :: z in front <==> z < nodes && Ahead(priority, hash, z, x)
  {
    set z: nat | z < nodes && Ahead(priority, hash, z, x)
  }

  /** A round on a star whose centre x does not lose to a spoke by priority, but by a near-tie with y, chooses
      exactly the isolated nodes. */
  lemma {:induction false} StarRound(nodes: nat, priority: nat -> real, hash: nat -> nat, x: nat, y: nat, s: Snapshot,
                                     round: nat, z: nat)
    requires var front := InFront(nodes, priority, hash, x);
             var base := InputArcs(StarInput(nodes, x, front));
             && GoodState(base, s.adj, s.names, s.external, s.levels, s.remaining, round) && s.names == []
             && x in s.remaining && (forall n :: IsSpoke(nodes, x, front, n) ==> n in s.remaining)
    requires x < nodes && y < nodes && Undecided(priority, hash, x, y) && z < nodes && z in s.remaining
    ensures z in Refused(s, priority, hash) <==> z !in InFront(nodes, priority, hash, x)
  {
    var front := InFront(nodes, priority, hash, x);
    if z in front {
      if u :| HasEdgeTo(s.adj, z, u) {
        var e :| e in s.adj[z] && e.target == u;
        var q := Translate([], z, e);
        assert Emits(s.adj, [], q);
        assert Image([], s.remaining) == s.remaining;
        StarEdge(nodes, x, front, Out(s.adj, [], s.external), s.levels, s.remaining, round, q);
      }
    } else if z == x {
      StarStays(nodes, x, front, s, round, x, y);
      assert Beaten(priority, hash, x, y);
    } else {
      StarStays(nodes, x, front, s, round, z, x);
      assert Beaten(priority, hash, z, x);
    }
  }

  lemma {:induction false} StarRefuses(nodes: nat, priority: nat -> real, hash: nat -> nat, x: nat, y: nat, s: Snapshot,
                                       round: nat)
    requires var front := InFront(nodes, priority, hash, x);
             var base := InputArcs(StarInput(nodes, x, front));
             && GoodState(base, s.adj, s.names, s.external, s.levels, s.remaining, round) && s.names == []
             && Upto(nodes) - front <= s.remaining <= Upto(nodes)
    requires x < nodes && y < nodes && Undecided(priority, hash, x, y)
    ensures Refused(s, priority, hash) == Upto(nodes) - InFront(nodes, priority, hash, x)
  {
    var front := InFront(nodes, priority, hash, x);
    forall z: nat
      ensures z in Upto(nodes) <==> z < nodes
    {
      UptoMember(nodes, z);
    }
    forall z | z in s.remaining
      ensures z in Refused(s, priority, hash) <==> z !in front
    {
      StarRound(nodes, priority, hash, x, y, s, round, z);
    }
  }

  lemma {:induction false} ImageNotLarger(names: seq<nat>, ids: set<nat>)
    ensures |Image(names, ids)| <= |ids|
  {
    if ids != {} {
      var x :| x in ids;
      ImageNotLarger(names, ids - {x});
      assert Image(names, ids) == Image(names, ids - {x}) + {At(names, x)};
    }
  }

  /** Before the flush, numbers are the original ones. */
  lemma {:induction false} NotFlushed(base: iset<Arc>, nodes: nat, target: nat, threshold: nat, s: Snapshot, round: nat,
                                      left: set<nat>)
    requires RoundAt(base, nodes, target, threshold, s, round) && Image(s.names, s.remaining) == left && left != {}
    requires nodes - |left| <= threshold
    ensures s.names == [] && s.remaining == left
  {
    ImageNotLarger(s.names, s.remaining);
    assert s.remaining != {};
    assert Image([], s.remaining) == s.remaining;
  }

  lemma {:induction false} SizeBehind(nodes: nat, front: set<nat>)
    requires front <= Upto(nodes)
    ensures |Upto(nodes) - front| == nodes - |front|
  {
    UptoSize(nodes);
  }

  lemma {:induction false} FrontFacts(nodes: nat, priority: nat -> real, hash: nat -> nat, x: nat)
    requires x < nodes
    ensures var front := InFront(nodes, priority, hash, x);
            && front <= Upto(nodes) && x in Upto(nodes) - front
            && |Upto(nodes)| == nodes && |Upto(nodes) - front| == nodes - |front|
  {
    var front := InFront(nodes, priority, hash, x);
    UptoMember(nodes, x);
    forall z | z in front
      ensures z in Upto(nodes)
    {
      UptoMember(nodes, z);
    }
    UptoSize(nodes);
    SizeBehind(nodes, front);
  }

  /** The first round starts with all nodes under their own numbers. */
  lemma {:induction false} FirstRound(base: iset<Arc>, nodes: nat, threshold: nat, priority: nat -> nat -> real,
                                      hash: nat -> nat, trace: seq<Snapshot>, left: set<nat>, stuck: bool)
    requires nodes > 2 && Ran(base, nodes, nodes, threshold, priority, hash, trace, left, stuck)
    ensures trace != [] && RoundAt(base, nodes, nodes, threshold, trace[0], 0)
    ensures trace[0].names == [] && trace[0].remaining == Upto(nodes)
  {
    UptoSize(nodes);
    assert trace != [];
    assert RoundAt(base, nodes, nodes, threshold, trace[0], 0);
    NotFlushed(base, nodes, nodes, threshold, trace[0], 0, Upto(nodes));
  }

  /** So does the second one, with the nodes that are left, if the flush has not come. */
  lemma {:induction false} SecondRound(base: iset<Arc>, nodes: nat, threshold: nat, priority: nat -> nat -> real,
                                       hash: nat -> nat, trace: seq<Snapshot>, left: set<nat>, stuck: bool,
                                       kept: set<nat>)
    requires Ran(base, nodes, nodes, threshold, priority, hash, trace, left, stuck) && |trace| > 1
    requires LeftAfter(trace[0], priority(0), hash) == kept && kept != {} && nodes - |kept| <= threshold
    ensures RoundAt(base, nodes, nodes, threshold, trace[1], 1)
    ensures trace[1].names == [] && trace[1].remaining == kept
    ensures |trace| > 2 ==> Refused(trace[1], priority(1), hash) != kept
  {
    assert RoundAt(base, nodes, nodes, threshold, trace[1], 1);
    assert NextRound(trace[0], trace[1], priority(0), hash);
    NotFlushed(base, nodes, nodes, threshold, trace[1], 1, kept);
    if |trace| > 2 {
      assert NextRound(trace[1], trace[2], priority(1), hash);
    }
  }

  /** Every run on the star gets stuck, before any flush, in round 0 or 1. */
  lemma {:induction false} StarRunIsStuck(nodes: nat, threshold: nat, priority: nat -> real, hash: nat -> nat, x: nat,
                                          y: nat, trace: seq<Snapshot>, left: set<nat>, stuck: bool)
    requires nodes > 2 && x < nodes && y < nodes && Undecided(priority, hash, x, y)
    requires |InFront(nodes, priority, hash, x)| <= threshold
    requires Ran(InputArcs(StarInput(nodes, x, InFront(nodes, priority, hash, x))), nodes, nodes, threshold,
                 Cached(priority), hash, trace, left, stuck)
    ensures stuck && trace[|trace| - 1].names == []
  {
    var front := InFront(nodes, priority, hash, x);
    var base, kept, p := InputArcs(StarInput(nodes, x, front)), Upto(nodes) - front, Cached(priority);
    FrontFacts(nodes, priority, hash, x);
    FirstRound(base, nodes, threshold, p, hash, trace, left, stuck);
    StarRefuses(nodes, priority, hash, x, y, trace[0], 0);
    assert Image([], kept) == kept;
    if |trace| > 1 {
      SecondRound(base, nodes, threshold, p, hash, trace, left, stuck, kept);
      StarRefuses(nodes, priority, hash, x, y, trace[1], 1);
    }
  }

  // ----- such a run exists --------------------------------------------------------------------------

  function Link(to: nat): CEdge {
    Edge(to, EdgeData(1, 0, false, true, true, false))
  }

  function StarLinks(nodes: nat, x: nat, front: set<nat>): (links: seq<CEdge>)
    ensures forall e :: e in links <==> e == Link(e.target) && IsSpoke(nodes, x, front, e.target)
  {
    if nodes == 0 then []
    else StarLinks(nodes - 1, x, front) + if IsSpoke(nodes, x, front, nodes - 1) then [Link(nodes - 1)] else []
  }

  /** The star as the graph stores it. */
  function StarGraph(nodes: nat, x: nat, front: set<nat>): (adj: Adj)
    ensures |adj| == nodes
    ensures forall z :: 0 <= z < nodes ==> adj[z] == StarNode(nodes, x, front, z)
  {
    seq(nodes, z requires 0 <= z => StarNode(nodes, x, front, z))
  }

  function StarNode(nodes: nat, x: nat, front: set<nat>, z: nat): seq<CEdge> {
    if z == x then StarLinks(nodes, x, front) else if IsSpoke(nodes, x, front, z) then [Link(x)] else []
  }

  lemma {:induction false} StarOut(nodes: nat, x: nat, front: set<nat>, q: QueryEdge)
    requires x < nodes
    ensures q in Out(StarGraph(nodes, x, front), [], []) <==>
              && q == Translate([], q.source, Link(q.target))
              && (|| (q.source == x && IsSpoke(nodes, x, front, q.target))
                  || (q.target == x && IsSpoke(nodes, x, front, q.source)))
  {
    var adj := StarGraph(nodes, x, front);
    if q in Out(adj, [], []) {
      var n: nat, e :| n < |adj| && e in adj[n] && q == Translate([], n, e);
      assert adj[n] == StarNode(nodes, x, front, n);
    }
    if q == Translate([], q.source, Link(q.target)) {
      if q.source == x && IsSpoke(nodes, x, front, q.target) {
        assert Link(q.target) in adj[x];
      } else if q.target == x && IsSpoke(nodes, x, front, q.source) {
        assert Link(x) in adj[q.source];
      }
    }
  }

  lemma {:induction false} StarIsInput(nodes: nat, x: nat, front: set<nat>)
    requires x < nodes
    ensures OnlyInput(InputArcs(StarInput(nodes, x, front)), Out(StarGraph(nodes, x, front), [], []), nodes)
    ensures AllInput(InputArcs(StarInput(nodes, x, front)), Out(StarGraph(nodes, x, front), [], []))
  {
    var base, out := InputArcs(StarInput(nodes, x, front)), Out(StarGraph(nodes, x, front), [], []);
    forall q | q in out
      ensures InputEdgeOf(base, nodes, q)
    {
      StarOut(nodes, x, front, q);
      StarArc(nodes, x, front, Arc(q.source, q.target, 1));
      StarArc(nodes, x, front, Arc(q.target, q.source, 1));
    }
    forall a | a in base
      ensures OfferedByBoth(out, a)
    {
      StarArc(nodes, x, front, a);
      StarOut(nodes, x, front, Translate([], a.src, Link(a.dst)));
      StarOut(nodes, x, front, Translate([], a.dst, Link(a.src)));
    }
  }

  /** The star with some of its isolated nodes gone is a good state of the contractor. */
  lemma {:induction false} StarGood(nodes: nat, x: nat, front: set<nat>, remaining: set<nat>, round: nat)
    requires x < nodes && x !in front && Upto(nodes) - front <= remaining <= Upto(nodes)
    ensures GoodState(InputArcs(StarInput(nodes, x, front)), StarGraph(nodes, x, front), [], [],
                      seq(nodes, _ => 0), remaining, round)
  {
    var base, adj := InputArcs(StarInput(nodes, x, front)), StarGraph(nodes, x, front);
    var out, levels := Out(adj, [], []), seq(nodes, _ => 0);
    forall z: nat
      ensures z in Upto(nodes) <==> z < nodes
    {
      UptoMember(nodes, z);
    }
    StarIsInput(nodes, x, front);
    forall q | q in out
      ensures q.source in remaining && q.target in remaining
    {
      StarOut(nodes, x, front, q);
    }
    StartConsistent(base, out, levels, remaining, round);
    StartComplete(base, out, nodes, remaining);
    assert Image([], remaining) == remaining;
    forall z: nat, e: CEdge | z < nodes && e in adj[z]
      ensures e.target < nodes && e.data.distance >= 1
    {
      assert adj[z] == StarNode(nodes, x, front, z);
    }
  }

  ghost function StarSnap(nodes: nat, x: nat, front: set<nat>, remaining: set<nat>): Snapshot {
    Snapshot(StarGraph(nodes, x, front), [], [], seq(nodes, _ => 0), remaining)
  }

  lemma {:induction false} StarRunExists(nodes: nat, threshold: nat, priority: nat -> real, hash: nat -> nat, x: nat,
                                         y: nat) returns (trace: seq<Snapshot>, left: set<nat>)
    requires nodes > 2 && x < nodes && y < nodes && Undecided(priority, hash, x, y)
    requires |InFront(nodes, priority, hash, x)| <= threshold
    ensures Ran(InputArcs(StarInput(nodes, x, InFront(nodes, priority, hash, x))), nodes, nodes, threshold,
                Cached(priority), hash, trace, left, true)
    ensures trace[|trace| - 1].names == []
  {
    var front := InFront(nodes, priority, hash, x);
    var base, all := InputArcs(StarInput(nodes, x, front)), Upto(nodes);
    var kept, p := all - front, Cached(priority);
    FrontFacts(nodes, priority, hash, x);
    var s0, s1 := StarSnap(nodes, x, front, all), StarSnap(nodes, x, front, kept);
    StarGood(nodes, x, front, all, 0);
    StarGood(nodes, x, front, kept, 1);
    StarRefuses(nodes, priority, hash, x, y, s0, 0);
    StarRefuses(nodes, priority, hash, x, y, s1, 1);
    trace, left := TwoRounds(base, nodes, threshold, p, hash, s0, s1, all, kept);
  }

  /** A run of one round, or of two. */
  lemma {:induction false} TwoRounds(base: iset<Arc>, nodes: nat, threshold: nat, priority: nat -> nat -> real,
                                     hash: nat -> nat, s0: Snapshot, s1: Snapshot, all: set<nat>, kept: set<nat>)
    returns (trace: seq<Snapshot>, left: set<nat>)
    requires GoodState(base, s0.adj, s0.names, s0.external, s0.levels, s0.remaining, 0) && s0.names == []
    requires GoodState(base, s1.adj, s1.names, s1.external, s1.levels, s1.remaining, 1) && s1.names == []
    requires |s0.levels| == |s1.levels| == nodes > 2 && s0.remaining == all == Upto(nodes) && s1.remaining == kept
    requires Refused(s0, priority(0), hash) == kept == Refused(s1, priority(1), hash)
    requires 0 < |kept| <= nodes == |all| && nodes - |kept| <= threshold
    ensures Ran(base, nodes, nodes, threshold, priority, hash, trace, left, true) && trace[|trace| - 1].names == []
  {
    OneRound(base, nodes, threshold, priority, hash, s0, kept);
    trace, left := [s0], kept;
    if kept != all {
      assert Image([], kept) == kept;
      OneMoreRound(base, nodes, nodes, threshold, priority, hash, [s0], kept, s1);
      trace := [s0] + [s1];
    }
  }

  lemma {:induction false} OneRound(base: iset<Arc>, nodes: nat, threshold: nat, priority: nat -> nat -> real,
                                    hash: nat -> nat, s: Snapshot, kept: set<nat>)
    requires GoodState(base, s.adj, s.names, s.external, s.levels, s.remaining, 0) && s.names == []
    requires |s.levels| == nodes > 2 && s.remaining == Upto(nodes) && Refused(s, priority(0), hash) == kept
    ensures Running(base, nodes, nodes, threshold, priority, hash, [s], kept, kept == s.remaining)
  {
    UptoSize(nodes);
    assert Image([], s.remaining) == s.remaining && Image([], kept) == kept;
    assert Running(base, nodes, nodes, threshold, priority, hash, [], s.remaining, false);
    OneMoreRound(base, nodes, nodes, threshold, priority, hash, [], s.remaining, s);
    assert [] + [s] == [s];
  }

  // ----- the exact condition ---------------------------------------------------------------------------

  ghost predicate InRange(nodes: nat, input: seq<EdgeBasedEdge>) {
    forall e :: e in input ==> e.source < nodes && e.target < nodes
  }

  /** With these cached priorities no run, on any graph of so many nodes, gets stuck before its flush. */
  ghost predicate NeverStuckEarly(nodes: nat, threshold: nat, priority: nat -> real, hash: nat -> nat) {
    forall input, trace: seq<Snapshot>, left
      {:trigger Ran(InputArcs(input), nodes, nodes, threshold, Cached(priority), hash, trace, left, true)} ::
      InRange(nodes, input)
      && Ran(InputArcs(input), nodes, nodes, threshold, Cached(priority), hash, trace, left, true) ==>
        trace[|trace| - 1].names != []
  }

  /** Two nodes refuse each other, and few enough nodes come before the first of them. */
  ghost predicate Trouble(nodes: nat, threshold: nat, priority: nat -> real, hash: nat -> nat) {
    exists x: nat, y: nat ::
      x < nodes && y < nodes && Undecided(priority, hash, x, y) && |InFront(nodes, priority, hash, x)| <= threshold
  }

  /** Whoever comes before the foremost remaining node is gone. */
  lemma {:induction false} FrontIsGone(nodes: nat, priority: nat -> real, hash: nat -> nat, x: nat, remaining: set<nat>)
    requires remaining <= Upto(nodes) && forall z :: z in remaining ==> !Ahead(priority, hash, z, x)
    ensures |InFront(nodes, priority, hash, x)| <= nodes - |remaining|
  {
    var front := InFront(nodes, priority, hash, x);
    forall z | z in front
      ensures z in Upto(nodes) - remaining
    {
      UptoMember(nodes, z);
    }
    SubsetSize(front, Upto(nodes) - remaining);
    SizeBehind(nodes, remaining);
  }

  lemma {:induction false} StuckMeansTrouble(base: iset<Arc>, nodes: nat, threshold: nat, priority: nat -> real,
                                             hash: nat -> nat, trace: seq<Snapshot>, left: set<nat>)
    requires Ran(base, nodes, nodes, threshold, Cached(priority), hash, trace, left, true)
    requires trace[|trace| - 1].names == []
    ensures Trouble(nodes, threshold, priority, hash)
  {
    var round := |trace| - 1;
    var s := trace[round];
    assert RoundAt(base, nodes, nodes, threshold, s, round);
    assert s.remaining != {};
    var x, y := StuckPair(base, s, round, priority, hash);
    forall z | z in s.remaining
      ensures z in Upto(nodes)
    {
      assert At(s.names, z) < |s.levels|;
      UptoMember(nodes, z);
    }
    UptoMember(nodes, x);
    UptoMember(nodes, y);
    FrontIsGone(nodes, priority, hash, x, s.remaining);
  }

  /** No run gets stuck before its flush if and only if there is no such pair of nodes. */
  lemma {:induction false} NeverStuckIff(nodes: nat, threshold: nat, priority: nat -> real, hash: nat -> nat)
    requires nodes > 2
    ensures NeverStuckEarly(nodes, threshold, priority, hash) <==> !Trouble(nodes, threshold, priority, hash)
  {
    if Trouble(nodes, threshold, priority, hash) {
      var x: nat, y: nat :|
        x < nodes && y < nodes && Undecided(priority, hash, x, y) && |InFront(nodes, priority, hash, x)| <= threshold;
      var trace, left := StarRunExists(nodes, threshold, priority, hash, x, y);
      assert InRange(nodes, StarInput(nodes, x, InFront(nodes, priority, hash, x)));
    }
    forall input, trace: seq<Snapshot>, left
      | InRange(nodes, input)
        && Ran(InputArcs(input), nodes, nodes, threshold, Cached(priority), hash, trace, left, true)
        && trace[|trace| - 1].names == []
      ensures Trouble(nodes, threshold, priority, hash)
    {
      StuckMeansTrouble(InputArcs(input), nodes, threshold, priority, hash, trace, left);
    }
  }

  /** Without a flush that is: near-ties among the nodes of the graph are decided. */
  lemma {:induction false} UnflushedIff(nodes: nat, threshold: nat, priority: nat -> real, hash: nat -> nat)
    requires nodes > 2 && threshold >= nodes - 2
    ensures NeverStuckEarly(nodes, threshold, priority, hash) <==>
              forall x: nat, y: nat :: x < nodes && y < nodes ==> !Undecided(priority, hash, x, y)
  {
    NeverStuckIff(nodes, threshold, priority, hash);
    forall x: nat, y: nat | x < nodes && y < nodes && Undecided(priority, hash, x, y)
      ensures |InFront(nodes, priority, hash, x)| <= threshold
    {
      TwoBehind(nodes, priority, hash, x, y);
    }
  }

  lemma {:induction false} TwoBehind(nodes: nat, priority: nat -> real, hash: nat -> nat, x: nat, y: nat)
    requires x < nodes && y < nodes && Undecided(priority, hash, x, y)
    ensures |InFront(nodes, priority, hash, x)| <= nodes - 2
  {
    UptoMember(nodes, y);
    FrontFacts(nodes, priority, hash, x);
    var front := InFront(nodes, priority, hash, x);
    assert {x, y} <= Upto(nodes) - front;
    SubsetSize({x, y}, Upto(nodes) - front);
    assert |{x, y}| == 2;
  }

  // ----- and it happens ---------------------------------------------------------------------------------

  /** The contractor itself, on the star. */
  method ContractStar(nodes: nat, threshold: nat, priority: nat -> real, hash: nat -> nat, x: nat, front: set<nat>,
                      ghost y: nat) returns (stuck: bool)
    requires 2 < nodes < DUMMY && x < nodes && y < nodes && Undecided(priority, hash, x, y)
    requires front == InFront(nodes, priority, hash, x) && |front| <= threshold
    ensures stuck
  {
    var input := StarInput(nodes, x, front);
    ghost var base := InputArcs(input);
    var contractor := new Contractor(nodes, input, hash);
    ghost var left, rounds, trace;
    stuck, left, rounds, trace := contractor.Run(nodes, threshold, Cached(priority), base);
    StarRunIsStuck(nodes, threshold, priority, hash, x, y, trace, left, stuck);
  }

  /** A multiple of 2^-24 below 1. Its numerator has at most 24 bits, so it is a value of a float. */
  ghost predicate Float24(x: real) {
    exists m: nat :: m < 0x100_0000 && x == Scaled(m)
  }

  function Scaled(m: nat): real {
    m as real / 16777216.0
  }

  /** Nodes 0 and 2 are joined, node 1 is isolated. */
  function NearTie(hash: nat -> nat): nat -> real {
    (n: nat) => if n == 1 then 0.0 else if n == AheadOf(hash) then 0.5 else 0.5 + EPSILON / 2.0
  }

  /** The one of the two that loses the tie. */
  function AheadOf(hash: nat -> nat): nat {
    if Bias(hash, 0, 2) then 0 else 2
  }

  /** Whatever the tie hash, three nodes with cached float priorities, two of them neighbouring floats, are
      contracted in one round and then never again: the run with the thresholds of the source (all 3 nodes, flush
      after more than 65 percent of them) gets stuck. */
  method ContractNearTie(hash: nat -> nat) returns (stuck: bool)
    ensures stuck && forall n :: Float24(NearTie(hash)(n))
  {
    var priority, x := NearTie(hash), AheadOf(hash);
    ghost var y := 2 - x;
    forall n
      ensures Float24(priority(n))
    {
      var m: nat := if n == 1 then 0 else if n == x then 0x80_0000 else 0x80_0001;
      assert priority(n) == Scaled(m);
    }
    ghost var front := InFront(3, priority, hash, x);
    forall z: nat
      ensures z in front <==> z == 1
    {
    }
    assert front == {1};
    stuck := ContractStar(3, 3 * 65 / 100, priority, hash, x, {1}, y);
  }
}
