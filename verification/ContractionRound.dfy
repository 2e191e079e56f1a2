/** From the contractor's adjacency lists to the theory: what choosing, contracting, deleting
    and inserting amount to in original node numbers. */
module ContractionRound {
  import opened Basics
  import opened Walks
  import opened Hierarchy
  import opened ContractionTheory
  import opened DynamicGraphs
  import opened ContractorEdges
  import opened WitnessSearch
  import opened NodeContraction

  ghost function SetOf(s: seq<nat>): set<nat> {
    set n | n in s
  }

  ghost function Image(names: seq<nat>, ids: set<nat>): set<nat> {
    set n | n in ids :: At(names, n)
  }

  lemma {:induction false} ImageMember(names: seq<nat>, count: nat, ids: set<nat>, n: nat)
    requires Naming(names, count) && n < count && forall i :: i in ids ==> i < count
    ensures At(names, n) in Image(names, ids) <==> n in ids
  {
    if At(names, n) in Image(names, ids) {
      var m :| m in ids && At(names, m) == At(names, n);
      AtInjective(names, count, m, n);
    }
  }

  lemma {:induction false} ImageMinus(names: seq<nat>, count: nat, a: set<nat>, b: set<nat>)
    requires Naming(names, count) && b <= a && forall i :: i in a ==> i < count
    ensures Image(names, a - b) == Image(names, a) - Image(names, b)
  {
    forall n | n in a
      ensures At(names, n) in Image(names, b) <==> n in b
    {
      ImageMember(names, count, b, n);
    }
  }

  /** The contractor's state between two rounds: `remaining` are the current numbers of the
      nodes that are left. */
  ghost predicate GoodState(base: iset<Arc>, adj: Adj, names: seq<nat>, external: seq<QueryEdge>, levels: seq<nat>,
                            remaining: set<nat>, round: nat) {
    && Naming(names, |adj|)
    && InGraph(adj)
    && (forall n :: n in remaining ==> n < |adj|)
    && (forall n :: 0 <= n < |adj| ==> At(names, n) < |levels|)
    && (forall q :: q in external ==> q.source !in Image(names, remaining))
    && Consistent(base, Out(adj, names, external), levels, Image(names, remaining), round)
    && Complete(base, Out(adj, names, external), Image(names, remaining))
  }

  /** An edge stored at a remaining node, and what the invariant says of it. */
  lemma {:induction false} StoredEdge(base: iset<Arc>, adj: Adj, names: seq<nat>, external: seq<QueryEdge>,
                                      levels: seq<nat>, remaining: set<nat>, round: nat, n: nat, e: CEdge)
    requires GoodState(base, adj, names, external, levels, remaining, round)
    requires n in remaining && e in adj[n]
    ensures Translate(names, n, e) in Out(adj, names, external)
    ensures e.target in remaining && e.target != n && HasEdgeTo(adj, e.target, n)
    ensures e.data.forward || e.data.backward
  {
    var q := Translate(names, n, e);
    var out := Out(adj, names, external);
    assert Emits(adj, names, q);
    assert q in out;
    var left := Image(names, remaining);
    assert q.source in left;
    assert WellFormed(q) && Ranked(levels, left, round, q) && Mirrored(out, q);
    ImageMember(names, |adj|, remaining, e.target);
    var m :| m in out && m.source == q.target && m.target == q.source;
    MirrorLink(adj, names, external, remaining, n, e.target, m);
  }

  lemma {:induction false} MirrorLink(adj: Adj, names: seq<nat>, external: seq<QueryEdge>, remaining: set<nat>, n: nat,
                                      t: nat, m: QueryEdge)
    requires Naming(names, |adj|) && InGraph(adj) && n < |adj| && t < |adj| && t in remaining
    requires forall q :: q in external ==> q.source !in Image(names, remaining)
    requires m in Out(adj, names, external) && m.source == At(names, t) && m.target == At(names, n)
    ensures HasEdgeTo(adj, t, n)
  {
    assert At(names, t) in Image(names, remaining);
    var n': nat, e' :| n' < |adj| && e' in adj[n'] && m == Translate(names, n', e');
    AtInjective(names, |adj|, n', t);
    AtInjective(names, |adj|, e'.target, n);
  }

  // ----- choosing ----------------------------------------------------------

  /** 2^-23, std::numeric_limits<float>::epsilon(). */
  const EPSILON: real := 0.00000011920928955078125

  predicate Bias(hash: nat -> nat, a: nat, b: nat) {
    if hash(a) != hash(b) then hash(a) < hash(b) else a < b
  }

  function Abs(x: real): real {
    if x < 0.0 then -x else x
  }

  /** `target` forbids to choose `node`: it comes first, or ties and wins the tie. */
  predicate Beaten(priority: nat -> real, hash: nat -> nat, node: nat, target: nat) {
    || priority(node) > priority(target)
    || (Abs(priority(node) - priority(target)) < EPSILON && Bias(hash, node, target))
  }

  /** No node within two hops forbids to choose `node`. */
  ghost predicate Unbeaten(adj: Adj, priority: nat -> real, hash: nat -> nat, node: nat) {
    && (forall u :: HasEdgeTo(adj, node, u) && u != node ==> !Beaten(priority, hash, node, u))
    && (forall u, v :: HasEdgeTo(adj, node, u) && u != node && HasEdgeTo(adj, u, v) && v != node ==>
          !Beaten(priority, hash, node, v))
  }

  lemma {:induction false} OneOfTwoIsBeaten(priority: nat -> real, hash: nat -> nat, x: nat, y: nat)
    requires x != y
    ensures Beaten(priority, hash, x, y) || Beaten(priority, hash, y, x)
  {
  }

  /** Who goes first: the node of lower priority, and of two with equal priorities the one with the larger hash, or
      with the larger number if the hashes are equal, too. */
  lemma {:induction false} WhoGoesFirst(priority: nat -> real, hash: nat -> nat, x: nat, y: nat)
    ensures priority(y) < priority(x) ==> Beaten(priority, hash, x, y)
    ensures priority(x) == priority(y) ==>
              (Beaten(priority, hash, x, y) <==> hash(x) < hash(y) || (hash(x) == hash(y) && x < y))
    ensures priority(x) + EPSILON <= priority(y) ==> !Beaten(priority, hash, x, y)
  {
  }

  /** A chosen node has the lowest priority within two hops. */
  lemma {:induction false} ChosenIsLowest(adj: Adj, priority: nat -> real, hash: nat -> nat, x: nat, u: nat, y: nat)
    requires Unbeaten(adj, priority, hash, x) && HasEdgeTo(adj, x, u) && x != y && x != u
    requires y == u || HasEdgeTo(adj, u, y)
    ensures priority(x) <= priority(y)
    ensures priority(x) == priority(y) ==> hash(y) < hash(x) || (hash(x) == hash(y) && y < x)
  {
    assert !Beaten(priority, hash, x, y);
    WhoGoesFirst(priority, hash, x, y);
  }

  /** A node whose priority is the lowest within two hops, by more than a rounding error, is chosen. */
  lemma {:induction false} LowestIsChosen(adj: Adj, priority: nat -> real, hash: nat -> nat, x: nat)
    requires forall u :: HasEdgeTo(adj, x, u) && u != x ==> priority(x) + EPSILON <= priority(u)
    requires forall u, y :: HasEdgeTo(adj, x, u) && u != x && HasEdgeTo(adj, u, y) && y != x ==>
               priority(x) + EPSILON <= priority(y)
    ensures Unbeaten(adj, priority, hash, x)
  {
  }

  /** No two of the nodes are adjacent and no two share a neighbour. */
  ghost predicate Apart(adj: Adj, chosen: set<nat>) {
    && (forall x, y :: x in chosen && y in chosen ==> !HasEdgeTo(adj, x, y))
    && (forall x, y, u :: x in chosen && y in chosen && HasEdgeTo(adj, x, u) && HasEdgeTo(adj, y, u) ==> x == y)
  }

  /** Whatever the priorities and the tie hash, the chosen nodes are pairwise non-adjacent
      and share no neighbour. */
  lemma {:induction false} ChosenAreIndependent(base: iset<Arc>, adj: Adj, names: seq<nat>, external: seq<QueryEdge>,
                                                levels: seq<nat>, remaining: set<nat>, round: nat,
                                                priority: nat -> real, hash: nat -> nat, chosen: set<nat>)
    requires GoodState(base, adj, names, external, levels, remaining, round)
    requires chosen <= remaining
    requires forall x :: x in chosen ==> Unbeaten(adj, priority, hash, x)
    ensures Apart(adj, chosen)
  {
    forall n, m | n in remaining && HasEdgeTo(adj, n, m)
      ensures HasEdgeTo(adj, m, n) && m in remaining && m != n
    {
      var e :| e in adj[n] && e.target == m;
      StoredEdge(base, adj, names, external, levels, remaining, round, n, e);
    }
    forall x, y | x in chosen && y in chosen && HasEdgeTo(adj, x, y)
      ensures false
    {
      OneOfTwoIsBeaten(priority, hash, x, y);
    }
    forall x, y, u | x in chosen && y in chosen && HasEdgeTo(adj, x, u) && HasEdgeTo(adj, y, u)
      ensures x == y
    {
      if x != y {
        assert HasEdgeTo(adj, u, x) && HasEdgeTo(adj, u, y);
        OneOfTwoIsBeaten(priority, hash, x, y);
      }
    }
  }

  lemma {:induction false} ChosenIndependentSet(base: iset<Arc>, adj: Adj, names: seq<nat>, external: seq<QueryEdge>,
                                                levels: seq<nat>, remaining: set<nat>, round: nat, chosen: set<nat>)
    requires GoodState(base, adj, names, external, levels, remaining, round) && chosen <= remaining
    requires Apart(adj, chosen)
    ensures IndependentSet(Out(adj, names, external), Image(names, remaining), Image(names, chosen))
  {
    var out := Out(adj, names, external);
    forall q | q in out && q.source in Image(names, chosen)
      ensures q.target !in Image(names, chosen)
    {
      var x, e := ChosenEdge(base, adj, names, external, levels, remaining, round, chosen, q);
      if q.target in Image(names, chosen) {
        ImageMember(names, |adj|, chosen, e.target);
        assert HasEdgeTo(adj, x, e.target);
      }
    }
    forall q1, q2 | q1 in out && q2 in out && q1.source in Image(names, chosen) && q2.source in Image(names, chosen)
                    && q1.target == q2.target
      ensures q1.source == q2.source
    {
      var x, e := ChosenEdge(base, adj, names, external, levels, remaining, round, chosen, q1);
      var y, f := ChosenEdge(base, adj, names, external, levels, remaining, round, chosen, q2);
      AtInjective(names, |adj|, e.target, f.target);
      assert HasEdgeTo(adj, x, e.target) && HasEdgeTo(adj, y, e.target);
    }
  }

  /** An outgoing edge of a chosen node, found again in the lists. */
  lemma {:induction false} ChosenEdge(base: iset<Arc>, adj: Adj, names: seq<nat>, external: seq<QueryEdge>,
                                      levels: seq<nat>, remaining: set<nat>, round: nat, chosen: set<nat>, q: QueryEdge)
      returns (x: nat, e: CEdge)
    requires GoodState(base, adj, names, external, levels, remaining, round) && chosen <= remaining
    requires q in Out(adj, names, external) && q.source in Image(names, chosen)
    ensures x in chosen && e in adj[x] && q == Translate(names, x, e)
  {
    var c :| c in chosen && At(names, c) == q.source;
    assert q !in external;
    x, e :| x < |adj| && e in adj[x] && q == Translate(names, x, e);
    AtInjective(names, |adj|, c, x);
  }

  /** Of two nodes that are closer than EPSILON, the one ahead wins the tie as well. */
  ghost predicate Decided(priority: nat -> real, hash: nat -> nat) {
    forall x, y :: priority(x) < priority(y) && priority(y) - priority(x) < EPSILON ==> !Bias(hash, x, y)
  }

  /** Then beating is a strict order: by priority, and by the tie hash among equals. */
  lemma {:induction false} BeatenIsOrder(priority: nat -> real, hash: nat -> nat, x: nat, y: nat)
    requires Decided(priority, hash)
    ensures Beaten(priority, hash, x, y) <==>
              priority(x) > priority(y) || (priority(x) == priority(y) && Bias(hash, x, y))
  {
    assert priority(x) < priority(y) && priority(y) - priority(x) < EPSILON ==> !Bias(hash, x, y);
  }

  /** Among finitely many nodes one is beaten by none of the others. */
  lemma {:induction false} Winner(priority: nat -> real, hash: nat -> nat, nodes: seq<nat>) returns (x: nat)
    requires Decided(priority, hash) && nodes != []
    ensures x in nodes && forall y :: y in nodes && y != x ==> !Beaten(priority, hash, x, y)
    decreases |nodes|
  {
    x := nodes[0];
    if |nodes| > 1 {
      var w := Winner(priority, hash, nodes[1..]);
      assert nodes == [nodes[0]] + nodes[1..];
      BeatenIsOrder(priority, hash, x, w);
      BeatenIsOrder(priority, hash, w, x);
      if w != x && Beaten(priority, hash, x, w) {
        x := w;
      } else {
        forall y | y in nodes && y != x
          ensures !Beaten(priority, hash, x, y)
        {
          BeatenIsOrder(priority, hash, x, y);
          BeatenIsOrder(priority, hash, w, y);
        }
      }
    }
  }

  /** Some remaining node may be chosen. */
  ghost predicate SomeUnbeaten(adj: Adj, priority: nat -> real, hash: nat -> nat, remaining: seq<nat>) {
    exists x :: x in remaining && Unbeaten(adj, priority, hash, x)
  }

  /** A round always finds a node to contract, provided near-ties are decided. */
  lemma {:induction false} SomeNodeIsUnbeaten(base: iset<Arc>, adj: Adj, names: seq<nat>, external: seq<QueryEdge>,
                                              levels: seq<nat>, remaining: seq<nat>, round: nat, priority: nat -> real,
                                              hash: nat -> nat)
    requires GoodState(base, adj, names, external, levels, SetOf(remaining), round)
    requires Decided(priority, hash) && remaining != []
    ensures SomeUnbeaten(adj, priority, hash, remaining)
  {
    var x := Winner(priority, hash, remaining);
    var all := SetOf(remaining);
    forall n, m | n in remaining && HasEdgeTo(adj, n, m)
      ensures m in remaining
    {
      var e :| e in adj[n] && e.target == m;
      StoredEdge(base, adj, names, external, levels, all, round, n, e);
    }
    assert Unbeaten(adj, priority, hash, x);
  }

  // ----- contracting -------------------------------------------------------

  ghost function Avoiding(adj: Adj, names: seq<nat>, external: seq<QueryEdge>, remaining: set<nat>, x: nat): iset<Arc> {
    Without(Core(Forward(Out(adj, names, external)), Image(names, remaining)), At(names, x))
  }

  /** The witness search for x may run over all other remaining nodes. */
  lemma {:induction false} WitnessesFollow(base: iset<Arc>, adj: Adj, names: seq<nat>, external: seq<QueryEdge>,
                                           levels: seq<nat>, remaining: set<nat>, round: nat, x: nat)
    requires GoodState(base, adj, names, external, levels, remaining, round) && x in remaining
    ensures Follows(adj, names, remaining - {x}, x, Avoiding(adj, names, external, remaining, x))
    ensures forall e :: e in adj[x] ==> e.target in remaining - {x}
  {
    forall e | e in adj[x]
      ensures e.target in remaining - {x}
    {
      StoredEdge(base, adj, names, external, levels, remaining, round, x, e);
    }
    forall n, e | n in remaining - {x} && n < |adj| && e in adj[n] && e.data.forward && e.target != x
      ensures e.target in remaining - {x}
      ensures Arc(At(names, n), At(names, e.target), e.data.distance) in Avoiding(adj, names, external, remaining, x)
    {
      StoredEdge(base, adj, names, external, levels, remaining, round, n, e);
      AvoidingArc(adj, names, external, remaining, x, n, e);
    }
  }

  lemma {:induction false} AvoidingArc(adj: Adj, names: seq<nat>, external: seq<QueryEdge>, remaining: set<nat>, x: nat,
                                       n: nat, e: CEdge)
    requires Naming(names, |adj|) && x < |adj| && n < |adj| && e.target < |adj|
    requires n in remaining && n != x && e.target != x && e.data.forward
    requires Translate(names, n, e) in Out(adj, names, external)
    ensures Arc(At(names, n), At(names, e.target), e.data.distance) in Avoiding(adj, names, external, remaining, x)
  {
    var q := Translate(names, n, e);
    assert HasForward(Out(adj, names, external), Arc(q.source, q.target, q.distance));
    assert At(names, n) != At(names, x) && At(names, e.target) != At(names, x);
  }

  /** An entry of the shortcut list: made of two edges of a chosen node, listed from both ends. */
  ghost predicate ShortcutGood(adj: Adj, chosen: set<nat>, list: seq<CInput>, i: CInput) {
    exists x :: x in chosen && x < |adj| && ShortcutVia(adj, x, list, i)
  }

  ghost predicate ShortcutVia(adj: Adj, x: nat, list: seq<CInput>, i: CInput)
    requires x < |adj|
  {
    && ShortcutOf(x, i) && i.source != i.target
    && (i.data.forward ==>
          && Legs(adj[x], i.source, i.target, i.data.distance)
          && HasBackwardTo(list, i.target, i.source, i.data.distance))
    && (i.data.backward ==>
          && Legs(adj[x], i.target, i.source, i.data.distance)
          && HasForwardTo(list, i.target, i.source, i.data.distance))
  }

  /** All shortcuts of the round so far. */
  ghost predicate RoundShortcuts(adj: Adj, names: seq<nat>, external: seq<QueryEdge>, remaining: set<nat>,
                                 chosen: set<nat>, done: set<nat>, list: seq<CInput>) {
    && (forall x :: x in done ==> x < |adj|)
    && done <= chosen
    && (forall i {:trigger ShortcutGood(adj, done, list, i)} :: i in list ==> ShortcutGood(adj, done, list, i))
    && (forall x, e1, e2 :: x in done && e1 in adj[x] && e2 in adj[x] ==>
          PairBridged(list, names, Avoiding(adj, names, external, remaining, x), e1, e2))
  }

  lemma {:induction false} AddShortcuts(adj: Adj, names: seq<nat>, external: seq<QueryEdge>, remaining: set<nat>,
                                        chosen: set<nat>, done: set<nat>, list: seq<CInput>, x: nat, more: seq<CInput>)
    requires RoundShortcuts(adj, names, external, remaining, chosen, done, list)
    requires x < |adj| && x in chosen
    requires Grounded(adj[x], x, more)
    requires forall e1, e2 :: e1 in adj[x] && e2 in adj[x] ==>
               PairBridged(more, names, Avoiding(adj, names, external, remaining, x), e1, e2)
    ensures RoundShortcuts(adj, names, external, remaining, chosen, done + {x}, list + more)
  {
    var l := list + more;
    forall i | i in l
      ensures ShortcutGood(adj, done + {x}, l, i)
    {
      if i in list {
        assert ShortcutGood(adj, done, list, i);
        var y :| y in done && y < |adj| && ShortcutVia(adj, y, list, i);
        MoreShortcuts(list, more, i.target, i.source, i.data.distance);
        assert ShortcutVia(adj, y, l, i);
      } else {
        assert i.data.forward ==> HasForwardTo(more, i.source, i.target, i.data.distance);
        assert i.data.backward ==> HasBackwardTo(more, i.source, i.target, i.data.distance);
        MoreShortcuts(list, more, i.target, i.source, i.data.distance);
        assert ShortcutVia(adj, x, l, i);
      }
    }
    forall y, e1, e2 | y in done + {x} && e1 in adj[y] && e2 in adj[y]
      ensures PairBridged(l, names, Avoiding(adj, names, external, remaining, y), e1, e2)
    {
      MoreShortcuts(list, more, e1.target, e2.target, e1.data.distance + e2.data.distance);
    }
  }

  lemma {:induction false} MoreShortcuts(list: seq<CInput>, more: seq<CInput>, s: nat, t: nat, len: int)
    ensures HasForwardTo(list, s, t, len) || HasForwardTo(more, s, t, len) ==> HasForwardTo(list + more, s, t, len)
    ensures HasBackwardTo(list, s, t, len) || HasBackwardTo(more, s, t, len) ==> HasBackwardTo(list + more, s, t, len)
  {
    assert forall i :: i in list || i in more ==> i in list + more;
  }

  lemma {:induction false} LegsAreTwoLegs(adj: Adj, names: seq<nat>, external: seq<QueryEdge>, x: nat, s: nat, t: nat,
                                          len: int)
    requires x < |adj| && Legs(adj[x], s, t, len)
    ensures TwoLegs(Out(adj, names, external), At(names, s), At(names, x), At(names, t), len)
  {
    var out := Out(adj, names, external);
    var e1, e2 :|
      && e1 in adj[x] && e1.target == s && e1.data.backward
      && e2 in adj[x] && e2.target == t && e2.data.forward
      && e1.data.distance + e2.data.distance == len;
    var q1, q2 := Translate(names, x, e1), Translate(names, x, e2);
    assert Emits(adj, names, q1) && Emits(adj, names, q2);
    assert q1 in out && q2 in out;
  }

  lemma {:induction false} LegEnds(base: iset<Arc>, adj: Adj, names: seq<nat>, external: seq<QueryEdge>,
                                   levels: seq<nat>, remaining: set<nat>, round: nat, chosen: set<nat>, x: nat, s: nat,
                                   t: nat, len: int)
    requires GoodState(base, adj, names, external, levels, remaining, round) && chosen <= remaining && x in chosen
    requires forall x, y :: x in chosen && y in chosen ==> !HasEdgeTo(adj, x, y)
    requires Legs(adj[x], s, t, len)
    ensures s in remaining - chosen && t in remaining - chosen && len >= 2
  {
    var e1, e2 :|
      && e1 in adj[x] && e1.target == s && e1.data.backward
      && e2 in adj[x] && e2.target == t && e2.data.forward
      && e1.data.distance + e2.data.distance == len;
    StoredEdge(base, adj, names, external, levels, remaining, round, x, e1);
    StoredEdge(base, adj, names, external, levels, remaining, round, x, e2);
    assert HasEdgeTo(adj, x, s) && HasEdgeTo(adj, x, t);
  }

  lemma {:induction false} ListedIsGood(base: iset<Arc>, adj: Adj, names: seq<nat>, external: seq<QueryEdge>,
                                        levels: seq<nat>, remaining: set<nat>, round: nat, chosen: set<nat>,
                                        list: seq<CInput>, i: CInput)
    requires GoodState(base, adj, names, external, levels, remaining, round) && chosen <= remaining
    requires forall x, y :: x in chosen && y in chosen ==> !HasEdgeTo(adj, x, y)
    requires ShortcutGood(adj, chosen, list, i)
    ensures i.source in remaining - chosen && i.target in remaining - chosen
    ensures GoodShortcut(Out(adj, names, external), Image(names, remaining) - Image(names, chosen),
                         Image(names, chosen),
                         Translate(names, i.source, Strip(i)))
    ensures Mirrored(OutOf(list, names), Translate(names, i.source, Strip(i)))
  {
    var out, ins := Out(adj, names, external), OutOf(list, names);
    var q := Translate(names, i.source, Strip(i));
    var x :| x in chosen && x < |adj| && ShortcutVia(adj, x, list, i);
    if i.data.forward {
      LegEnds(base, adj, names, external, levels, remaining, round, chosen, x, i.source, i.target, i.data.distance);
      LegsAreTwoLegs(adj, names, external, x, i.source, i.target, i.data.distance);
      var j :| j in list && j.source == i.target && j.target == i.source && j.data.distance == i.data.distance
               && j.data.backward;
      assert EmitsFrom(list, names, Translate(names, j.source, Strip(j)));
    }
    if i.data.backward {
      LegEnds(base, adj, names, external, levels, remaining, round, chosen, x, i.target, i.source, i.data.distance);
      LegsAreTwoLegs(adj, names, external, x, i.target, i.source, i.data.distance);
      var j :| j in list && j.source == i.target && j.target == i.source && j.data.distance == i.data.distance
               && j.data.forward;
      assert EmitsFrom(list, names, Translate(names, j.source, Strip(j)));
    }
    ImageMinus(names, |adj|, remaining, chosen);
    assert At(names, i.source) in Image(names, remaining - chosen)
           && At(names, i.target) in Image(names, remaining - chosen);
    assert At(names, i.source) != At(names, i.target);
    assert At(names, x) in Image(names, chosen);
  }

  lemma {:induction false} PairsAreBridges(base: iset<Arc>, adj: Adj, names: seq<nat>, external: seq<QueryEdge>,
                                           levels: seq<nat>, remaining: set<nat>, round: nat, chosen: set<nat>,
                                           list: seq<CInput>, x: nat, q1: QueryEdge, q2: QueryEdge)
    requires GoodState(base, adj, names, external, levels, remaining, round) && chosen <= remaining
    requires RoundShortcuts(adj, names, external, remaining, chosen, chosen, list)
    requires x in Image(names, chosen)
    ensures Bridges(Out(adj, names, external), Image(names, remaining), OutOf(list, names), x, q1, q2)
  {
    var out := Out(adj, names, external);
    if q1 in out && q1.source == x && q1.backward && q2 in out && q2.source == x && q2.forward && q1.target != q2.target
       && q1.distance + q2.distance < INT_MAX {
      var n, e1 := ChosenEdge(base, adj, names, external, levels, remaining, round, chosen, q1);
      var n', e2 := ChosenEdge(base, adj, names, external, levels, remaining, round, chosen, q2);
      AtInjective(names, |adj|, n, n');
      PairIsBridge(adj, names, external, remaining, list, n, e1, e2);
    }
  }

  lemma {:induction false} PairIsBridge(adj: Adj, names: seq<nat>, external: seq<QueryEdge>, remaining: set<nat>,
                                        list: seq<CInput>, n: nat, e1: CEdge, e2: CEdge)
    requires PairBridged(list, names, Avoiding(adj, names, external, remaining, n), e1, e2)
    ensures Bridges(Out(adj, names, external), Image(names, remaining), OutOf(list, names), At(names, n),
                    Translate(names, n, e1), Translate(names, n, e2))
  {
    if HasForwardTo(list, e1.target, e2.target, e1.data.distance + e2.data.distance) {
      ListedForward(names, list, e1.target, e2.target, e1.data.distance + e2.data.distance);
    }
  }

  lemma {:induction false} ListedForward(names: seq<nat>, list: seq<CInput>, s: nat, t: nat, len: int)
    requires HasForwardTo(list, s, t, len)
    ensures exists q ::
              && q in OutOf(list, names) && q.source == At(names, s) && q.target == At(names, t) && q.forward
              && q.distance <= len
  {
    var i :| i in list && i.source == s && i.target == t && i.data.distance == len && i.data.forward;
    var q := Translate(names, i.source, Strip(i));
    assert EmitsFrom(list, names, q);
    assert q in OutOf(list, names);
  }

  lemma {:induction false} RoundIsGood(base: iset<Arc>, adj: Adj, names: seq<nat>, external: seq<QueryEdge>,
                                       levels: seq<nat>, remaining: set<nat>, round: nat, chosen: set<nat>,
                                       list: seq<CInput>)
    requires GoodState(base, adj, names, external, levels, remaining, round) && chosen <= remaining
    requires forall x, y :: x in chosen && y in chosen ==> !HasEdgeTo(adj, x, y)
    requires RoundShortcuts(adj, names, external, remaining, chosen, chosen, list)
    ensures GoodRound(Out(adj, names, external), Image(names, remaining), Image(names, chosen), OutOf(list, names))
  {
    var out, left, ins := Out(adj, names, external), Image(names, remaining), OutOf(list, names);
    forall q | q in ins
      ensures GoodShortcut(out, left - Image(names, chosen), Image(names, chosen), q) && Mirrored(ins, q)
    {
      var i :| i in list && q == Translate(names, i.source, Strip(i));
      ListedIsGood(base, adj, names, external, levels, remaining, round, chosen, list, i);
    }
    forall x, e1, e2 | x in Image(names, chosen)
      ensures Bridges(out, left, ins, x, e1, e2)
    {
      PairsAreBridges(base, adj, names, external, levels, remaining, round, chosen, list, x, e1, e2);
    }
  }

  // ----- deleting and inserting --------------------------------------------

  /** Survivors have lost exactly their edges into the chosen set. */
  ghost predicate AfterDelete(adj: Adj, adj': Adj, survivors: set<nat>, chosen: set<nat>) {
    && |adj'| == |adj|
    && forall n, e :: 0 <= n < |adj| ==> (e in adj'[n] <==> e in adj[n] && !(n in survivors && e.target in chosen))
  }

  ghost predicate Serving(e': CEdge, e: CEdge) {
    && e'.target == e.target && e'.data.distance <= e.data.distance
    && e'.data.forward == e.data.forward && e'.data.backward == e.data.backward
  }

  ghost predicate ServedIn(edges: seq<CEdge>, e: CEdge) {
    exists e' :: e' in edges && Serving(e', e)
  }

  /** Every listed shortcut was inserted or displaced a longer one with the same flags. */
  ghost predicate AfterInsert(adj: Adj, adj': Adj, list: seq<CInput>) {
    && |adj'| == |adj|
    && (forall n, e :: 0 <= n < |adj| && e in adj'[n] ==> e in adj[n] || InputEdge(n, e.target, e.data) in list)
    && (forall n, e {:trigger ServedIn(adj'[n], e)} :: 0 <= n < |adj| && e in adj[n] ==> ServedIn(adj'[n], e))
    && (forall i :: i in list ==> i.source < |adj|)
    && (forall i {:trigger ServedIn(adj'[i.source], Strip(i))} :: i in list ==> ServedIn(adj'[i.source], Strip(i)))
    && (forall n, e :: 0 <= n < |adj| && e in adj[n] && e !in adj'[n] ==> Listed(list, n))
  }

  ghost predicate Listed(list: seq<CInput>, n: nat) {
    exists i :: i in list && i.source == n
  }

  /** Deleting and inserting do what the theory calls replacing. */
  lemma {:induction false} ListsAreReplaced(base: iset<Arc>, adj: Adj, names: seq<nat>, external: seq<QueryEdge>,
                                            levels: seq<nat>, remaining: set<nat>, round: nat, chosen: set<nat>,
                                            list: seq<CInput>, adj1: Adj, adj2: Adj)
    requires GoodState(base, adj, names, external, levels, remaining, round) && chosen <= remaining
    requires forall i :: i in list ==> i.source in remaining - chosen && i.target in remaining - chosen
    requires AfterDelete(adj, adj1, remaining - chosen, chosen) && AfterInsert(adj1, adj2, list)
    ensures Replaced(Out(adj, names, external), Image(names, remaining), Image(names, chosen), OutOf(list, names),
                     Out(adj2, names, external))
  {
    ImageMinus(names, |adj|, remaining, chosen);
    var out, out', ins := Out(adj, names, external), Out(adj2, names, external), OutOf(list, names);
    var left, gone := Image(names, remaining), Image(names, chosen);
    forall q: QueryEdge | q.source !in left - gone
      ensures q in out <==> q in out'
    {
      FrozenEdge(adj, names, external, remaining, chosen, list, adj1, adj2, q);
    }
    forall q | q in out' && q.source in left - gone
      ensures (q in out && q.target !in gone) || q in ins
    {
      NewEdge(adj, names, external, remaining, chosen, list, adj1, adj2, q);
    }
    forall q | q in out && q.source in left - gone && q.target !in gone
      ensures Served(out', q)
    {
      KeptEdge(adj, names, external, remaining, chosen, list, adj1, adj2, q);
    }
    forall q | q in ins
      ensures Served(out', q)
    {
      var i :| i in list && q == Translate(names, i.source, Strip(i));
      assert ServedIn(adj2[i.source], Strip(i));
      var e' :| e' in adj2[i.source] && Serving(e', Strip(i));
      assert Emits(adj2, names, Translate(names, i.source, e'));
      assert Translate(names, i.source, e') in out';
    }
  }

  lemma {:induction false} FrozenEdge(adj: Adj, names: seq<nat>, external: seq<QueryEdge>, remaining: set<nat>,
                                      chosen: set<nat>, list: seq<CInput>, adj1: Adj, adj2: Adj, q: QueryEdge)
    requires AfterDelete(adj, adj1, remaining - chosen, chosen) && AfterInsert(adj1, adj2, list)
    requires forall i :: i in list ==> i.source in remaining - chosen
    requires q.source !in Image(names, remaining - chosen)
    ensures q in Out(adj, names, external) <==> q in Out(adj2, names, external)
  {
    forall n: nat, e | n < |adj| && q == Translate(names, n, e)
      ensures e in adj[n] <==> e in adj2[n]
    {
      assert n !in remaining - chosen;
      assert !Listed(list, n);
    }
  }

  lemma {:induction false} NewEdge(adj: Adj, names: seq<nat>, external: seq<QueryEdge>, remaining: set<nat>,
                                   chosen: set<nat>, list: seq<CInput>, adj1: Adj, adj2: Adj, q: QueryEdge)
    requires Naming(names, |adj|) && InGraph(adj) && chosen <= remaining && forall n :: n in remaining ==> n < |adj|
    requires forall q :: q in external ==> q.source !in Image(names, remaining)
    requires AfterDelete(adj, adj1, remaining - chosen, chosen) && AfterInsert(adj1, adj2, list)
    requires q in Out(adj2, names, external) && q.source in Image(names, remaining - chosen)
    ensures (q in Out(adj, names, external) && q.target !in Image(names, chosen)) || q in OutOf(list, names)
  {
    var n: nat, e :| n < |adj2| && e in adj2[n] && q == Translate(names, n, e);
    ImageMember(names, |adj|, remaining - chosen, n);
    if e in adj1[n] {
      assert Emits(adj, names, q);
      ImageMember(names, |adj|, chosen, e.target);
    } else {
      assert InputEdge(n, e.target, e.data) in list;
      assert EmitsFrom(list, names, q);
    }
  }

  lemma {:induction false} KeptEdge(adj: Adj, names: seq<nat>, external: seq<QueryEdge>, remaining: set<nat>,
                                    chosen: set<nat>, list: seq<CInput>, adj1: Adj, adj2: Adj, q: QueryEdge)
    requires Naming(names, |adj|) && InGraph(adj) && chosen <= remaining && forall n :: n in remaining ==> n < |adj|
    requires forall q :: q in external ==> q.source !in Image(names, remaining)
    requires AfterDelete(adj, adj1, remaining - chosen, chosen) && AfterInsert(adj1, adj2, list)
    requires q in Out(adj, names, external) && q.source in Image(names, remaining - chosen)
             && q.target !in Image(names, chosen)
    ensures Served(Out(adj2, names, external), q)
  {
    var n: nat, e :| n < |adj| && e in adj[n] && q == Translate(names, n, e);
    ImageMember(names, |adj|, chosen, e.target);
    assert e in adj1[n];
    assert ServedIn(adj2[n], e);
    var e' :| e' in adj2[n] && Serving(e', e);
    assert Emits(adj2, names, Translate(names, n, e'));
    assert Serves(Translate(names, n, e'), q) && Translate(names, n, e') in Out(adj2, names, external);
  }

  /** One whole round, on the contractor's own lists. */
  lemma {:induction false} NextState(base: iset<Arc>, adj: Adj, names: seq<nat>, external: seq<QueryEdge>,
                                     levels: seq<nat>, remaining: set<nat>, round: nat, chosen: set<nat>,
                                     list: seq<CInput>, adj1: Adj, adj2: Adj, levels': seq<nat>)
    requires GoodState(base, adj, names, external, levels, remaining, round) && chosen <= remaining
    requires Apart(adj, chosen)
    requires RoundShortcuts(adj, names, external, remaining, chosen, chosen, list)
    requires AfterDelete(adj, adj1, remaining - chosen, chosen) && AfterInsert(adj1, adj2, list)
    requires NewLevels(levels, Image(names, chosen), round, levels')
    ensures GoodState(base, adj2, names, external, levels', remaining - chosen, round + 1)
  {
    var out, out', ins := Out(adj, names, external), Out(adj2, names, external), OutOf(list, names);
    var left, gone := Image(names, remaining), Image(names, chosen);
    ImageMinus(names, |adj|, remaining, chosen);
    forall i | i in list
      ensures i.source in remaining - chosen && i.target in remaining - chosen && i.data.distance >= 1
    {
      ListedIsGood(base, adj, names, external, levels, remaining, round, chosen, list, i);
    }
    ChosenIndependentSet(base, adj, names, external, levels, remaining, round, chosen);
    RoundIsGood(base, adj, names, external, levels, remaining, round, chosen, list);
    ListsAreReplaced(base, adj, names, external, levels, remaining, round, chosen, list, adj1, adj2);
    RoundConsistent(base, out, levels, left, round, gone, ins, out', levels');
    RoundComplete(base, out, levels, left, round, gone, ins, out');
    StillInGraph(adj, adj1, adj2, remaining, chosen, list);
  }

  /** It adds only shortcuts. */
  lemma {:induction false} NextShortcuts(adj: Adj, names: seq<nat>, external: seq<QueryEdge>, remaining: set<nat>,
                                         chosen: set<nat>, list: seq<CInput>, adj1: Adj, adj2: Adj)
    requires RoundShortcuts(adj, names, external, remaining, chosen, chosen, list)
    requires AfterDelete(adj, adj1, remaining - chosen, chosen) && AfterInsert(adj1, adj2, list)
    ensures AddsShortcuts(Out(adj, names, external), Out(adj2, names, external))
  {
    forall q | Emits(adj2, names, q) && !q.shortcut
      ensures Emits(adj, names, q)
    {
      var n: nat, e :| n < |adj2| && e in adj2[n] && q == Translate(names, n, e);
      var i := InputEdge(n, e.target, e.data);
      assert i in list ==> ShortcutGood(adj, chosen, list, i);
    }
  }

  /** And it changes no distance between the nodes it leaves. */
  lemma {:induction false} NextDistances(base: iset<Arc>, adj: Adj, names: seq<nat>, external: seq<QueryEdge>,
                                         levels: seq<nat>, remaining: set<nat>, round: nat, chosen: set<nat>,
                                         list: seq<CInput>, adj1: Adj, adj2: Adj)
    requires GoodState(base, adj, names, external, levels, remaining, round) && chosen <= remaining
    requires Apart(adj, chosen)
    requires RoundShortcuts(adj, names, external, remaining, chosen, chosen, list)
    requires AfterDelete(adj, adj1, remaining - chosen, chosen) && AfterInsert(adj1, adj2, list)
    ensures SameDistances(Out(adj, names, external), Image(names, remaining), Out(adj2, names, external),
                          Image(names, remaining - chosen))
  {
    ImageMinus(names, |adj|, remaining, chosen);
    forall i | i in list
      ensures i.source in remaining - chosen && i.target in remaining - chosen
    {
      ListedIsGood(base, adj, names, external, levels, remaining, round, chosen, list, i);
    }
    ChosenIndependentSet(base, adj, names, external, levels, remaining, round, chosen);
    RoundIsGood(base, adj, names, external, levels, remaining, round, chosen, list);
    ListsAreReplaced(base, adj, names, external, levels, remaining, round, chosen, list, adj1, adj2);
    RoundKeepsDistances(base, Out(adj, names, external), levels, Image(names, remaining), round, Image(names, chosen),
                        OutOf(list, names), Out(adj2, names, external));
  }

  lemma {:induction false} StillInGraph(adj: Adj, adj1: Adj, adj2: Adj, remaining: set<nat>, chosen: set<nat>,
                                        list: seq<CInput>)
    requires InGraph(adj) && forall n :: n in remaining ==> n < |adj|
    requires AfterDelete(adj, adj1, remaining - chosen, chosen) && AfterInsert(adj1, adj2, list)
    requires forall i :: i in list ==> i.target in remaining - chosen && i.data.distance >= 1
    ensures InGraph(adj2)
  {
    forall n, e | 0 <= n < |adj2| && e in adj2[n]
      ensures e.target < |adj2| && e.data.distance >= 1
    {
      if e !in adj1[n] {
        assert InputEdge(n, e.target, e.data) in list;
      }
    }
  }

  // ----- the steps of the two loops ----------------------------------------

  /** After DeleteIncomingEdges ran for the nodes in `done`. */
  ghost predicate Deleting(adj: Adj, adj': Adj, done: set<nat>) {
    && |adj'| == |adj|
    && forall n: nat, e :: n < |adj| ==> (e in adj'[n] <==> e in adj[n] && !Incoming(adj, done, n, e))
  }

  /** An edge into a node of `done`, stored at one of its neighbours. */
  ghost predicate Incoming(adj: Adj, done: set<nat>, n: nat, e: CEdge) {
    e.target in done && e.target != n && HasEdgeTo(adj, e.target, n)
  }

  lemma {:induction false} DeletedAll(base: iset<Arc>, adj: Adj, names: seq<nat>, external: seq<QueryEdge>,
                                      levels: seq<nat>, remaining: set<nat>, round: nat, chosen: set<nat>, adj': Adj)
    requires GoodState(base, adj, names, external, levels, remaining, round) && chosen <= remaining
    requires forall x, y :: x in chosen && y in chosen ==> !HasEdgeTo(adj, x, y)
    requires Deleting(adj, adj', chosen)
    ensures AfterDelete(adj, adj', remaining - chosen, chosen)
  {
    forall n: nat, e | n < |adj|
      ensures e in adj'[n] <==> e in adj[n] && !(n in remaining - chosen && e.target in chosen)
    {
      if e in adj[n] && e.target in chosen {
        IncomingIsMirrored(base, adj, names, external, levels, remaining, round, chosen, n, e);
      }
    }
  }

  /** The nodes that store an edge into a chosen node and are its neighbours are the survivors. */
  lemma {:induction false} IncomingIsMirrored(base: iset<Arc>, adj: Adj, names: seq<nat>, external: seq<QueryEdge>,
                                              levels: seq<nat>, remaining: set<nat>, round: nat, chosen: set<nat>,
                                              n: nat, e: CEdge)
    requires GoodState(base, adj, names, external, levels, remaining, round) && chosen <= remaining
    requires forall x, y :: x in chosen && y in chosen ==> !HasEdgeTo(adj, x, y)
    requires n < |adj| && e in adj[n] && e.target in chosen
    ensures n in remaining - chosen <==> e.target != n && HasEdgeTo(adj, e.target, n)
  {
    if n in remaining - chosen {
      StoredEdge(base, adj, names, external, levels, remaining, round, n, e);
    } else if n in chosen {
      assert HasEdgeTo(adj, n, e.target);
    } else if HasEdgeTo(adj, e.target, n) {
      var f :| f in adj[e.target] && f.target == n;
      StoredEdge(base, adj, names, external, levels, remaining, round, e.target, f);
    }
  }

  /** Storing `e` at `s`, next to the edges there or in place of one it serves. */
  lemma {:induction false} InsertStep(adj: Adj, adj1: Adj, list: seq<CInput>, i: CInput, edges: seq<CEdge>)
    requires AfterInsert(adj, adj1, list) && i.source < |adj|
    requires Strip(i) in edges
    requires forall e :: e in edges ==> e in adj1[i.source] || e == Strip(i)
    requires forall e :: e in adj1[i.source] ==> e in edges || Serving(Strip(i), e)
    ensures AfterInsert(adj, adj1[i.source := edges], list + [i])
  {
    var adj2, l := adj1[i.source := edges], list + [i];
    assert i in l && forall x :: x in list ==> x in l;
    forall n: nat, e | n < |adj| && ServedIn(adj1[n], e)
      ensures ServedIn(adj2[n], e)
    {
      var e1 :| e1 in adj1[n] && Serving(e1, e);
      if n == i.source && e1 !in edges {
        assert Serving(Strip(i), e);
      }
    }
    assert Serving(Strip(i), Strip(i));
    assert Listed(l, i.source);
    assert forall n :: Listed(list, n) ==> Listed(l, n);
  }

  // ----- the flush ---------------------------------------------------------

  /** The new number of every remaining node is its position. */
  ghost predicate Renumbering(remaining: seq<nat>, newId: map<nat, nat>) {
    && (forall n :: n in newId <==> n in remaining)
    && (forall n :: n in newId ==> newId[n] < |remaining| && remaining[newId[n]] == n)
  }

  function Renamed(newId: map<nat, nat>, n: nat, e: CEdge): CInput
    requires n in newId && e.target in newId
  {
    InputEdge(newId[n], newId[e.target], e.data.(isOriginalViaNodeId := true))
  }

  /** `kept` are the renamed edges of remaining nodes, `moved` the edges of contracted ones,
      among the first `count` nodes. */
  ghost predicate Flushed(adj: Adj, count: nat, newId: map<nat, nat>, kept: seq<CInput>, moved: seq<QueryEdge>)
    requires count <= |adj|
  {
    && (forall n: nat, e :: n < count && e in adj[n] ==>
          if n in newId then e.target in newId && Renamed(newId, n, e) in kept else Translate([], n, e) in moved)
    && (forall x :: x in kept ==> IsRenamed(adj, count, newId, x))
    && (forall q :: q in moved ==> IsMoved(adj, count, newId, q))
    && |kept| + |moved| == Total(adj, count)
  }

  ghost predicate IsRenamed(adj: Adj, count: nat, newId: map<nat, nat>, x: CInput)
    requires count <= |adj|
  {
    exists n: nat, e :: n < count && e in adj[n] && n in newId && e.target in newId && x == Renamed(newId, n, e)
  }

  ghost predicate IsMoved(adj: Adj, count: nat, newId: map<nat, nat>, q: QueryEdge)
    requires count <= |adj|
  {
    exists n: nat, e :: n < count && e in adj[n] && n !in newId && q == Translate([], n, e)
  }

  /** Renaming is undone by the translation to original numbers. */
  lemma {:induction false} RenamedTranslates(remaining: seq<nat>, newId: map<nat, nat>, n: nat, e: CEdge)
    requires Renumbering(remaining, newId) && n in newId && e.target in newId
    ensures var x := Renamed(newId, n, e); Translate(remaining, x.source, Strip(x)) == Translate([], n, e)
  {
  }

  /** The flush hands out the same edges as before. */
  lemma {:induction false} FlushKeepsEdges(adj: Adj, external: seq<QueryEdge>, remaining: seq<nat>,
                                           newId: map<nat, nat>, kept: seq<CInput>, moved: seq<QueryEdge>, adj': Adj)
    requires Renumbering(remaining, newId) && Flushed(adj, |adj|, newId, kept, moved)
    requires |adj'| == |remaining|
    requires forall n: nat, e :: n < |adj'| ==> (e in adj'[n] <==> InputEdge(n, e.target, e.data) in kept)
    ensures Out(adj', remaining, external + moved) == Out(adj, [], external)
  {
    forall q
      ensures q in Out(adj', remaining, external + moved) <==> q in Out(adj, [], external)
    {
      if Emits(adj', remaining, q) {
        var n: nat, e :| n < |adj'| && e in adj'[n] && q == Translate(remaining, n, e);
        var m: nat, f :| m < |adj| && f in adj[m] && m in newId && f.target in newId
                         && InputEdge(n, e.target, e.data) == Renamed(newId, m, f);
        RenamedTranslates(remaining, newId, m, f);
        assert Emits(adj, [], q);
      }
      if Emits(adj, [], q) {
        var n: nat, e :| n < |adj| && e in adj[n] && q == Translate([], n, e);
        if n in newId {
          var x := Renamed(newId, n, e);
          RenamedTranslates(remaining, newId, n, e);
          assert x in kept && Strip(x) in adj'[x.source];
          assert Emits(adj', remaining, q);
        }
      }
      if q in moved {
        assert IsMoved(adj, |adj|, newId, q);
        assert Emits(adj, [], q);
      }
    }
  }

  lemma {:induction false} FlushKeepsState(base: iset<Arc>, adj: Adj, external: seq<QueryEdge>, levels: seq<nat>,
                                           remaining: seq<nat>, round: nat, newId: map<nat, nat>, kept: seq<CInput>,
                                           moved: seq<QueryEdge>, adj': Adj, ids: seq<nat>)
    requires GoodState(base, adj, [], external, levels, SetOf(remaining), round)
    requires remaining != [] && forall i, j :: 0 <= i < j < |remaining| ==> remaining[i] != remaining[j]
    requires Renumbering(remaining, newId) && Flushed(adj, |adj|, newId, kept, moved)
    requires |adj'| == |remaining|
    requires forall n: nat, e :: n < |adj'| ==> (e in adj'[n] <==> InputEdge(n, e.target, e.data) in kept)
    requires |ids| == |remaining| && forall i :: 0 <= i < |ids| ==> ids[i] == i
    ensures Image(remaining, SetOf(ids)) == SetOf(remaining)
    ensures Out(adj', remaining, external + moved) == Out(adj, [], external)
    ensures GoodState(base, adj', remaining, external + moved, levels, SetOf(ids), round)
  {
    FlushKeepsEdges(adj, external, remaining, newId, kept, moved, adj');
    assert Image([], SetOf(remaining)) == SetOf(remaining);
    forall n
      ensures n in Image(remaining, SetOf(ids)) <==> n in SetOf(remaining)
    {
      if n in remaining {
        var i :| 0 <= i < |remaining| && remaining[i] == n;
        assert ids[i] in SetOf(ids);
      }
    }
    assert InGraph(adj') by {
      forall n, e | 0 <= n < |adj'| && e in adj'[n]
        ensures e.target < |adj'| && e.data.distance >= 1
      {
        assert IsRenamed(adj, |adj|, newId, InputEdge(n, e.target, e.data));
      }
    }
    forall n | 0 <= n < |adj'|
      ensures At(remaining, n) < |levels|
    {
      assert remaining[n] in SetOf(remaining) && At([], remaining[n]) == remaining[n];
    }
    forall q | q in external + moved
      ensures q.source !in SetOf(remaining)
    {
      if q in moved {
        assert IsMoved(adj, |adj|, newId, q);
      }
    }
  }
}
