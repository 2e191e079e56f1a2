/** What the contractor keeps true of the edges it will hand out, round after round. */
module ContractionTheory {
  import opened Basics
  import opened Walks
  import opened Hierarchy

  /** The largest distance that fits the 30-bit field of a query edge. */
  const MAX_DISTANCE: int := 0x1fff_ffff

  /** An edge of the contracted graph, stored at its source. `id` is the contracted node in
      the middle of a shortcut and the number of the input edge otherwise. */
  datatype QueryEdge = QueryEdge(source: nat, target: nat, distance: int, shortcut: bool, id: nat,
                                 forward: bool, backward: bool)

  ghost function Forward(out: iset<QueryEdge>): iset<Arc> {
    iset a: Arc | HasForward(out, a)
  }

  ghost predicate HasForward(out: iset<QueryEdge>, a: Arc) {
    exists q :: q in out && q.forward && a == Arc(q.source, q.target, q.distance)
  }

  ghost function Backward(out: iset<QueryEdge>): iset<Arc> {
    iset a: Arc | HasBackward(out, a)
  }

  ghost predicate HasBackward(out: iset<QueryEdge>, a: Arc) {
    exists q :: q in out && q.backward && a == Arc(q.target, q.source, q.distance)
  }

  // ----- the invariant -----------------------------------------------------

  ghost predicate WellFormed(q: QueryEdge) {
    q.distance >= 1 && (q.forward || q.backward) && q.source != q.target
  }

  /** A stored edge q' offers everything q does, at no greater distance. */
  ghost predicate Serves(q': QueryEdge, q: QueryEdge) {
    && q'.source == q.source && q'.target == q.target && q'.distance <= q.distance
    && q'.forward == q.forward && q'.backward == q.backward
  }

  /** The other end of q stores an edge for the same direction that is no longer. */
  ghost predicate Mirrored(out: iset<QueryEdge>, q: QueryEdge) {
    && (q.forward ==> exists m ::
          m in out && m.source == q.target && m.target == q.source && m.backward && m.distance <= q.distance)
    && (q.backward ==> exists m ::
          m in out && m.source == q.target && m.target == q.source && m.forward && m.distance <= q.distance)
  }

  /** A way s -> via -> t made of two edges stored at via. */
  ghost predicate TwoLegs(out: iset<QueryEdge>, s: nat, via: nat, t: nat, len: int) {
    exists e1, e2 ::
      && e1 in out && e1.source == via && e1.target == s && e1.backward
      && e2 in out && e2.source == via && e2.target == t && e2.forward
      && e1.distance + e2.distance == len
  }

  /** Both directions of a shortcut are exactly two edges stored at its middle node; any other
      edge is an edge of the input. */
  ghost predicate Justified(base: iset<Arc>, out: iset<QueryEdge>, q: QueryEdge) {
    && (q.forward ==>
          if q.shortcut then TwoLegs(out, q.source, q.id, q.target, q.distance)
          else Arc(q.source, q.target, q.distance) in base)
    && (q.backward ==>
          if q.shortcut then TwoLegs(out, q.target, q.id, q.source, q.distance)
          else Arc(q.target, q.source, q.distance) in base)
  }

  /** The round in which a node was contracted; nodes that are left come last. */
  ghost function Rank(levels: seq<nat>, left: set<nat>, round: nat, n: nat): nat {
    if n in left || n >= |levels| then round else levels[n]
  }

  ghost predicate Ranked(levels: seq<nat>, left: set<nat>, round: nat, q: QueryEdge) {
    && q.source < |levels| && q.target < |levels|
    && (q.source in left ==> q.target in left)
    && (q.source !in left ==>
          && levels[q.source] < round
          && levels[q.source] < Rank(levels, left, round, q.target))
    && (q.shortcut ==>
          && q.id < |levels| && q.id !in left
          && levels[q.id] < Rank(levels, left, round, q.source))
  }

  /** The distances stored at contracted nodes fit their field. */
  ghost predicate Small(out: iset<QueryEdge>, left: set<nat>) {
    forall q :: q in out && q.source !in left ==> q.distance <= MAX_DISTANCE
  }

  ghost predicate Consistent(base: iset<Arc>, out: iset<QueryEdge>, levels: seq<nat>, left: set<nat>, round: nat) {
    && (forall q {:trigger WellFormed(q)} :: q in out ==> WellFormed(q))
    && (forall q {:trigger Justified(base, out, q)} :: q in out ==> Justified(base, out, q))
    && (forall q {:trigger Ranked(levels, left, round, q)} :: q in out ==> Ranked(levels, left, round, q))
    && (forall q {:trigger Mirrored(out, q)} :: q in out && q.source in left ==> Mirrored(out, q))
  }

  /** Unless some distance overflows, every walk of the input is matched by a route that
      climbs, crosses what is left and descends. */
  ghost predicate Complete(base: iset<Arc>, out: iset<QueryEdge>, left: set<nat>) {
    Small(out, left) ==>
      forall s, t, len :: Walk(base, s, t, len) ==> Covered(Forward(out), Backward(out), left, s, t, len)
  }

  // ----- unpacking ---------------------------------------------------------

  /** Unpacking a shortcut terminates in input edges of the same total distance. */
  lemma {:induction false} Unpack(base: iset<Arc>, out: iset<QueryEdge>, levels: seq<nat>, left: set<nat>, round: nat,
                                  q: QueryEdge)
    requires Consistent(base, out, levels, left, round) && q in out
    ensures q.forward ==> Walk(base, q.source, q.target, q.distance)
    ensures q.backward ==> Walk(base, q.target, q.source, q.distance)
    decreases Rank(levels, left, round, q.source)
  {
    assert Justified(base, out, q) && Ranked(levels, left, round, q);
    if q.forward {
      UnpackOne(base, out, levels, left, round, q, q.source, q.target);
    }
    if q.backward {
      UnpackOne(base, out, levels, left, round, q, q.target, q.source);
    }
  }

  lemma {:induction false} UnpackOne(base: iset<Arc>, out: iset<QueryEdge>, levels: seq<nat>, left: set<nat>,
                                     round: nat, q: QueryEdge, s: nat, t: nat)
    requires Consistent(base, out, levels, left, round) && q in out
    requires if q.shortcut then TwoLegs(out, s, q.id, t, q.distance) else Arc(s, t, q.distance) in base
    ensures Walk(base, s, t, q.distance)
    decreases Rank(levels, left, round, q.source), 0
  {
    if q.shortcut {
      assert Ranked(levels, left, round, q);
      var e1, e2 :|
        && e1 in out && e1.source == q.id && e1.target == s && e1.backward
        && e2 in out && e2.source == q.id && e2.target == t && e2.forward
        && e1.distance + e2.distance == q.distance;
      Unpack(base, out, levels, left, round, e1);
      Unpack(base, out, levels, left, round, e2);
      WalkTrans(base, s, q.id, t, e1.distance, e2.distance);
    } else {
      WalkArc(base, Arc(s, t, q.distance));
    }
  }

  /** Every arc a search may follow is a walk of the input. */
  lemma {:induction false} Sound(base: iset<Arc>, out: iset<QueryEdge>, levels: seq<nat>, left: set<nat>, round: nat)
    requires Consistent(base, out, levels, left, round)
    ensures forall a :: a in Forward(out) ==> Walk(base, a.src, a.dst, a.w) && a.w >= 1
    ensures forall a :: a in Backward(out) ==> Walk(base, a.src, a.dst, a.w) && a.w >= 1
  {
    forall a | a in Forward(out)
      ensures Walk(base, a.src, a.dst, a.w) && a.w >= 1
    {
      var q :| q in out && q.forward && a == Arc(q.source, q.target, q.distance);
      Unpack(base, out, levels, left, round, q);
      assert WellFormed(q);
    }
    forall a | a in Backward(out)
      ensures Walk(base, a.src, a.dst, a.w) && a.w >= 1
    {
      var q :| q in out && q.backward && a == Arc(q.target, q.source, q.distance);
      Unpack(base, out, levels, left, round, q);
      assert WellFormed(q);
    }
  }

  // ----- one round ---------------------------------------------------------

  /** What contracting the chosen nodes must deliver: shortcuts between survivors, each made
      of two edges at a chosen node, stored at both ends, and bridging every way through. */
  ghost predicate GoodShortcut(out: iset<QueryEdge>, survivors: set<nat>, chosen: set<nat>, q: QueryEdge) {
    && WellFormed(q) && q.shortcut && q.id in chosen
    && q.source in survivors && q.target in survivors
    && (q.forward ==> TwoLegs(out, q.source, q.id, q.target, q.distance))
    && (q.backward ==> TwoLegs(out, q.target, q.id, q.source, q.distance))
  }

  ghost predicate Bridges(out: iset<QueryEdge>, left: set<nat>, ins: iset<QueryEdge>, x: nat, e1: QueryEdge,
                          e2: QueryEdge) {
    e1 in out && e1.source == x && e1.backward && e2 in out && e2.source == x && e2.forward && e1.target != e2.target
    && e1.distance + e2.distance < INT_MAX ==>
      || (exists q ::
            && q in ins && q.source == e1.target && q.target == e2.target && q.forward
            && q.distance <= e1.distance + e2.distance)
      || Within(Without(Core(Forward(out), left), x), e1.target, e2.target, e1.distance + e2.distance)
  }

  ghost predicate GoodRound(out: iset<QueryEdge>, left: set<nat>, chosen: set<nat>, ins: iset<QueryEdge>) {
    && (forall q {:trigger GoodShortcut(out, left - chosen, chosen, q)} ::
          q in ins ==> GoodShortcut(out, left - chosen, chosen, q))
    && (forall q {:trigger Mirrored(ins, q)} :: q in ins ==> Mirrored(ins, q))
    && (forall x, e1, e2 :: x in chosen ==> Bridges(out, left, ins, x, e1, e2))
  }

  /** No chosen node stores an edge to a chosen node, and no survivor stores edges to two of them. */
  ghost predicate IndependentSet(out: iset<QueryEdge>, left: set<nat>, chosen: set<nat>) {
    && chosen <= left
    && (forall q :: q in out && q.source in chosen ==> q.target !in chosen)
    && (forall q1, q2 ::
          q1 in out && q2 in out && q1.source in chosen && q2.source in chosen && q1.target == q2.target ==>
            q1.source == q2.source)
  }

  /** The edges after the round: what is stored at contracted nodes is frozen, survivors lose
      their edges into the chosen set, and a shortcut may displace a longer duplicate. */
  ghost predicate Replaced(out: iset<QueryEdge>, left: set<nat>, chosen: set<nat>, ins: iset<QueryEdge>,
                           out': iset<QueryEdge>) {
    && (forall q: QueryEdge :: q.source !in left - chosen ==> (q in out <==> q in out'))
    && (forall q :: q in out' && q.source in left - chosen ==> (q in out && q.target !in chosen) || q in ins)
    && (forall q {:trigger Served(out', q)} ::
          q in out && q.source in left - chosen && q.target !in chosen ==> Served(out', q))
    && (forall q {:trigger Served(out', q)} :: q in ins ==> Served(out', q))
  }

  ghost predicate Served(out: iset<QueryEdge>, q: QueryEdge) {
    exists q' :: q' in out && Serves(q', q)
  }

  ghost predicate NewLevels(levels: seq<nat>, chosen: set<nat>, round: nat, levels': seq<nat>) {
    && |levels'| == |levels|
    && (forall n :: 0 <= n < |levels| ==> levels'[n] == if n in chosen then round else levels[n])
  }

  lemma {:induction false} RoundConsistent(base: iset<Arc>, out: iset<QueryEdge>, levels: seq<nat>, left: set<nat>,
                                           round: nat, chosen: set<nat>, ins: iset<QueryEdge>, out': iset<QueryEdge>,
                                           levels': seq<nat>)
    requires Consistent(base, out, levels, left, round)
    requires IndependentSet(out, left, chosen)
    requires GoodRound(out, left, chosen, ins)
    requires Replaced(out, left, chosen, ins, out')
    requires NewLevels(levels, chosen, round, levels')
    ensures Consistent(base, out', levels', left - chosen, round + 1)
  {
    var left' := left - chosen;
    forall q | q in out'
      ensures WellFormed(q) && Justified(base, out', q) && Ranked(levels', left', round + 1, q)
      ensures q.source in left' ==> Mirrored(out', q)
    {
      if q in out && (q.source !in left' || q.target !in chosen) {
        assert WellFormed(q) && Justified(base, out, q) && Ranked(levels, left, round, q);
        KeptRank(levels, left, round, chosen, levels', q);
        KeptJustified(base, out, left, chosen, ins, out', q);
        if q.source in left' {
          assert Mirrored(out, q);
          SurvivingMirror(out, left, chosen, ins, out', q);
        }
      } else {
        assert q in ins;
        assert GoodShortcut(out, left', chosen, q) && Mirrored(ins, q);
        ShortcutRank(base, out, levels, left, round, chosen, levels', q);
        ShortcutJustified(base, out, left, chosen, ins, out', q);
        InsertedMirror(out, left, chosen, ins, out', q);
      }
    }
  }

  lemma {:induction false} KeptRank(levels: seq<nat>, left: set<nat>, round: nat, chosen: set<nat>, levels': seq<nat>,
                                    q: QueryEdge)
    requires chosen <= left && NewLevels(levels, chosen, round, levels')
    requires Ranked(levels, left, round, q)
    requires q.source !in left - chosen || q.target !in chosen
    requires q.source in chosen ==> q.target !in chosen
    ensures Ranked(levels', left - chosen, round + 1, q)
  {
  }

  lemma {:induction false} ShortcutRank(base: iset<Arc>, out: iset<QueryEdge>, levels: seq<nat>, left: set<nat>,
                                        round: nat, chosen: set<nat>, levels': seq<nat>, q: QueryEdge)
    requires Consistent(base, out, levels, left, round)
    requires chosen <= left && NewLevels(levels, chosen, round, levels')
    requires GoodShortcut(out, left - chosen, chosen, q)
    ensures Ranked(levels', left - chosen, round + 1, q)
  {
    if q.forward {
      LegRanks(base, out, levels, left, round, q.source, q.id, q.target, q.distance);
    } else {
      LegRanks(base, out, levels, left, round, q.target, q.id, q.source, q.distance);
    }
  }

  lemma {:induction false} KeptJustified(base: iset<Arc>, out: iset<QueryEdge>, left: set<nat>, chosen: set<nat>,
                                         ins: iset<QueryEdge>, out': iset<QueryEdge>, q: QueryEdge)
    requires Replaced(out, left, chosen, ins, out')
    requires Justified(base, out, q) && (q.shortcut ==> q.id !in left)
    ensures Justified(base, out', q)
  {
    if q.shortcut && q.forward {
      FrozenLegs(out, left, chosen, ins, out', q.source, q.id, q.target, q.distance);
    }
    if q.shortcut && q.backward {
      FrozenLegs(out, left, chosen, ins, out', q.target, q.id, q.source, q.distance);
    }
  }

  lemma {:induction false} ShortcutJustified(base: iset<Arc>, out: iset<QueryEdge>, left: set<nat>, chosen: set<nat>,
                                             ins: iset<QueryEdge>, out': iset<QueryEdge>, q: QueryEdge)
    requires Replaced(out, left, chosen, ins, out')
    requires GoodShortcut(out, left - chosen, chosen, q)
    ensures Justified(base, out', q)
  {
    if q.forward {
      FrozenLegs(out, left, chosen, ins, out', q.source, q.id, q.target, q.distance);
    }
    if q.backward {
      FrozenLegs(out, left, chosen, ins, out', q.target, q.id, q.source, q.distance);
    }
  }

  lemma {:induction false} LegRanks(base: iset<Arc>, out: iset<QueryEdge>, levels: seq<nat>, left: set<nat>, round: nat,
                 s: nat, via: nat, t: nat, len: int)
    requires Consistent(base, out, levels, left, round) && TwoLegs(out, s, via, t, len)
    ensures s < |levels| && via < |levels| && t < |levels|
  {
    var e1, e2 :|
      && e1 in out && e1.source == via && e1.target == s && e1.backward
      && e2 in out && e2.source == via && e2.target == t && e2.forward
      && e1.distance + e2.distance == len;
    assert Ranked(levels, left, round, e1) && Ranked(levels, left, round, e2);
  }

  lemma {:induction false} FrozenLegs(out: iset<QueryEdge>, left: set<nat>, chosen: set<nat>, ins: iset<QueryEdge>,
                                      out': iset<QueryEdge>, s: nat, via: nat, t: nat, len: int)
    requires Replaced(out, left, chosen, ins, out')
    requires TwoLegs(out, s, via, t, len) && via !in left - chosen
    ensures TwoLegs(out', s, via, t, len)
  {
    var e1, e2 :|
      && e1 in out && e1.source == via && e1.target == s && e1.backward
      && e2 in out && e2.source == via && e2.target == t && e2.forward
      && e1.distance + e2.distance == len;
    assert e1 in out' && e2 in out';
  }

  lemma {:induction false} SurvivingMirror(out: iset<QueryEdge>, left: set<nat>, chosen: set<nat>, ins: iset<QueryEdge>,
                                           out': iset<QueryEdge>, q: QueryEdge)
    requires Replaced(out, left, chosen, ins, out')
    requires Mirrored(out, q) && q.source in left - chosen && q.target in left - chosen
    ensures Mirrored(out', q)
  {
    if q.forward {
      var m :| m in out && m.source == q.target && m.target == q.source && m.backward && m.distance <= q.distance;
      assert Served(out', m);
      var m' :| m' in out' && Serves(m', m);
    }
    if q.backward {
      var m :| m in out && m.source == q.target && m.target == q.source && m.forward && m.distance <= q.distance;
      assert Served(out', m);
      var m' :| m' in out' && Serves(m', m);
    }
  }

  lemma {:induction false} InsertedMirror(out: iset<QueryEdge>, left: set<nat>, chosen: set<nat>, ins: iset<QueryEdge>,
                                          out': iset<QueryEdge>, q: QueryEdge)
    requires Replaced(out, left, chosen, ins, out')
    requires Mirrored(ins, q)
    ensures Mirrored(out', q)
  {
    if q.forward {
      var m :| m in ins && m.source == q.target && m.target == q.source && m.backward && m.distance <= q.distance;
      assert Served(out', m);
      var m' :| m' in out' && Serves(m', m);
    }
    if q.backward {
      var m :| m in ins && m.source == q.target && m.target == q.source && m.forward && m.distance <= q.distance;
      assert Served(out', m);
      var m' :| m' in out' && Serves(m', m);
    }
  }

  // ----- distances ---------------------------------------------------------

  /** Whatever is adjacent to a remaining node is the target of an edge stored there. */
  lemma {:induction false} AdjacentIsStored(base: iset<Arc>, out: iset<QueryEdge>, levels: seq<nat>, left: set<nat>,
                                            round: nat, x: nat, u: nat)
    requires Consistent(base, out, levels, left, round)
    requires Adjacent(Core(Forward(out), left), x, u)
    ensures exists q :: q in out && q.source == x && q.target == u
  {
    var w :| Arc(x, u, w) in Core(Forward(out), left) || Arc(u, x, w) in Core(Forward(out), left);
    if Arc(x, u, w) in Core(Forward(out), left) {
      var q :| q in out && q.forward && Arc(x, u, w) == Arc(q.source, q.target, q.distance);
    } else {
      var q :| q in out && q.forward && Arc(u, x, w) == Arc(q.source, q.target, q.distance);
      assert Mirrored(out, q);
    }
  }

  lemma {:induction false} ChosenIndependent(base: iset<Arc>, out: iset<QueryEdge>, levels: seq<nat>, left: set<nat>,
                                             round: nat, chosen: set<nat>)
    requires Consistent(base, out, levels, left, round) && IndependentSet(out, left, chosen)
    ensures Independent(Core(Forward(out), left), chosen)
  {
    var core := Core(Forward(out), left);
    forall x, y | x in chosen && y in chosen
      ensures !Adjacent(core, x, y)
    {
      if Adjacent(core, x, y) {
        AdjacentIsStored(base, out, levels, left, round, x, y);
      }
    }
    forall x, y, u | x in chosen && y in chosen && Adjacent(core, x, u) && Adjacent(core, y, u)
      ensures x == y
    {
      AdjacentIsStored(base, out, levels, left, round, x, u);
      AdjacentIsStored(base, out, levels, left, round, y, u);
    }
  }

  lemma {:induction false} MirrorDominates(base: iset<Arc>, out: iset<QueryEdge>, levels: seq<nat>, left: set<nat>,
                                           round: nat)
    requires Consistent(base, out, levels, left, round)
    ensures Positive(Core(Forward(out), left))
    ensures forall a :: a in Core(Forward(out), left) ==> a.dst in left
    ensures Dominates(CoreBack(Backward(out), left), Core(Forward(out), left))
  {
    var core, back := Core(Forward(out), left), CoreBack(Backward(out), left);
    forall a | a in core
      ensures a.w >= 1 && a.dst in left && HasArcWithin(back, a.src, a.dst, a.w)
    {
      var q :| q in out && q.forward && a == Arc(q.source, q.target, q.distance);
      assert WellFormed(q) && Ranked(levels, left, round, q) && Mirrored(out, q);
      var m :| m in out && m.source == q.target && m.target == q.source && m.backward && m.distance <= q.distance;
      assert HasBackward(out, Arc(m.target, m.source, m.distance));
      assert Arc(a.src, a.dst, m.distance) in back;
    }
  }

  lemma {:induction false} ShortcutsBridge(out: iset<QueryEdge>, left: set<nat>, chosen: set<nat>, ins: iset<QueryEdge>,
                                           out': iset<QueryEdge>)
    requires chosen <= left
    requires GoodRound(out, left, chosen, ins) && Replaced(out, left, chosen, ins, out')
    requires Small(out', left - chosen)
    ensures Bridged(Core(Forward(out), left), CoreBack(Backward(out), left), chosen, Core(Forward(out'), left - chosen))
  {
    var core, back, after := Core(Forward(out), left), CoreBack(Backward(out), left), Core(Forward(out'),
          left - chosen);
    forall x, u, v, w1, w2 | x in chosen && u != v && Arc(u, x, w1) in back && Arc(x, v, w2) in core
      ensures HasArcWithin(after, u, v, w1 + w2) || Within(Without(core, x), u, v, w1 + w2)
    {
      var e1 :| e1 in out && e1.backward && Arc(u, x, w1) == Arc(e1.target, e1.source, e1.distance);
      var e2 :| e2 in out && e2.forward && Arc(x, v, w2) == Arc(e2.source, e2.target, e2.distance);
      assert e1 in out' && e2 in out';
      assert Bridges(out, left, ins, x, e1, e2);
      if !Within(Without(core, x), u, v, w1 + w2) {
        InsertedArc(out, left, chosen, ins, out', u, v, w1 + w2);
      }
    }
  }

  lemma {:induction false} InsertedArc(out: iset<QueryEdge>, left: set<nat>, chosen: set<nat>, ins: iset<QueryEdge>,
                                       out': iset<QueryEdge>, u: nat, v: nat, len: int)
    requires Replaced(out, left, chosen, ins, out')
    requires forall q {:trigger GoodShortcut(out, left - chosen, chosen, q)} ::
               q in ins ==> GoodShortcut(out, left - chosen, chosen, q)
    requires exists q :: q in ins && q.source == u && q.target == v && q.forward && q.distance <= len
    ensures HasArcWithin(Core(Forward(out'), left - chosen), u, v, len)
  {
    var q :| q in ins && q.source == u && q.target == v && q.forward && q.distance <= len;
    assert GoodShortcut(out, left - chosen, chosen, q);
    assert Served(out', q);
    var q' :| q' in out' && Serves(q', q);
    assert HasForward(out', Arc(u, v, q'.distance));
    assert Arc(u, v, q'.distance) in Core(Forward(out'), left - chosen);
  }

  lemma {:induction false} KeptDominates(out: iset<QueryEdge>, left: set<nat>, chosen: set<nat>, ins: iset<QueryEdge>,
                                         out': iset<QueryEdge>)
    requires Replaced(out, left, chosen, ins, out')
    ensures Dominates(Core(Forward(out'), left - chosen), Outside(Core(Forward(out), left), chosen))
  {
    var after := Core(Forward(out'), left - chosen);
    forall a | a in Outside(Core(Forward(out), left), chosen)
      ensures HasArcWithin(after, a.src, a.dst, a.w)
    {
      var q :| q in out && q.forward && a == Arc(q.source, q.target, q.distance);
      assert Served(out', q);
    var q' :| q' in out' && Serves(q', q);
      assert HasForward(out', Arc(a.src, a.dst, q'.distance));
      assert Arc(a.src, a.dst, q'.distance) in after;
    }
  }

  lemma {:induction false} FrozenArcs(out: iset<QueryEdge>, left: set<nat>, chosen: set<nat>, ins: iset<QueryEdge>,
                                      out': iset<QueryEdge>)
    requires Replaced(out, left, chosen, ins, out')
    ensures Lower(Forward(out'), left - chosen) == Lower(Forward(out), left - chosen)
    ensures LowerBack(Backward(out'), left - chosen) == LowerBack(Backward(out), left - chosen)
  {
    forall a: Arc | a.src !in left - chosen
      ensures HasForward(out, a) <==> HasForward(out', a)
    {
    }
    forall a: Arc | a.dst !in left - chosen
      ensures HasBackward(out, a) <==> HasBackward(out', a)
    {
    }
  }

  /** A round of the contractor is a round of the theory. */
  lemma {:induction false} RoundIsStep(base: iset<Arc>, out: iset<QueryEdge>, levels: seq<nat>, left: set<nat>,
                                       round: nat, chosen: set<nat>, ins: iset<QueryEdge>, out': iset<QueryEdge>)
    requires Consistent(base, out, levels, left, round)
    requires IndependentSet(out, left, chosen)
    requires GoodRound(out, left, chosen, ins)
    requires Replaced(out, left, chosen, ins, out')
    requires Small(out', left - chosen)
    ensures RoundStep(Forward(out), Backward(out), left, chosen, Forward(out'), Backward(out'))
  {
    MirrorDominates(base, out, levels, left, round);
    ChosenIndependent(base, out, levels, left, round, chosen);
    ShortcutsBridge(out, left, chosen, ins, out');
    KeptDominates(out, left, chosen, ins, out');
    FrozenArcs(out, left, chosen, ins, out');
  }

  /** What a round leaves between survivors are old edges and shortcuts, and those are old ways. */
  lemma {:induction false} NewArcsStandForWays(base: iset<Arc>, out: iset<QueryEdge>, levels: seq<nat>, left: set<nat>,
                                               round: nat, chosen: set<nat>, ins: iset<QueryEdge>,
                                               out': iset<QueryEdge>)
    requires Consistent(base, out, levels, left, round) && chosen <= left
    requires GoodRound(out, left, chosen, ins) && Replaced(out, left, chosen, ins, out')
    ensures StandsFor(Core(Forward(out'), left - chosen), Core(Forward(out), left))
  {
    forall a | a in Core(Forward(out'), left - chosen)
      ensures Within(Core(Forward(out), left), a.src, a.dst, a.w)
    {
      var q :| q in out' && q.forward && a == Arc(q.source, q.target, q.distance);
      if q in out {
        assert HasForward(out, a);
        WalkArc(Core(Forward(out), left), a);
      } else {
        assert GoodShortcut(out, left - chosen, chosen, q);
        LegsAreWay(base, out, levels, left, round, q.source, q.id, q.target, q.distance);
      }
    }
  }

  lemma {:induction false} LegsAreWay(base: iset<Arc>, out: iset<QueryEdge>, levels: seq<nat>, left: set<nat>,
                                      round: nat, s: nat, via: nat, t: nat, len: int)
    requires Consistent(base, out, levels, left, round) && via in left && TwoLegs(out, s, via, t, len)
    ensures Within(Core(Forward(out), left), s, t, len)
  {
    var core := Core(Forward(out), left);
    var e1, e2 :|
      && e1 in out && e1.source == via && e1.target == s && e1.backward
      && e2 in out && e2.source == via && e2.target == t && e2.forward
      && e1.distance + e2.distance == len;
    assert Mirrored(out, e1) && Ranked(levels, left, round, e1);
    var m :| m in out && m.source == s && m.target == via && m.forward && m.distance <= e1.distance;
    assert HasForward(out, Arc(s, via, m.distance)) && HasForward(out, Arc(via, t, e2.distance));
    WalkArc(core, Arc(s, via, m.distance));
    WalkArc(core, Arc(via, t, e2.distance));
    WithinTrans(core, s, via, t, m.distance, e2.distance);
  }

  /** The distances between the nodes of left' are the same over what is left before and after. */
  ghost predicate SameDistances(out: iset<QueryEdge>, left: set<nat>, out': iset<QueryEdge>, left': set<nat>) {
    Small(out', left') ==>
      forall s, t, len :: s in left' && t in left' ==>
        (Within(Core(Forward(out), left), s, t, len) <==> Within(Core(Forward(out'), left'), s, t, len))
  }

  /** A round changes no distance between surviving nodes. */
  lemma {:induction false} RoundKeepsDistances(base: iset<Arc>, out: iset<QueryEdge>, levels: seq<nat>, left: set<nat>,
                                               round: nat, chosen: set<nat>, ins: iset<QueryEdge>,
                                               out': iset<QueryEdge>)
    requires Consistent(base, out, levels, left, round)
    requires IndependentSet(out, left, chosen)
    requires GoodRound(out, left, chosen, ins)
    requires Replaced(out, left, chosen, ins, out')
    ensures SameDistances(out, left, out', left - chosen)
  {
    if Small(out', left - chosen) {
      RoundIsStep(base, out, levels, left, round, chosen, ins, out');
      NewArcsStandForWays(base, out, levels, left, round, chosen, ins, out');
      forall s, t, len | s in left - chosen && t in left - chosen
        ensures Within(Core(Forward(out), left), s, t, len) <==> Within(Core(Forward(out'), left - chosen), s, t, len)
      {
        RoundPreserves(Core(Forward(out), left), CoreBack(Backward(out), left), chosen,
                       Core(Forward(out'), left - chosen), s, t, len);
      }
    }
  }

  /** Between nodes that are left, what is left of the graph has exactly the distances of the input. */
  lemma {:induction false} CoreDistances(base: iset<Arc>, out: iset<QueryEdge>, levels: seq<nat>, left: set<nat>,
                                         round: nat, s: nat, t: nat, len: int)
    requires Consistent(base, out, levels, left, round) && Complete(base, out, left) && Small(out, left)
    requires s in left && t in left
    ensures Within(Core(Forward(out), left), s, t, len) <==> Within(base, s, t, len)
  {
    if Within(Core(Forward(out), left), s, t, len) {
      var p :| IsWalk(Core(Forward(out), left), s, p, t) && Length(p) <= len;
      Sound(base, out, levels, left, round);
      ExpandedWalk(Core(Forward(out), left), base, s, p, t);
    }
    if Within(base, s, t, len) {
      var p :| IsWalk(base, s, p, t) && Length(p) <= len;
      assert Walk(base, s, t, Length(p));
      CoveredCore(Forward(out), Backward(out), left, s, t, Length(p));
    }
  }

  /** A route between nodes that are left has nothing to climb and nothing to descend. */
  lemma {:induction false} CoveredCore(fwd: iset<Arc>, bwd: iset<Arc>, left: set<nat>, s: nat, t: nat, len: int)
    requires Covered(fwd, bwd, left, s, t, len) && s in left && t in left
    ensures Within(Core(fwd, left), s, t, len)
  {
    var m1, m2, a, c :|
      && Walk(Lower(fwd, left), s, m1, a) && Walk(LowerBack(bwd, left), m2, t, c)
      && Crosses(fwd, left, m1, m2, len - a - c);
    var p :| IsWalk(Lower(fwd, left), s, p, m1) && Length(p) == a;
    var q :| IsWalk(LowerBack(bwd, left), m2, q, t) && Length(q) == c;
    if q.Step? {
      var init, last := SplitLast(LowerBack(bwd, left), m2, q, t);
    }
    WalkHere(Core(fwd, left), s);
  }

  /** A round keeps every walk of the input matched. */
  lemma {:induction false} RoundComplete(base: iset<Arc>, out: iset<QueryEdge>, levels: seq<nat>, left: set<nat>,
                                         round: nat, chosen: set<nat>, ins: iset<QueryEdge>, out': iset<QueryEdge>)
    requires Consistent(base, out, levels, left, round) && Complete(base, out, left)
    requires IndependentSet(out, left, chosen)
    requires GoodRound(out, left, chosen, ins)
    requires Replaced(out, left, chosen, ins, out')
    ensures Complete(base, out', left - chosen)
  {
    if Small(out', left - chosen) {
      assert Small(out, left) by {
        forall q | q in out && q.source !in left
          ensures q.distance <= MAX_DISTANCE
        {
          assert q in out';
        }
      }
      RoundIsStep(base, out, levels, left, round, chosen, ins, out');
      forall s, t, len | Walk(base, s, t, len)
        ensures Covered(Forward(out'), Backward(out'), left - chosen, s, t, len)
      {
        CoveredStep(Forward(out), Backward(out), left, chosen, Forward(out'), Backward(out'), s, t, len);
      }
    }
  }

  /** Every edge that is not a shortcut was there before. */
  ghost predicate AddsShortcuts(out: iset<QueryEdge>, out': iset<QueryEdge>) {
    forall q :: q in out' && !q.shortcut ==> q in out
  }

  // ----- the first state ---------------------------------------------------

  /** q is an edge of the input in every direction it offers. */
  ghost predicate InputEdgeOf(base: iset<Arc>, nodes: nat, q: QueryEdge) {
    && WellFormed(q) && !q.shortcut && q.source < nodes && q.target < nodes
    && (q.forward ==> Arc(q.source, q.target, q.distance) in base)
    && (q.backward ==> Arc(q.target, q.source, q.distance) in base)
  }

  /** An arc of the input is offered from both of its ends, at no greater distance. */
  ghost predicate OfferedByBoth(out: iset<QueryEdge>, a: Arc) {
    && (exists q :: q in out && q.source == a.src && q.target == a.dst && q.forward && q.distance <= a.w)
    && (exists q :: q in out && q.source == a.dst && q.target == a.src && q.backward && q.distance <= a.w)
  }

  ghost predicate OnlyInput(base: iset<Arc>, out: iset<QueryEdge>, nodes: nat) {
    forall q {:trigger InputEdgeOf(base, nodes, q)} :: q in out ==> InputEdgeOf(base, nodes, q)
  }

  ghost predicate AllInput(base: iset<Arc>, out: iset<QueryEdge>) {
    forall a {:trigger OfferedByBoth(out, a)} :: a in base ==> OfferedByBoth(out, a)
  }

  lemma {:induction false} StartConsistent(base: iset<Arc>, out: iset<QueryEdge>, levels: seq<nat>, left: set<nat>,
                                           round: nat)
    requires OnlyInput(base, out, |levels|) && AllInput(base, out)
    requires forall q :: q in out ==> q.source in left && q.target in left
    ensures Consistent(base, out, levels, left, round)
  {
    forall q | q in out
      ensures WellFormed(q) && Justified(base, out, q) && Ranked(levels, left, round, q) && Mirrored(out, q)
    {
      assert InputEdgeOf(base, |levels|, q);
      if q.forward {
        assert OfferedByBoth(out, Arc(q.source, q.target, q.distance));
      }
      if q.backward {
        assert OfferedByBoth(out, Arc(q.target, q.source, q.distance));
      }
    }
  }

  lemma {:induction false} StartComplete(base: iset<Arc>, out: iset<QueryEdge>, nodes: nat, left: set<nat>)
    requires OnlyInput(base, out, nodes) && AllInput(base, out)
    requires forall q :: q in out ==> q.source in left && q.target in left
    ensures Complete(base, out, left)
  {
    var fwd, bwd := Forward(out), Backward(out);
    forall a | a in base
      ensures HasArcWithin(Core(fwd, left), a.src, a.dst, a.w) && a.src in left && a.dst in left
    {
      assert OfferedByBoth(out, a);
      var q :| q in out && q.source == a.src && q.target == a.dst && q.forward && q.distance <= a.w;
      var r :| r in out && r.source == a.dst && r.target == a.src && r.backward && r.distance <= a.w;
      assert InputEdgeOf(base, nodes, q) && InputEdgeOf(base, nodes, r);
      assert HasForward(out, Arc(a.src, a.dst, q.distance));
      assert Arc(a.src, a.dst, q.distance) in Core(fwd, left);
    }
    forall s, t, len | Walk(base, s, t, len)
      ensures Covered(fwd, bwd, left, s, t, len)
    {
      StartCovered(base, fwd, bwd, left, s, t, len);
    }
  }

  lemma {:induction false} StartCovered(base: iset<Arc>, fwd: iset<Arc>, bwd: iset<Arc>, left: set<nat>, s: nat, t: nat,
                                        len: int)
    requires Dominates(Core(fwd, left), base)
    requires forall a :: a in base ==> a.src in left && a.dst in left
    requires Walk(base, s, t, len)
    ensures Covered(fwd, bwd, left, s, t, len)
  {
    var p :| IsWalk(base, s, p, t) && Length(p) == len;
    DominatedWalk(base, Core(fwd, left), s, p, t);
    WalkHere(Lower(fwd, left), s);
    WalkHere(LowerBack(bwd, left), t);
    if p.Step? {
      var init, last := SplitLast(base, s, p, t);
    }
    assert Crosses(fwd, left, s, t, len - 0 - 0);
  }
}
