/** The theory of one contraction round and of the finished hierarchy. */
module Hierarchy {
  import opened Walks

  // ----- one round ---------------------------------------------------------

  /** The arcs that do not touch x. */
  ghost function Without(arcs: iset<Arc>, x: nat): iset<Arc> {
    iset a | a in arcs && a.src != x && a.dst != x
  }

  /** The arcs with no end among the chosen nodes. */
  ghost function Outside(arcs: iset<Arc>, chosen: set<nat>): iset<Arc> {
    iset a | a in arcs && a.src !in chosen && a.dst !in chosen
  }

  ghost predicate Adjacent(arcs: iset<Arc>, x: nat, u: nat) {
    exists w :: Arc(x, u, w) in arcs || Arc(u, x, w) in arcs
  }

  /** No two chosen nodes are adjacent and no two share a neighbour. */
  ghost predicate Independent(arcs: iset<Arc>, chosen: set<nat>) {
    && (forall x, y :: x in chosen && y in chosen ==> !Adjacent(arcs, x, y))
    && (forall x, y, u :: x in chosen && y in chosen && Adjacent(arcs, x, u) && Adjacent(arcs, y, u) ==> x == y)
  }

  /** For every way through a chosen node, either `after` has an arc that replaces it
      or the old graph has a way round that avoids just this node. */
  ghost predicate Bridged(arcs: iset<Arc>, incoming: iset<Arc>, chosen: set<nat>, after: iset<Arc>) {
    forall x, u, v, w1, w2 ::
      x in chosen && u != v && Arc(u, x, w1) in incoming && Arc(x, v, w2) in arcs ==>
        HasArcWithin(after, u, v, w1 + w2) || Within(Without(arcs, x), u, v, w1 + w2)
  }

  ghost predicate RoundPre(arcs: iset<Arc>, incoming: iset<Arc>, chosen: set<nat>, after: iset<Arc>) {
    && Positive(arcs)
    && Dominates(incoming, arcs)
    && Independent(arcs, chosen)
    && Bridged(arcs, incoming, chosen, after)
    && Dominates(after, Outside(arcs, chosen))
  }

  /** A way through a chosen node survives, although the way round that was found for it
      may itself lead through other nodes of the same round: such a detour starts at a node
      that is no neighbour of x, so it is strictly shorter. */
  lemma {:induction false} ThroughChosen(arcs: iset<Arc>, incoming: iset<Arc>, chosen: set<nat>, after: iset<Arc>,
                                         u: nat, x: nat, v: nat, w1: nat, w2: nat)
    requires RoundPre(arcs, incoming, chosen, after)
    requires x in chosen && Arc(u, x, w1) in arcs && Arc(x, v, w2) in arcs
    ensures Within(after, u, v, w1 + w2)
    decreases w1 + w2, 1
  {
    if u == v {
      WalkHere(after, u);
    } else {
      var w :| w <= w1 && Arc(u, x, w) in incoming;
      if HasArcWithin(after, u, v, w + w2) {
        var w' :| w' <= w + w2 && Arc(u, v, w') in after;
        WalkArc(after, Arc(u, v, w'));
      } else {
        var p :| IsWalk(Without(arcs, x), u, p, v) && Length(p) <= w + w2;
        assert Adjacent(arcs, x, u) && Adjacent(arcs, x, v);
        assert u !in chosen && v !in chosen;
        Rerouted(arcs, incoming, chosen, after, x, 0, u, p, v, w1 + w2);
      }
    }
  }

  /** A walk between surviving nodes, rebuilt arc by arc and detour by detour. `before` is
      the length already behind us; as long as it is 0 we stand at a neighbour of x. */
  lemma {:induction false} Rerouted(arcs: iset<Arc>, incoming: iset<Arc>, chosen: set<nat>, after: iset<Arc>,
                                    x: nat, before: nat, s: nat, p: Path, t: nat, bound: nat)
    requires RoundPre(arcs, incoming, chosen, after)
    requires IsWalk(arcs, s, p, t) || IsWalk(Without(arcs, x), s, p, t)
    requires s !in chosen && t !in chosen
    requires before + Length(p) <= bound
    requires before == 0 ==> x in chosen && Adjacent(arcs, x, s) && IsWalk(Without(arcs, x), s, p, t)
    ensures Within(after, s, t, Length(p))
    decreases bound, 0, p
  {
    if IsWalk(Without(arcs, x), s, p, t) {
      WalkMonotone(Without(arcs, x), arcs, s, p, t);
    }
    match p
    case Stop => WalkHere(after, s);
    case Step(a, rest) =>
      LengthNonNegative(arcs, a.dst, rest, t);
      if a.dst !in chosen {
        assert a in Outside(arcs, chosen);
        var w :| w <= a.w && Arc(a.src, a.dst, w) in after;
        WalkArc(after, Arc(a.src, a.dst, w));
        Rerouted(arcs, incoming, chosen, after, x, before + a.w, a.dst, rest, t, bound);
        WithinTrans(after, s, a.dst, t, w, Length(rest));
      } else {
        var y := a.dst;
        var b := rest.arc;
        assert Adjacent(arcs, y, s);
        assert Adjacent(arcs, y, b.dst);
        assert b.dst !in chosen;
        LengthNonNegative(arcs, b.dst, rest.rest, t);
        assert before != 0;
        ThroughChosen(arcs, incoming, chosen, after, s, y, b.dst, a.w, b.w);
        Rerouted(arcs, incoming, chosen, after, x, before + a.w + b.w, b.dst, rest.rest, t, bound);
        WithinTrans(after, s, b.dst, t, a.w + b.w, Length(rest.rest));
      }
  }

  /** No distance between surviving nodes grows. */
  lemma {:induction false} RoundReroutes(arcs: iset<Arc>, incoming: iset<Arc>, chosen: set<nat>, after: iset<Arc>,
                                         s: nat, t: nat, len: int)
    requires RoundPre(arcs, incoming, chosen, after)
    requires s !in chosen && t !in chosen && Within(arcs, s, t, len)
    ensures Within(after, s, t, len)
  {
    var p :| IsWalk(arcs, s, p, t) && Length(p) <= len;
    LengthNonNegative(arcs, s, p, t);
    Rerouted(arcs, incoming, chosen, after, 0, 1, s, p, t, 1 + Length(p));
  }

  /** Every arc stands for a way of the old graph that is no longer. */
  ghost predicate StandsFor(after: iset<Arc>, arcs: iset<Arc>) {
    forall a :: a in after ==> Within(arcs, a.src, a.dst, a.w)
  }

  /** Contracting an independent set against one and the same old graph keeps every distance between
      the nodes that survive: none grows, and none shrinks if the new arcs stand for old ways. */
  lemma {:induction false} RoundPreserves(arcs: iset<Arc>, incoming: iset<Arc>, chosen: set<nat>, after: iset<Arc>,
                                          s: nat, t: nat, len: int)
    requires RoundPre(arcs, incoming, chosen, after) && StandsFor(after, arcs)
    requires s !in chosen && t !in chosen
    ensures Within(arcs, s, t, len) <==> Within(after, s, t, len)
  {
    if Within(arcs, s, t, len) {
      RoundReroutes(arcs, incoming, chosen, after, s, t, len);
    }
    if Within(after, s, t, len) {
      var p :| IsWalk(after, s, p, t) && Length(p) <= len;
      ReplacedWalk(after, arcs, s, p, t);
    }
  }

  // ----- all rounds --------------------------------------------------------
  // `fwd` holds the arcs stored at their source, `bwd` those stored at their target;
  // `left` is the set of nodes that are not contracted yet.

  ghost function Lower(fwd: iset<Arc>, left: set<nat>): iset<Arc> {
    iset a | a in fwd && a.src !in left
  }

  ghost function LowerBack(bwd: iset<Arc>, left: set<nat>): iset<Arc> {
    iset a | a in bwd && a.dst !in left
  }

  ghost function Core(fwd: iset<Arc>, left: set<nat>): iset<Arc> {
    iset a | a in fwd && a.src in left
  }

  ghost function CoreBack(bwd: iset<Arc>, left: set<nat>): iset<Arc> {
    iset a | a in bwd && a.dst in left
  }

  /** Climb from s through contracted nodes, cross what is left of the graph, descend to t. */
  ghost predicate Covered(fwd: iset<Arc>, bwd: iset<Arc>, left: set<nat>, s: nat, t: nat, len: int) {
    exists m1, m2, a, c ::
      && Walk(Lower(fwd, left), s, m1, a)
      && Walk(LowerBack(bwd, left), m2, t, c)
      && Crosses(fwd, left, m1, m2, len - a - c)
  }

  ghost predicate Crosses(fwd: iset<Arc>, left: set<nat>, m1: nat, m2: nat, len: int) {
    || (m1 == m2 && 0 <= len)
    || (m1 in left && m2 in left && Within(Core(fwd, left), m1, m2, len))
  }

  /** The step from one round to the next: edges stored at contracted nodes are frozen. */
  ghost predicate RoundStep(fwd: iset<Arc>, bwd: iset<Arc>, left: set<nat>, chosen: set<nat>,
                            fwd': iset<Arc>, bwd': iset<Arc>) {
    && chosen <= left
    && (forall a :: a in Core(fwd, left) ==> a.dst in left)
    && Lower(fwd', left - chosen) == Lower(fwd, left - chosen)
    && LowerBack(bwd', left - chosen) == LowerBack(bwd, left - chosen)
    && RoundPre(Core(fwd, left), CoreBack(bwd, left), chosen, Core(fwd', left - chosen))
  }

  lemma {:induction false} LowerGrows(arcs: iset<Arc>, left: set<nat>, chosen: set<nat>, s: nat, t: nat, len: int)
    ensures Walk(Lower(arcs, left), s, t, len) ==> Walk(Lower(arcs, left - chosen), s, t, len)
    ensures Walk(LowerBack(arcs, left), s, t, len) ==> Walk(LowerBack(arcs, left - chosen), s, t, len)
  {
    if Walk(Lower(arcs, left), s, t, len) {
      var p :| IsWalk(Lower(arcs, left), s, p, t) && Length(p) == len;
      WalkMonotone(Lower(arcs, left), Lower(arcs, left - chosen), s, p, t);
    }
    if Walk(LowerBack(arcs, left), s, t, len) {
      var p :| IsWalk(LowerBack(arcs, left), s, p, t) && Length(p) == len;
      WalkMonotone(LowerBack(arcs, left), LowerBack(arcs, left - chosen), s, p, t);
    }
  }

  /** Every climb-cross-descend route survives a round. */
  lemma {:induction false} CoveredStep(fwd: iset<Arc>, bwd: iset<Arc>, left: set<nat>, chosen: set<nat>,
                    fwd': iset<Arc>, bwd': iset<Arc>, s: nat, t: nat, len: int)
    requires RoundStep(fwd, bwd, left, chosen, fwd', bwd')
    requires Covered(fwd, bwd, left, s, t, len)
    ensures Covered(fwd', bwd', left - chosen, s, t, len)
  {
    var m1, m2, a, c :|
      && Walk(Lower(fwd, left), s, m1, a)
      && Walk(LowerBack(bwd, left), m2, t, c)
      && Crosses(fwd, left, m1, m2, len - a - c);
    LowerGrows(fwd, left, chosen, s, m1, a);
    LowerGrows(bwd, left, chosen, m2, t, c);
    if m1 == m2 && 0 <= len - a - c {
      assert Crosses(fwd', left - chosen, m1, m2, len - a - c);
    } else {
      var p :| IsWalk(Core(fwd, left), m1, p, m2) && Length(p) <= len - a - c;
      ClimbThenDescend(fwd, bwd, left, chosen, fwd', bwd', s, m1, a, p, m2, t, c, len);
    }
  }

  lemma {:induction false} ClimbThenDescend(fwd: iset<Arc>, bwd: iset<Arc>, left: set<nat>, chosen: set<nat>,
                         fwd': iset<Arc>, bwd': iset<Arc>,
                         s: nat, m1: nat, a: int, p: Path, m2: nat, t: nat, c: int, len: int)
    requires RoundStep(fwd, bwd, left, chosen, fwd', bwd')
    requires m1 in left && m2 in left
    requires Walk(Lower(fwd', left - chosen), s, m1, a)
    requires Walk(LowerBack(bwd', left - chosen), m2, t, c)
    requires IsWalk(Core(fwd, left), m1, p, m2) && a + Length(p) + c <= len
    ensures Covered(fwd', bwd', left - chosen, s, t, len)
  {
    if m1 in chosen && p.Step? {
      var e := p.arc;
      WalkArc(Lower(fwd', left - chosen), e);
      WalkTrans(Lower(fwd', left - chosen), s, m1, e.dst, a, e.w);
      assert Adjacent(Core(fwd, left), m1, e.dst);
      Descend(fwd, bwd, left, chosen, fwd', bwd', s, e.dst, a + e.w, p.rest, m2, t, c, len);
    } else if p.Stop? {
      assert Crosses(fwd', left - chosen, m1, m2, len - a - c);
    } else {
      Descend(fwd, bwd, left, chosen, fwd', bwd', s, m1, a, p, m2, t, c, len);
    }
  }

  lemma {:induction false} Descend(fwd: iset<Arc>, bwd: iset<Arc>, left: set<nat>, chosen: set<nat>,
                fwd': iset<Arc>, bwd': iset<Arc>,
                s: nat, m1: nat, a: int, p: Path, m2: nat, t: nat, c: int, len: int)
    requires RoundStep(fwd, bwd, left, chosen, fwd', bwd')
    requires m1 in left - chosen && m2 in left
    requires Walk(Lower(fwd', left - chosen), s, m1, a)
    requires Walk(LowerBack(bwd', left - chosen), m2, t, c)
    requires IsWalk(Core(fwd, left), m1, p, m2) && a + Length(p) + c <= len
    ensures Covered(fwd', bwd', left - chosen, s, t, len)
  {
    var core := Core(fwd, left);
    if m2 in chosen {
      var init, last := SplitLast(core, m1, p, m2);
      var w :| w <= last.w && Arc(last.src, m2, w) in CoreBack(bwd, left);
      var e := Arc(last.src, m2, w);
      WalkArc(LowerBack(bwd', left - chosen), e);
      WalkTrans(LowerBack(bwd', left - chosen), e.src, m2, t, w, c);
      assert Adjacent(core, m2, last.src);
      RoundReroutes(core, CoreBack(bwd, left), chosen, Core(fwd', left - chosen), m1, e.src, Length(init));
      assert Crosses(fwd', left - chosen, m1, e.src, len - a - (w + c));
    } else {
      RoundReroutes(core, CoreBack(bwd, left), chosen, Core(fwd', left - chosen), m1, m2, Length(p));
      assert Crosses(fwd', left - chosen, m1, m2, len - a - c);
    }
  }

  /** Two searches that only follow stored edges, one from each end, meet within len. */
  ghost predicate Meets(fwd: iset<Arc>, bwd: iset<Arc>, s: nat, t: nat, len: int) {
    exists m, a, b :: Walk(fwd, s, m, a) && Walk(bwd, m, t, b) && a + b <= len
  }

  lemma {:induction false} CoveredMeets(fwd: iset<Arc>, bwd: iset<Arc>, left: set<nat>, s: nat, t: nat, len: int)
    requires Covered(fwd, bwd, left, s, t, len)
    ensures Meets(fwd, bwd, s, t, len)
  {
    var m1, m2, a, c :|
      && Walk(Lower(fwd, left), s, m1, a)
      && Walk(LowerBack(bwd, left), m2, t, c)
      && Crosses(fwd, left, m1, m2, len - a - c);
    var p :| IsWalk(Lower(fwd, left), s, p, m1) && Length(p) == a;
    WalkMonotone(Lower(fwd, left), fwd, s, p, m1);
    var q :| IsWalk(LowerBack(bwd, left), m2, q, t) && Length(q) == c;
    WalkMonotone(LowerBack(bwd, left), bwd, m2, q, t);
    if m1 == m2 && 0 <= len - a - c {
      assert Walk(fwd, s, m1, a) && Walk(bwd, m1, t, c);
    } else {
      var r :| IsWalk(Core(fwd, left), m1, r, m2) && Length(r) <= len - a - c;
      WalkMonotone(Core(fwd, left), fwd, m1, r, m2);
      WalkTrans(fwd, s, m1, m2, a, Length(r));
      assert Walk(fwd, s, m2, a + Length(r)) && Walk(bwd, m2, t, c);
    }
  }
}
