/** Directed weighted arcs, walks over them and shortest distances: the plain
    notion of a route that the speed-up structures must agree with. */
module Walks {

  datatype Arc = Arc(src: nat, dst: nat, w: int)

  datatype Path = Stop | Step(arc: Arc, rest: Path)

  ghost predicate IsWalk(arcs: iset<Arc>, s: nat, p: Path, t: nat)
    decreases p
  {
    match p
    case Stop => s == t
    case Step(a, rest) => a in arcs && a.src == s && IsWalk(arcs, a.dst, rest, t)
  }

  function Length(p: Path): int {
    match p
    case Stop => 0
    case Step(a, rest) => a.w + Length(rest)
  }

  function Concat(p: Path, q: Path): Path {
    match p
    case Stop => q
    case Step(a, rest) => Step(a, Concat(rest, q))
  }

  /** Some walk from s to t has exactly this length. */
  ghost predicate Walk(arcs: iset<Arc>, s: nat, t: nat, len: int) {
    exists p :: IsWalk(arcs, s, p, t) && Length(p) == len
  }

  /** Some walk from s to t is no longer than len. */
  ghost predicate Within(arcs: iset<Arc>, s: nat, t: nat, len: int) {
    exists p :: IsWalk(arcs, s, p, t) && Length(p) <= len
  }

  ghost predicate Positive(arcs: iset<Arc>) {
    forall a :: a in arcs ==> a.w >= 1
  }

  /** `cover` offers, for every arc of `arcs`, one between the same nodes that is no longer. */
  ghost predicate Dominates(cover: iset<Arc>, arcs: iset<Arc>) {
    forall a :: a in arcs ==> HasArcWithin(cover, a.src, a.dst, a.w)
  }

  ghost predicate HasArcWithin(arcs: iset<Arc>, s: nat, t: nat, len: int) {
    exists w :: w <= len && Arc(s, t, w) in arcs
  }

  lemma {:induction false} ConcatIsWalk(arcs: iset<Arc>, s: nat, p: Path, m: nat, q: Path, t: nat)
    requires IsWalk(arcs, s, p, m) && IsWalk(arcs, m, q, t)
    ensures IsWalk(arcs, s, Concat(p, q), t)
    ensures Length(Concat(p, q)) == Length(p) + Length(q)
    decreases p
  {
    match p
    case Stop =>
    case Step(a, rest) => ConcatIsWalk(arcs, a.dst, rest, m, q, t);
  }

  lemma {:induction false} WalkHere(arcs: iset<Arc>, s: nat)
    ensures Walk(arcs, s, s, 0)
    ensures Within(arcs, s, s, 0)
  {
    assert IsWalk(arcs, s, Stop, s) && Length(Stop) == 0;
  }

  lemma {:induction false} WalkArc(arcs: iset<Arc>, a: Arc)
    requires a in arcs
    ensures Walk(arcs, a.src, a.dst, a.w)
    ensures Within(arcs, a.src, a.dst, a.w)
  {
    var p := Step(a, Stop);
    assert IsWalk(arcs, a.dst, Stop, a.dst) && Length(Stop) == 0;
    assert IsWalk(arcs, a.src, p, a.dst) && Length(p) == a.w;
  }

  lemma {:induction false} WalkTrans(arcs: iset<Arc>, s: nat, m: nat, t: nat, a: int, b: int)
    requires Walk(arcs, s, m, a) && Walk(arcs, m, t, b)
    ensures Walk(arcs, s, t, a + b)
  {
    var p :| IsWalk(arcs, s, p, m) && Length(p) == a;
    var q :| IsWalk(arcs, m, q, t) && Length(q) == b;
    ConcatIsWalk(arcs, s, p, m, q, t);
  }

  lemma {:induction false} WithinTrans(arcs: iset<Arc>, s: nat, m: nat, t: nat, a: int, b: int)
    requires Within(arcs, s, m, a) && Within(arcs, m, t, b)
    ensures Within(arcs, s, t, a + b)
  {
    var p :| IsWalk(arcs, s, p, m) && Length(p) <= a;
    var q :| IsWalk(arcs, m, q, t) && Length(q) <= b;
    ConcatIsWalk(arcs, s, p, m, q, t);
  }

  /** A non-empty walk, split before its last arc. */
  lemma {:induction false} SplitLast(arcs: iset<Arc>, s: nat, p: Path, t: nat) returns (init: Path, last: Arc)
    requires IsWalk(arcs, s, p, t) && p.Step?
    ensures last in arcs && last.dst == t
    ensures IsWalk(arcs, s, init, last.src)
    ensures Length(p) == Length(init) + last.w
    decreases p
  {
    if p.rest.Stop? {
      init, last := Stop, p.arc;
    } else {
      var i;
      i, last := SplitLast(arcs, p.arc.dst, p.rest, t);
      init := Step(p.arc, i);
    }
  }

  lemma {:induction false} WalkMonotone(arcs: iset<Arc>, more: iset<Arc>, s: nat, p: Path, t: nat)
    requires arcs <= more
    requires IsWalk(arcs, s, p, t)
    ensures IsWalk(more, s, p, t)
    decreases p
  {
    match p
    case Stop =>
    case Step(a, rest) => WalkMonotone(arcs, more, a.dst, rest, t);
  }

  /** Replacing every arc by one that is no longer does not lengthen a walk. */
  lemma {:induction false} DominatedWalk(arcs: iset<Arc>, cover: iset<Arc>, s: nat, p: Path, t: nat)
    requires Dominates(cover, arcs)
    requires IsWalk(arcs, s, p, t)
    ensures Within(cover, s, t, Length(p))
    decreases p
  {
    match p
    case Stop => WalkHere(cover, s);
    case Step(a, rest) =>
      DominatedWalk(arcs, cover, a.dst, rest, t);
      var w :| w <= a.w && Arc(a.src, a.dst, w) in cover;
      WalkArc(cover, Arc(a.src, a.dst, w));
      WithinTrans(cover, s, a.dst, t, w, Length(rest));
  }

  /** Replacing every arc by a walk of the same length gives a walk of the same length. */
  lemma {:induction false} ExpandedWalk(arcs: iset<Arc>, base: iset<Arc>, s: nat, p: Path, t: nat)
    requires forall a :: a in arcs ==> Walk(base, a.src, a.dst, a.w)
    requires IsWalk(arcs, s, p, t)
    ensures Walk(base, s, t, Length(p))
    decreases p
  {
    match p
    case Stop => WalkHere(base, s);
    case Step(a, rest) =>
      ExpandedWalk(arcs, base, a.dst, rest, t);
      WalkTrans(base, s, a.dst, t, a.w, Length(rest));
  }

  /** The same with walks that are no longer. */
  lemma {:induction false} ReplacedWalk(arcs: iset<Arc>, base: iset<Arc>, s: nat, p: Path, t: nat)
    requires forall a :: a in arcs ==> Within(base, a.src, a.dst, a.w)
    requires IsWalk(arcs, s, p, t)
    ensures Within(base, s, t, Length(p))
    decreases p
  {
    match p
    case Stop => WalkHere(base, s);
    case Step(a, rest) =>
      ReplacedWalk(arcs, base, a.dst, rest, t);
      WithinTrans(base, s, a.dst, t, a.w, Length(rest));
  }

  lemma {:induction false} LengthNonNegative(arcs: iset<Arc>, s: nat, p: Path, t: nat)
    requires Positive(arcs) && IsWalk(arcs, s, p, t)
    ensures Length(p) >= 0
    ensures p.Step? ==> Length(p) >= 1
    decreases p
  {
    match p
    case Stop =>
    case Step(a, rest) => LengthNonNegative(arcs, a.dst, rest, t);
  }

  // ----- reversal ----------------------------------------------------------

  ghost function Reverse(arcs: iset<Arc>): iset<Arc> {
    iset a: Arc | Arc(a.dst, a.src, a.w) in arcs
  }

  lemma {:induction false} ReversedWalk(arcs: iset<Arc>, s: nat, p: Path, t: nat)
    requires IsWalk(arcs, s, p, t)
    ensures Walk(Reverse(arcs), t, s, Length(p))
    decreases p
  {
    match p
    case Stop => WalkHere(Reverse(arcs), s);
    case Step(a, rest) =>
      ReversedWalk(arcs, a.dst, rest, t);
      WalkArc(Reverse(arcs), Arc(a.dst, a.src, a.w));
      WalkTrans(Reverse(arcs), t, a.dst, s, Length(rest), a.w);
  }

  lemma {:induction false} WalkReverse(arcs: iset<Arc>, s: nat, t: nat, len: int)
    ensures Walk(arcs, s, t, len) <==> Walk(Reverse(arcs), t, s, len)
  {
    if Walk(arcs, s, t, len) {
      var p :| IsWalk(arcs, s, p, t) && Length(p) == len;
      ReversedWalk(arcs, s, p, t);
    }
    if Walk(Reverse(arcs), t, s, len) {
      var p :| IsWalk(Reverse(arcs), t, p, s) && Length(p) == len;
      ReversedWalk(Reverse(arcs), t, p, s);
      assert Reverse(Reverse(arcs)) == arcs;
    }
  }

  // ----- node sets ---------------------------------------------------------

  ghost function Upto(count: nat): set<nat> {
    if count == 0 then {} else Upto(count - 1) + {count - 1}
  }

  lemma {:induction false} UptoMember(count: nat, n: nat)
    ensures n in Upto(count) <==> n < count
  {
    if count > 0 {
      UptoMember(count - 1, n);
    }
  }

  lemma {:induction false} UptoSize(count: nat)
    ensures |Upto(count)| == count
  {
    if count > 0 {
      UptoSize(count - 1);
      UptoMember(count - 1, count - 1);
    }
  }

  lemma {:induction false} SubsetSize(a: set<nat>, b: set<nat>)
    requires a <= b
    ensures |a| <= |b|
  {
    if a != {} {
      var x :| x in a;
      SubsetSize(a - {x}, b - {x});
    }
  }
}
