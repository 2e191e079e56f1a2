/** The queries of algorithms/geospatial_query.hpp: nearest segments, segments in range, and the nearest
    segment with an alternative in a big component. */
module GeospatialQuery {
  import opened RTree
  import opened RTreeQuery

  /** Which directions of a segment the bearing filter lets through. */
  type Bearing = Segment -> (bool, bool)

  predicate Accepted(bearing: Bearing, s: Segment) {
    bearing(s).0 || bearing(s).1
  }

  // ----- filters without state ----------------------------------------------------------

  function ByBearing(bearing: Bearing): Filter<()> {
    (u: (), s: Segment) => ((), bearing(s).0, bearing(s).1)
  }

  /** The accepted segments of a list, in order. */
  ghost function AcceptedOf(bearing: Bearing, seen: seq<Segment>): seq<Hit> {
    if seen == [] then []
    else
      var s := seen[|seen| - 1];
      var hits := AcceptedOf(bearing, seen[..|seen| - 1]);
      if Accepted(bearing, s) then hits + [Hit(s, bearing(s).0, bearing(s).1)] else hits
  }

  lemma {:induction false} HitsAreAccepted(bearing: Bearing, seen: seq<Segment>)
    ensures After(ByBearing(bearing), (), seen) == Progress((), AcceptedOf(bearing, seen))
  {
    if seen != [] {
      HitsAreAccepted(bearing, seen[..|seen| - 1]);
    }
  }

  /** Each hit is an accepted segment that was seen. */
  lemma {:induction false} HitFrom(bearing: Bearing, seen: seq<Segment>, j: nat) returns (i: nat)
    requires j < |AcceptedOf(bearing, seen)|
    ensures i < |seen| && AcceptedOf(bearing, seen)[j] == Hit(seen[i], bearing(seen[i]).0, bearing(seen[i]).1)
            && Accepted(bearing, seen[i])
    ensures j < |AcceptedOf(bearing, seen[..i + 1])|
    decreases |seen|
  {
    var k := |seen| - 1;
    if j < |AcceptedOf(bearing, seen[..k])| {
      i := HitFrom(bearing, seen[..k], j);
      assert seen[..k][..i + 1] == seen[..i + 1];
    } else {
      i := k;
      assert seen[..k + 1] == seen;
    }
  }

  ghost function HitTimes(hits: seq<Hit>, s: Segment): nat {
    if hits == [] then 0 else HitTimes(hits[..|hits| - 1], s) + (if hits[|hits| - 1].segment == s then 1 else 0)
  }

  /** An accepted segment is hit as often as it was seen, another one never. */
  lemma {:induction false} HitCount(bearing: Bearing, seen: seq<Segment>, s: Segment)
    ensures HitTimes(AcceptedOf(bearing, seen), s) == if Accepted(bearing, s) then Times(seen, s) else 0
  {
    if seen != [] {
      var k := |seen| - 1;
      HitCount(bearing, seen[..k], s);
      TimesPush(seen[..k], seen[k], s);
      assert seen == seen[..k] + [seen[k]];
      var hits := AcceptedOf(bearing, seen);
      if Accepted(bearing, seen[k]) {
        assert hits[..|hits| - 1] == AcceptedOf(bearing, seen[..k]);
      } else {
        assert hits == AcceptedOf(bearing, seen[..k]);
      }
    }
  }

  lemma {:induction false} HitsAscend(m: Metric, bearing: Bearing, seen: seq<Segment>, a: nat, b: nat)
    requires Ascending(m, seen) && a < b < |AcceptedOf(bearing, seen)|
    ensures m.distance(AcceptedOf(bearing, seen)[a].segment) <= m.distance(AcceptedOf(bearing, seen)[b].segment)
    decreases |seen|
  {
    var k := |seen| - 1;
    var init := AcceptedOf(bearing, seen[..k]);
    if b < |init| {
      HitsAscend(m, bearing, seen[..k], a, b);
    } else {
      var i := HitFrom(bearing, seen[..k], a);
      assert AcceptedOf(bearing, seen)[a] == init[a];
    }
  }

  /** Hits in order of distance, each an accepted segment of the tree. */
  ghost predicate Answers(m: Metric, bearing: Bearing, all: seq<Segment>, hits: seq<Hit>) {
    && (forall a, b :: 0 <= a < b < |hits| ==> m.distance(hits[a].segment) <= m.distance(hits[b].segment))
    && (forall j :: 0 <= j < |hits| ==>
          Accepted(bearing, hits[j].segment) && (hits[j].forward, hits[j].reverse) == bearing(hits[j].segment))
    && (forall s :: HitTimes(hits, s) <= Times(all, s))
  }

  lemma {:induction false} HitsAnswer(m: Metric, bearing: Bearing, all: seq<Segment>, seen: seq<Segment>)
    requires Scanned(m, all, seen)
    ensures Answers(m, bearing, all, AcceptedOf(bearing, seen))
  {
    var hits := AcceptedOf(bearing, seen);
    forall a, b | 0 <= a < b < |hits|
      ensures m.distance(hits[a].segment) <= m.distance(hits[b].segment)
    {
      HitsAscend(m, bearing, seen, a, b);
    }
    forall j | 0 <= j < |hits|
      ensures Accepted(bearing, hits[j].segment) && (hits[j].forward, hits[j].reverse) == bearing(hits[j].segment)
    {
      var i := HitFrom(bearing, seen, j);
    }
    forall s
      ensures HitTimes(hits, s) <= Times(all, s)
    {
      HitCount(bearing, seen, s);
      assert Times(seen, s) <= Times(all, s);
    }
  }

  /** The segments that the tree stores. */
  ghost function Stored(tree: seq<TreeNode>, leaves: Leaves): seq<Segment>
    requires Rooted(tree, leaves) && tree != []
  {
    Below(tree, leaves, 0)
  }

  /** At most `count` accepted segments, in order; an accepted one left out is no nearer than any of them,
      and with fewer than `count` none is left out. */
  ghost predicate Closest(m: Metric, bearing: Bearing, all: seq<Segment>, hits: seq<Hit>, count: nat) {
    && Answers(m, bearing, all, hits) && |hits| <= count
    && (forall s, j :: Accepted(bearing, s) && HitTimes(hits, s) < Times(all, s) && 0 <= j < |hits| ==>
          m.distance(hits[j].segment) <= m.distance(s))
    && (|hits| < count ==> forall s :: Accepted(bearing, s) ==> HitTimes(hits, s) == Times(all, s))
  }

  /** NearestPhantomNodes: the k closest accepted segments, in order; fewer only if there are no more. */
  method NearestSegments(tree: seq<TreeNode>, leaves: Leaves, m: Metric, bearing: Bearing, maxResults: nat)
      returns (hits: seq<Hit>)
    requires Rooted(tree, leaves) && tree != [] && LowerBounds(tree, m)
    ensures Closest(m, bearing, Stored(tree, leaves), hits, maxResults)
  {
    var enough: Terminate<()> := (u: (), n: nat, d: real) => n >= maxResults;
    hits := Nearest(tree, leaves, m, ByBearing(bearing), enough, ());
    ghost var seen :| ReportedFrom(m, ByBearing(bearing), enough, (), Below(tree, leaves, 0), hits, seen);
    HitsAreAccepted(bearing, seen);
    HitsAnswer(m, bearing, Below(tree, leaves, 0), seen);
    CountedHits(m, bearing, Below(tree, leaves, 0), seen, enough, maxResults);
  }

  lemma {:induction false} CountedHits(m: Metric, bearing: Bearing, all: seq<Segment>, seen: seq<Segment>,
                                       enough: Terminate<()>, maxResults: nat)
    requires Scanned(m, all, seen) && NotYet(m, ByBearing(bearing), enough, (), seen)
             && Finished(m, ByBearing(bearing), enough, (), all, seen)
    requires forall n: nat, d: real :: enough((), n, d) <==> n >= maxResults
    ensures |AcceptedOf(bearing, seen)| <= maxResults
    ensures forall s, j ::
              && Accepted(bearing, s) && HitTimes(AcceptedOf(bearing, seen), s) < Times(all, s)
              && 0 <= j < |AcceptedOf(bearing, seen)|
              ==>
                m.distance(AcceptedOf(bearing, seen)[j].segment) <= m.distance(s)
    ensures |AcceptedOf(bearing, seen)| < maxResults ==> forall s ::
              Accepted(bearing, s) ==> HitTimes(AcceptedOf(bearing, seen), s) == Times(all, s)
  {
    var hits := AcceptedOf(bearing, seen);
    HitsAreAccepted(bearing, seen);
    if seen != [] {
      var k := |seen| - 1;
      HitsAreAccepted(bearing, seen[..k]);
      assert !enough((), |AcceptedOf(bearing, seen[..k])|, m.distance(seen[k]));
    }
    forall s, j | Accepted(bearing, s) && HitTimes(hits, s) < Times(all, s) && 0 <= j < |hits|
      ensures m.distance(hits[j].segment) <= m.distance(s)
    {
      HitCount(bearing, seen, s);
      var i := HitFrom(bearing, seen, j);
      assert Unseen(all, seen, s);
    }
    if |hits| < maxResults {
      forall s | Accepted(bearing, s)
        ensures HitTimes(hits, s) == Times(all, s)
      {
        HitCount(bearing, seen, s);
        assert !Unseen(all, seen, s) && Times(seen, s) <= Times(all, s);
      }
    }
  }

  /** NearestPhantomNodesInRange: exactly the accepted segments within the distance, in order. */
  method SegmentsInRange(tree: seq<TreeNode>, leaves: Leaves, m: Metric, bearing: Bearing, maxDistance: real)
      returns (hits: seq<Hit>)
    requires Rooted(tree, leaves) && tree != [] && LowerBounds(tree, m)
    ensures Answers(m, bearing, Below(tree, leaves, 0), hits)
    ensures forall s :: HitTimes(hits, s) ==
              if Accepted(bearing, s) && m.distance(s) <= maxDistance then Times(Below(tree, leaves, 0), s) else 0
  {
    var beyond: Terminate<()> := (u: (), n: nat, d: real) => d > maxDistance;
    hits := Nearest(tree, leaves, m, ByBearing(bearing), beyond, ());
    ghost var seen :| ReportedFrom(m, ByBearing(bearing), beyond, (), Below(tree, leaves, 0), hits, seen);
    HitsAreAccepted(bearing, seen);
    HitsAnswer(m, bearing, Below(tree, leaves, 0), seen);
    RangedHits(m, bearing, Below(tree, leaves, 0), seen, beyond, maxDistance);
  }

  lemma {:induction false} RangedHits(m: Metric, bearing: Bearing, all: seq<Segment>, seen: seq<Segment>,
                                      beyond: Terminate<()>, maxDistance: real)
    requires Scanned(m, all, seen) && NotYet(m, ByBearing(bearing), beyond, (), seen)
             && Finished(m, ByBearing(bearing), beyond, (), all, seen)
    requires forall n: nat, d: real :: beyond((), n, d) <==> d > maxDistance
    ensures forall s :: HitTimes(AcceptedOf(bearing, seen), s) ==
                        if Accepted(bearing, s) && m.distance(s) <= maxDistance then Times(all, s) else 0
  {
    forall i | 0 <= i < |seen|
      ensures m.distance(seen[i]) <= maxDistance
    {
      HitsAreAccepted(bearing, seen[..i]);
      assert !beyond((), |After(ByBearing(bearing), (), seen[..i]).hits|, m.distance(seen[i]));
    }
    forall s
      ensures HitTimes(AcceptedOf(bearing, seen), s) ==
              if Accepted(bearing, s) && m.distance(s) <= maxDistance then Times(all, s) else 0
    {
      HitCount(bearing, seen, s);
      assert Times(seen, s) <= Times(all, s);
      if m.distance(s) <= maxDistance {
        assert !Unseen(all, seen, s);
      } else {
        assert s !in seen;
      }
    }
  }

  // ----- an alternative in a big component -------------------------------------------------

  /** Whether a segment of a small and one of a big component has been taken. */
  datatype Flags = Flags(small: bool, big: bool)

  function WithAlternative(bearing: Bearing): Filter<Flags> {
    (f: Flags, s: Segment) =>
      if !f.small || (!f.big && !s.isTiny) then
        (if Accepted(bearing, s) then Flags(f.small || s.isTiny, f.big || !s.isTiny) else f, bearing(s).0, bearing(s).1)
      else (f, false, false)
  }

  function HasBig(): Terminate<Flags> {
    (f: Flags, n: nat, d: real) => n > 0 && f.big
  }

  function HitOf(bearing: Bearing, s: Segment): Hit {
    Hit(s, bearing(s).0, bearing(s).1)
  }

  /** i is the first accepted segment. */
  ghost predicate FirstAccepted(bearing: Bearing, seen: seq<Segment>, i: nat) {
    i < |seen| && Accepted(bearing, seen[i]) && forall j :: 0 <= j < i ==> !Accepted(bearing, seen[j])
  }

  /** No accepted segment of a big component among the first n. */
  ghost predicate NoBig(bearing: Bearing, seen: seq<Segment>, n: nat)
    requires n <= |seen|
  {
    forall j :: 0 <= j < n && Accepted(bearing, seen[j]) ==> seen[j].isTiny
  }

  /** The four situations of the search: nothing yet; a small one, waiting for a big one; a big one
      at once; a small one and then a big one. */
  ghost predicate Situation(bearing: Bearing, seen: seq<Segment>, p: Progress<Flags>, first: nat) {
    || (p == Progress(Flags(false, false), []) && forall j :: 0 <= j < |seen| ==> !Accepted(bearing, seen[j]))
    || (FirstAccepted(bearing, seen, first) &&
        var h, k := HitOf(bearing, seen[first]), |seen| - 1;
        || (p == Progress(Flags(true, false), [h]) && NoBig(bearing, seen, |seen|))
        || (p == Progress(Flags(false, true), [h]) && first == k && !seen[k].isTiny)
        || (p == Progress(Flags(true, true), [h, HitOf(bearing, seen[k])]) && first < k && Accepted(bearing, seen[k])
            && !seen[k].isTiny && NoBig(bearing, seen, k)))
  }

  lemma {:induction false} AlternativeRun(m: Metric, bearing: Bearing, seen: seq<Segment>) returns (first: nat)
    requires NotYet(m, WithAlternative(bearing), HasBig(), Flags(false, false), seen)
    ensures Situation(bearing, seen, After(WithAlternative(bearing), Flags(false, false), seen), first)
    decreases |seen|
  {
    if seen == [] {
      first := 0;
    } else {
      var init, s := seen[..|seen| - 1], seen[|seen| - 1];
      NotYetPrefix(m, bearing, seen);
      var before := AlternativeRun(m, bearing, init);
      assert seen == init + [s];
      first := AlternativeStep(bearing, init, s, After(WithAlternative(bearing), Flags(false, false), init), before);
    }
  }

  lemma {:induction false} NotYetPrefix(m: Metric, bearing: Bearing, seen: seq<Segment>)
    requires NotYet(m, WithAlternative(bearing), HasBig(), Flags(false, false), seen) && seen != []
    ensures NotYet(m, WithAlternative(bearing), HasBig(), Flags(false, false), seen[..|seen| - 1])
    ensures var p := After(WithAlternative(bearing), Flags(false, false), seen[..|seen| - 1]);
            !HasBig()(p.state, |p.hits|, m.distance(seen[|seen| - 1]))
  {
    var init := seen[..|seen| - 1];
    forall i | 0 <= i < |init|
      ensures var p := After(WithAlternative(bearing), Flags(false, false), init[..i]); !HasBig()(p.state, |p.hits|,
            m.distance(init[i]))
    {
      assert init[..i] == seen[..i];
    }
  }

  /** One more segment, when it was not yet time to stop. */
  lemma {:induction false} AlternativeStep(bearing: Bearing, init: seq<Segment>, s: Segment, p: Progress<Flags>,
                                           before: nat)
      returns (first: nat)
    requires Situation(bearing, init, p, before) && !(|p.hits| > 0 && p.state.big)
    ensures Situation(bearing, init + [s], Take(WithAlternative(bearing), p, s), first)
  {
    var seen := init + [s];
    assert seen[|init|] == s;
    assert forall j :: 0 <= j < |init| ==> seen[j] == init[j];
    first := if p.hits == [] then |init| else before;
  }

  ghost predicate NearestAmong(m: Metric, bearing: Bearing, all: seq<Segment>, h: Hit, big: bool) {
    && h.segment in all && Accepted(bearing, h.segment) && h == HitOf(bearing, h.segment) && (big ==> !h.segment.isTiny)
    && forall s :: s in all && Accepted(bearing, s) && (big ==> !s.isTiny) ==> m.distance(h.segment) <= m.distance(s)
  }

  /** NearestPhantomNodeWithAlternativeFromBigComponent: front is the nearest accepted segment, back the
      nearest accepted one in a big component if there is any, and the same as front otherwise. */
  method NearestWithAlternative(tree: seq<TreeNode>, leaves: Leaves, m: Metric, bearing: Bearing)
      returns (hits: seq<Hit>)
    requires Rooted(tree, leaves) && tree != [] && LowerBounds(tree, m)
    ensures |hits| <= 2
    ensures var all := Below(tree, leaves, 0);
            && (hits == [] <==> forall s :: s in all ==> !Accepted(bearing, s))
            && (hits != [] ==> NearestAmong(m, bearing, all, hits[0], false))
            && (if exists s :: s in all && Accepted(bearing, s) && !s.isTiny
                then hits != [] && NearestAmong(m, bearing, all, hits[|hits| - 1], true)
                else |hits| <= 1)
  {
    hits := Nearest(tree, leaves, m, WithAlternative(bearing), HasBig(), Flags(false, false));
    ghost var seen :| ReportedFrom(m, WithAlternative(bearing), HasBig(), Flags(false, false), Below(tree, leaves, 0),
                                   hits, seen);
    ghost var first := AlternativeRun(m, bearing, seen);
    AlternativeAnswer(m, bearing, Below(tree, leaves, 0), seen, first);
  }

  /** A segment that was seen is one of all, and one of all was seen or is unseen. */
  lemma {:induction false} SeenOrNot(m: Metric, all: seq<Segment>, seen: seq<Segment>)
    requires Scanned(m, all, seen)
    ensures forall i :: 0 <= i < |seen| ==> seen[i] in all
    ensures forall s :: s in all && s !in seen ==> Unseen(all, seen, s)
  {
    forall i | 0 <= i < |seen|
      ensures seen[i] in all
    {
      assert Times(seen, seen[i]) <= Times(all, seen[i]);
      assert seen[i] in multiset(seen);
    }
    forall s | s in all && s !in seen
      ensures Unseen(all, seen, s)
    {
      assert s in multiset(all) && s !in multiset(seen);
    }
  }

  lemma {:induction false} NearestSeen(m: Metric, bearing: Bearing, all: seq<Segment>, seen: seq<Segment>, i: nat,
                                       big: bool)
    requires Scanned(m, all, seen) && i < |seen| && Accepted(bearing, seen[i]) && (big ==> !seen[i].isTiny)
    requires forall j :: 0 <= j < i && Accepted(bearing, seen[j]) ==> big && seen[j].isTiny
    ensures NearestAmong(m, bearing, all, HitOf(bearing, seen[i]), big)
  {
    SeenOrNot(m, all, seen);
    forall s | s in all && Accepted(bearing, s) && (big ==> !s.isTiny)
      ensures m.distance(seen[i]) <= m.distance(s)
    {
      if s in seen {
        var j :| 0 <= j < |seen| && seen[j] == s;
        assert j >= i;
      } else {
        assert Unseen(all, seen, s);
      }
    }
  }

  lemma {:induction false} AlternativeAnswer(m: Metric, bearing: Bearing, all: seq<Segment>, seen: seq<Segment>,
                                             first: nat)
    requires Scanned(m, all, seen) && Finished(m, WithAlternative(bearing), HasBig(), Flags(false, false), all, seen)
    requires Situation(bearing, seen, After(WithAlternative(bearing), Flags(false, false), seen), first)
    ensures var hits := After(WithAlternative(bearing), Flags(false, false), seen).hits;
            && (hits == [] <==> forall s :: s in all ==> !Accepted(bearing, s))
            && (hits != [] ==> NearestAmong(m, bearing, all, hits[0], false))
            && (if exists s :: s in all && Accepted(bearing, s) && !s.isTiny
                then hits != [] && NearestAmong(m, bearing, all, hits[|hits| - 1], true)
                else |hits| <= 1)
  {
    var p := After(WithAlternative(bearing), Flags(false, false), seen);
    SeenOrNot(m, all, seen);
    if !p.state.big {
      assert forall s :: s in all ==> s in seen;
    }
    if p.hits != [] {
      NearestSeen(m, bearing, all, seen, first, false);
      if p.state.big {
        NearestSeen(m, bearing, all, seen, |seen| - 1, true);
      }
    }
  }
}
