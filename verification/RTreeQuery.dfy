/** Best-first search in the packed R-tree (data_structures/static_rtree.hpp, Nearest) and the queries
    on top of it (algorithms/geospatial_query.hpp). */
module RTreeQuery {
  import opened Basics
  import opened RTree

  /** Distances to the query point: of a segment, and a lower bound for everything in a rectangle. */
  datatype Metric = Metric(distance: Segment -> real, lower: Rectangle -> real)

  /** The rectangles of the tree bound the distances of what they hold. */
  ghost predicate LowerBounds(tree: seq<TreeNode>, m: Metric) {
    && (forall s :: m.distance(s) >= 0.0)
    && (forall i, s {:trigger Holds(tree[i].rectangle, s)} :: 0 <= i < |tree| && Holds(tree[i].rectangle, s) ==>
          m.lower(tree[i].rectangle) <= m.distance(s))
  }

  // ----- the lower bound (data_structures/rectangle.hpp) ------------------------------------

  /** GetMinDist: the distance to the point of the border that the side of the location asks for. */
  function GetMinDist(far: (Coordinate, Coordinate) -> real, r: Rectangle, at: Coordinate): real {
    if Contains(r, at) then 0.0
    else if at.lat > r.maxLat then
      if at.lon > r.maxLon then far(at, Coordinate(r.maxLat, r.maxLon))
      else if at.lon < r.minLon then far(at, Coordinate(r.maxLat, r.minLon))
      else far(at, Coordinate(r.maxLat, at.lon))
    else if at.lat < r.minLat then
      if at.lon > r.maxLon then far(at, Coordinate(r.minLat, r.maxLon))
      else if at.lon < r.minLon then far(at, Coordinate(r.minLat, r.minLon))
      else far(at, Coordinate(r.minLat, at.lon))
    else if at.lon > r.maxLon then far(at, Coordinate(at.lat, r.maxLon))
    else far(at, Coordinate(at.lat, r.minLon))
  }

  /** p is passed on the way from `at` to q, in both coordinates. */
  predicate Towards(at: Coordinate, p: Coordinate, q: Coordinate) {
    && Min(at.lat, q.lat) <= p.lat <= Max(at.lat, q.lat)
    && Min(at.lon, q.lon) <= p.lon <= Max(at.lon, q.lon)
  }

  /** Distances from `at` are not negative and grow on the way to any point. */
  ghost predicate Grows(far: (Coordinate, Coordinate) -> real, at: Coordinate) {
    && (forall q :: far(at, q) >= 0.0)
    && forall p, q {:trigger Towards(at, p, q)} :: p != at && Towards(at, p, q) ==> far(at, p) <= far(at, q)
  }

  ghost predicate BoundsPoints(far: (Coordinate, Coordinate) -> real, at: Coordinate) {
    forall r, p {:trigger Contains(r, p)} :: Contains(r, p) ==> GetMinDist(far, r, at) <= far(at, p)
  }

  /** The point of a rectangle that is nearest in both coordinates. */
  function Clamped(r: Rectangle, at: Coordinate): Coordinate {
    Coordinate(Max(r.minLat, Min(at.lat, r.maxLat)), Max(r.minLon, Min(at.lon, r.maxLon)))
  }

  /** All nine cases pick that point. */
  lemma {:induction false} MinDistIsClamped(far: (Coordinate, Coordinate) -> real, r: Rectangle, at: Coordinate,
                                            p: Coordinate)
    requires Contains(r, p)
    ensures Contains(r, Clamped(r, at)) && Towards(at, Clamped(r, at), p) && (Contains(r, at) <==> Clamped(r, at) == at)
    ensures GetMinDist(far, r, at) == if Contains(r, at) then 0.0 else far(at, Clamped(r, at))
  {
  }

  /** GetMinDist bounds the distance of every point of every rectangle if and only if distances grow. */
  lemma {:induction false} MinDistBoundsIff(far: (Coordinate, Coordinate) -> real, at: Coordinate)
    ensures BoundsPoints(far, at) <==> Grows(far, at)
  {
    if Grows(far, at) {
      forall r, p | Contains(r, p)
        ensures GetMinDist(far, r, at) <= far(at, p)
      {
        MinDistIsClamped(far, r, at, p);
      }
    }
    if BoundsPoints(far, at) {
      forall q
        ensures far(at, q) >= 0.0
      {
        var r := Rectangle(Min(at.lon, q.lon), Max(at.lon, q.lon), Min(at.lat, q.lat), Max(at.lat, q.lat));
        assert Contains(r, q) && Contains(r, at);
      }
      forall p, q | p != at && Towards(at, p, q)
        ensures far(at, p) <= far(at, q)
      {
        var r := Rectangle(Min(p.lon, q.lon), Max(p.lon, q.lon), Min(p.lat, q.lat), Max(p.lat, q.lat));
        assert Contains(r, q);
        MinDistIsClamped(far, r, at, q);
        assert Clamped(r, at) == p;
      }
    }
  }

  ghost predicate BoundsRectangle(far: (Coordinate, Coordinate) -> real, r: Rectangle, at: Coordinate) {
    forall p {:trigger Contains(r, p)} :: Contains(r, p) ==> GetMinDist(far, r, at) <= far(at, p)
  }

  /** The distance of a segment is that of a point between its ends. It is enough that the bound is one for the
      rectangles of the tree. */
  lemma {:induction false} MinDistBoundsSegments(tree: seq<TreeNode>, far: (Coordinate, Coordinate) -> real,
                                                 at: Coordinate, nearest: Segment -> Coordinate)
    requires (forall q :: far(at, q) >= 0.0) && forall s: Segment :: Towards(s.u, nearest(s), s.v)
    requires forall i :: 0 <= i < |tree| ==> BoundsRectangle(far, tree[i].rectangle, at)
    ensures LowerBounds(tree, Metric(s => far(at, nearest(s)), r => GetMinDist(far, r, at)))
  {
    forall i, s: Segment | 0 <= i < |tree| && Holds(tree[i].rectangle, s)
      ensures GetMinDist(far, tree[i].rectangle, at) <= far(at, nearest(s))
    {
      assert Towards(s.u, nearest(s), s.v);
      assert BoundsRectangle(far, tree[i].rectangle, at) && Contains(tree[i].rectangle, nearest(s));
    }
  }

  /** The formula of the source, squared and without the radius: a longitude counts less far from the equator.
      The cosine takes the sum of the latitudes, in millionths of a degree. */
  function Equirectangular(cosine: int -> real, p: Coordinate, q: Coordinate): real {
    var x, y := (q.lon - p.lon) as real * cosine(p.lat + q.lat), (q.lat - p.lat) as real;
    x * x + y * y
  }

  function Formula(cosine: int -> real): (Coordinate, Coordinate) -> real {
    (p: Coordinate, q: Coordinate) => Equirectangular(cosine, p, q)
  }

  lemma {:induction false} SquareGrows(a: real, b: real, c: real)
    requires (0.0 <= a <= b) || (b <= a <= 0.0)
    ensures (a * c) * (a * c) <= (b * c) * (b * c)
  {
    var d := c * c;
    assert d >= 0.0 && a * a <= b * b;
    assert (a * c) * (a * c) == a * a * d && (b * c) * (b * c) == b * b * d;
    assert a * a * d <= b * b * d;
  }

  /** At the same latitude, the near edge is nearest. */
  lemma {:induction false} NearEdge(cosine: int -> real, at: Coordinate, lat: int, edge: int, lon: int)
    requires (at.lon <= edge <= lon) || (lon <= edge <= at.lon)
    ensures Equirectangular(cosine, at, Coordinate(lat, edge)) <= Equirectangular(cosine, at, Coordinate(lat, lon))
  {
    SquareGrows((edge - at.lon) as real, (lon - at.lon) as real, cosine(at.lat + lat));
  }

  lemma {:induction false} SameMeridian(cosine: int -> real, r: Rectangle, at: Coordinate, p: Coordinate)
    requires r.minLon <= at.lon <= r.maxLon && Contains(r, p)
    ensures GetMinDist(Formula(cosine), r, at) <= Equirectangular(cosine, at, p)
  {
    var q := Clamped(r, at);
    MinDistIsClamped(Formula(cosine), r, at, p);
    NearEdge(cosine, at, p.lat, at.lon, p.lon);
    SquareGrows((q.lat - at.lat) as real, (p.lat - at.lat) as real, 1.0);
  }

  /** With the formula of the source, GetMinDist bounds a rectangle if and only if its longitudes include that of the
      location, or no point of the near edge is nearer than the one it picks. */
  lemma {:induction false} FormulaBoundsIff(cosine: int -> real, r: Rectangle, at: Coordinate)
    requires r.minLat <= r.maxLat && r.minLon <= r.maxLon
    ensures BoundsRectangle(Formula(cosine), r, at) <==>
              || r.minLon <= at.lon <= r.maxLon
              || forall lat :: r.minLat <= lat <= r.maxLat ==>
                   Equirectangular(cosine, at, Clamped(r, at)) <=
                     Equirectangular(cosine, at, Coordinate(lat, Clamped(r, at).lon))
  {
    var far, q := Formula(cosine), Clamped(r, at);
    assert Contains(r, q);
    MinDistIsClamped(far, r, at, q);
    if r.minLon <= at.lon <= r.maxLon {
      forall p | Contains(r, p)
        ensures GetMinDist(far, r, at) <= far(at, p)
      {
        SameMeridian(cosine, r, at, p);
      }
    } else if BoundsRectangle(far, r, at) {
      forall lat | r.minLat <= lat <= r.maxLat
        ensures Equirectangular(cosine, at, q) <= Equirectangular(cosine, at, Coordinate(lat, q.lon))
      {
        assert Contains(r, Coordinate(lat, q.lon));
      }
    } else {
      var p :| Contains(r, p) && GetMinDist(far, r, at) > far(at, p);
      NearEdge(cosine, at, p.lat, q.lon, p.lon);
    }
  }

  /** It does not always: from 45 degrees north, a rectangle 10 degrees to the east that reaches one degree to the
      north has a point on its near edge that is nearer than its corner at the same latitude. */
  lemma {:induction false} MinDistOverestimates(cosine: int -> real)
    requires cosine(90_000_000) * cosine(90_000_000) == 0.5
    requires cosine(90_100_000) * cosine(90_100_000) <= 0.4992
    ensures var at, p := Coordinate(45_000_000, 0), Coordinate(45_100_000, 10_000_000);
            var r := Rectangle(10_000_000, 10_000_000, 45_000_000, 46_000_000);
            Contains(r, p) && GetMinDist(Formula(cosine), r, at) > Formula(cosine)(at, p)
  {
    Squared(10000000.0, cosine(90_000_000));
    Squared(10000000.0, cosine(90_100_000));
  }

  lemma {:induction false} Squared(a: real, c: real)
    ensures (a * c) * (a * c) == a * a * (c * c)
  {
  }

  // ----- candidates ----------------------------------------------------------------------------

  /** A node of the tree or a segment, with its key in the queue. */
  datatype Candidate = Node(key: real, index: nat) | Found(key: real, segment: Segment)

  ghost function Content(tree: seq<TreeNode>, leaves: Leaves, c: Candidate): seq<Segment>
    requires Rooted(tree, leaves)
  {
    match c
    case Node(_, i) => if i < |tree| then Below(tree, leaves, i) else []
    case Found(_, s) => [s]
  }

  /** The key is no more than the distance of anything the candidate stands for. */
  ghost predicate CandidateOk(tree: seq<TreeNode>, leaves: Leaves, m: Metric, c: Candidate)
    requires Rooted(tree, leaves)
  {
    && (c.Node? ==> c.index < |tree|)
    && (c.Found? ==> c.key == m.distance(c.segment))
    && forall s :: s in Content(tree, leaves, c) ==> c.key <= m.distance(s)
  }

  ghost predicate QueueOk(tree: seq<TreeNode>, leaves: Leaves, m: Metric, queue: seq<Candidate>)
    requires Rooted(tree, leaves)
  {
    forall j {:trigger CandidateOk(tree, leaves, m, queue[j])} ::
             0 <= j < |queue| ==> CandidateOk(tree, leaves, m, queue[j])
  }

  ghost function Times(list: seq<Segment>, s: Segment): nat {
    multiset(list)[s]
  }

  /** How often a segment occurs in some lists. */
  ghost function Total(lists: seq<seq<Segment>>, s: Segment): nat {
    if lists == [] then 0 else Total(lists[..|lists| - 1], s) + Times(lists[|lists| - 1], s)
  }

  lemma {:induction false} TotalJoin(p: seq<seq<Segment>>, q: seq<seq<Segment>>, s: Segment)
    ensures Total(p + q, s) == Total(p, s) + Total(q, s)
    decreases |q|
  {
    if q == [] {
      assert p + q == p;
    } else {
      TotalJoin(p, q[..|q| - 1], s);
      assert (p + q)[..|p + q| - 1] == p + q[..|q| - 1];
    }
  }

  lemma {:induction false} TotalWithout(lists: seq<seq<Segment>>, i: nat, s: Segment)
    requires i < |lists|
    ensures Total(lists, s) == Total(lists[..i] + lists[i + 1..], s) + Times(lists[i], s)
  {
    var a, b := lists[..i], lists[i + 1..];
    TotalJoin(a, b, s);
    TotalJoin(a + [lists[i]], b, s);
    assert (a + [lists[i]])[..i] == a;
    assert lists == a + [lists[i]] + b;
  }

  /** What each candidate of the queue stands for. */
  ghost function Contents(tree: seq<TreeNode>, leaves: Leaves, queue: seq<Candidate>): (r: seq<seq<Segment>>)
    requires Rooted(tree, leaves)
    ensures |r| == |queue| && forall i :: 0 <= i < |r| ==> r[i] == Content(tree, leaves, queue[i])
  {
    seq(|queue|, i requires 0 <= i < |queue| => Content(tree, leaves, queue[i]))
  }

  /** How often a segment occurs in what the queue stands for. */
  ghost function Remaining(tree: seq<TreeNode>, leaves: Leaves, queue: seq<Candidate>, s: Segment): nat
    requires Rooted(tree, leaves)
  {
    Total(Contents(tree, leaves, queue), s)
  }

  lemma {:induction false} RemainingPush(tree: seq<TreeNode>, leaves: Leaves, queue: seq<Candidate>, c: Candidate,
                                         s: Segment)
    requires Rooted(tree, leaves)
    ensures Remaining(tree, leaves, queue + [c], s) ==
              Remaining(tree, leaves, queue, s) + Times(Content(tree, leaves, c), s)
  {
    assert Contents(tree, leaves, queue + [c])[..|queue|] == Contents(tree, leaves, queue);
  }

  /** Taking one candidate out of the queue. */
  lemma {:induction false} RemainingWithout(tree: seq<TreeNode>, leaves: Leaves, queue: seq<Candidate>, i: nat,
                                            s: Segment)
    requires Rooted(tree, leaves) && i < |queue|
    ensures Remaining(tree, leaves, queue, s) ==
            Remaining(tree, leaves, queue[..i] + queue[i + 1..], s) + Times(Content(tree, leaves, queue[i]), s)
  {
    var lists := Contents(tree, leaves, queue);
    TotalWithout(lists, i, s);
    assert Contents(tree, leaves, queue[..i] + queue[i + 1..]) == lists[..i] + lists[i + 1..];
  }

  lemma {:induction false} QueueWithout(tree: seq<TreeNode>, leaves: Leaves, m: Metric, queue: seq<Candidate>, i: nat)
    requires Rooted(tree, leaves) && QueueOk(tree, leaves, m, queue) && i < |queue|
    ensures CandidateOk(tree, leaves, m, queue[i]) && QueueOk(tree, leaves, m, queue[..i] + queue[i + 1..])
  {
    assert CandidateOk(tree, leaves, m, queue[i]);
    var rest := queue[..i] + queue[i + 1..];
    forall j | 0 <= j < |rest|
      ensures CandidateOk(tree, leaves, m, rest[j])
    {
      assert CandidateOk(tree, leaves, m, queue[if j < i then j else j + 1]);
    }
  }

  lemma {:induction false} QueuePush(tree: seq<TreeNode>, leaves: Leaves, m: Metric, queue: seq<Candidate>,
                                     c: Candidate)
    requires Rooted(tree, leaves) && QueueOk(tree, leaves, m, queue) && CandidateOk(tree, leaves, m, c)
    ensures QueueOk(tree, leaves, m, queue + [c])
  {
    var all := queue + [c];
    forall j | 0 <= j < |all|
      ensures CandidateOk(tree, leaves, m, all[j])
    {
      assert j < |queue| ==> CandidateOk(tree, leaves, m, queue[j]);
    }
  }

  // ----- the queue -----------------------------------------------------------------------

  /** top of the priority queue: a candidate with the least key. */
  method FindMin(queue: seq<Candidate>) returns (i: nat)
    requires queue != []
    ensures i < |queue| && forall j :: 0 <= j < |queue| ==> queue[i].key <= queue[j].key
  {
    i := 0;
    for j := 1 to |queue|
      invariant i < |queue| && forall k :: 0 <= k < j ==> queue[i].key <= queue[k].key
    {
      if queue[j].key < queue[i].key {
        i := j;
      }
    }
  }

  /** Nothing in the queue is nearer than its least key. */
  lemma {:induction false} KeyBounds(tree: seq<TreeNode>, leaves: Leaves, m: Metric, queue: seq<Candidate>, key: real,
                                     s: Segment)
    requires Rooted(tree, leaves) && QueueOk(tree, leaves, m, queue)
             && (forall j :: 0 <= j < |queue| ==> key <= queue[j].key)
    requires Remaining(tree, leaves, queue, s) > 0
    ensures key <= m.distance(s)
  {
    var i := InSome(Contents(tree, leaves, queue), s);
    assert CandidateOk(tree, leaves, m, queue[i]);
  }

  lemma {:induction false} InSome(lists: seq<seq<Segment>>, s: Segment) returns (i: nat)
    requires Total(lists, s) > 0
    ensures i < |lists| && s in lists[i]
  {
    i := |lists| - 1;
    if s !in lists[i] {
      i := InSome(lists[..i], s);
    }
  }

  // ----- exploring nodes -----------------------------------------------------------------------

  /** The queue has gained the segments of `list`, and nothing else. */
  ghost predicate Gained(tree: seq<TreeNode>, leaves: Leaves, queue0: seq<Candidate>, queue: seq<Candidate>,
                         list: seq<Segment>)
    requires Rooted(tree, leaves)
  {
    forall s {:trigger Remaining(tree, leaves, queue, s)} ::
             Remaining(tree, leaves, queue, s) == Remaining(tree, leaves, queue0, s) + Times(list, s)
  }

  lemma {:induction false} GainNothing(tree: seq<TreeNode>, leaves: Leaves, queue: seq<Candidate>)
    requires Rooted(tree, leaves)
    ensures Gained(tree, leaves, queue, queue, [])
  {
    assert forall s :: Times([], s) == 0;
  }

  lemma {:induction false} GainMore(tree: seq<TreeNode>, leaves: Leaves, queue0: seq<Candidate>, queue: seq<Candidate>,
                                    list: seq<Segment>, c: Candidate)
    requires Rooted(tree, leaves) && Gained(tree, leaves, queue0, queue, list)
    ensures Gained(tree, leaves, queue0, queue + [c], list + Content(tree, leaves, c))
  {
    forall s
      ensures Remaining(tree, leaves, queue + [c], s) ==
                Remaining(tree, leaves, queue0, s) + Times(list + Content(tree, leaves, c), s)
    {
      RemainingPush(tree, leaves, queue, c, s);
    }
  }

  method ExploreLeafNode(tree: seq<TreeNode>, leaves: Leaves, m: Metric, leaf: nat, queue0: seq<Candidate>)
      returns (queue: seq<Candidate>)
    requires Rooted(tree, leaves) && QueueOk(tree, leaves, m, queue0) && leaf < |leaves|
    ensures QueueOk(tree, leaves, m, queue) && Gained(tree, leaves, queue0, queue, leaves[leaf])
    ensures |queue| == |queue0| + |leaves[leaf]| && queue0 <= queue && forall j ::
              |queue0| <= j < |queue| ==> queue[j].Found?
  {
    queue := queue0;
    var objects := leaves[leaf];
    GainNothing(tree, leaves, queue0);
    assert objects[..0] == [];
    for i := 0 to |objects|
      invariant |queue| == |queue0| + i && queue0 <= queue && QueueOk(tree, leaves, m, queue)
      invariant forall j :: |queue0| <= j < |queue| ==> queue[j].Found?
      invariant Gained(tree, leaves, queue0, queue, objects[..i])
    {
      var c := Found(m.distance(objects[i]), objects[i]);
      assert CandidateOk(tree, leaves, m, c);
      QueuePush(tree, leaves, m, queue, c);
      GainMore(tree, leaves, queue0, queue, objects[..i], c);
      assert objects[..i + 1] == objects[..i] + Content(tree, leaves, c);
      queue := queue + [c];
    }
    assert objects[..|objects|] == objects;
  }

  lemma {:induction false} NodeCandidate(tree: seq<TreeNode>, leaves: Leaves, m: Metric, i: nat)
    requires Rooted(tree, leaves) && LowerBounds(tree, m) && i < |tree|
    ensures CandidateOk(tree, leaves, m, Node(m.lower(tree[i].rectangle), i))
  {
    forall s | s in Below(tree, leaves, i)
      ensures m.lower(tree[i].rectangle) <= m.distance(s)
    {
      NestedBelow(tree, leaves, i, s);
    }
  }

  lemma {:induction false} BelowPush(tree: seq<TreeNode>, leaves: Leaves, ids: seq<nat>, i: nat, from: nat)
    requires Rooted(tree, leaves) && from <= |tree| && i < |ids| && forall j ::
               0 <= j < |ids| ==> from <= ids[j] < |tree|
    ensures BelowAll(tree, leaves, ids[..i + 1], from) ==
              BelowAll(tree, leaves, ids[..i], from) + Below(tree, leaves, ids[i])
  {
    assert ids[..i + 1][..i] == ids[..i];
  }

  /** After the first i children of a node. */
  ghost predicate Exploring(tree: seq<TreeNode>, leaves: Leaves, m: Metric, queue0: seq<Candidate>, ids: seq<nat>,
                            from: nat, queue: seq<Candidate>, i: nat)
    requires Rooted(tree, leaves) && i <= |ids| && from <= |tree| && forall j ::
               0 <= j < |ids| ==> from <= ids[j] < |tree|
  {
    && |queue| == |queue0| + i && queue0 <= queue && QueueOk(tree, leaves, m, queue)
    && (forall j :: |queue0| <= j < |queue| ==> queue[j].Node? && queue[j].index == ids[j - |queue0|])
    && Gained(tree, leaves, queue0, queue, BelowAll(tree, leaves, ids[..i], from))
  }

  lemma {:induction false} ExploreChild(tree: seq<TreeNode>, leaves: Leaves, m: Metric, queue0: seq<Candidate>,
                                        ids: seq<nat>, from: nat, queue: seq<Candidate>, i: nat)
    requires Rooted(tree, leaves) && LowerBounds(tree, m) && from <= |tree|
    requires i < |ids| && forall j :: 0 <= j < |ids| ==> from <= ids[j] < |tree|
    requires Exploring(tree, leaves, m, queue0, ids, from, queue, i)
    ensures Exploring(tree, leaves, m, queue0, ids, from, queue + [Node(m.lower(tree[ids[i]].rectangle), ids[i])],
                      i + 1)
  {
    var c := Node(m.lower(tree[ids[i]].rectangle), ids[i]);
    NodeCandidate(tree, leaves, m, ids[i]);
    QueuePush(tree, leaves, m, queue, c);
    GainMore(tree, leaves, queue0, queue, BelowAll(tree, leaves, ids[..i], from), c);
    BelowPush(tree, leaves, ids, i, from);
  }

  method ExploreTreeNode(tree: seq<TreeNode>, leaves: Leaves, m: Metric, parent: nat, queue0: seq<Candidate>)
      returns (queue: seq<Candidate>)
    requires Rooted(tree, leaves) && LowerBounds(tree, m) && QueueOk(tree, leaves, m, queue0)
    requires parent < |tree| && !tree[parent].onDisk
    ensures QueueOk(tree, leaves, m, queue) && Gained(tree, leaves, queue0, queue, Below(tree, leaves, parent))
    ensures |queue| == |queue0| + |tree[parent].children| && queue0 <= queue
    ensures forall j :: |queue0| <= j < |queue| ==>
              queue[j].Node? && queue[j].index == tree[parent].children[j - |queue0|]
  {
    assert RootedAt(tree, leaves, parent);
    queue := queue0;
    var ids := tree[parent].children;
    GainNothing(tree, leaves, queue0);
    assert ids[..0] == [];
    for i := 0 to |ids|
      invariant Exploring(tree, leaves, m, queue0, ids, parent + 1, queue, i)
    {
      ExploreChild(tree, leaves, m, queue0, ids, parent + 1, queue, i);
      queue := queue + [Node(m.lower(tree[ids[i]].rectangle), ids[i])];
    }
    assert ids[..|ids|] == ids;
  }

  // ----- the queue shrinks ------------------------------------------------------------------------

  function Sum(s: seq<nat>): nat {
    if s == [] then 0 else Sum(s[..|s| - 1]) + s[|s| - 1]
  }

  lemma {:induction false} SumJoin(p: seq<nat>, q: seq<nat>)
    ensures Sum(p + q) == Sum(p) + Sum(q)
    decreases |q|
  {
    if q == [] {
      assert p + q == p;
    } else {
      SumJoin(p, q[..|q| - 1]);
      assert (p + q)[..|p + q| - 1] == p + q[..|q| - 1];
    }
  }

  /** How many pops a candidate can still cause. */
  ghost function Work(tree: seq<TreeNode>, leaves: Leaves, i: nat): nat
    requires Rooted(tree, leaves) && i < |tree|
    decreases |tree| - i, 1, 0
  {
    assert RootedAt(tree, leaves, i);
    if tree[i].onDisk then 1 + |leaves[tree[i].children[0]]| else 1 + WorkAll(tree, leaves, tree[i].children, i + 1)
  }

  ghost function WorkAll(tree: seq<TreeNode>, leaves: Leaves, ids: seq<nat>, from: nat): nat
    requires Rooted(tree, leaves) && from <= |tree| && forall j :: 0 <= j < |ids| ==> from <= ids[j] < |tree|
    decreases |tree| - from + 1, 0, |ids|
  {
    if ids == [] then 0
    else WorkAll(tree, leaves, ids[..|ids| - 1], from) + Work(tree, leaves, ids[|ids| - 1])
  }

  ghost function WorkOf(tree: seq<TreeNode>, leaves: Leaves, c: Candidate): nat
    requires Rooted(tree, leaves)
  {
    if c.Node? && c.index < |tree| then Work(tree, leaves, c.index) else 1
  }

  ghost function Works(tree: seq<TreeNode>, leaves: Leaves, queue: seq<Candidate>): (r: seq<nat>)
    requires Rooted(tree, leaves)
    ensures |r| == |queue| && forall i :: 0 <= i < |r| ==> r[i] == WorkOf(tree, leaves, queue[i])
  {
    seq(|queue|, i requires 0 <= i < |queue| => WorkOf(tree, leaves, queue[i]))
  }

  lemma {:induction false} WorksWithout(tree: seq<TreeNode>, leaves: Leaves, queue: seq<Candidate>, i: nat)
    requires Rooted(tree, leaves) && i < |queue|
    ensures Sum(Works(tree, leaves, queue)) ==
              Sum(Works(tree, leaves, queue[..i] + queue[i + 1..])) + WorkOf(tree, leaves, queue[i])
  {
    var w := Works(tree, leaves, queue);
    var a, b := w[..i], w[i + 1..];
    assert w == a + [w[i]] + b;
    SumJoin(a + [w[i]], b);
    assert (a + [w[i]])[..i] == a;
    SumJoin(a, b);
    assert Works(tree, leaves, queue[..i] + queue[i + 1..]) == a + b;
  }

  lemma {:induction false} FoundWork(tree: seq<TreeNode>, leaves: Leaves, queue0: seq<Candidate>, queue: seq<Candidate>)
    requires Rooted(tree, leaves) && queue0 <= queue && forall j :: |queue0| <= j < |queue| ==> queue[j].Found?
    ensures Sum(Works(tree, leaves, queue)) == Sum(Works(tree, leaves, queue0)) + |queue| - |queue0|
    decreases |queue|
  {
    if |queue| == |queue0| {
      assert queue == queue0;
    } else {
      var init := queue[..|queue| - 1];
      FoundWork(tree, leaves, queue0, init);
      assert Works(tree, leaves, queue)[..|init|] == Works(tree, leaves, init);
    }
  }

  lemma {:induction false} NodeWork(tree: seq<TreeNode>, leaves: Leaves, queue0: seq<Candidate>, queue: seq<Candidate>,
                                    ids: seq<nat>, from: nat)
    requires Rooted(tree, leaves) && queue0 <= queue && |queue| == |queue0| + |ids|
    requires from <= |tree| && forall j :: 0 <= j < |ids| ==> from <= ids[j] < |tree|
    requires forall j :: |queue0| <= j < |queue| ==> queue[j].Node? && queue[j].index == ids[j - |queue0|]
    ensures Sum(Works(tree, leaves, queue)) == Sum(Works(tree, leaves, queue0)) + WorkAll(tree, leaves, ids, from)
    decreases |queue|
  {
    if ids == [] {
      assert queue == queue0;
    } else {
      var init := queue[..|queue| - 1];
      NodeWork(tree, leaves, queue0, init, ids[..|ids| - 1], from);
      assert Works(tree, leaves, queue)[..|init|] == Works(tree, leaves, init);
    }
  }

  // ----- filters ------------------------------------------------------------------------------------

  /** A segment in the result, with the directions that the filter left usable. */
  datatype Hit = Hit(segment: Segment, forward: bool, reverse: bool)

  /** A filter with state: what it makes of a segment, and its new state. */
  type Filter<!S> = (S, Segment) -> (S, bool, bool)

  /** When to stop, given the state, the number of results, and a bound on what is left. */
  type Terminate<!S> = (S, nat, real) -> bool

  datatype Progress<S> = Progress(state: S, hits: seq<Hit>)

  function Take<S>(filter: Filter<S>, p: Progress<S>, s: Segment): Progress<S> {
    var (state, forward, reverse) := filter(p.state, s);
    Progress(state, if forward || reverse then p.hits + [Hit(s, forward, reverse)] else p.hits)
  }

  /** What the filter has made of the segments seen so far. */
  ghost function After<S>(filter: Filter<S>, start: S, seen: seq<Segment>): Progress<S> {
    if seen == [] then Progress(start, []) else Take(filter, After(filter, start, seen[..|seen| - 1]), seen[|seen| - 1])
  }

  ghost predicate Ascending(m: Metric, seen: seq<Segment>) {
    forall i, j :: 0 <= i < j < |seen| ==> m.distance(seen[i]) <= m.distance(seen[j])
  }

  /** Before each segment was looked at, it was not yet time to stop. */
  ghost predicate NotYet<S>(m: Metric, filter: Filter<S>, terminate: Terminate<S>, start: S, seen: seq<Segment>) {
    forall i {:trigger seen[..i]} :: 0 <= i < |seen| ==>
      !terminate(After(filter, start, seen[..i]).state, |After(filter, start, seen[..i]).hits|, m.distance(seen[i]))
  }

  /** s occurs among all segments more often than among those seen. */
  ghost predicate Unseen(all: seq<Segment>, seen: seq<Segment>, s: Segment) {
    Times(seen, s) < Times(all, s)
  }

  /** The segments seen come in order of distance, and what is left is no nearer. */
  ghost predicate Scanned(m: Metric, all: seq<Segment>, seen: seq<Segment>) {
    && (forall s {:trigger Times(seen, s)} :: Times(seen, s) <= Times(all, s))
    && Ascending(m, seen)
    && (forall s, i {:trigger Unseen(all, seen, s), seen[i]} ::
          Unseen(all, seen, s) && 0 <= i < |seen| ==> m.distance(seen[i]) <= m.distance(s))
  }

  /** The search ends when everything was seen, or when it is time to stop for anything left. */
  ghost predicate Finished<S>(m: Metric, filter: Filter<S>, terminate: Terminate<S>, start: S, all: seq<Segment>,
                              seen: seq<Segment>) {
    || (forall s :: !Unseen(all, seen, s))
    || exists bound :: Stops(m, terminate, After(filter, start, seen), all, seen, bound)
  }

  ghost predicate Stops<S>(m: Metric, terminate: Terminate<S>, p: Progress<S>, all: seq<Segment>, seen: seq<Segment>,
                           bound: real) {
    terminate(p.state, |p.hits|, bound) && forall s :: Unseen(all, seen, s) ==> bound <= m.distance(s)
  }

  /** Seen and queued segments are all segments. */
  ghost predicate Split(tree: seq<TreeNode>, leaves: Leaves, all: seq<Segment>, seen: seq<Segment>,
                        queue: seq<Candidate>)
    requires Rooted(tree, leaves)
  {
    forall s {:trigger Times(seen, s)} :: Times(seen, s) + Remaining(tree, leaves, queue, s) == Times(all, s)
  }

  /** The least key bounds everything not seen. */
  lemma {:induction false} UnseenBound(tree: seq<TreeNode>, leaves: Leaves, m: Metric, all: seq<Segment>,
                                       seen: seq<Segment>, queue: seq<Candidate>, key: real)
    requires Rooted(tree, leaves) && QueueOk(tree, leaves, m, queue) && Split(tree, leaves, all, seen, queue)
    requires forall j :: 0 <= j < |queue| ==> key <= queue[j].key
    ensures forall s :: Unseen(all, seen, s) ==> key <= m.distance(s)
  {
    forall s | Unseen(all, seen, s)
      ensures key <= m.distance(s)
    {
      assert Times(seen, s) + Remaining(tree, leaves, queue, s) == Times(all, s);
      KeyBounds(tree, leaves, m, queue, key, s);
    }
  }

  /** Opening a node keeps the split. */
  lemma {:induction false} SplitOpen(tree: seq<TreeNode>, leaves: Leaves, all: seq<Segment>, seen: seq<Segment>,
                                     queue: seq<Candidate>, i: nat, queue': seq<Candidate>)
    requires Rooted(tree, leaves) && i < |queue| && Split(tree, leaves, all, seen, queue)
    requires Gained(tree, leaves, queue[..i] + queue[i + 1..], queue', Content(tree, leaves, queue[i]))
    ensures Split(tree, leaves, all, seen, queue')
  {
    forall s
      ensures Times(seen, s) + Remaining(tree, leaves, queue', s) == Times(all, s)
    {
      RemainingWithout(tree, leaves, queue, i, s);
      assert Remaining(tree, leaves, queue', s) ==
               Remaining(tree, leaves, queue[..i] + queue[i + 1..], s) + Times(Content(tree, leaves, queue[i]), s);
      assert Times(seen, s) + Remaining(tree, leaves, queue, s) == Times(all, s);
    }
  }

  /** Popping a segment moves it from the queue to the seen ones. */
  lemma {:induction false} SplitSee(tree: seq<TreeNode>, leaves: Leaves, all: seq<Segment>, seen: seq<Segment>,
                                    queue: seq<Candidate>, i: nat)
    requires Rooted(tree, leaves) && i < |queue| && Split(tree, leaves, all, seen, queue) && queue[i].Found?
    ensures Split(tree, leaves, all, seen + [queue[i].segment], queue[..i] + queue[i + 1..])
    ensures Unseen(all, seen, queue[i].segment)
  {
    var t := queue[i].segment;
    forall s
      ensures Times(seen + [t], s) + Remaining(tree, leaves, queue[..i] + queue[i + 1..], s) == Times(all, s)
    {
      RemainingWithout(tree, leaves, queue, i, s);
      assert Content(tree, leaves, queue[i]) == [t];
      assert Times(seen, s) + Remaining(tree, leaves, queue, s) == Times(all, s);
      TimesPush(seen, t, s);
      TimesPush([], t, s);
      assert [] + [t] == [t];
    }
    RemainingWithout(tree, leaves, queue, i, t);
    assert Times(seen, t) + Remaining(tree, leaves, queue, t) == Times(all, t);
  }

  lemma {:induction false} TimesPush(list: seq<Segment>, t: Segment, s: Segment)
    ensures Times(list + [t], s) == Times(list, s) + (if s == t then 1 else 0)
  {
  }

  lemma {:induction false} ScannedSee(m: Metric, all: seq<Segment>, seen: seq<Segment>, t: Segment)
    requires Scanned(m, all, seen) && Unseen(all, seen, t) && forall s ::
               Unseen(all, seen, s) ==> m.distance(t) <= m.distance(s)
    ensures Scanned(m, all, seen + [t])
  {
    var seen' := seen + [t];
    forall s
      ensures Times(seen', s) <= Times(all, s)
      ensures Unseen(all, seen', s) ==> Unseen(all, seen, s)
    {
      TimesPush(seen, t, s);
    }
    forall i | 0 <= i < |seen|
      ensures m.distance(seen[i]) <= m.distance(t)
    {
      assert Unseen(all, seen, t);
    }
  }

  lemma {:induction false} NotYetSee<S>(m: Metric, filter: Filter<S>, terminate: Terminate<S>, start: S,
                                        seen: seq<Segment>, t: Segment)
    requires NotYet(m, filter, terminate, start, seen)
    requires var p := After(filter, start, seen); !terminate(p.state, |p.hits|, m.distance(t))
    ensures NotYet(m, filter, terminate, start, seen + [t])
    ensures After(filter, start, seen + [t]) == Take(filter, After(filter, start, seen), t)
  {
    var seen' := seen + [t];
    assert seen'[..|seen|] == seen;
    forall i | 0 <= i < |seen'|
      ensures !terminate(After(filter, start, seen'[..i]).state, |After(filter, start, seen'[..i]).hits|,
                         m.distance(seen'[i]))
    {
      if i < |seen| {
        assert seen'[..i] == seen[..i];
      }
    }
  }

  /** Opens the node at position i of the queue. */
  method OpenNode(tree: seq<TreeNode>, leaves: Leaves, m: Metric, queue0: seq<Candidate>, i: nat)
      returns (queue: seq<Candidate>)
    requires Rooted(tree, leaves) && LowerBounds(tree, m) && QueueOk(tree, leaves, m, queue0) && i < |queue0|
             && queue0[i].Node?
    ensures QueueOk(tree, leaves, m, queue)
            && Gained(tree, leaves, queue0[..i] + queue0[i + 1..], queue, Content(tree, leaves, queue0[i]))
    ensures Sum(Works(tree, leaves, queue)) < Sum(Works(tree, leaves, queue0))
  {
    QueueWithout(tree, leaves, m, queue0, i);
    WorksWithout(tree, leaves, queue0, i);
    var rest, index := queue0[..i] + queue0[i + 1..], queue0[i].index;
    assert RootedAt(tree, leaves, index);
    if tree[index].onDisk {
      queue := ExploreLeafNode(tree, leaves, m, tree[index].children[0], rest);
      FoundWork(tree, leaves, rest, queue);
    } else {
      queue := ExploreTreeNode(tree, leaves, m, index, rest);
      NodeWork(tree, leaves, rest, queue, tree[index].children, index + 1);
    }
  }

  /** The hits are what the filter makes of the segments in order of distance, up to the first time to stop. */
  ghost predicate Reported<S>(m: Metric, filter: Filter<S>, terminate: Terminate<S>, start: S, all: seq<Segment>,
                              hits: seq<Hit>) {
    exists seen :: ReportedFrom(m, filter, terminate, start, all, hits, seen)
  }

  ghost predicate ReportedFrom<S>(m: Metric, filter: Filter<S>, terminate: Terminate<S>, start: S, all: seq<Segment>,
                                  hits: seq<Hit>, seen: seq<Segment>) {
    && hits == After(filter, start, seen).hits && Scanned(m, all, seen)
    && NotYet(m, filter, terminate, start, seen) && Finished(m, filter, terminate, start, all, seen)
  }

  /** Nearest: best first, until it is time to stop. */
  method Nearest<S>(tree: seq<TreeNode>, leaves: Leaves, m: Metric, filter: Filter<S>, terminate: Terminate<S>,
                    start: S)
      returns (hits: seq<Hit>)
    requires Rooted(tree, leaves) && tree != [] && LowerBounds(tree, m)
    ensures Reported(m, filter, terminate, start, Below(tree, leaves, 0), hits)
  {
    ghost var all := Below(tree, leaves, 0);
    ghost var seen: seq<Segment> := [];
    var p := Progress(start, []);
    var queue := [Node(0.0, 0)];
    StartQueue(tree, leaves, m);
    while queue != []
      invariant QueueOk(tree, leaves, m, queue) && Split(tree, leaves, all, seen, queue)
      invariant p == After(filter, start, seen) && Scanned(m, all, seen) && NotYet(m, filter, terminate, start, seen)
      decreases Sum(Works(tree, leaves, queue))
    {
      var i := FindMin(queue);
      UnseenBound(tree, leaves, m, all, seen, queue, queue[i].key);
      if terminate(p.state, |p.hits|, queue[i].key) {
        assert Stops(m, terminate, p, all, seen, queue[i].key);
        assert ReportedFrom(m, filter, terminate, start, all, p.hits, seen);
        return p.hits;
      }
      if queue[i].Node? {
        ghost var before := queue;
        queue := OpenNode(tree, leaves, m, queue, i);
        SplitOpen(tree, leaves, all, seen, before, i, queue);
      } else {
        var s := queue[i].segment;
        QueueWithout(tree, leaves, m, queue, i);
        WorksWithout(tree, leaves, queue, i);
        SplitSee(tree, leaves, all, seen, queue, i);
        ScannedSee(m, all, seen, s);
        NotYetSee(m, filter, terminate, start, seen, s);
        queue := queue[..i] + queue[i + 1..];
        p := Take(filter, p, s);
        seen := seen + [s];
      }
    }
    NothingUnseen(tree, leaves, all, seen);
    hits := p.hits;
    assert ReportedFrom(m, filter, terminate, start, all, hits, seen);
  }

  lemma {:induction false} StartQueue(tree: seq<TreeNode>, leaves: Leaves, m: Metric)
    requires Rooted(tree, leaves) && tree != [] && LowerBounds(tree, m)
    ensures QueueOk(tree, leaves, m, [Node(0.0, 0)])
    ensures Split(tree, leaves, Below(tree, leaves, 0), [], [Node(0.0, 0)])
  {
    var c := Node(0.0, 0);
    assert CandidateOk(tree, leaves, m, c);
    QueuePush(tree, leaves, m, [], c);
    assert [] + [c] == [c];
    forall s
      ensures Times([], s) + Remaining(tree, leaves, [c], s) == Times(Below(tree, leaves, 0), s)
    {
      RemainingPush(tree, leaves, [], c, s);
    }
  }

  lemma {:induction false} NothingUnseen(tree: seq<TreeNode>, leaves: Leaves, all: seq<Segment>, seen: seq<Segment>)
    requires Rooted(tree, leaves) && Split(tree, leaves, all, seen, [])
    ensures forall s :: !Unseen(all, seen, s)
  {
    forall s
      ensures !Unseen(all, seen, s)
    {
      assert Times(seen, s) + Remaining(tree, leaves, [], s) == Times(all, s);
    }
  }
}
