/** The static k-d tree (data_structures/static_kdtree.hpp): an array reordered in place by medians,
    and nearest-neighbour search with bounding boxes. */
module KdTree {
  import opened Basics

  const BASESIZE: nat := 8

  datatype InputPoint<D> = InputPoint(coordinates: seq<int>, data: D)

  datatype Box = Box(min: seq<int>, max: seq<int>)

  // ----- the metric ----------------------------------------------------------------

  /** Squared Euclidean distance over the first n dimensions. */
  function Distance(left: seq<int>, right: seq<int>, n: nat): (r: int)
    requires n <= |left| && n <= |right|
    ensures r >= 0
  {
    if n == 0 then 0 else
      var temp := left[n - 1] - right[n - 1];
      Square(temp) + Distance(left, right, n - 1)
  }

  function Square(x: int): (r: int)
    ensures r >= 0
  {
    x * x
  }

  /** In the plane: the square of the length of the straight line. */
  lemma {:induction false} PlaneDistance(left: seq<int>, right: seq<int>)
    requires |left| == |right| == 2
    ensures var x, y := left[0] - right[0], left[1] - right[1];
            Distance(left, right, 2) == x * x + y * y
  {
    assert Distance(left, right, 1) == Square(left[0] - right[0]) + Distance(left, right, 0);
  }

  /** The point of the box that is nearest in one dimension. */
  function Clamp(x: int, lo: int, hi: int): int {
    if x < lo then lo else if x > hi then hi else x
  }

  function Nearest(box: Box, point: seq<int>): (r: seq<int>)
    requires |box.min| == |box.max| == |point|
    ensures |r| == |point| && forall i :: 0 <= i < |r| ==> r[i] == Clamp(point[i], box.min[i], box.max[i])
  {
    seq(|point|, i requires 0 <= i < |point| => Clamp(point[i], box.min[i], box.max[i]))
  }

  ghost predicate InBox(box: Box, p: seq<int>) {
    |box.min| == |box.max| == |p| && forall i :: 0 <= i < |p| ==> box.min[i] <= p[i] <= box.max[i]
  }

  lemma {:induction false} SquareGrows(a: int, b: int)
    requires (0 <= a <= b) || (b <= a <= 0)
    ensures Square(a) <= Square(b)
  {
    if 0 <= a <= b {
      assert a * a <= a * b <= b * b;
    } else {
      assert (-a) * (-a) <= (-a) * (-b) <= (-b) * (-b);
    }
  }

  /** In one dimension, no point between the bounds is nearer than the clamped one. */
  lemma {:induction false} ClampIsNearest(x: int, lo: int, hi: int, p: int)
    requires lo <= p <= hi
    ensures Square(x - Clamp(x, lo, hi)) <= Square(p - x)
  {
    var c := Clamp(x, lo, hi);
    if c == x {
      assert Square(x - c) == 0;
    } else {
      SquareGrows(x - c, x - p);
      SquareNegated(x - p);
      assert p - x == -(x - p);
    }
  }

  /** The distance to a box is a lower bound for every point in it. */
  lemma {:induction false} BoxIsLowerBound(box: Box, point: seq<int>, p: seq<int>, n: nat)
    requires InBox(box, p) && |point| == |p| && n <= |p|
    ensures Distance(point, Nearest(box, point), n) <= Distance(p, point, n)
  {
    if n > 0 {
      BoxIsLowerBound(box, point, p, n - 1);
      ClampIsNearest(point[n - 1], box.min[n - 1], box.max[n - 1], p[n - 1]);
    }
  }

  lemma {:induction false} SquareNegated(x: int)
    ensures Square(-x) == Square(x)
  {
    assert (-x) * (-x) == x * x;
  }

  // ----- the tree in the array -----------------------------------------------------

  ghost predicate Points<D>(points: seq<InputPoint<D>>, k: nat) {
    forall i :: 0 <= i < |points| ==> |points[i].coordinates| == k
  }

  /** The dimension after d, modulo k. */
  function Next(d: nat, k: nat): nat {
    if d + 1 < k then d + 1 else 0
  }

  function Middle(left: nat, right: nat): nat
    requires left <= right
  {
    left + (right - left) / 2
  }

  /** In one dimension, the left half is not above the middle and the right half not below it. */
  ghost predicate SplitBy<D>(points: seq<InputPoint<D>>, k: nat, left: nat, right: nat, d: nat)
    requires Points(points, k) && d < k && left < right <= |points|
  {
    var m := Middle(left, right);
    && (forall i :: left <= i < m ==> points[i].coordinates[d] <= points[m].coordinates[d])
    && (forall i :: m < i < right ==> points[m].coordinates[d] <= points[i].coordinates[d])
  }

  datatype Tree = Tree(left: nat, right: nat, dimension: nat)

  /** The range is a k-d tree, except for the parts that are still on the stack. */
  ghost predicate Built<D>(points: seq<InputPoint<D>>, k: nat, left: nat, right: nat, d: nat, stack: seq<Tree>)
    requires Points(points, k) && d < k && left <= right <= |points|
    decreases right - left
  {
    || right - left < BASESIZE
    || Tree(left, right, d) in stack
    || (var m := Middle(left, right);
        && SplitBy(points, k, left, right, d)
        && Built(points, k, left, m, Next(d, k), stack)
        && Built(points, k, m + 1, right, Next(d, k), stack))
  }

  /** t is the range itself or a part of it that repeated halving produces. */
  ghost predicate PartOf(t: Tree, k: nat, left: nat, right: nat, d: nat)
    requires d < k && left <= right
    decreases right - left
  {
    || t == Tree(left, right, d)
    || (right - left >= BASESIZE &&
        var m := Middle(left, right);
        (PartOf(t, k, left, m, Next(d, k)) || PartOf(t, k, m + 1, right, Next(d, k))))
  }

  lemma {:induction false} PartInside(t: Tree, k: nat, left: nat, right: nat, d: nat)
    requires d < k && left <= right && PartOf(t, k, left, right, d)
    ensures left <= t.left <= t.right <= right && t.dimension < k
    decreases right - left
  {
    if t != Tree(left, right, d) {
      var m := Middle(left, right);
      if PartOf(t, k, left, m, Next(d, k)) {
        PartInside(t, k, left, m, Next(d, k));
      } else {
        PartInside(t, k, m + 1, right, Next(d, k));
      }
    }
  }

  /** Parts of a part are parts. */
  lemma {:induction false} PartsOfPart(t: Tree, child: Tree, k: nat, left: nat, right: nat, d: nat)
    requires d < k && left <= right && PartOf(t, k, left, right, d) && t.left <= t.right && t.dimension < k
    requires t.right - t.left >= BASESIZE
    requires var m := Middle(t.left, t.right);
             child == Tree(t.left, m, Next(t.dimension, k)) || child == Tree(m + 1, t.right, Next(t.dimension, k))
    ensures PartOf(child, k, left, right, d)
    decreases right - left
  {
    if t == Tree(left, right, d) {
      assert PartOf(child, k, child.left, child.right, child.dimension);
    } else {
      var m := Middle(left, right);
      if PartOf(t, k, left, m, Next(d, k)) {
        PartsOfPart(t, child, k, left, m, Next(d, k));
      } else {
        PartsOfPart(t, child, k, m + 1, right, Next(d, k));
      }
    }
  }

  /** Only the range was touched, and it holds no new points. */
  ghost predicate Shuffled<D>(points: seq<InputPoint<D>>, points': seq<InputPoint<D>>, left: nat, right: nat) {
    && |points'| == |points| && left <= right <= |points|
    && (forall i :: 0 <= i < |points| && !(left <= i < right) ==> points'[i] == points[i])
    && (forall i {:trigger points'[i]} :: left <= i < right ==> points'[i] in points[left..right])
  }

  lemma {:induction false} ShuffledSplit<D>(points: seq<InputPoint<D>>, points': seq<InputPoint<D>>, k: nat, t: Tree,
                                            left: nat, right: nat, d: nat)
    requires Points(points, k) && Points(points', k) && d < k && left < right <= |points|
             && SplitBy(points, k, left, right, d)
    requires Shuffled(points, points', t.left, t.right)
    requires var m := Middle(left, right); (left <= t.left && t.right <= m) || (m < t.left && t.right <= right)
    ensures SplitBy(points', k, left, right, d)
  {
    var m := Middle(left, right);
    assert points'[m] == points[m];
    forall i | left <= i < right && i != m
      ensures i < m ==> points'[i].coordinates[d] <= points'[m].coordinates[d]
      ensures i > m ==> points'[m].coordinates[d] <= points'[i].coordinates[d]
    {
      if t.left <= i < t.right {
        assert points'[i] in points[t.left..t.right];
        var j :| 0 <= j < t.right - t.left && points[t.left..t.right][j] == points'[i];
        assert points[t.left + j] == points'[i];
      }
    }
  }

  /** A range that the shuffle does not meet stays as it is. */
  lemma {:induction false} BuiltApart<D>(points: seq<InputPoint<D>>, points': seq<InputPoint<D>>, k: nat, left: nat,
                                         right: nat, d: nat, stack: seq<Tree>, t: Tree)
    requires Points(points, k) && Points(points', k) && d < k && left <= right <= |points|
             && Built(points, k, left, right, d, stack)
    requires Shuffled(points, points', t.left, t.right) && (right <= t.left || t.right <= left)
    ensures Built(points', k, left, right, d, stack)
    decreases right - left
  {
    if right - left >= BASESIZE && Tree(left, right, d) !in stack {
      var m := Middle(left, right);
      assert forall i :: left <= i < right ==> points'[i] == points[i];
      BuiltApart(points, points', k, left, m, Next(d, k), stack, t);
      BuiltApart(points, points', k, m + 1, right, Next(d, k), stack, t);
    }
  }

  /** Shuffling a part that is still on the stack spoils nothing. */
  lemma {:induction false} BuiltShuffled<D>(points: seq<InputPoint<D>>, points': seq<InputPoint<D>>, k: nat, left: nat,
                                            right: nat, d: nat, stack: seq<Tree>, t: Tree)
    requires Points(points, k) && Points(points', k) && d < k && left <= right <= |points|
             && Built(points, k, left, right, d, stack)
    requires t in stack && PartOf(t, k, left, right, d) && Shuffled(points, points', t.left, t.right)
    ensures Built(points', k, left, right, d, stack)
    decreases right - left
  {
    if right - left >= BASESIZE && Tree(left, right, d) !in stack {
      var m, e := Middle(left, right), Next(d, k);
      if PartOf(t, k, left, m, e) {
        PartInside(t, k, left, m, e);
        BuiltShuffled(points, points', k, left, m, e, stack, t);
        BuiltApart(points, points', k, m + 1, right, e, stack, t);
      } else {
        PartInside(t, k, m + 1, right, e);
        BuiltShuffled(points, points', k, m + 1, right, e, stack, t);
        BuiltApart(points, points', k, left, m, e, stack, t);
      }
      ShuffledSplit(points, points', k, t, left, right, d);
    }
  }

  /** A part that has been split leaves its two halves to do. */
  lemma {:induction false} BuiltSplit<D>(points: seq<InputPoint<D>>, k: nat, left: nat, right: nat, d: nat,
                                         stack: seq<Tree>, stack': seq<Tree>, t: Tree)
    requires Points(points, k) && d < k && left <= right <= |points| && Built(points, k, left, right, d, stack)
    requires t.dimension < k && t.left < t.right <= |points| && SplitBy(points, k, t.left, t.right, t.dimension)
    requires forall x :: x in stack && x != t ==> x in stack'
    requires Tree(t.left, Middle(t.left, t.right), Next(t.dimension, k)) in stack'
    requires Tree(Middle(t.left, t.right) + 1, t.right, Next(t.dimension, k)) in stack'
    ensures Built(points, k, left, right, d, stack')
    decreases right - left
  {
    if t == Tree(left, right, d) {
      assert Built(points, k, left, Middle(left, right), Next(d, k), stack');
      assert Built(points, k, Middle(left, right) + 1, right, Next(d, k), stack');
    } else if right - left >= BASESIZE && Tree(left, right, d) !in stack {
      BuiltSplit(points, k, left, Middle(left, right), Next(d, k), stack, stack', t);
      BuiltSplit(points, k, Middle(left, right) + 1, right, Next(d, k), stack, stack', t);
    }
  }

  // ----- std::nth_element, by its contract -------------------------------------------

  function Insert<D>(s: seq<InputPoint<D>>, x: InputPoint<D>, d: nat): seq<InputPoint<D>>
    requires d < |x.coordinates| && forall p :: p in s ==> d < |p.coordinates|
  {
    if s == [] || x.coordinates[d] <= s[0].coordinates[d] then [x] + s
    else [s[0]] + Insert(s[1..], x, d)
  }

  function SortBy<D>(s: seq<InputPoint<D>>, d: nat): (r: seq<InputPoint<D>>)
    requires forall p :: p in s ==> d < |p.coordinates|
    ensures multiset(r) == multiset(s)
  {
    if s == [] then []
    else
      var rest := SortBy(s[1..], d);
      assert s == [s[0]] + s[1..];
      assert forall p :: p in rest ==> p in multiset(rest);
      InsertKeeps(rest, s[0], d);
      Insert(rest, s[0], d)
  }

  ghost predicate Ascending<D>(s: seq<InputPoint<D>>, d: nat)
    requires forall p :: p in s ==> d < |p.coordinates|
  {
    forall i, j :: 0 <= i <= j < |s| ==> s[i].coordinates[d] <= s[j].coordinates[d]
  }

  lemma {:induction false} InsertKeeps<D>(s: seq<InputPoint<D>>, x: InputPoint<D>, d: nat)
    requires d < |x.coordinates| && forall p :: p in s ==> d < |p.coordinates|
    ensures multiset(Insert(s, x, d)) == multiset(s) + multiset{x}
    ensures forall p :: p in Insert(s, x, d) ==> p == x || p in s
  {
    if s != [] && x.coordinates[d] > s[0].coordinates[d] {
      InsertKeeps(s[1..], x, d);
      assert s == [s[0]] + s[1..];
    }
  }

  /** A point in front of points that are not below it. */
  lemma {:induction false} ConsAscends<D>(p: InputPoint<D>, s: seq<InputPoint<D>>, d: nat)
    requires d < |p.coordinates| && (forall q :: q in s ==> d < |q.coordinates|) && Ascending(s, d)
    requires s != [] ==> forall i :: 0 <= i < |s| ==> p.coordinates[d] <= s[i].coordinates[d]
    ensures (forall q :: q in [p] + s ==> d < |q.coordinates|) && Ascending([p] + s, d)
  {
  }

  lemma {:induction false} InsertAscends<D>(s: seq<InputPoint<D>>, x: InputPoint<D>, d: nat)
    requires d < |x.coordinates| && (forall p :: p in s ==> d < |p.coordinates|) && Ascending(s, d)
    ensures (forall p :: p in Insert(s, x, d) ==> d < |p.coordinates|) && Ascending(Insert(s, x, d), d)
  {
    if s == [] || x.coordinates[d] <= s[0].coordinates[d] {
      ConsAscends(x, s, d);
    } else {
      var r := Insert(s[1..], x, d);
      InsertAscends(s[1..], x, d);
      InsertKeeps(s[1..], x, d);
      forall i | 0 <= i < |r|
        ensures s[0].coordinates[d] <= r[i].coordinates[d]
      {
        assert r[i] in r;
      }
      ConsAscends(s[0], r, d);
    }
  }

  lemma {:induction false} SortAscends<D>(s: seq<InputPoint<D>>, d: nat)
    requires forall p :: p in s ==> d < |p.coordinates|
    ensures (forall p :: p in SortBy(s, d) ==> p in s) && Ascending(SortBy(s, d), d)
  {
    assert forall p :: p in SortBy(s, d) ==> p in multiset(SortBy(s, d));
    if s != [] {
      SortAscends(s[1..], d);
      InsertAscends(SortBy(s[1..], d), s[0], d);
    }
  }

  /** Reorders a range so that it is split at its middle. */
  method NthElement<D>(points: seq<InputPoint<D>>, k: nat, left: nat, right: nat, d: nat)
      returns (points': seq<InputPoint<D>>)
    requires Points(points, k) && d < k && left < right <= |points|
    ensures Points(points', k) && Shuffled(points, points', left, right) && SplitBy(points', k, left, right, d)
    ensures multiset(points') == multiset(points)
  {
    var range := points[left..right];
    forall p | p in range
      ensures d < |p.coordinates|
    {
      var i :| 0 <= i < |range| && range[i] == p;
      assert points[left + i] == p;
    }
    var sorted := SortBy(range, d);
    SortAscends(range, d);
    assert |sorted| == |range| by {
      assert |multiset(sorted)| == |multiset(range)|;
    }
    points' := points[..left] + sorted + points[right..];
    assert points == points[..left] + range + points[right..];
    Placed(points, points', k, left, right, d, sorted);
  }

  lemma {:induction false} Placed<D>(points: seq<InputPoint<D>>, points': seq<InputPoint<D>>, k: nat, left: nat,
                                     right: nat, d: nat, sorted: seq<InputPoint<D>>)
    requires Points(points, k) && d < k && left < right <= |points| && |sorted| == right - left
    requires points' == points[..left] + sorted + points[right..]
    requires (forall p :: p in sorted ==> p in points[left..right]) && (forall p :: p in sorted ==> d < |p.coordinates|)
             && Ascending(sorted, d)
    ensures Points(points', k) && Shuffled(points, points', left, right) && SplitBy(points', k, left, right, d)
  {
    forall i | 0 <= i < |points'|
      ensures left <= i < right ==> points'[i] == sorted[i - left] && points'[i] in points[left..right]
      ensures !(left <= i < right) ==> points'[i] == points[i]
      ensures |points'[i].coordinates| == k
    {
      if left <= i < right {
        assert points'[i] == sorted[i - left] && sorted[i - left] in sorted;
        var j :| 0 <= j < right - left && points[left..right][j] == points'[i];
        assert points[left + j] == points'[i];
      }
    }
  }

  // ----- the tree --------------------------------------------------------------------

  function Weight(stack: seq<Tree>): nat
    requires forall t :: t in stack ==> t.left <= t.right
  {
    if stack == [] then 0
    else
      var t := stack[|stack| - 1];
      assert t in stack;
      2 * (t.right - t.left) + 1 + Weight(stack[..|stack| - 1])
  }

  ghost predicate PartsOf(stack: seq<Tree>, k: nat, size: nat)
    requires k > 0
  {
    forall t :: t in stack ==> PartOf(t, k, 0, size, 0) && t.left <= t.right <= size && t.dimension < k
  }

  class StaticKDTree<D> {
    const k: nat
    const size: nat
    var kdtree: seq<InputPoint<D>>
    const boundingBox: Box

    ghost predicate Valid()
      reads this
    {
      && k > 0 && |kdtree| == size && Points(kdtree, k) && Built(kdtree, k, 0, size, 0, [])
      && |boundingBox.min| == |boundingBox.max| == k
      && forall i :: 0 <= i < size ==> InBox(boundingBox, kdtree[i].coordinates)
    }

    constructor (k: nat, points: seq<InputPoint<D>>)
      requires k > 0 && Points(points, k)
      ensures Valid() && this.k == k && multiset(kdtree) == multiset(points)
    {
      this.k := k;
      size := |points|;
      var box := BoundPoints(k, points);
      var tree := Build(k, points);
      kdtree := tree;
      boundingBox := box;
      new;
      forall i | 0 <= i < size
        ensures InBox(box, kdtree[i].coordinates)
      {
        assert kdtree[i] in multiset(kdtree);
        assert kdtree[i] in points;
      }
    }

    /** The box around all points; it starts out as everything that an int can hold. */
    static method BoundPoints(k: nat, points: seq<InputPoint<D>>) returns (box: Box)
      requires Points(points, k)
      ensures |box.min| == |box.max| == k && forall p :: p in points ==> InBox(box, p.coordinates)
    {
      box := Box(seq(k, _ => INT_MIN), seq(k, _ => INT_MAX));
      for i := 0 to |points|
        invariant |box.min| == |box.max| == k
        invariant forall j :: 0 <= j < i ==> InBox(box, points[j].coordinates)
      {
        ghost var was := box;
        for d := 0 to k
          invariant |box.min| == |box.max| == k
          invariant forall e :: 0 <= e < k ==> box.min[e] <= was.min[e] && was.max[e] <= box.max[e]
          invariant forall e :: 0 <= e < d ==> box.min[e] <= points[i].coordinates[e] <= box.max[e]
        {
          if points[i].coordinates[d] < box.min[d] {
            box := box.(min := box.min[d := points[i].coordinates[d]]);
          }
          if points[i].coordinates[d] > box.max[d] {
            box := box.(max := box.max[d := points[i].coordinates[d]]);
          }
        }
      }
    }

    /** Splits ranges at their medians, one dimension after the other, until they are small. */
    static method Build(k: nat, points: seq<InputPoint<D>>) returns (tree: seq<InputPoint<D>>)
      requires k > 0 && Points(points, k)
      ensures Points(tree, k) && |tree| == |points| && multiset(tree) == multiset(points)
      ensures Built(tree, k, 0, |tree|, 0, [])
    {
      tree := points;
      var stack := [Tree(0, |points|, 0)];
      while stack != []
        invariant Points(tree, k) && |tree| == |points| && multiset(tree) == multiset(points)
        invariant PartsOf(stack, k, |points|) && Built(tree, k, 0, |points|, 0, stack)
        decreases Weight(stack)
      {
        var t := stack[|stack| - 1];
        assert t in stack;
        ghost var was, before := stack, tree;
        stack := stack[..|stack| - 1];
        if t.right - t.left < BASESIZE {
          BuiltDrop(tree, k, 0, |points|, 0, was, stack, t);
        } else {
          var middle := Middle(t.left, t.right);
          tree := NthElement(tree, k, t.left, t.right, t.dimension);
          var first, second := Tree(t.left, middle, Next(t.dimension, k)), Tree(middle + 1, t.right,
                Next(t.dimension, k));
          stack := stack + [first, second];
          PartsOfPart(t, first, k, 0, |points|, 0);
          PartsOfPart(t, second, k, 0, |points|, 0);
          WeightStep(was, stack, first, second);
          assert first in stack && second in stack;
          StackStep(was, stack, t, first, second);
          BuiltShuffled(before, tree, k, 0, |points|, 0, was, t);
          BuiltSplit(tree, k, 0, |points|, 0, was, stack, t);
        }
      }
    }
  }

  // ----- nearest neighbours ------------------------------------------------------------

  datatype NNTree = NNTree(left: nat, right: nat, dimension: nat, box: Box)

  /** The range is a tree of its own, and its box holds its points. */
  ghost predicate Searchable<D>(points: seq<InputPoint<D>>, k: nat, t: NNTree)
    requires Points(points, k)
  {
    && t.dimension < k && t.left <= t.right <= |points| && Built(points, k, t.left, t.right, t.dimension, [])
    && |t.box.min| == |t.box.max| == k
    && forall i :: t.left <= i < t.right ==> InBox(t.box, points[i].coordinates)
  }

  function Left<D>(points: seq<InputPoint<D>>, k: nat, t: NNTree): NNTree
    requires t.left < t.right <= |points| && Points(points, k) && t.dimension < k && |t.box.max| == k
  {
    var m := Middle(t.left, t.right);
    NNTree(t.left, m, Next(t.dimension, k), t.box.(max := t.box.max[t.dimension := points[m].coordinates[t.dimension]]))
  }

  function Right<D>(points: seq<InputPoint<D>>, k: nat, t: NNTree): NNTree
    requires t.left < t.right <= |points| && Points(points, k) && t.dimension < k && |t.box.min| == k
  {
    var m := Middle(t.left, t.right);
    NNTree(m + 1, t.right, Next(t.dimension, k),
           t.box.(min := t.box.min[t.dimension := points[m].coordinates[t.dimension]]))
  }

  lemma {:induction false} LeftSearchable<D>(points: seq<InputPoint<D>>, k: nat, t: NNTree)
    requires Points(points, k) && Searchable(points, k, t) && t.right - t.left >= BASESIZE
    ensures Searchable(points, k, Left(points, k, t))
  {
    var half := Left(points, k, t);
    forall i | half.left <= i < half.right
      ensures InBox(half.box, points[i].coordinates)
    {
      assert InBox(t.box, points[i].coordinates);
    }
  }

  lemma {:induction false} RightSearchable<D>(points: seq<InputPoint<D>>, k: nat, t: NNTree)
    requires Points(points, k) && Searchable(points, k, t) && t.right - t.left >= BASESIZE
    ensures Searchable(points, k, Right(points, k, t))
  {
    var half := Right(points, k, t);
    forall i | half.left <= i < half.right
      ensures InBox(half.box, points[i].coordinates)
    {
      assert InBox(t.box, points[i].coordinates);
    }
  }

  /** The distance from the query to point i. */
  function To<D>(points: seq<InputPoint<D>>, k: nat, query: seq<int>, i: nat): int
    requires Points(points, k) && i < |points| && |query| == k
  {
    Distance(points[i].coordinates, query, k)
  }

  ghost predicate InSome(stack: seq<NNTree>, i: nat) {
    exists j :: 0 <= j < |stack| && stack[j].left <= i < stack[j].right
  }

  /** What the search has found: the best so far, below the initial bound. */
  datatype Best<D> = Best(found: bool, distance: int, point: InputPoint<D>)

  ghost predicate Sound<D>(points: seq<InputPoint<D>>, k: nat, query: seq<int>, b: Best<D>)
    requires Points(points, k) && |query| == k
  {
    && b.distance <= INT_MAX
    && if b.found then b.distance < INT_MAX && exists i ::
         0 <= i < |points| && points[i] == b.point && To(points, k, query, i) == b.distance
       else b.distance == INT_MAX
  }

  /** Every point is no nearer than the best so far or still to be searched. */
  ghost predicate Covering<D>(points: seq<InputPoint<D>>, k: nat, query: seq<int>, b: Best<D>, stack: seq<NNTree>)
    requires Points(points, k) && |query| == k
  {
    forall i {:trigger InSome(stack, i)} ::
             0 <= i < |points| ==> b.distance <= To(points, k, query, i) || InSome(stack, i)
  }

  ghost predicate AllSearchable<D>(points: seq<InputPoint<D>>, k: nat, stack: seq<NNTree>)
    requires Points(points, k)
  {
    forall j {:trigger Searchable(points, k, stack[j])} :: 0 <= j < |stack| ==> Searchable(points, k, stack[j])
  }

  method Consider<D>(points: seq<InputPoint<D>>, k: nat, query: seq<int>, b0: Best<D>, i: nat) returns (b: Best<D>)
    requires Points(points, k) && |query| == k && i < |points| && Sound(points, k, query, b0)
    ensures Sound(points, k, query, b) && b.distance <= b0.distance && b.distance <= To(points, k, query, i)
  {
    var distance := Distance(points[i].coordinates, query, k);
    if distance < b0.distance {
      b := Best(true, distance, points[i]);
      assert To(points, k, query, i) == distance;
    } else {
      b := b0;
    }
  }

  method ScanRange<D>(points: seq<InputPoint<D>>, k: nat, query: seq<int>, b0: Best<D>, left: nat, right: nat)
      returns (b: Best<D>)
    requires Points(points, k) && |query| == k && left <= right <= |points| && Sound(points, k, query, b0)
    ensures Sound(points, k, query, b) && b.distance <= b0.distance
    ensures forall i :: left <= i < right ==> b.distance <= To(points, k, query, i)
  {
    b := b0;
    for i := left to right
      invariant Sound(points, k, query, b) && b.distance <= b0.distance
      invariant forall j :: left <= j < i ==> b.distance <= To(points, k, query, j)
    {
      b := Consider(points, k, query, b, i);
    }
  }

  /** Taking the top range off the stack is right once its points are no nearer than the best. */
  lemma {:induction false} CoverPop<D>(points: seq<InputPoint<D>>, k: nat, query: seq<int>, b: Best<D>, b': Best<D>,
                                       stack: seq<NNTree>, rest: seq<NNTree>)
    requires Points(points, k) && |query| == k && Covering(points, k, query, b, stack) && b'.distance <= b.distance
    requires stack != [] && stack[..|stack| - 1] <= rest
    requires var t := stack[|stack| - 1];
             forall i :: t.left <= i < t.right && i < |points| ==>
                      b'.distance <= To(points, k, query, i) || InSome(rest, i)
    ensures Covering(points, k, query, b', rest)
  {
    forall i | 0 <= i < |points|
      ensures b'.distance <= To(points, k, query, i) || InSome(rest, i)
    {
      assert b.distance <= To(points, k, query, i) || InSome(stack, i);
      if InSome(stack, i) {
        var j :| 0 <= j < |stack| && stack[j].left <= i < stack[j].right;
        assert j < |stack| - 1 ==> rest[j] == stack[j];
      }
    }
  }

  lemma {:induction false} BoxPrunes<D>(points: seq<InputPoint<D>>, k: nat, query: seq<int>, t: NNTree)
    requires Points(points, k) && |query| == k && Searchable(points, k, t)
    ensures forall i :: t.left <= i < t.right ==> Distance(query, Nearest(t.box, query), k) <= To(points, k, query, i)
  {
    forall i | t.left <= i < t.right
      ensures Distance(query, Nearest(t.box, query), k) <= To(points, k, query, i)
    {
      BoxIsLowerBound(t.box, query, points[i].coordinates, k);
    }
  }

  function NNWeight(stack: seq<NNTree>): nat
    requires forall j :: 0 <= j < |stack| ==> stack[j].left <= stack[j].right
  {
    if stack == [] then 0
    else
      var t := stack[|stack| - 1];
      2 * (t.right - t.left) + 1 + NNWeight(stack[..|stack| - 1])
  }

  lemma {:induction false} NNWeightStep(was: seq<NNTree>, stack: seq<NNTree>, first: NNTree, second: NNTree)
    requires was != [] && stack == was[..|was| - 1] + [first, second]
    requires (forall j :: 0 <= j < |was| ==> was[j].left <= was[j].right) && first.left <= first.right
             && second.left <= second.right
    requires first.right - first.left + second.right - second.left < was[|was| - 1].right - was[|was| - 1].left
    ensures (forall j :: 0 <= j < |stack| ==> stack[j].left <= stack[j].right) && NNWeight(stack) < NNWeight(was)
  {
    var rest := was[..|was| - 1];
    assert stack[..|stack| - 1] == rest + [first] && (rest + [first])[..|rest|] == rest;
  }

  /** The nearest point, by linear scan, is what the search returns; nothing is found exactly when no
      point lies below the initial bound. */
  method NearestNeighbor<D>(tree: StaticKDTree<D>, query: seq<int>, none: InputPoint<D>) returns (b: Best<D>)
    requires tree.Valid() && |query| == tree.k
    ensures b.found <==> exists i :: 0 <= i < tree.size && To(tree.kdtree, tree.k, query, i) < INT_MAX
    ensures b.found ==> b.point in tree.kdtree && |b.point.coordinates| == tree.k
    ensures b.found ==> forall p :: p in tree.kdtree && |p.coordinates| == tree.k ==>
              Distance(b.point.coordinates, query, tree.k) <= Distance(p.coordinates, query, tree.k)
  {
    b := Search(tree.kdtree, tree.k, tree.boundingBox, query, none);
    Conclude(tree.kdtree, tree.k, query, b);
  }

  method Search<D>(points: seq<InputPoint<D>>, k: nat, box: Box, query: seq<int>, none: InputPoint<D>)
      returns (b: Best<D>)
    requires Points(points, k) && |query| == k && Searchable(points, k, NNTree(0, |points|, 0, box))
    ensures Sound(points, k, query, b) && forall i :: 0 <= i < |points| ==> b.distance <= To(points, k, query, i)
  {
    b := Best(false, INT_MAX, none);
    var stack := [NNTree(0, |points|, 0, box)];
    StartSearch(points, k, query, b, stack);
    while stack != []
      invariant Sound(points, k, query, b) && Covering(points, k, query, b, stack) && AllSearchable(points, k, stack)
      invariant forall j :: 0 <= j < |stack| ==> stack[j].left <= stack[j].right
      decreases NNWeight(stack)
    {
      b, stack := SearchStep(points, k, query, b, stack);
    }
    NothingLeft(points, k, query, b);
  }

  lemma {:induction false} Conclude<D>(points: seq<InputPoint<D>>, k: nat, query: seq<int>, b: Best<D>)
    requires Points(points, k) && |query| == k && Sound(points, k, query, b)
    requires forall i :: 0 <= i < |points| ==> b.distance <= To(points, k, query, i)
    ensures b.found <==> exists i :: 0 <= i < |points| && To(points, k, query, i) < INT_MAX
    ensures b.found ==> b.point in points && |b.point.coordinates| == k
    ensures b.found ==> forall p :: p in points && |p.coordinates| == k ==>
              Distance(b.point.coordinates, query, k) <= Distance(p.coordinates, query, k)
  {
    if b.found {
      var i :| 0 <= i < |points| && points[i] == b.point && To(points, k, query, i) == b.distance;
      forall p | p in points && |p.coordinates| == k
        ensures b.distance <= Distance(p.coordinates, query, k)
      {
        var j :| 0 <= j < |points| && points[j] == p;
        assert b.distance <= To(points, k, query, j);
      }
    }
  }

  /** One turn of the search: the top range is skipped, scanned, or halved with the nearer half on top. */
  method SearchStep<D>(points: seq<InputPoint<D>>, k: nat, query: seq<int>, b0: Best<D>, stack0: seq<NNTree>)
      returns (b: Best<D>, stack: seq<NNTree>)
    requires Points(points, k) && |query| == k && stack0 != [] && forall j ::
               0 <= j < |stack0| ==> stack0[j].left <= stack0[j].right
    requires Sound(points, k, query, b0) && Covering(points, k, query, b0, stack0) && AllSearchable(points, k, stack0)
    ensures Sound(points, k, query, b) && Covering(points, k, query, b, stack) && AllSearchable(points, k, stack)
    ensures (forall j :: 0 <= j < |stack| ==> stack[j].left <= stack[j].right) && NNWeight(stack) < NNWeight(stack0)
  {
    var t := stack0[|stack0| - 1];
    assert Searchable(points, k, t);
    b, stack := b0, stack0[..|stack0| - 1];
    AllButTop(points, k, stack0);
    BoxPrunes(points, k, query, t);
    if Distance(query, Nearest(t.box, query), k) >= b.distance {
      CoverPop(points, k, query, b0, b, stack0, stack);
      return;
    }
    if t.right - t.left < BASESIZE {
      b := ScanRange(points, k, query, b, t.left, t.right);
      CoverPop(points, k, query, b0, b, stack0, stack);
      return;
    }
    var middle := Middle(t.left, t.right);
    b := Consider(points, k, query, b, middle);
    LeftSearchable(points, k, t);
    RightSearchable(points, k, t);
    var left, right := Left(points, k, t), Right(points, k, t);
    if query[t.dimension] >= points[middle].coordinates[t.dimension] {
      stack := PushHalves(points, k, query, b0, b, stack0, left, right);
    } else {
      stack := PushHalves(points, k, query, b0, b, stack0, right, left);
    }
  }

  lemma {:induction false} AllButTop<D>(points: seq<InputPoint<D>>, k: nat, stack: seq<NNTree>)
    requires Points(points, k) && stack != [] && AllSearchable(points, k, stack)
    ensures AllSearchable(points, k, stack[..|stack| - 1])
  {
    var rest := stack[..|stack| - 1];
    forall j | 0 <= j < |rest|
      ensures Searchable(points, k, rest[j])
    {
      assert Searchable(points, k, stack[j]);
    }
  }

  method PushHalves<D>(points: seq<InputPoint<D>>, k: nat, query: seq<int>, ghost b0: Best<D>, ghost b: Best<D>,
                       stack0: seq<NNTree>, second: NNTree, first: NNTree)
      returns (stack: seq<NNTree>)
    requires Points(points, k) && |query| == k && stack0 != [] && forall j ::
               0 <= j < |stack0| ==> stack0[j].left <= stack0[j].right
    requires Covering(points, k, query, b0, stack0) && AllSearchable(points, k, stack0) && b.distance <= b0.distance
    requires var t := stack0[|stack0| - 1];
             && t.left < t.right <= |points| && t.dimension < k && |t.box.min| == |t.box.max| == k
             && Searchable(points, k, first) && Searchable(points, k, second)
             && ((second == Left(points, k, t) && first == Right(points, k, t))
                 || (second == Right(points, k, t) && first == Left(points, k, t)))
             && b.distance <= To(points, k, query, Middle(t.left, t.right))
    ensures stack == stack0[..|stack0| - 1] + [second, first]
    ensures Covering(points, k, query, b, stack) && AllSearchable(points, k, stack)
    ensures (forall j :: 0 <= j < |stack| ==> stack[j].left <= stack[j].right) && NNWeight(stack) < NNWeight(stack0)
  {
    stack := stack0[..|stack0| - 1] + [second, first];
    ghost var n := |stack0| - 1;
    ghost var t := stack0[n];
    assert stack[n] == second && stack[n + 1] == first;
    forall i | t.left <= i < t.right && i < |points|
      ensures b.distance <= To(points, k, query, i) || InSome(stack, i)
    {
      if i != Middle(t.left, t.right) {
        assert (stack[n].left <= i < stack[n].right) || (stack[n + 1].left <= i < stack[n + 1].right);
      }
    }
    CoverPop(points, k, query, b0, b, stack0, stack);
    forall j | 0 <= j < |stack|
      ensures Searchable(points, k, stack[j])
    {
      if j < n {
        assert Searchable(points, k, stack0[j]);
      }
    }
    NNWeightStep(stack0, stack, second, first);
  }

  lemma {:induction false} StartSearch<D>(points: seq<InputPoint<D>>, k: nat, query: seq<int>, b: Best<D>,
                                          stack: seq<NNTree>)
    requires Points(points, k) && |query| == k && |stack| == 1 && stack[0].left == 0 && stack[0].right == |points|
    requires Searchable(points, k, stack[0])
    ensures Covering(points, k, query, b, stack) && AllSearchable(points, k, stack)
  {
    forall i | 0 <= i < |points|
      ensures InSome(stack, i)
    {
      assert stack[0].left <= i < stack[0].right;
    }
  }

  lemma {:induction false} NothingLeft<D>(points: seq<InputPoint<D>>, k: nat, query: seq<int>, b: Best<D>)
    requires Points(points, k) && |query| == k && Sound(points, k, query, b) && Covering(points, k, query, b, [])
    ensures forall i :: 0 <= i < |points| ==> b.distance <= To(points, k, query, i)
  {
    forall i | 0 <= i < |points|
      ensures b.distance <= To(points, k, query, i)
    {
      assert !InSome([], i);
    }
  }

  lemma {:induction false} StackStep(was: seq<Tree>, stack: seq<Tree>, t: Tree, first: Tree, second: Tree)
    requires was != [] && t == was[|was| - 1] && stack == was[..|was| - 1] + [first, second]
    ensures forall x :: x in was && x != t ==> x in stack
  {
    forall x | x in was && x != t
      ensures x in stack
    {
      var i :| 0 <= i < |was| && was[i] == x;
      assert stack[i] == x;
    }
  }

  lemma {:induction false} WeightStep(was: seq<Tree>, stack: seq<Tree>, first: Tree, second: Tree)
    requires was != [] && stack == was[..|was| - 1] + [first, second]
    requires (forall t :: t in was ==> t.left <= t.right) && (forall t :: t in stack ==> t.left <= t.right)
    requires first.right - first.left + second.right - second.left < was[|was| - 1].right - was[|was| - 1].left
    ensures Weight(stack) < Weight(was)
  {
    var rest := was[..|was| - 1];
    assert stack[..|stack| - 1] == rest + [first] && (rest + [first])[..|rest|] == rest;
    assert was[|was| - 1] in was && first in stack && second in stack;
  }

  /** A small range needs no more work. */
  lemma {:induction false} BuiltDrop<D>(points: seq<InputPoint<D>>, k: nat, left: nat, right: nat, d: nat,
                                        stack: seq<Tree>, stack': seq<Tree>, t: Tree)
    requires Points(points, k) && d < k && left <= right <= |points| && Built(points, k, left, right, d, stack)
    requires t.right - t.left < BASESIZE && stack != [] && t == stack[|stack| - 1] && stack' == stack[..|stack| - 1]
    ensures Built(points, k, left, right, d, stack')
    decreases right - left
  {
    if right - left >= BASESIZE {
      if Tree(left, right, d) in stack {
        var i :| 0 <= i < |stack| && stack[i] == Tree(left, right, d);
        assert stack'[i] == Tree(left, right, d);
      } else {
        BuiltDrop(points, k, left, Middle(left, right), Next(d, k), stack, stack', t);
        BuiltDrop(points, k, Middle(left, right) + 1, right, Next(d, k), stack, stack', t);
      }
    }
  }
}
