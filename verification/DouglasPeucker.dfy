/** Douglas-Peucker simplification (algorithms/douglas_peucker.cpp): a stack of ranges, each split at its
    farthest point until every dropped point is near enough. */
module DouglasPeucker {

  /** The distance of a point from the pair of borders, and the largest that may be dropped. */
  datatype Measure<!L> = Measure(distance: (L, L, L) -> int, threshold: nat)

  ghost function Off<L>(m: Measure<L>, s: seq<L>, l: nat, r: nat, i: nat): int
    requires l < |s| && r < |s| && i < |s|
  {
    m.distance(s[l], s[r], s[i])
  }

  /** The first of the farthest points strictly between l and i that exceed the threshold, or r. */
  ghost function Farthest<L>(m: Measure<L>, s: seq<L>, l: nat, r: nat, i: nat): (f: nat)
    requires l < i <= r < |s|
    ensures f == r || l < f < i
    decreases i
  {
    if i == l + 1 then r
    else
      var f := Farthest(m, s, l, r, i - 1);
      if Off(m, s, l, r, i - 1) > Height(m, s, l, r, f) && Off(m, s, l, r, i - 1) > m.threshold then i - 1 else f
  }

  /** How far a point found so far is off; nothing found counts as zero. */
  ghost function Height<L>(m: Measure<L>, s: seq<L>, l: nat, r: nat, f: nat): int
    requires l < |s| && r < |s| && f < |s|
  {
    if f == r then 0 else Off(m, s, l, r, f)
  }

  /** A found point exceeds the threshold and no other is farther; without one, none exceeds it. */
  lemma {:induction false} FarthestIsFarthest<L>(m: Measure<L>, s: seq<L>, l: nat, r: nat, i: nat)
    requires l < i <= r < |s|
    ensures var f := Farthest(m, s, l, r, i);
            if f == r then forall k :: l < k < i ==> Off(m, s, l, r, k) <= m.threshold
            else Off(m, s, l, r, f) > m.threshold && forall k :: l < k < i ==> Off(m, s, l, r, k) <= Off(m, s, l, r, f)
    decreases i
  {
    if i > l + 1 {
      FarthestIsFarthest(m, s, l, r, i - 1);
    }
  }

  /** Among the points strictly between l and r, k is the first of the farthest, and too far to be dropped. */
  ghost predicate Peak<L>(m: Measure<L>, s: seq<L>, l: nat, r: nat, k: nat)
    requires l < k < r < |s|
  {
    && Off(m, s, l, r, k) > m.threshold
    && (forall j :: l < j < k ==> Off(m, s, l, r, j) < Off(m, s, l, r, k))
    && (forall j :: k < j < r ==> Off(m, s, l, r, j) <= Off(m, s, l, r, k))
  }

  lemma {:induction false} FarthestIsPeak<L>(m: Measure<L>, s: seq<L>, l: nat, r: nat, i: nat)
    requires l < i <= r < |s|
    ensures var f := Farthest(m, s, l, r, i);
            f != r ==> forall j :: l < j < f ==> Off(m, s, l, r, j) < Off(m, s, l, r, f)
    decreases i
  {
    if i > l + 1 {
      FarthestIsPeak(m, s, l, r, i - 1);
      FarthestIsFarthest(m, s, l, r, i - 1);
    }
  }

  /** The points strictly between l and r that are kept, by plain recursion. */
  ghost function Keep<L>(m: Measure<L>, s: seq<L>, l: nat, r: nat): set<nat>
    requires l < r < |s|
    decreases r - l
  {
    var f := Farthest(m, s, l, r, r);
    if f == r then {} else {f} + Keep(m, s, l, f) + Keep(m, s, f, r)
  }

  lemma {:induction false} KeepInside<L>(m: Measure<L>, s: seq<L>, l: nat, r: nat)
    requires l < r < |s|
    ensures forall k :: k in Keep(m, s, l, r) ==> l < k < r
    decreases r - l
  {
    var f := Farthest(m, s, l, r, r);
    if f != r {
      KeepInside(m, s, l, f);
      KeepInside(m, s, f, r);
    }
  }

  // ----- what simplification promises -----------------------------------------------------

  /** a and b are kept, and nothing between them is. */
  ghost predicate Consecutive(kept: set<nat>, a: nat, b: nat) {
    a < b && a in kept && b in kept && forall k :: a < k < b ==> k !in kept
  }

  ghost predicate Near<L>(m: Measure<L>, s: seq<L>, a: nat, b: nat)
    requires a < |s| && b < |s|
  {
    forall k :: a < k < b ==> Off(m, s, a, b, k) <= m.threshold
  }

  /** Every dropped point is within the threshold of the kept points around it. */
  ghost predicate Simplified<L>(m: Measure<L>, s: seq<L>, kept: set<nat>) {
    && (forall k :: k in kept ==> k < |s|)
    && forall a: nat, b: nat :: Consecutive(kept, a, b) ==> Near(m, s, a, b)
  }

  /** Within one range, recursion leaves only near points out. */
  lemma {:induction false} KeepIsNear<L>(m: Measure<L>, s: seq<L>, l: nat, r: nat, a: nat, b: nat)
    requires l < r < |s| && Consecutive(Keep(m, s, l, r) + {l, r}, a, b)
    ensures a < |s| && b < |s| && Near(m, s, a, b)
    decreases r - l
  {
    var f := Farthest(m, s, l, r, r);
    FarthestIsFarthest(m, s, l, r, r);
    KeepInside(m, s, l, r);
    if f != r {
      KeepInside(m, s, l, f);
      KeepInside(m, s, f, r);
      var kept, left, right := Keep(m, s, l, r) + {l, r}, Keep(m, s, l, f), Keep(m, s, f, r);
      assert kept == {f} + left + right + {l, r};
      assert f in kept;
      if b <= f {
        assert Consecutive(Keep(m, s, l, f) + {l, f}, a, b);
        KeepIsNear(m, s, l, f, a, b);
      } else {
        assert Consecutive(Keep(m, s, f, r) + {f, r}, a, b);
        KeepIsNear(m, s, f, r, a, b);
      }
    }
  }

  /** k could not be dropped between two other kept points: it is the one that splits their range. */
  ghost predicate Needed<L>(m: Measure<L>, s: seq<L>, kept: set<nat>, k: nat) {
    exists l: nat, r: nat :: l in kept && r in kept && l < k < r < |s| && Peak(m, s, l, r, k)
  }

  /** Within one range, recursion keeps only needed points. */
  lemma {:induction false} KeepIsNeeded<L>(m: Measure<L>, s: seq<L>, l: nat, r: nat, k: nat)
    requires l < r < |s| && k in Keep(m, s, l, r)
    ensures Needed(m, s, Keep(m, s, l, r) + {l, r}, k)
    decreases r - l
  {
    var f := Farthest(m, s, l, r, r);
    if k == f {
      FarthestIsFarthest(m, s, l, r, r);
      FarthestIsPeak(m, s, l, r, r);
      assert Peak(m, s, l, r, k);
    } else {
      var a, b := if k in Keep(m, s, l, f) then l else f, if k in Keep(m, s, l, f) then f else r;
      KeepIsNeeded(m, s, a, b, k);
      NeededMore(m, s, Keep(m, s, a, b) + {a, b}, Keep(m, s, l, r) + {l, r}, k);
    }
  }

  lemma {:induction false} NeededMore<L>(m: Measure<L>, s: seq<L>, kept: set<nat>, more: set<nat>, k: nat)
    requires Needed(m, s, kept, k) && kept <= more
    ensures Needed(m, s, more, k)
  {
    var l: nat, r: nat :| l in kept && r in kept && l < k < r < |s| && Peak(m, s, l, r, k);
    assert l in more && r in more;
  }

  /** A range without a far point keeps nothing. */
  lemma {:induction false} NearKeepsNothing<L>(m: Measure<L>, s: seq<L>, l: nat, r: nat)
    requires l < r < |s|
    ensures Near(m, s, l, r) <==> Keep(m, s, l, r) == {}
  {
    FarthestIsFarthest(m, s, l, r, r);
  }

  // ----- what a run keeps, as a set -----------------------------------------------------------

  /** k is kept when a run starts from the points in `kept`. */
  ghost predicate Chosen<L>(m: Measure<L>, s: seq<L>, kept: set<nat>, k: nat) {
    k in kept || exists a: nat, b: nat :: Consecutive(kept, a, b) && b < |s| && k in Keep(m, s, a, b)
  }

  ghost function Result<L>(m: Measure<L>, s: seq<L>, kept: set<nat>): set<nat> {
    set k | 0 <= k < |s| && Chosen(m, s, kept, k)
  }

  ghost predicate Bordered<L>(s: seq<L>, kept: set<nat>) {
    |s| >= 2 && 0 in kept && |s| - 1 in kept && forall k :: k in kept ==> k < |s|
  }

  /** The kept points around a place. */
  lemma {:induction false} Around(kept: set<nat>, n: nat, a: nat, b: nat) returns (l: nat, r: nat)
    requires n >= 2 && 0 in kept && n - 1 in kept && (forall k :: k in kept ==> k < n) && a < b < n
    requires forall k :: a < k < b ==> k !in kept
    ensures Consecutive(kept, l, r) && l <= a && b <= r
  {
    l, r := a, b;
    while l !in kept
      invariant 0 <= l <= a && forall k :: l < k < b ==> k !in kept
      decreases l
    {
      l := l - 1;
    }
    while r !in kept
      invariant b <= r < n && forall k :: l < k < r ==> k !in kept
      decreases n - r
    {
      r := r + 1;
    }
  }

  /** The result is simplified: every dropped point is near enough. */
  lemma {:induction false} ResultSimplified<L>(m: Measure<L>, s: seq<L>, kept: set<nat>)
    requires Bordered(s, kept)
    ensures Simplified(m, s, Result(m, s, kept))
  {
    var all := Result(m, s, kept);
    forall k | k in kept
      ensures k in all
    {
      assert Chosen(m, s, kept, k);
    }
    forall a: nat, b: nat | Consecutive(all, a, b)
      ensures Near(m, s, a, b)
    {
      var l, r := Around(kept, |s|, a, b);
      InRange(m, s, kept, l, r, a);
      InRange(m, s, kept, l, r, b);
      forall k | a < k < b
        ensures k !in Keep(m, s, l, r) + {l, r}
      {
        InRange(m, s, kept, l, r, k);
      }
      KeepIsNear(m, s, l, r, a, b);
    }
  }

  /** Nothing is kept without need, apart from what was kept from the start. */
  lemma {:induction false} ResultNeeded<L>(m: Measure<L>, s: seq<L>, kept: set<nat>, k: nat)
    requires k in Result(m, s, kept) - kept
    ensures Needed(m, s, Result(m, s, kept), k)
  {
    var a: nat, b: nat :| Consecutive(kept, a, b) && b < |s| && k in Keep(m, s, a, b);
    KeepIsNeeded(m, s, a, b, k);
    forall j | j in Keep(m, s, a, b) + {a, b}
      ensures j in Result(m, s, kept)
    {
      KeepInside(m, s, a, b);
      InRange(m, s, kept, a, b, j);
    }
    NeededMore(m, s, Keep(m, s, a, b) + {a, b}, Result(m, s, kept), k);
  }

  /** Between consecutive kept points, the result is what recursion keeps there. */
  lemma {:induction false} InRange<L>(m: Measure<L>, s: seq<L>, kept: set<nat>, l: nat, r: nat, k: nat)
    requires Consecutive(kept, l, r) && r < |s| && l <= k <= r
    ensures k in Result(m, s, kept) <==> k in Keep(m, s, l, r) + {l, r}
  {
    if k in Result(m, s, kept) && k !in kept {
      var a: nat, b: nat :| Consecutive(kept, a, b) && b < |s| && k in Keep(m, s, a, b);
      KeepInside(m, s, a, b);
      assert a == l && b == r;
    }
    if k in Keep(m, s, l, r) {
      assert Chosen(m, s, kept, k);
    }
    assert k in kept ==> k == l || k == r;
    assert (k == l || k == r) ==> Chosen(m, s, kept, k);
  }

  /** A second run marks nothing new. */
  lemma {:induction false} SecondRun<L>(m: Measure<L>, s: seq<L>, kept: set<nat>)
    requires Simplified(m, s, kept)
    ensures Result(m, s, kept) == kept
  {
    forall k | 0 <= k < |s|
      ensures Chosen(m, s, kept, k) <==> k in kept
    {
      if k !in kept && Chosen(m, s, kept, k) {
        var a: nat, b: nat :| Consecutive(kept, a, b) && b < |s| && k in Keep(m, s, a, b);
        NearKeepsNothing(m, s, a, b);
      }
    }
  }

  // ----- the run -----------------------------------------------------------------------------

  ghost function Kept(necessary: seq<bool>): set<nat> {
    set k | 0 <= k < |necessary| && necessary[k]
  }

  datatype Range = Range(first: nat, second: nat)

  ghost predicate RangesOk<L>(s: seq<L>, stack: seq<Range>) {
    forall j :: 0 <= j < |stack| ==> stack[j].first < stack[j].second < |s|
  }

  /** The points that the ranges on the stack will still add. */
  ghost function Pending<L>(m: Measure<L>, s: seq<L>, stack: seq<Range>): set<nat>
    requires RangesOk(s, stack)
  {
    if stack == [] then {}
    else Pending(m, s, stack[..|stack| - 1]) + Keep(m, s, stack[|stack| - 1].first, stack[|stack| - 1].second)
  }

  lemma {:induction false} PendingPush<L>(m: Measure<L>, s: seq<L>, stack: seq<Range>, r: Range)
    requires RangesOk(s, stack) && r.first < r.second < |s|
    ensures RangesOk(s, stack + [r])
            && Pending(m, s, stack + [r]) == Pending(m, s, stack) + Keep(m, s, r.first, r.second)
  {
    assert (stack + [r])[..|stack|] == stack;
  }

  /** The inner sweep: the farthest point that exceeds the threshold. */
  method FindFarthest<L>(m: Measure<L>, s: seq<L>, l: nat, r: nat) returns (f: nat, max: int)
    requires l < r < |s|
    ensures f == Farthest(m, s, l, r, r) && max == Height(m, s, l, r, f)
  {
    max, f := 0, r;
    for i := l + 1 to r
      invariant f == Farthest(m, s, l, r, i) && max == Height(m, s, l, r, f)
    {
      var distance := m.distance(s[l], s[r], s[i]);
      if distance > max && distance > m.threshold {
        f, max := i, distance;
      }
    }
  }

  /** The sweep that collects the ranges between points kept from the start. */
  method CollectRanges<L>(m: Measure<L>, s: seq<L>, necessary: seq<bool>) returns (stack: seq<Range>)
    requires |necessary| == |s| && Bordered(s, Kept(necessary))
    ensures RangesOk(s, stack) && Kept(necessary) + Pending(m, s, stack) == Result(m, s, Kept(necessary))
  {
    stack := [];
    var left, right := 0, 1;
    ghost var kept := Kept(necessary);
    while right != |s|
      invariant 0 <= left < right <= |s| && left in kept && forall k :: left < k < right ==> k !in kept
      invariant right == |s| ==> left == |s| - 1
      invariant RangesOk(s, stack) && Pending(m, s, stack) == Before(m, s, kept, left)
      decreases |s| - right
    {
      if necessary[right] {
        PendingPush(m, s, stack, Range(left, right));
        BeforeStep(m, s, kept, left, right);
        stack := stack + [Range(left, right)];
        left := right;
      }
      right := right + 1;
    }
    BeforeAll(m, s, kept);
  }

  /** What recursion keeps in the ranges that end at or before `left`. */
  ghost function Before<L>(m: Measure<L>, s: seq<L>, kept: set<nat>, left: nat): set<nat> {
    set k | 0 <= k < |s| && ChosenBefore(m, s, kept, left, k)
  }

  ghost predicate ChosenBefore<L>(m: Measure<L>, s: seq<L>, kept: set<nat>, left: nat, k: nat) {
    exists a: nat, b: nat :: Consecutive(kept, a, b) && b <= left && b < |s| && k in Keep(m, s, a, b)
  }

  lemma {:induction false} BeforeStep<L>(m: Measure<L>, s: seq<L>, kept: set<nat>, left: nat, right: nat)
    requires Consecutive(kept, left, right) && right < |s|
    ensures Before(m, s, kept, right) == Before(m, s, kept, left) + Keep(m, s, left, right)
  {
    KeepInside(m, s, left, right);
    forall k | 0 <= k < |s|
      ensures ChosenBefore(m, s, kept, right, k) <==> ChosenBefore(m, s, kept, left, k) || k in Keep(m, s, left, right)
    {
      if ChosenBefore(m, s, kept, right, k) {
        var a: nat, b: nat :| Consecutive(kept, a, b) && b <= right && b < |s| && k in Keep(m, s, a, b);
        assert b <= left || (a == left && b == right);
      }
      if ChosenBefore(m, s, kept, left, k) {
        var a: nat, b: nat :| Consecutive(kept, a, b) && b <= left && b < |s| && k in Keep(m, s, a, b);
        assert b <= right;
      }
    }
  }

  lemma {:induction false} BeforeAll<L>(m: Measure<L>, s: seq<L>, kept: set<nat>)
    requires Bordered(s, kept)
    ensures kept + Before(m, s, kept, |s| - 1) == Result(m, s, kept)
  {
    forall k | 0 <= k < |s|
      ensures Chosen(m, s, kept, k) <==> k in kept || ChosenBefore(m, s, kept, |s| - 1, k)
    {
      if Chosen(m, s, kept, k) && k !in kept {
        var a: nat, b: nat :| Consecutive(kept, a, b) && b < |s| && k in Keep(m, s, a, b);
        assert b <= |s| - 1;
      }
    }
  }

  function Size(stack: seq<Range>): nat {
    if stack == [] then 0
    else
      var r := stack[|stack| - 1];
      Size(stack[..|stack| - 1]) + if r.first < r.second then 2 * (r.second - r.first) - 1 else 1
  }

  lemma {:induction false} SizePush(stack: seq<Range>, r: Range)
    ensures Size(stack + [r]) == Size(stack) + if r.first < r.second then 2 * (r.second - r.first) - 1 else 1
  {
    assert (stack + [r])[..|stack|] == stack;
  }

  /** Run: the flags end up on exactly the points that recursion keeps. */
  method Run<L>(m: Measure<L>, s: seq<L>, necessary: array<bool>)
    requires necessary.Length == |s|
    modifies necessary
    ensures |s| < 2 ==> necessary[..] == old(necessary[..])
    ensures |s| >= 2 ==> Kept(necessary[..]) == Result(m, s, old(Kept(necessary[..])) + {0, |s| - 1})
    ensures |s| >= 2 ==>
              && Simplified(m, s, Kept(necessary[..]))
              && old(Kept(necessary[..])) + {0, |s| - 1} <= Kept(necessary[..])
              && forall k :: k in Kept(necessary[..]) - old(Kept(necessary[..])) - {0, |s| - 1} ==>
                   Needed(m, s, Kept(necessary[..]), k)
  {
    var n := necessary.Length;
    if n < 2 {
      return;
    }
    ghost var before := Kept(necessary[..]);
    necessary[0] := true;
    necessary[n - 1] := true;
    ghost var kept := Kept(necessary[..]);
    assert kept == before + {0, n - 1};
    var stack := CollectRanges(m, s, necessary[..]);
    while stack != []
      invariant RangesOk(s, stack) && Kept(necessary[..]) + Pending(m, s, stack) == Result(m, s, kept)
      decreases Size(stack)
    {
      stack := SplitRange(m, s, necessary, stack);
    }
    ResultSimplified(m, s, kept);
    forall k | k in kept
      ensures k in Result(m, s, kept)
    {
      assert Chosen(m, s, kept, k);
    }
    forall k | k in Result(m, s, kept) - kept
      ensures Needed(m, s, Result(m, s, kept), k)
    {
      ResultNeeded(m, s, kept, k);
    }
  }

  /** One turn of the divide and conquer. */
  method SplitRange<L>(m: Measure<L>, s: seq<L>, necessary: array<bool>, stack0: seq<Range>) returns (stack: seq<Range>)
    requires necessary.Length == |s| && stack0 != [] && RangesOk(s, stack0)
    modifies necessary
    ensures RangesOk(s, stack) && Size(stack) < Size(stack0)
    ensures Kept(necessary[..]) + Pending(m, s, stack) == old(Kept(necessary[..])) + Pending(m, s, stack0)
  {
    var pair := stack0[|stack0| - 1];
    stack := stack0[..|stack0| - 1];
    ghost var was := Kept(necessary[..]);
    var f, max := FindFarthest(m, s, pair.first, pair.second);
    FarthestIsFarthest(m, s, pair.first, pair.second, pair.second);
    if max > m.threshold {
      necessary[f] := true;
      assert Kept(necessary[..]) == was + {f};
      stack := PushRange(m, s, stack, pair.first, f);
      stack := PushRange(m, s, stack, f, pair.second);
    }
  }

  /** Ranges without points inside are not worth a turn. */
  method PushRange<L>(m: Measure<L>, s: seq<L>, stack0: seq<Range>, l: nat, r: nat) returns (stack: seq<Range>)
    requires RangesOk(s, stack0) && l < r < |s|
    ensures RangesOk(s, stack) && Pending(m, s, stack) == Pending(m, s, stack0) + Keep(m, s, l, r)
    ensures Size(stack) <= Size(stack0) + 2 * (r - l) - 1
  {
    stack := stack0;
    AdjacentKeepsNothing(m, s, l, r);
    if 1 < r - l {
      PendingPush(m, s, stack, Range(l, r));
      SizePush(stack, Range(l, r));
      stack := stack + [Range(l, r)];
    }
  }

  lemma {:induction false} AdjacentKeepsNothing<L>(m: Measure<L>, s: seq<L>, l: nat, r: nat)
    requires l < r < |s|
    ensures r == l + 1 ==> Keep(m, s, l, r) == {}
  {
  }
}
