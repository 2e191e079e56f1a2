/** Preparing the contractor's input (contractor/contractor.hpp, Contractor constructor):
    both directions of every edge, sorted, without loops and parallel edges. */
module EdgeMerging {
  import opened Basics
  import opened Walks
  import opened ContractionTheory
  import opened DynamicGraphs
  import opened ContractorEdges

  datatype EdgeBasedEdge = EdgeBasedEdge(source: nat, target: nat, edgeId: nat, weight: int, forward: bool,
                                         backward: bool)

  /** An input edge allows this arc. Loops, and weights that do not fit an int, do not count. */
  ghost predicate Allows(e: EdgeBasedEdge, a: Arc) {
    && e.source != e.target && a.w == Max(e.weight, 1) < INT_MAX
    && ((e.forward && a.src == e.source && a.dst == e.target) || (e.backward && a.src == e.target && a.dst == e.source))
  }

  /** The plain graph: what routes are measured against. */
  ghost function InputArcs(input: seq<EdgeBasedEdge>): iset<Arc> {
    iset a: Arc | AllowedBy(input, a)
  }

  ghost predicate AllowedBy(input: seq<EdgeBasedEdge>, a: Arc) {
    exists e :: e in input && Allows(e, a)
  }

  // ----- sorting -----------------------------------------------------------

  predicate Before<T>(a: InputEdge<T>, b: InputEdge<T>) {
    a.source < b.source || (a.source == b.source && a.target <= b.target)
  }

  ghost predicate Sorted<T>(s: seq<InputEdge<T>>) {
    forall i, j :: 0 <= i < j < |s| ==> Before(s[i], s[j])
  }

  /** Stands for tbb::parallel_sort: callers see a sorted permutation and nothing else. */
  method SortEdges<T>(s: seq<InputEdge<T>>) returns (r: seq<InputEdge<T>>)
    ensures multiset(r) == multiset(s) && Sorted(r)
  {
    r := [];
    for i := 0 to |s|
      invariant Sorted(r) && multiset(r) == multiset(s[..i])
    {
      var k := |r|;
      while k > 0 && !Before(r[k - 1], s[i])
        invariant 0 <= k <= |r|
        invariant forall j :: k <= j < |r| ==> Before(s[i], r[j])
      {
        k := k - 1;
      }
      InsertSorted(r, k, s[i]);
      r := Inserted(r, k, s[i]);
      assert s[..i + 1] == s[..i] + [s[i]];
    }
    assert s[..|s|] == s;
  }

  function Inserted<T>(r: seq<InputEdge<T>>, k: nat, x: InputEdge<T>): (s: seq<InputEdge<T>>)
    requires k <= |r|
    ensures |s| == |r| + 1
    ensures forall i {:trigger s[i]} :: 0 <= i < |s| ==> s[i] == if i < k then r[i] else if i == k then x else r[i - 1]
    ensures multiset(s) == multiset(r) + multiset{x}
  {
    assert r == r[..k] + r[k..];
    r[..k] + [x] + r[k..]
  }

  lemma {:induction false} InsertSorted<T>(r: seq<InputEdge<T>>, k: nat, x: InputEdge<T>)
    requires k <= |r| && Sorted(r) && (k > 0 ==> Before(r[k - 1], x)) && forall j :: k <= j < |r| ==> Before(x, r[j])
    ensures Sorted(Inserted(r, k, x))
  {
    assert forall j :: 0 <= j < k - 1 ==> Before(r[j], r[k - 1]);
  }

  lemma {:induction false} SortedSources<T>(s: seq<InputEdge<T>>)
    requires Sorted(s)
    ensures SortedBySource(s)
  {
    assert forall i, j :: 0 <= i < j < |s| ==> Before(s[i], s[j]);
  }

  lemma {:induction false} SameMembers<T>(a: seq<T>, b: seq<T>)
    requires multiset(a) == multiset(b)
    ensures forall x :: x in a <==> x in b
  {
    forall x
      ensures x in a <==> x in b
    {
      assert x in multiset(a) <==> x in a;
      assert x in multiset(b) <==> x in b;
    }
  }

  // ----- both directions ---------------------------------------------------

  function There(e: EdgeBasedEdge): CInput {
    InputEdge(e.source, e.target, EdgeData(Max(e.weight, 1), e.edgeId, false, e.forward, e.backward, false))
  }

  function Back(e: EdgeBasedEdge): CInput {
    InputEdge(e.target, e.source, EdgeData(Max(e.weight, 1), e.edgeId, false, e.backward, e.forward, false))
  }

  method BothDirections(input: seq<EdgeBasedEdge>) returns (edges: seq<CInput>)
    ensures forall x :: x in edges <==> exists e :: e in input && (x == There(e) || x == Back(e))
    ensures |edges| == 2 * |input|
  {
    edges := [];
    for i := 0 to |input|
      invariant |edges| == 2 * i
      invariant forall x :: x in edges <==> exists k :: 0 <= k < i && (x == There(input[k]) || x == Back(input[k]))
    {
      edges := edges + [There(input[i])];
      edges := edges + [Back(input[i])];
    }
    forall x
      ensures x in edges <==> exists e :: e in input && (x == There(e) || x == Back(e))
    {
      if e :| e in input && (x == There(e) || x == Back(e)) {
        var k :| 0 <= k < |input| && input[k] == e;
      }
    }
  }

  // ----- parallel edges ----------------------------------------------------

  predicate SamePair(a: CInput, b: CInput) {
    a.source == b.source && a.target == b.target
  }

  /** `d` is the smallest distance below INT_MAX among the entries of a range with the given
      flag, or INT_MAX if there is none. */
  ghost predicate SmallestForward(edges: seq<CInput>, lo: nat, hi: nat, d: int)
    requires lo <= hi <= |edges|
  {
    && d <= INT_MAX
    && (forall k :: lo <= k < hi && edges[k].data.forward ==> d <= edges[k].data.distance)
    && (d < INT_MAX ==> exists k :: lo <= k < hi && edges[k].data.forward && edges[k].data.distance == d)
  }

  ghost predicate SmallestBackward(edges: seq<CInput>, lo: nat, hi: nat, d: int)
    requires lo <= hi <= |edges|
  {
    && d <= INT_MAX
    && (forall k :: lo <= k < hi && edges[k].data.backward ==> d <= edges[k].data.distance)
    && (d < INT_MAX ==> exists k :: lo <= k < hi && edges[k].data.backward && edges[k].data.distance == d)
  }

  /** The run of entries with the same ends as the one at `start`, and its smallest distances. */
  method ScanParallel(ghost all: seq<CInput>, edges: seq<CInput>, start: nat)
      returns (i: nat, forward: int, backward: int)
    requires start < |edges| == |all| && forall k :: start <= k < |all| ==> edges[k] == all[k]
    ensures start < i <= |all|
    ensures forall k :: start <= k < i ==> SamePair(all[k], all[start])
    ensures i < |all| ==> !SamePair(all[i], all[start])
    ensures SmallestForward(all, start, i, forward) && SmallestBackward(all, start, i, backward)
    ensures i == start + 1 ==> forward == backward || forward == INT_MAX || backward == INT_MAX
  {
    i := start;
    forward := INT_MAX;
    backward := INT_MAX;
    while i < |edges| && SamePair(edges[i], edges[start])
      invariant start <= i <= |edges|
      invariant forall k :: start <= k < i ==> SamePair(all[k], all[start])
      invariant SmallestForward(all, start, i, forward) && SmallestBackward(all, start, i, backward)
      invariant i == start ==> forward == backward == INT_MAX
      invariant i == start + 1 ==> forward == backward || forward == INT_MAX || backward == INT_MAX
    {
      if edges[i].data.forward {
        forward := Min(edges[i].data.distance, forward);
      }
      if edges[i].data.backward {
        backward := Min(edges[i].data.distance, backward);
      }
      i := i + 1;
    }
  }

  /** A stored edge stands for entries of the doubled list. */
  ghost predicate Stands(all: seq<CInput>, e: CInput) {
    && e.source != e.target && e.data.distance < INT_MAX && (e.data.forward || e.data.backward)
    && !e.data.shortcut && !e.data.isOriginalViaNodeId
    && (e.data.forward ==> exists x ::
          x in all && SamePair(x, e) && x.data.forward && x.data.distance == e.data.distance)
    && (e.data.backward ==> exists x ::
          x in all && SamePair(x, e) && x.data.backward && x.data.distance == e.data.distance)
    && exists x :: x in all && SamePair(x, e) && x.data.id == e.data.id
  }

  /** An entry of the doubled list is offered by a stored edge, at no greater distance. */
  ghost predicate Offered(stored: seq<CInput>, x: CInput) {
    x.source != x.target && x.data.distance < INT_MAX ==>
      && (x.data.forward ==> exists e ::
            e in stored && SamePair(e, x) && e.data.forward && e.data.distance <= x.data.distance)
      && (x.data.backward ==> exists e ::
            e in stored && SamePair(e, x) && e.data.backward && e.data.distance <= x.data.distance)
  }

  /** The edges that replace one run of parallel entries. */
  function Merged(first: CInput, forward: int, backward: int): seq<CInput> {
    var there := InputEdge(first.source, first.target, EdgeData(forward, first.data.id, false, true, false, false));
    var back := InputEdge(first.source, first.target, EdgeData(backward, first.data.id, false, false, true, false));
    if forward == backward then
      if forward != INT_MAX then [there.(data := there.data.(backward := true))] else []
    else
      (if forward != INT_MAX then [there] else []) + (if backward != INT_MAX then [back] else [])
  }

  lemma {:induction false} MergedRun(edges: seq<CInput>, start: nat, i: nat, forward: int, backward: int)
    requires start < i <= |edges| && edges[start].source != edges[start].target
    requires forall k :: start <= k < i ==> SamePair(edges[k], edges[start])
    requires SmallestForward(edges, start, i, forward) && SmallestBackward(edges, start, i, backward)
    ensures forall e :: e in Merged(edges[start], forward, backward) ==> Stands(edges, e) && SamePair(e, edges[start])
    ensures forall k :: start <= k < i ==> Offered(Merged(edges[start], forward, backward), edges[k])
  {
    var m := Merged(edges[start], forward, backward);
    assert edges[start] in edges;
    if forward < INT_MAX {
      var e := m[0];
      assert e in m && e.data.forward && e.data.distance == forward;
    }
    if backward < INT_MAX {
      var e := m[|m| - 1];
      assert e in m && e.data.backward && e.data.distance == backward;
    }
  }

  lemma {:induction false} SortedAppend(kept: seq<CInput>, out: seq<CInput>, first: CInput)
    requires Sorted(kept) && (forall e :: e in kept ==> Before(e, first))
             && (forall e :: e in out ==> SamePair(e, first))
    ensures Sorted(kept + out)
  {
    var s := kept + out;
    forall i, j | 0 <= i < j < |s|
      ensures Before(s[i], s[j])
    {
      if i >= |kept| {
        assert s[i] in out && s[j] in out;
      } else if j >= |kept| {
        assert s[i] in kept && s[j] in out;
      }
    }
  }

  /** Two edges between the same nodes differ in length, and offer different directions. */
  ghost predicate NotParallel(a: CInput, b: CInput) {
    SamePair(a, b) ==>
      && a.data.distance != b.data.distance
      && !(a.data.forward && b.data.forward) && !(a.data.backward && b.data.backward)
  }

  ghost predicate WithoutParallels(s: seq<CInput>) {
    forall i, j :: 0 <= i < j < |s| ==> NotParallel(s[i], s[j])
  }

  lemma {:induction false} WithoutParallelsAppend(kept: seq<CInput>, first: CInput, forward: int, backward: int)
    requires WithoutParallels(kept) && forall e :: e in kept ==> !SamePair(e, first)
    ensures WithoutParallels(kept + Merged(first, forward, backward))
  {
    var out := Merged(first, forward, backward);
    var s := kept + out;
    forall i, j | 0 <= i < j < |s|
      ensures NotParallel(s[i], s[j])
    {
      if i < |kept| <= j {
        assert s[i] in kept && s[j] in out;
      }
    }
  }

  /** What was written for the first i entries. */
  ghost predicate Merging(all: seq<CInput>, kept: seq<CInput>, i: nat)
    requires i <= |all|
  {
    && Sorted(kept)
    && (forall e, k :: e in kept && i <= k < |all| ==> Before(e, all[k]) && !SamePair(e, all[k]))
    && (forall e :: e in kept ==> Stands(all, e))
    && (forall k :: 0 <= k < i ==> Offered(kept, all[k]))
    && WithoutParallels(kept)
  }

  lemma {:induction false} MergeStep(all: seq<CInput>, kept: seq<CInput>, start: nat, i: nat, forward: int,
                                     backward: int)
    requires Sorted(all) && start < i <= |all| && Merging(all, kept, start)
    requires all[start].source != all[start].target
    requires forall k :: start <= k < i ==> SamePair(all[k], all[start])
    requires i < |all| ==> !SamePair(all[i], all[start])
    requires SmallestForward(all, start, i, forward) && SmallestBackward(all, start, i, backward)
    ensures Merging(all, kept + Merged(all[start], forward, backward), i)
  {
    var out := Merged(all[start], forward, backward);
    MergedRun(all, start, i, forward, backward);
    SortedAppend(kept, out, all[start]);
    WithoutParallelsAppend(kept, all[start], forward, backward);
    forall k | 0 <= k < i
      ensures Offered(kept + out, all[k])
    {
      assert Offered(kept, all[k]) || Offered(out, all[k]);
    }
    forall e, k | e in kept + out && i <= k < |all|
      ensures Before(e, all[k]) && !SamePair(e, all[k])
    {
      assert Before(all[start], all[k]) && (k == i || Before(all[i], all[k]));
      assert Before(all[start], all[i]);
    }
  }

  /** The merging loop, writing into the list it reads: at most as many edges come out of a
      run as went in, so the write position never passes the read position. */
  method MergeParallel(all: seq<CInput>) returns (stored: seq<CInput>)
    requires Sorted(all)
    ensures Merging(all, stored, |all|)
  {
    var edges := all;
    var edge := 0;
    var i := 0;
    while i < |edges|
      invariant 0 <= edge <= i <= |edges| == |all|
      invariant forall k :: i <= k < |all| ==> edges[k] == all[k]
      invariant Merging(all, edges[..edge], i)
    {
      edges, edge, i := MergeRun(all, edges, edge, i);
    }
    stored := edges[..edge];
  }

  method MergeRun(ghost all: seq<CInput>, edges0: seq<CInput>, edge0: nat, i0: nat)
    returns (edges: seq<CInput>, edge: nat, i: nat)
    requires Sorted(all) && edge0 <= i0 < |all| == |edges0|
    requires forall k :: i0 <= k < |all| ==> edges0[k] == all[k]
    requires Merging(all, edges0[..edge0], i0)
    ensures edge <= i <= |all| == |edges| && i0 < i
    ensures forall k :: i <= k < |all| ==> edges[k] == all[k]
    ensures Merging(all, edges[..edge], i)
  {
    edges, edge, i := edges0, edge0, i0;
    var first := edges[i];
    if first.source == first.target {
      SkipLoop(all, edges[..edge], i);
      i := i + 1;
      return;
    }
    var forward, backward;
    i, forward, backward := ScanParallel(all, edges, i0);
    MergeStep(all, edges[..edge], i0, i, forward, backward);
    var out := Merged(first, forward, backward);
    assert edge + |out| <= i;
    edges := Overwrite(edges, edge, out, i);
    edge := edge + |out|;
  }

  lemma {:induction false} SkipLoop(all: seq<CInput>, kept: seq<CInput>, i: nat)
    requires i < |all| && Merging(all, kept, i) && all[i].source == all[i].target
    ensures Merging(all, kept, i + 1)
  {
  }

  /** Writing a few entries at the write position leaves everything from the read position on. */
  function Overwrite(edges: seq<CInput>, edge: nat, out: seq<CInput>, i: nat): (r: seq<CInput>)
    requires edge + |out| <= i <= |edges|
    ensures |r| == |edges| && r[..edge + |out|] == edges[..edge] + out
    ensures forall k :: i <= k < |edges| ==> r[k] == edges[k]
  {
    edges[..edge] + out + edges[edge + |out|..]
  }

  // ----- the whole preparation ---------------------------------------------

  /** The number of an input edge between these two nodes, in either direction. Of parallel edges, only one of the
      numbers is kept. */
  ghost predicate Numbered(input: seq<EdgeBasedEdge>, source: nat, target: nat, id: nat) {
    exists e :: e in input && e.edgeId == id
                && ((e.source == source && e.target == target) || (e.source == target && e.target == source))
  }

  /** A stored edge is an edge of the plain graph in every direction it offers, and has the number of one. */
  ghost predicate Proper(input: seq<EdgeBasedEdge>, e: CInput) {
    && e.source != e.target && e.data.distance >= 1 && (e.data.forward || e.data.backward)
    && !e.data.shortcut && !e.data.isOriginalViaNodeId
    && (e.data.forward ==> Arc(e.source, e.target, e.data.distance) in InputArcs(input))
    && (e.data.backward ==> Arc(e.target, e.source, e.data.distance) in InputArcs(input))
    && Numbered(input, e.source, e.target, e.data.id)
  }

  /** An arc of the plain graph is offered from both of its ends. */
  ghost predicate Represented(stored: seq<CInput>, a: Arc) {
    && (exists e :: e in stored && e.source == a.src && e.target == a.dst && e.data.forward && e.data.distance <= a.w)
    && (exists e :: e in stored && e.source == a.dst && e.target == a.src && e.data.backward && e.data.distance <= a.w)
  }

  ghost predicate Doubled(input: seq<EdgeBasedEdge>, all: seq<CInput>) {
    forall x :: x in all <==> exists e :: e in input && (x == There(e) || x == Back(e))
  }

  method PrepareEdges(input: seq<EdgeBasedEdge>) returns (stored: seq<CInput>)
    ensures Sorted(stored) && WithoutParallels(stored)
    ensures forall e {:trigger Proper(input, e)} :: e in stored ==> Proper(input, e)
    ensures forall a {:trigger Represented(stored, a)} :: a in InputArcs(input) ==> Represented(stored, a)
  {
    var edges := BothDirections(input);
    var all := SortEdges(edges);
    SameMembers(all, edges);
    assert Doubled(input, all);
    stored := MergeParallel(all);
    forall e | e in stored
      ensures Proper(input, e)
    {
      StandsIsProper(input, all, e);
    }
    forall a | a in InputArcs(input)
      ensures Represented(stored, a)
    {
      ArcIsRepresented(input, all, stored, a);
    }
  }

  lemma {:induction false} EntryIsArc(input: seq<EdgeBasedEdge>, all: seq<CInput>, x: CInput)
    requires Doubled(input, all) && x in all && x.source != x.target && x.data.distance < INT_MAX
    ensures x.data.distance >= 1
    ensures x.data.forward ==> Arc(x.source, x.target, x.data.distance) in InputArcs(input)
    ensures x.data.backward ==> Arc(x.target, x.source, x.data.distance) in InputArcs(input)
  {
    var e :| e in input && (x == There(e) || x == Back(e));
    if x.data.forward {
      assert Allows(e, Arc(x.source, x.target, x.data.distance));
    }
    if x.data.backward {
      assert Allows(e, Arc(x.target, x.source, x.data.distance));
    }
  }

  lemma {:induction false} StandsIsProper(input: seq<EdgeBasedEdge>, all: seq<CInput>, e: CInput)
    requires Doubled(input, all) && Stands(all, e)
    ensures Proper(input, e)
  {
    var first :| first in all && SamePair(first, e) && first.data.id == e.data.id;
    if e.data.forward {
      var x :| x in all && SamePair(x, e) && x.data.forward && x.data.distance == e.data.distance;
      EntryIsArc(input, all, x);
    }
    if e.data.backward {
      var x :| x in all && SamePair(x, e) && x.data.backward && x.data.distance == e.data.distance;
      EntryIsArc(input, all, x);
    }
  }

  lemma {:induction false} ArcIsRepresented(input: seq<EdgeBasedEdge>, all: seq<CInput>, stored: seq<CInput>, a: Arc)
    requires Doubled(input, all) && Merging(all, stored, |all|) && a in InputArcs(input)
    ensures Represented(stored, a)
  {
    var e :| e in input && Allows(e, a);
    assert There(e) in all && Back(e) in all;
    var k :| 0 <= k < |all| && all[k] == There(e);
    var l :| 0 <= l < |all| && all[l] == Back(e);
    assert Offered(stored, all[k]) && Offered(stored, all[l]);
  }
}
