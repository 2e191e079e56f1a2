/** Grouping of trip locations by strong connectivity (plugins/trip.hpp), over the graph that a
    distance table induces. */
module Trip {
  import opened Walks
  import opened TarjanScc

  /** INVALID_EDGE_WEIGHT: the target cannot be reached. */
  const INVALID: int := 0x7fff_ffff

  // ----- the graph of a distance table ---------------------------------------

  /** The distances from location u, out of the row-major table of n locations. */
  function Row(table: seq<int>, n: nat, u: nat): (row: seq<int>)
    requires |table| == n * n && u < n
    ensures |row| == n
  {
    RowFits(n, u);
    table[u * n..u * n + n]
  }

  lemma {:induction false} RowFits(n: nat, u: nat)
    requires u < n
    ensures 0 <= u * n && u * n + n <= n * n
  {
    assert (n - u - 1) * n >= 0;
  }

  /** The reachable targets among the first k of a row, in increasing order. */
  function Targets(row: seq<int>, k: nat): (r: seq<nat>)
    requires k <= |row|
    ensures forall y: nat :: y in r <==> y < k && row[y] != INVALID
  {
    if k == 0 then []
    else
      var r := Targets(row, k - 1);
      if row[k - 1] != INVALID then r + [k - 1] else r
  }

  /** The graph that MatrixGraphWrapper presents. */
  ghost function MatrixGraph(table: seq<int>, n: nat): (g: Graph)
    requires |table| == n * n
    ensures |g| == n
    ensures forall u, y: nat :: 0 <= u < n ==> (y in g[u] <==> y < n && Row(table, n, u)[y] != INVALID)
  {
    seq(n, u requires 0 <= u < n => Targets(Row(table, n, u), n))
  }

  method AdjacentEdgeRange(table: seq<int>, n: nat, node: nat) returns (edges: seq<nat>)
    requires |table| == n * n && node < n
    ensures edges == MatrixGraph(table, n)[node]
  {
    edges := [];
    RowFits(n, node);
    for i := 0 to n
      invariant edges == Targets(Row(table, n, node), i)
    {
      if table[node * n + i] != INVALID {
        edges := edges + [i];
      }
    }
  }

  // ----- counting sort by component ------------------------------------------

  /** Where the range of each component starts, and the end. */
  ghost predicate Prefixes(sizes: seq<nat>, range: seq<nat>) {
    && |range| == |sizes| + 1 && range[0] == 0
    && forall k :: 0 <= k < |sizes| ==> range[k + 1] == range[k] + sizes[k]
  }

  lemma {:induction false} PrefixIsSum(sizes: seq<nat>, range: seq<nat>, k: nat)
    requires Prefixes(sizes, range) && k <= |sizes|
    ensures range[k] == Sum(sizes[..k])
  {
    if k > 0 {
      PrefixIsSum(sizes, range, k - 1);
      assert sizes[..k][..k - 1] == sizes[..k - 1];
    }
  }

  lemma {:induction false} PrefixOrder(sizes: seq<nat>, range: seq<nat>, a: nat, b: nat)
    requires Prefixes(sizes, range) && a <= b <= |sizes|
    ensures range[a] <= range[b]
    decreases b - a
  {
    if a < b {
      PrefixOrder(sizes, range, a, b - 1);
    }
  }

  /** Every position lies in the range of some component. */
  lemma {:induction false} RangeOf(sizes: seq<nat>, range: seq<nat>, p: nat, m: nat) returns (k: nat)
    requires Prefixes(sizes, range) && m <= |sizes| && p < range[m]
    ensures k < m && range[k] <= p < range[k + 1]
  {
    if range[m - 1] <= p {
      k := m - 1;
    } else {
      k := RangeOf(sizes, range, p, m - 1);
    }
  }

  /** After i locations, the range of component c is filled up to next[c], in increasing order. */
  ghost predicate Filled(ids: seq<nat>, range: seq<nat>, next: seq<nat>, component: seq<nat>, i: nat, c: nat)
    requires |next| + 1 == |range| && c < |next| && i <= |ids|
  {
    && next[c] == range[c] + |Members(ids[..i], c)|
    && next[c] <= range[c + 1] <= |component| == |ids|
    && (forall p :: range[c] <= p < next[c] ==> component[p] < i && ids[component[p]] == c)
    && (forall p, q :: range[c] <= p < q < next[c] ==> component[p] < component[q])
  }

  ghost predicate Placed(range: seq<nat>, next: seq<nat>, component: seq<nat>, x: nat, c: nat)
    requires |next| + 1 == |range| && c < |next|
  {
    exists p :: range[c] <= p < next[c] && p < |component| && component[p] == x
  }

  ghost predicate Sorting(ids: seq<nat>, sizes: seq<nat>, range: seq<nat>, next: seq<nat>, component: seq<nat>,
                          i: nat) {
    && i <= |ids| == |component| && |next| == |sizes| && Prefixes(sizes, range)
    && (forall x :: 0 <= x < |ids| ==> ids[x] < |sizes|)
    && (forall c :: 0 <= c < |sizes| ==> Filled(ids, range, next, component, i, c))
    && (forall x :: 0 <= x < i ==> Placed(range, next, component, x, ids[x]))
  }

  /** There is room for one more location in the range of its component. */
  lemma {:induction false} Room(ids: seq<nat>, i: nat, c: nat)
    requires i < |ids| && c == ids[i]
    ensures |Members(ids[..i + 1], c)| == |Members(ids[..i], c)| + 1
    ensures |Members(ids[..i], c)| < |Members(ids, c)|
  {
    assert Members(ids[..i + 1], c) == Members(ids[..i], c) + {i};
    SubsetSize(Members(ids[..i + 1], c), Members(ids, c));
  }

  lemma {:induction false} PlaceStep(ids: seq<nat>, sizes: seq<nat>, range: seq<nat>, next: seq<nat>,
                                     component: seq<nat>, i: nat, d: nat)
    requires Sorting(ids, sizes, range, next, component, i) && i < |ids| && d < |sizes|
    requires forall k :: 0 <= k < |sizes| ==> sizes[k] == |Members(ids, k)|
    requires next[ids[i]] < range[ids[i] + 1] <= |component|
    ensures Filled(ids, range, next[ids[i] := next[ids[i]] + 1], component[next[ids[i]] := i], i + 1, d)
  {
    var c := ids[i];
    assert Filled(ids, range, next, component, i, c) && Filled(ids, range, next, component, i, d);
    if d == c {
      Room(ids, i, c);
    } else {
      assert Members(ids[..i + 1], d) == Members(ids[..i], d);
      if d < c {
        PrefixOrder(sizes, range, d + 1, c);
      } else {
        PrefixOrder(sizes, range, c + 1, d);
      }
    }
  }

  lemma {:induction false} PlaceAll(ids: seq<nat>, sizes: seq<nat>, range: seq<nat>, next: seq<nat>,
                                    component: seq<nat>, i: nat)
    requires Sorting(ids, sizes, range, next, component, i) && i < |ids|
    requires forall k :: 0 <= k < |sizes| ==> sizes[k] == |Members(ids, k)|
    ensures next[ids[i]] < range[ids[i] + 1] <= |component|
    ensures Sorting(ids, sizes, range, next[ids[i] := next[ids[i]] + 1], component[next[ids[i]] := i], i + 1)
  {
    var c := ids[i];
    assert Filled(ids, range, next, component, i, c);
    Room(ids, i, c);
    var next', component', i' := next[c := next[c] + 1], component[next[c] := i], i + 1;
    forall d | 0 <= d < |sizes|
      ensures Filled(ids, range, next', component', i', d)
    {
      PlaceStep(ids, sizes, range, next, component, i, d);
    }
    forall x | 0 <= x < i + 1
      ensures Placed(range, next', component', x, ids[x])
    {
      if x < i {
        KeepsPlace(ids, sizes, range, next, component, i, x);
      } else {
        assert component'[next[c]] == i;
      }
    }
  }

  lemma {:induction false} KeepsPlace(ids: seq<nat>, sizes: seq<nat>, range: seq<nat>, next: seq<nat>,
                                      component: seq<nat>, i: nat, x: nat)
    requires Sorting(ids, sizes, range, next, component, i) && x < i < |ids|
    requires next[ids[i]] < range[ids[i] + 1] <= |component|
    ensures Placed(range, next[ids[i] := next[ids[i]] + 1], component[next[ids[i]] := i], x, ids[x])
  {
    var c, d := ids[i], ids[x];
    assert Filled(ids, range, next, component, i, c) && Filled(ids, range, next, component, i, d);
    assert Placed(range, next, component, x, d);
    var p :| range[d] <= p < next[d] && p < |component| && component[p] == x;
    if d < c {
      PrefixOrder(sizes, range, d + 1, c);
    } else if c < d {
      PrefixOrder(sizes, range, c + 1, d);
    }
    assert component[next[c] := i][p] == x;
  }

  // ----- the grouping ----------------------------------------------------------

  /** SCC_Component: the locations ordered by component, and where each component starts. */
  datatype SccComponent = SccComponent(component: seq<nat>, range: seq<nat>)

  ghost predicate InRange(s: SccComponent, k: nat, p: nat)
    requires k + 1 < |s.range|
  {
    s.range[k] <= p < s.range[k + 1]
  }

  /** The locations are permuted so that the ranges are the classes of mutual reachability. */
  ghost predicate Grouped(g: Graph, s: SccComponent) {
    && |s.component| == |g| && |s.range| > 0
    && s.range[0] == 0 && s.range[|s.range| - 1] == |g|
    && (forall k :: 0 <= k < |s.range| - 1 ==> s.range[k] < s.range[k + 1])
    && (forall p :: 0 <= p < |g| ==> s.component[p] < |g|)
    && (forall x: nat :: x < |g| ==> x in s.component)
    && (forall p, q :: 0 <= p < q < |g| ==> s.component[p] != s.component[q])
    && (forall k, p, q :: 0 <= k < |s.range| - 1 && 0 <= p < |g| && 0 <= q < |g| && InRange(s, k, p) ==>
          (InRange(s, k, q) <==> Connected(g, s.component[p], s.component[q])))
    && (forall k, p, q :: 0 <= k < |s.range| - 1 && 0 <= p < q < |g| && InRange(s, k, p) && InRange(s, k, q) ==>
          s.component[p] < s.component[q])
  }

  /** At the end of the sort a position lies in the range of the component of its location. */
  lemma {:induction false} SortedPosition(g: Graph, ids: seq<nat>, sizes: seq<nat>, range: seq<nat>, next: seq<nat>,
                                          component: seq<nat>, p: nat)
      returns (k: nat)
    requires Solved(g, ids, sizes) && Sorting(ids, sizes, range, next, component, |ids|) && p < |g|
    ensures k < |sizes| && range[k] <= p < range[k + 1] && next[k] == range[k + 1]
    ensures component[p] < |g| && ids[component[p]] == k
  {
    SizesSum(g, ids, sizes);
    PrefixIsSum(sizes, range, |sizes|);
    assert sizes[..|sizes|] == sizes && ids[..|ids|] == ids;
    k := RangeOf(sizes, range, p, |sizes|);
    assert Filled(ids, range, next, component, |ids|, k);
  }

  lemma {:induction false} RangesApart(sizes: seq<nat>, range: seq<nat>, a: nat, b: nat, p: nat)
    requires Prefixes(sizes, range) && a < |sizes| && b < |sizes|
    requires range[a] <= p < range[a + 1] && range[b] <= p < range[b + 1]
    ensures a == b
  {
    if a < b {
      PrefixOrder(sizes, range, a + 1, b);
    } else if b < a {
      PrefixOrder(sizes, range, b + 1, a);
    }
  }

  lemma {:induction false} SortedPair(g: Graph, ids: seq<nat>, sizes: seq<nat>, range: seq<nat>, next: seq<nat>,
                                      component: seq<nat>, k: nat, p: nat, q: nat)
    requires Solved(g, ids, sizes) && Sorting(ids, sizes, range, next, component, |ids|)
    requires k < |sizes| && p < |g| && q < |g| && range[k] <= p < range[k + 1]
    ensures component[p] < |g| && component[q] < |g|
    ensures range[k] <= q < range[k + 1] <==> Connected(g, component[p], component[q])
    ensures p < q && range[k] <= q < range[k + 1] ==> component[p] < component[q]
    ensures p != q ==> component[p] != component[q]
  {
    var a := SortedPosition(g, ids, sizes, range, next, component, p);
    var b := SortedPosition(g, ids, sizes, range, next, component, q);
    RangesApart(sizes, range, a, k, p);
    if range[k] <= q < range[k + 1] {
      RangesApart(sizes, range, b, k, q);
    }
    assert Filled(ids, range, next, component, |ids|, a);
  }

  lemma {:induction false} SortedIsGrouped(g: Graph, ids: seq<nat>, sizes: seq<nat>, range: seq<nat>, next: seq<nat>,
                                           component: seq<nat>)
    requires Solved(g, ids, sizes) && Sorting(ids, sizes, range, next, component, |ids|)
    ensures Grouped(g, SccComponent(component, range))
  {
    var s := SccComponent(component, range);
    SizesSum(g, ids, sizes);
    PrefixIsSum(sizes, range, |sizes|);
    assert sizes[..|sizes|] == sizes;
    forall x: nat | x < |g|
      ensures x in component
    {
      assert Placed(range, next, component, x, ids[x]);
    }
    forall k, p, q | 0 <= k < |s.range| - 1 && 0 <= p < |g| && 0 <= q < |g| && InRange(s, k, p)
      ensures InRange(s, k, q) <==> Connected(g, s.component[p], s.component[q])
      ensures p < q && InRange(s, k, q) ==> s.component[p] < s.component[q]
    {
      SortedPair(g, ids, sizes, range, next, component, k, p, q);
    }
    forall p, q | 0 <= p < q < |g|
      ensures s.component[p] != s.component[q]
    {
      var k := SortedPosition(g, ids, sizes, range, next, component, p);
      SortedPair(g, ids, sizes, range, next, component, k, p, q);
    }
    forall p | 0 <= p < |g|
      ensures s.component[p] < |g|
    {
      var k := SortedPosition(g, ids, sizes, range, next, component, p);
    }
  }

  /** A table without an invalid entry connects everything. */
  lemma {:induction false} CompleteTable(table: seq<int>, n: nat, u: nat, v: nat)
    requires |table| == n * n && INVALID !in table && u < n && v < n
    ensures Connected(MatrixGraph(table, n), u, v)
  {
    RowFits(n, u);
    RowFits(n, v);
    assert Row(table, n, u)[v] == table[u * n + v] && Row(table, n, v)[u] == table[v * n + u];
    ReachEdge(MatrixGraph(table, n), u, v);
    ReachEdge(MatrixGraph(table, n), v, u);
  }

  method BuildGraph(table: seq<int>, n: nat) returns (g: Graph)
    requires |table| == n * n
    ensures g == MatrixGraph(table, n)
  {
    g := [];
    for u := 0 to n
      invariant |g| == u && forall v :: 0 <= v < u ==> g[v] == MatrixGraph(table, n)[v]
    {
      var edges := AdjacentEdgeRange(table, n, u);
      g := g + [edges];
    }
  }

  method CountingSort(g: Graph, ids: seq<nat>, sizes: seq<nat>) returns (s: SccComponent)
    requires Solved(g, ids, sizes)
    ensures Grouped(g, s) && |s.range| == |sizes| + 1
  {
    var next: seq<nat>, range: seq<nat>, prefix := [], [], 0;
    for j := 0 to |sizes|
      invariant next == range && |range| == j && Prefixes(sizes[..j], range + [prefix])
    {
      next, range, prefix := next + [prefix], range + [prefix], prefix + sizes[j];
      assert forall k :: 0 <= k < j ==> sizes[..j + 1][k] == sizes[..j][k];
    }
    range := range + [prefix];
    assert sizes[..|sizes|] == sizes;
    var component: seq<nat> := seq(|ids|, i => 0);
    StartSorting(g, ids, sizes, range, next, component);
    for i := 0 to |ids|
      invariant Sorting(ids, sizes, range, next, component, i)
    {
      PlaceAll(ids, sizes, range, next, component, i);
      component := component[next[ids[i]] := i];
      next := next[ids[i] := next[ids[i]] + 1];
    }
    SortedIsGrouped(g, ids, sizes, range, next, component);
    s := SccComponent(component, range);
  }

  lemma {:induction false} StartSorting(g: Graph, ids: seq<nat>, sizes: seq<nat>, range: seq<nat>, next: seq<nat>,
                                        component: seq<nat>)
    requires Solved(g, ids, sizes) && Prefixes(sizes, range) && next == range[..|sizes|] && |component| == |ids|
    ensures Sorting(ids, sizes, range, next, component, 0)
  {
    SizesSum(g, ids, sizes);
    PrefixIsSum(sizes, range, |sizes|);
    assert sizes[..|sizes|] == sizes;
    forall c | 0 <= c < |sizes|
      ensures Filled(ids, range, next, component, 0, c)
    {
      assert Members(ids[..0], c) == {};
      PrefixOrder(sizes, range, c + 1, |sizes|);
    }
  }

  ghost predicate SomeConnected(g: Graph) {
    exists u, v :: 0 <= u < v < |g| && Connected(g, u, v)
  }

  /** SplitUnaccessibleLocations. If some location cannot be reached from another, the constructor of SCC_Component
      asserts that there are at least as many locations as range bounds, the end included; that holds exactly when
      some two locations are connected. */
  method SplitLocations(n: nat, table: seq<int>) returns (s: SccComponent)
    requires |table| == n * n && 0 < n <= SPECIAL
    ensures Grouped(MatrixGraph(table, n), s)
    ensures INVALID in table ==> (|s.component| >= |s.range| <==> SomeConnected(MatrixGraph(table, n)))
  {
    if INVALID !in table {
      s := SccComponent(seq(n, i requires 0 <= i < n => i), [0, n]);
      CompleteIsGrouped(table, n, s);
    } else {
      var g := BuildGraph(table, n);
      MatrixIsGraph(table, n);
      var scc := new TarjanSCC(g);
      scc.Run();
      s := CountingSort(g, scc.componentsIndex, scc.componentSizeVector);
      RangeAssertion(g, scc.componentsIndex, scc.componentSizeVector);
    }
  }

  lemma {:induction false} MatrixIsGraph(table: seq<int>, n: nat)
    requires |table| == n * n && n <= SPECIAL
    ensures IsGraph(MatrixGraph(table, n))
  {
    var g := MatrixGraph(table, n);
    forall u, k | 0 <= u < |g| && 0 <= k < |g[u]|
      ensures g[u][k] < |g|
    {
      assert g[u][k] in g[u];
    }
  }

  lemma {:induction false} CompleteIsGrouped(table: seq<int>, n: nat, s: SccComponent)
    requires |table| == n * n && INVALID !in table && n > 0
    requires s == SccComponent(seq(n, i requires 0 <= i < n => i), [0, n])
    ensures Grouped(MatrixGraph(table, n), s)
  {
    var g := MatrixGraph(table, n);
    forall u, v | 0 <= u < n && 0 <= v < n
      ensures Connected(g, u, v)
    {
      CompleteTable(table, n, u, v);
    }
    forall x: nat | x < n
      ensures x in s.component
    {
      assert s.component[x] == x;
    }
  }

  // ----- the assertion on the ranges -------------------------------------------

  lemma {:induction false} SumAtLeast(sizes: seq<nat>)
    requires forall k :: 0 <= k < |sizes| ==> sizes[k] > 0
    ensures Sum(sizes) >= |sizes|
    ensures Sum(sizes) == |sizes| <==> forall k :: 0 <= k < |sizes| ==> sizes[k] == 1
  {
    if sizes != [] {
      var k := |sizes| - 1;
      SumAtLeast(sizes[..k]);
      assert forall i :: 0 <= i < k ==> sizes[i] == sizes[..k][i];
    }
  }

  /** There are more locations than components exactly when some two locations are connected. */
  lemma {:induction false} RangeAssertion(g: Graph, ids: seq<nat>, sizes: seq<nat>)
    requires Solved(g, ids, sizes)
    ensures |ids| >= |sizes| + 1 <==> SomeConnected(g)
  {
    SizesSum(g, ids, sizes);
    SumAtLeast(sizes);
    if |ids| >= |sizes| + 1 {
      var k :| 0 <= k < |sizes| && sizes[k] != 1;
      var u, v := TwoMembers(Members(ids, k));
      assert ids[u] == ids[v];
    }
    if u, v :| 0 <= u < v < |g| && Connected(g, u, v) {
      assert {u, v} <= Members(ids, ids[u]);
      SubsetSize({u, v}, Members(ids, ids[u]));
      assert sizes[ids[u]] != 1;
    }
  }

  lemma {:induction false} TwoMembers(s: set<nat>) returns (u: nat, v: nat)
    requires |s| > 1
    ensures u in s && v in s && u < v
  {
    var a :| a in s;
    assert |s - {a}| > 0;
    var b :| b in s - {a};
    u, v := if a < b then a else b, if a < b then b else a;
  }

  /** From a location that leads nowhere else, nothing else is reached. */
  lemma {:induction false} StaysHere(g: Graph, p: Path, u: nat, v: nat)
    requires u < |g| && (forall y :: y in g[u] ==> y == u) && IsWalk(Arcs(g), u, p, v)
    ensures u == v
    decreases p
  {
    if p.Step? {
      StaysHere(g, p.rest, u, v);
    }
  }

  /** Two locations that cannot reach each other: three range bounds, and the assertion fails. */
  method TwoSeparateLocations() returns (s: SccComponent)
    ensures |s.component| == 2 && !(|s.component| >= |s.range|)
  {
    var table := [0, INVALID, INVALID, 0];
    ghost var g := MatrixGraph(table, 2);
    assert table[1] == INVALID;
    s := SplitLocations(2, table);
    forall u: nat, y | u < 2 && y in g[u]
      ensures y == u
    {
      assert Row(table, 2, u)[y] == table[u * 2 + y];
    }
    forall u, v | 0 <= u < v < |g|
      ensures !Connected(g, u, v)
    {
      if Reach(g, u, v) {
        var p :| IsWalk(Arcs(g), u, p, v);
        StaysHere(g, p, u, v);
      }
    }
  }
}
