/** The edges of the contractor's working graph and the query edges they stand for. */
module ContractorEdges {
  import opened ContractionTheory
  import opened DynamicGraphs

  datatype EdgeData = EdgeData(distance: int, id: nat, shortcut: bool, forward: bool, backward: bool,
                               isOriginalViaNodeId: bool)

  type CEdge = Edge<EdgeData>
  type CInput = InputEdge<EdgeData>
  type Adj = seq<seq<CEdge>>

  /** The original number of a node; `names` is empty until the flush renumbers. */
  function At(names: seq<nat>, n: nat): nat {
    if n < |names| then names[n] else n
  }

  ghost predicate Naming(names: seq<nat>, count: nat) {
    names == [] || (|names| == count && forall i, j :: 0 <= i < j < count ==> names[i] != names[j])
  }

  lemma {:induction false} AtInjective(names: seq<nat>, count: nat, a: nat, b: nat)
    requires Naming(names, count) && a < count && b < count && At(names, a) == At(names, b)
    ensures a == b
  {
  }

  /** The query edge that GetEdges makes of an edge stored at n. */
  function Translate(names: seq<nat>, n: nat, e: CEdge): QueryEdge {
    QueryEdge(At(names, n), At(names, e.target), e.data.distance, e.data.shortcut,
              if e.data.isOriginalViaNodeId then e.data.id else At(names, e.data.id),
              e.data.forward, e.data.backward)
  }

  ghost predicate Emits(adj: Adj, names: seq<nat>, q: QueryEdge) {
    exists n: nat, e :: n < |adj| && e in adj[n] && q == Translate(names, n, e)
  }

  /** All edges the contractor would hand out now. */
  ghost function Out(adj: Adj, names: seq<nat>, external: seq<QueryEdge>): iset<QueryEdge> {
    iset q: QueryEdge | q in external || Emits(adj, names, q)
  }

  /** The same for the shortcuts waiting for insertion. */
  ghost function OutOf(list: seq<CInput>, names: seq<nat>): iset<QueryEdge> {
    iset q: QueryEdge | EmitsFrom(list, names, q)
  }

  ghost predicate EmitsFrom(list: seq<CInput>, names: seq<nat>, q: QueryEdge) {
    exists i :: i in list && q == Translate(names, i.source, Strip(i))
  }

  /** Targets are nodes of the graph, and distances are positive. */
  ghost predicate InGraph(adj: Adj) {
    forall n, e :: 0 <= n < |adj| && e in adj[n] ==> e.target < |adj| && e.data.distance >= 1
  }

  /** How many edges the first n lists hold. */
  ghost function Total(adj: Adj, n: nat): nat
    requires n <= |adj|
  {
    if n == 0 then 0 else Total(adj, n - 1) + |adj[n - 1]|
  }

  ghost predicate HasEdgeTo(adj: Adj, n: nat, m: nat) {
    n < |adj| && exists e :: e in adj[n] && e.target == m
  }

  // ----- shortcuts of one node ---------------------------------------------

  /** A way s -> x -> t over two edges of x. */
  ghost predicate Legs(list: seq<CEdge>, s: nat, t: nat, len: int) {
    exists e1, e2 ::
      && e1 in list && e1.target == s && e1.data.backward
      && e2 in list && e2.target == t && e2.data.forward
      && e1.data.distance + e2.data.distance == len
  }

  ghost predicate HasForwardTo(list: seq<CInput>, s: nat, t: nat, len: int) {
    exists i :: i in list && i.source == s && i.target == t && i.data.distance == len && i.data.forward
  }

  ghost predicate HasBackwardTo(list: seq<CInput>, s: nat, t: nat, len: int) {
    exists i :: i in list && i.source == s && i.target == t && i.data.distance == len && i.data.backward
  }

  ghost predicate ShortcutOf(x: nat, i: CInput) {
    i.data.shortcut && i.data.id == x && !i.data.isOriginalViaNodeId && (i.data.forward || i.data.backward)
  }

  /** The list offers the same directed shortcuts as another. */
  ghost predicate SameShortcuts(a: seq<CInput>, b: seq<CInput>) {
    forall s, t, len ::
      && (HasForwardTo(a, s, t, len) <==> HasForwardTo(b, s, t, len))
      && (HasBackwardTo(a, s, t, len) <==> HasBackwardTo(b, s, t, len))
  }

  /** Every listed shortcut is made of two edges of x, and is listed from both ends. */
  ghost predicate Grounded(edges: seq<CEdge>, x: nat, list: seq<CInput>) {
    && (forall i :: i in list ==> ShortcutOf(x, i))
    && (forall s, t, len :: HasForwardTo(list, s, t, len) ==>
          s != t && Legs(edges, s, t, len) && HasBackwardTo(list, t, s, len))
    && (forall s, t, len :: HasBackwardTo(list, s, t, len) ==>
          s != t && Legs(edges, t, s, len) && HasForwardTo(list, t, s, len))
  }

  lemma {:induction false} GroundedSame(edges: seq<CEdge>, x: nat, a: seq<CInput>, b: seq<CInput>)
    requires Grounded(edges, x, a) && SameShortcuts(a, b)
    requires forall i :: i in b ==> ShortcutOf(x, i)
    ensures Grounded(edges, x, b)
  {
  }

  /** Adding a shortcut from both ends. */
  lemma {:induction false} GroundedPair(edges: seq<CEdge>, x: nat, list: seq<CInput>, f: CInput, b: CInput)
    requires Grounded(edges, x, list)
    requires ShortcutOf(x, f) && ShortcutOf(x, b)
    requires f.data.forward && !f.data.backward && b.data.backward && !b.data.forward
    requires b.source == f.target && b.target == f.source && b.data.distance == f.data.distance
    requires f.source != f.target && Legs(edges, f.source, f.target, f.data.distance)
    ensures Grounded(edges, x, list + [f, b])
    ensures HasForwardTo(list + [f, b], f.source, f.target, f.data.distance)
    ensures forall s, t, len :: HasForwardTo(list, s, t, len) ==> HasForwardTo(list + [f, b], s, t, len)
  {
    var l := list + [f, b];
    assert f in l && b in l;
    forall s, t, len
      ensures HasForwardTo(l, s, t, len) <==>
                HasForwardTo(list, s, t, len) || (s == f.source && t == f.target && len == f.data.distance)
      ensures HasBackwardTo(l, s, t, len) <==>
                HasBackwardTo(list, s, t, len) || (s == b.source && t == b.target && len == b.data.distance)
    {
      assert forall i :: i in list ==> i in l;
    }
  }
}
