/** The parallel phases of a contraction round (contractor/contractor.hpp, Run): threads work on different
    chosen nodes and write only at their neighbours, so the order of the writes does not matter. */
module Interleaving {
  import opened DynamicGraphs
  import opened ContractorEdges
  import opened ContractionRound

  /** The thread that handles `node` rewrites what is stored at `at`. */
  datatype Write = Write(at: nat, node: nat)

  /** One cell is rewritten by what the thread of `node` does to it. */
  ghost function Perform<T>(cells: seq<T>, op: (nat, T) -> T, w: Write): (r: seq<T>)
    ensures |r| == |cells|
  {
    if w.at < |cells| then cells[w.at := op(w.node, cells[w.at])] else cells
  }

  ghost function RunAll<T>(cells: seq<T>, op: (nat, T) -> T, schedule: seq<Write>): (r: seq<T>)
    ensures |r| == |cells|
  {
    if schedule == [] then cells
    else Perform(RunAll(cells, op, schedule[..|schedule| - 1]), op, schedule[|schedule| - 1])
  }

  /** The writes of one round, in some order: each chosen node's thread once at each neighbour. */
  ghost predicate IsSchedule(adj: Adj, chosen: set<nat>, schedule: seq<Write>) {
    && (forall i :: 0 <= i < |schedule| ==>
          schedule[i].node in chosen && HasEdgeTo(adj, schedule[i].node, schedule[i].at))
    && (forall i, j :: 0 <= i < j < |schedule| ==> schedule[i] != schedule[j])
    && (forall x, u :: x in chosen && HasEdgeTo(adj, x, u) ==> Write(u, x) in schedule)
  }

  /** No two writes of a round touch the same cell. */
  lemma {:induction false} WritesDisjoint(adj: Adj, chosen: set<nat>, schedule: seq<Write>, i: nat, j: nat)
    requires Apart(adj, chosen) && IsSchedule(adj, chosen, schedule) && i < |schedule| && j < |schedule|
    ensures schedule[i].at == schedule[j].at ==> i == j
  {
    if schedule[i].at == schedule[j].at {
      assert HasEdgeTo(adj, schedule[i].node, schedule[i].at) && HasEdgeTo(adj, schedule[j].node, schedule[j].at);
      assert schedule[i].node == schedule[j].node;
    }
  }

  ghost predicate Disjoint(schedule: seq<Write>) {
    forall i, j :: 0 <= i < j < |schedule| ==> schedule[i].at != schedule[j].at
  }

  /** What a cell holds after writes to different cells. */
  lemma {:induction false} CellAfter<T>(cells: seq<T>, op: (nat, T) -> T, schedule: seq<Write>, u: nat)
    requires Disjoint(schedule) && u < |cells|
    ensures forall i :: 0 <= i < |schedule| && schedule[i].at == u ==>
              RunAll(cells, op, schedule)[u] == op(schedule[i].node, cells[u])
    ensures (forall i :: 0 <= i < |schedule| ==> schedule[i].at != u) ==> RunAll(cells, op, schedule)[u] == cells[u]
  {
    if schedule != [] {
      CellAfter(cells, op, schedule[..|schedule| - 1], u);
    }
  }

  /** Every interleaving of the threads leaves the same cells: for the edge lists under deletion, and
      for whatever else the threads keep per neighbour. */
  lemma {:induction false} OrderIrrelevant<T>(adj: Adj, chosen: set<nat>, cells: seq<T>, op: (nat, T) -> T,
                                              s1: seq<Write>, s2: seq<Write>)
    requires Apart(adj, chosen) && IsSchedule(adj, chosen, s1) && IsSchedule(adj, chosen, s2)
    ensures RunAll(cells, op, s1) == RunAll(cells, op, s2)
  {
    forall i, j | 0 <= i < j < |s1|
      ensures s1[i].at != s1[j].at
    {
      WritesDisjoint(adj, chosen, s1, i, j);
    }
    forall i, j | 0 <= i < j < |s2|
      ensures s2[i].at != s2[j].at
    {
      WritesDisjoint(adj, chosen, s2, i, j);
    }
    forall u | 0 <= u < |cells|
      ensures RunAll(cells, op, s1)[u] == RunAll(cells, op, s2)[u]
    {
      CellAfter(cells, op, s1, u);
      CellAfter(cells, op, s2, u);
      if i :| 0 <= i < |s1| && s1[i].at == u {
        assert Write(u, s1[i].node) in s2;
      }
      assert forall j :: 0 <= j < |s2| ==> s2[j] == Write(s2[j].at, s2[j].node) && s2[j] in s1;
    }
  }

  ghost function Delete(): (nat, seq<CEdge>) -> seq<CEdge> {
    (x: nat, edges: seq<CEdge>) => Pruned(edges, x, 0)
  }

  /** A cell after its write: the edges to the node of the thread are gone, the others are all there. */
  lemma {:induction false} DeletedAt(adj: Adj, chosen: set<nat>, schedule: seq<Write>, u: nat, e: CEdge)
    requires Apart(adj, chosen) && IsSchedule(adj, chosen, schedule) && Disjoint(schedule) && u < |adj|
    ensures e in RunAll(adj, Delete(), schedule)[u] <==> e in adj[u] && !Incoming(adj, chosen, u, e)
  {
    CellAfter(adj, Delete(), schedule, u);
    if i :| 0 <= i < |schedule| && schedule[i].at == u {
      var x := schedule[i].node;
      PrunedKeeps(adj[u], x, 0, e);
      assert RunAll(adj, Delete(), schedule)[u] == Pruned(adj[u], x, 0);
      assert e in Pruned(adj[u], x, 0) <==> multiset(Pruned(adj[u], x, 0))[e] > 0;
      assert e in adj[u] <==> multiset(adj[u])[e] > 0;
      if Incoming(adj, chosen, u, e) {
        assert HasEdgeTo(adj, e.target, u) && HasEdgeTo(adj, x, u);
      }
    }
  }

  /** In particular the deletion phase: DeleteEdgesTo at the neighbours, in any order, does what the loop over
      the chosen nodes promises. */
  lemma {:induction false} DeletionOrderIrrelevant(adj: Adj, chosen: set<nat>, s1: seq<Write>, s2: seq<Write>)
    requires Apart(adj, chosen) && IsSchedule(adj, chosen, s1) && IsSchedule(adj, chosen, s2)
    ensures RunAll(adj, Delete(), s1) == RunAll(adj, Delete(), s2)
    ensures Deleting(adj, RunAll(adj, Delete(), s1), chosen)
  {
    OrderIrrelevant(adj, chosen, adj, Delete(), s1, s2);
    forall i, j | 0 <= i < j < |s1|
      ensures s1[i].at != s1[j].at
    {
      WritesDisjoint(adj, chosen, s1, i, j);
    }
    forall n: nat, e | n < |adj|
      ensures e in RunAll(adj, Delete(), s1)[n] <==> e in adj[n] && !Incoming(adj, chosen, n, e)
    {
      DeletedAt(adj, chosen, s1, n, e);
    }
  }
}
