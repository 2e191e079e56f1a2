/** Iterative Tarjan (algorithms/tarjan_scc.hpp): explicit recursion stack, one before/after
    flag per node, duplicate frames for nodes that are discovered again before their visit. */
module TarjanScc {
  import opened Walks

  /** SPECIAL_NODEID: not visited, or not in a component yet. */
  const SPECIAL: nat := 0xffff_ffff

  type Graph = seq<seq<nat>>

  datatype Frame = Frame(v: nat, parent: nat)

  datatype TarjanNode = TarjanNode(index: nat, lowLink: nat, onStack: bool)

  /** The working variables of run, but for the recursion stack. */
  datatype Work = Work(stack: seq<nat>, nodes: seq<TarjanNode>, before: seq<bool>,
                       component: seq<nat>, sizes: seq<nat>, index: nat)

  ghost predicate IsGraph(g: Graph) {
    |g| <= SPECIAL && forall u, k :: 0 <= u < |g| && 0 <= k < |g[u]| ==> g[u][k] < |g|
  }

  // ----- reachability ------------------------------------------------------

  ghost function Arcs(g: Graph): iset<Arc> {
    iset a: Arc | a.src < |g| && a.dst in g[a.src] && a.w == 1
  }

  ghost predicate Reach(g: Graph, u: nat, v: nat) {
    exists p :: IsWalk(Arcs(g), u, p, v)
  }

  ghost predicate Connected(g: Graph, u: nat, v: nat) {
    Reach(g, u, v) && Reach(g, v, u)
  }

  lemma {:induction false} ReachSelf(g: Graph, u: nat)
    ensures Reach(g, u, u)
  {
    assert IsWalk(Arcs(g), u, Stop, u);
  }

  lemma {:induction false} ReachEdge(g: Graph, u: nat, v: nat)
    requires u < |g| && v in g[u]
    ensures Reach(g, u, v)
  {
    var a := Arc(u, v, 1);
    assert IsWalk(Arcs(g), v, Stop, v);
    assert IsWalk(Arcs(g), u, Step(a, Stop), v);
  }

  lemma {:induction false} ReachTrans(g: Graph, u: nat, v: nat, w: nat)
    requires Reach(g, u, v) && Reach(g, v, w)
    ensures Reach(g, u, w)
  {
    var p :| IsWalk(Arcs(g), u, p, v);
    var q :| IsWalk(Arcs(g), v, q, w);
    ConcatIsWalk(Arcs(g), u, p, v, q, w);
  }

  /** A set without outgoing edges cannot be left. */
  lemma {:induction false} ClosedUnderReach(g: Graph, closed: set<nat>, u: nat, p: Path, v: nat)
    requires u in closed && IsWalk(Arcs(g), u, p, v)
    requires forall x, y :: x in closed && x < |g| && y in g[x] ==> y in closed
    ensures v in closed
    decreases p
  {
    match p
    case Stop =>
    case Step(a, rest) => ClosedUnderReach(g, closed, a.dst, rest, v);
  }

  // ----- the invariant -----------------------------------------------------

  predicate Visited(w: Work, v: nat)
    requires v < |w.nodes|
  {
    w.nodes[v].index != SPECIAL
  }

  ghost predicate Shaped(g: Graph, w: Work) {
    && IsGraph(g)
    && |w.nodes| == |w.before| == |w.component| == |g|
    && (forall i :: 0 <= i < |w.stack| ==> w.stack[i] < |g|)
  }

  /** The Tarjan stack holds the visited nodes without a component, by increasing index. */
  ghost predicate Stacked(g: Graph, w: Work)
    requires Shaped(g, w)
  {
    && (forall i, j :: 0 <= i < j < |w.stack| ==> w.nodes[w.stack[i]].index < w.nodes[w.stack[j]].index)
    && (forall v :: 0 <= v < |g| ==> (w.nodes[v].onStack <==> v in w.stack))
    && (forall v :: 0 <= v < |g| && Visited(w, v) ==> w.nodes[v].index < w.index)
    && (forall v :: 0 <= v < |g| && w.nodes[v].onStack ==> Visited(w, v))
    && (forall v :: 0 <= v < |g| ==> (w.component[v] != SPECIAL <==> Visited(w, v) && !w.nodes[v].onStack))
    && (forall v :: 0 <= v < |g| && w.component[v] != SPECIAL ==> w.component[v] < |w.sizes|)
  }

  /** The nodes whose visit has begun but not ended form a path in the Tarjan stack. */
  ghost predicate OnPath(g: Graph, w: Work, path: seq<nat>)
    requires Shaped(g, w)
  {
    && (forall i :: 0 <= i < |path| ==> path[i] < |g| && path[i] in w.stack)
    && (forall i, j :: 0 <= i < j < |path| ==> w.nodes[path[i]].index < w.nodes[path[j]].index)
    && (forall v :: 0 <= v < |g| ==> (!w.before[v] <==> v in path))
  }

  /** The recursion stack: the frame of each path node, followed by the frames of the nodes
      it discovered that are still pending. */
  ghost function Frames(path: seq<nat>, pending: seq<seq<nat>>): seq<Frame>
    requires |path| == |pending|
    decreases |path|
  {
    if path == [] then []
    else
      var k := |path| - 1;
      Frames(path[..k], pending[..k]) + [Frame(path[k], if k == 0 then path[k] else path[k - 1])] + FramesOf(pending[k],
            path[k])
  }

  ghost function FramesOf(nodes: seq<nat>, parent: nat): (r: seq<Frame>)
    ensures |r| == |nodes| && forall i :: 0 <= i < |r| ==> r[i] == Frame(nodes[i], parent)
  {
    seq(|nodes|, i requires 0 <= i < |nodes| => Frame(nodes[i], parent))
  }

  /** Pending nodes are successors of the path node above which they wait, and those that are
      on the path themselves have their frame further up. */
  ghost predicate Framed(g: Graph, path: seq<nat>, pending: seq<seq<nat>>) {
    && |pending| == |path|
    && (forall i, y :: 0 <= i < |path| && y in pending[i] ==> path[i] < |g| && y < |g| && y in g[path[i]])
    && (forall i, y, m :: 0 <= i < |path| && y in pending[i] && 0 <= m <= i ==> path[m] != y)
  }

  /** Edges out of finished nodes lead to visited nodes; the target of an edge out of a path
      node may still be pending; components are closed. */
  ghost predicate Explored(g: Graph, w: Work, path: seq<nat>, pending: seq<seq<nat>>)
    requires Shaped(g, w) && |pending| == |path|
  {
    && (forall x, y :: 0 <= x < |g| && Visited(w, x) && x !in path && y in g[x] ==> y < |g| && Visited(w, y))
    && (forall i, y :: 0 <= i < |path| && path[i] < |g| && y in g[path[i]] ==>
          y < |g| && (Visited(w, y) || y in pending[i]))
    && (forall x, y :: 0 <= x < |g| && w.component[x] != SPECIAL && y in g[x] ==> y < |g| && w.component[y] != SPECIAL)
  }

  /** Lower stack entries reach higher ones, and every entry reaches a path node below it. */
  ghost predicate Chained(g: Graph, w: Work, path: seq<nat>)
    requires Shaped(g, w)
  {
    && (forall i, j :: 0 <= i < j < |w.stack| ==> Reach(g, w.stack[i], w.stack[j]))
    && (forall y {:trigger Anchored(g, w, path, y)} :: y in w.stack ==> Anchored(g, w, path, y))
  }

  ghost predicate Anchored(g: Graph, w: Work, path: seq<nat>, y: nat)
    requires Shaped(g, w)
  {
    y < |g| && exists m :: m in path && m < |g| && w.nodes[m].index <= w.nodes[y].index && Reach(g, y, m)
  }

  /** The low link of a path node is the index of a stack node it reaches. */
  ghost predicate LowIsReached(g: Graph, w: Work, v: nat)
    requires Shaped(g, w) && v < |g|
  {
    && w.nodes[v].lowLink <= w.nodes[v].index
    && exists y :: y in w.stack && y < |g| && w.nodes[y].index == w.nodes[v].lowLink && Reach(g, v, y)
  }

  /** No edge from the part of the stack that path[i] is responsible for leads below its low link. */
  ghost predicate LowIsLow(g: Graph, w: Work, path: seq<nat>, i: nat)
    requires Shaped(g, w) && i < |path| && (forall k :: 0 <= k < |path| ==> path[k] < |g|)
  {
    forall x: nat, y ::
      InSegment(g, w, path, i, x) && y in g[x] && y in w.stack && w.nodes[y].index < w.nodes[path[i]].index ==>
        w.nodes[path[i]].lowLink <= w.nodes[y].index
  }

  ghost predicate InSegment(g: Graph, w: Work, path: seq<nat>, i: nat, x: nat)
    requires Shaped(g, w) && i < |path| && (forall k :: 0 <= k < |path| ==> path[k] < |g|)
  {
    && x in w.stack && x < |g|
    && w.nodes[path[i]].index <= w.nodes[x].index
    && (i + 1 < |path| ==> w.nodes[x].index < w.nodes[path[i + 1]].index)
  }

  ghost predicate Lows(g: Graph, w: Work, path: seq<nat>)
    requires Shaped(g, w) && (forall k :: 0 <= k < |path| ==> path[k] < |g|)
  {
    && (forall i :: 0 <= i < |path| ==> LowIsReached(g, w, path[i]))
    && (forall i :: 0 <= i < |path| ==> LowIsLow(g, w, path, i))
  }

  /** Finished components are exactly the classes of mutual reachability, with their sizes. */
  ghost predicate Classes(g: Graph, w: Work)
    requires Shaped(g, w)
  {
    && (forall u, v :: 0 <= u < |g| && 0 <= v < |g| && w.component[u] != SPECIAL && w.component[v] != SPECIAL ==>
          (w.component[u] == w.component[v] <==> Connected(g, u, v)))
    && (forall k :: 0 <= k < |w.sizes| ==> w.sizes[k] == |Members(w.component, k)| > 0)
  }

  ghost function Members(component: seq<nat>, k: nat): set<nat> {
    set v | 0 <= v < |component| && component[v] == k
  }

  ghost function VisitedSet(w: Work): set<nat> {
    set v | 0 <= v < |w.nodes| && w.nodes[v].index != SPECIAL
  }

  ghost predicate Counted(w: Work) {
    |w.sizes| + |w.stack| <= w.index == |VisitedSet(w)|
  }

  /** The parts of the invariant. */
  ghost predicate Part(g: Graph, w: Work, path: seq<nat>, pending: seq<seq<nat>>, part: nat)
    requires Shaped(g, w) && |pending| == |path| && (forall k :: 0 <= k < |path| ==> path[k] < |g|)
  {
    match part
    case 0 => Stacked(g, w) && OnPath(g, w, path)
    case 1 => Framed(g, path, pending) && Explored(g, w, path, pending)
    case 2 => Chained(g, w, path)
    case 3 => Lows(g, w, path)
    case 4 => Classes(g, w)
    case _ => Counted(w)
  }

  /** Always true. It stands as a trigger before each part of the invariant below: the six parts together are more
      than a single proof can work with, so a proof names the parts it needs with `assert Unfold(part)` and the
      others stay closed. */
  ghost predicate Unfold(part: nat) {
    true
  }

  ghost predicate Holds(g: Graph, w: Work, path: seq<nat>, pending: seq<seq<nat>>, part: nat)
    requires Shaped(g, w) && |pending| == |path| && (forall k :: 0 <= k < |path| ==> path[k] < |g|)
  {
    forall p {:trigger Unfold(p)} :: Unfold(p) && p == part ==> Part(g, w, path, pending, p)
  }

  /** Everything but the recursion stack. */
  ghost predicate Inv(g: Graph, w: Work, path: seq<nat>, pending: seq<seq<nat>>) {
    && Shaped(g, w) && |pending| == |path| && (forall k :: 0 <= k < |path| ==> path[k] < |g|)
    && Holds(g, w, path, pending, 0) && Holds(g, w, path, pending, 1) && Holds(g, w, path, pending, 2)
    && Holds(g, w, path, pending, 3) && Holds(g, w, path, pending, 4) && Holds(g, w, path, pending, 5)
  }

  // ----- beginning a visit -------------------------------------------------

  /** The node records and stacks after the visit of v has begun, with low link `low`. */
  ghost predicate Entered(g: Graph, w0: Work, w: Work, v: nat, low: nat)
    requires Shaped(g, w0) && v < |g|
  {
    && w.stack == w0.stack + [v]
    && w.nodes == w0.nodes[v := TarjanNode(w0.index, low, true)]
    && w.before == w0.before[v := false]
    && w.component == w0.component && w.sizes == w0.sizes && w.index == w0.index + 1
  }

  /** What scanning the edges of v found: its undiscovered successors and its low link. */
  ghost predicate Scanned(g: Graph, w0: Work, v: nat, found: seq<nat>, low: nat)
    requires Shaped(g, w0) && v < |g|
  {
    && (forall y :: y in found ==> y in g[v] && y < |g| && y != v && !Visited(w0, y))
    && (forall y :: y in g[v] && y != v && !Visited(w0, y) ==> y in found)
    && low <= w0.index
    && (forall y :: y in g[v] && y in w0.stack ==> low <= w0.nodes[y].index)
    && (low < w0.index ==> exists y :: y in g[v] && y in w0.stack && w0.nodes[y].index == low)
  }

  lemma {:induction false} EnterStacked(g: Graph, w0: Work, w: Work, v: nat, low: nat)
    requires Shaped(g, w0) && Stacked(g, w0) && v < |g| && !Visited(w0, v) && w0.index < SPECIAL
    requires Shaped(g, w) && Entered(g, w0, w, v, low)
    ensures Stacked(g, w)
  {
    assert v !in w0.stack;
    forall x | 0 <= x < |g|
      ensures w.nodes[x].onStack <==> x in w.stack
    {
      assert x != v ==> w.nodes[x] == w0.nodes[x];
    }
  }

  lemma {:induction false} EnterPath(g: Graph, w0: Work, w: Work, path: seq<nat>, v: nat, low: nat)
    requires Shaped(g, w0) && Stacked(g, w0) && OnPath(g, w0, path) && v < |g| && !Visited(w0, v)
    requires Shaped(g, w) && Entered(g, w0, w, v, low)
    ensures OnPath(g, w, path + [v])
  {
    forall i | 0 <= i < |path|
      ensures path[i] < |g| && path[i] in w.stack && path[i] != v && w.nodes[path[i]] == w0.nodes[path[i]]
      ensures w0.nodes[path[i]].index < w0.index
    {
      assert path[i] in w0.stack && w0.nodes[path[i]].onStack;
    }
    assert w.stack[|w0.stack|] == v;
    forall x | 0 <= x < |g|
      ensures !w.before[x] <==> x in path + [v]
    {
    }
  }

  lemma {:induction false} EnterExplored(g: Graph, w0: Work, w: Work, path: seq<nat>, pending: seq<seq<nat>>, v: nat,
                                         found: seq<nat>, low: nat)
    requires IsGraph(g) && Shaped(g, w0) && |pending| == |path| && v < |g| && !Visited(w0, v) && w0.index < SPECIAL
             && v !in path
    requires Explored(g, w0, path, pending)
    requires Shaped(g, w) && Entered(g, w0, w, v, low) && Scanned(g, w0, v, found, low)
    ensures Explored(g, w, path + [v], pending + [found])
  {
    var path', pending' := path + [v], pending + [found];
    forall x | 0 <= x < |g|
      ensures Visited(w, x) <==> x == v || Visited(w0, x)
    {
    }
    forall i, y | 0 <= i < |path'| && path'[i] < |g| && y in g[path'[i]]
      ensures y < |g| && (Visited(w, y) || y in pending'[i])
    {
      if i == |path| {
        var k :| 0 <= k < |g[v]| && g[v][k] == y;
      }
    }
    forall x, y | 0 <= x < |g| && Visited(w, x) && x !in path' && y in g[x]
      ensures y < |g| && Visited(w, y)
    {
      assert path'[|path|] == v;
      assert x !in path;
    }
  }

  /** The new stack entry is reached from everything below it. */
  lemma {:induction false} EnterReached(g: Graph, w0: Work, path: seq<nat>, v: nat, y: nat)
    requires Shaped(g, w0) && Stacked(g, w0) && OnPath(g, w0, path) && Chained(g, w0, path) && path != []
    requires v in g[path[|path| - 1]] && y in w0.stack
    ensures Reach(g, y, v)
  {
    assert Anchored(g, w0, path, y);
    var m :| m in path && m < |g| && w0.nodes[m].index <= w0.nodes[y].index && Reach(g, y, m);
    PathReachesLast(g, w0, path, m);
    ReachEdge(g, path[|path| - 1], v);
    ReachTrans(g, y, m, path[|path| - 1]);
    ReachTrans(g, y, path[|path| - 1], v);
  }

  lemma {:induction false} EnterReachedAll(g: Graph, w0: Work, path: seq<nat>, v: nat)
    requires Shaped(g, w0) && Stacked(g, w0) && OnPath(g, w0, path) && Chained(g, w0, path)
    requires path != [] ==> v in g[path[|path| - 1]]
    ensures forall y :: y in w0.stack ==> Reach(g, y, v)
  {
    forall y | y in w0.stack
      ensures Reach(g, y, v)
    {
      assert Anchored(g, w0, path, y);
      EnterReached(g, w0, path, v, y);
    }
  }

  lemma {:induction false} EnterAnchored(g: Graph, w0: Work, w: Work, path: seq<nat>, v: nat, low: nat, y: nat)
    requires Shaped(g, w0) && v < |g| && v !in path && y != v && Anchored(g, w0, path, y)
    requires Shaped(g, w) && Entered(g, w0, w, v, low)
    ensures Anchored(g, w, path + [v], y)
  {
    var m :| m in path && m < |g| && w0.nodes[m].index <= w0.nodes[y].index && Reach(g, y, m);
    assert m in path + [v];
  }

  lemma {:induction false} EnterChained(g: Graph, w0: Work, w: Work, path: seq<nat>, v: nat, low: nat)
    requires Shaped(g, w0) && v < |g| && v !in path && v !in w0.stack && Chained(g, w0, path)
    requires forall y :: y in w0.stack ==> Reach(g, y, v)
    requires Shaped(g, w) && Entered(g, w0, w, v, low)
    ensures Chained(g, w, path + [v])
  {
    forall y | y in w0.stack
      ensures Anchored(g, w, path + [v], y)
    {
      assert Anchored(g, w0, path, y);
      EnterAnchored(g, w0, w, path, v, low, y);
    }
    ReachSelf(g, v);
    assert v in path + [v];
    assert Anchored(g, w, path + [v], v);
  }

  lemma {:induction false} PathReachesLast(g: Graph, w: Work, path: seq<nat>, m: nat)
    requires Shaped(g, w) && Stacked(g, w) && OnPath(g, w, path) && Chained(g, w, path) && m in path
    ensures Reach(g, m, path[|path| - 1])
  {
    var last := path[|path| - 1];
    if m == last {
      ReachSelf(g, m);
    } else {
      var k :| 0 <= k < |path| && path[k] == m;
      var i :| 0 <= i < |w.stack| && w.stack[i] == m;
      var j :| 0 <= j < |w.stack| && w.stack[j] == last;
      assert w.nodes[m].index < w.nodes[last].index;
    }
  }

  lemma {:induction false} EnterLows(g: Graph, w0: Work, w: Work, path: seq<nat>, v: nat, found: seq<nat>, low: nat)
    requires Shaped(g, w0) && Stacked(g, w0) && OnPath(g, w0, path) && v < |g| && !Visited(w0, v) && w0.index < SPECIAL
    requires Lows(g, w0, path)
    requires Shaped(g, w) && Entered(g, w0, w, v, low) && Scanned(g, w0, v, found, low) && OnPath(g, w, path + [v])
    ensures Lows(g, w, path + [v])
  {
    var path' := path + [v];
    forall x | x in w0.stack
      ensures x < |g| && x != v && w.nodes[x] == w0.nodes[x] && w0.nodes[x].index < w0.index && x in w.stack
    {
      assert w0.nodes[x].onStack;
    }
    assert w.stack[|w0.stack|] == v;
    forall i | 0 <= i < |path'|
      ensures LowIsReached(g, w, path'[i]) && LowIsLow(g, w, path', i)
    {
      if i < |path| {
        EnterOldLow(g, w0, w, path, v, low, i);
      } else {
        EnterNewLow(g, w0, w, path, v, found, low);
      }
    }
  }

  lemma {:induction false} EnterOldLow(g: Graph, w0: Work, w: Work, path: seq<nat>, v: nat, low: nat, i: nat)
    requires Shaped(g, w0) && OnPath(g, w0, path) && v < |g| && i < |path|
    requires LowIsReached(g, w0, path[i]) && LowIsLow(g, w0, path, i)
    requires Shaped(g, w) && Entered(g, w0, w, v, low) && OnPath(g, w, path + [v])
    requires forall x :: x in w0.stack ==>
               x < |g| && x != v && w.nodes[x] == w0.nodes[x] && w0.nodes[x].index < w0.index && x in w.stack
    ensures LowIsReached(g, w, path[i]) && LowIsLow(g, w, path + [v], i)
  {
    var path' := path + [v];
    assert path[i] in w0.stack && path'[i] == path[i] && path'[|path|] == v;
    forall x: nat, y | InSegment(g, w, path', i, x) && y in g[x] && y in w.stack
           && w.nodes[y].index < w.nodes[path'[i]].index
      ensures w.nodes[path'[i]].lowLink <= w.nodes[y].index
    {
      assert x != v && y != v;
      assert i + 1 < |path| ==> path[i + 1] in w0.stack && path'[i + 1] == path[i + 1];
      assert InSegment(g, w0, path, i, x);
    }
  }

  lemma {:induction false} EnterNewLow(g: Graph, w0: Work, w: Work, path: seq<nat>, v: nat, found: seq<nat>, low: nat)
    requires Shaped(g, w0) && v < |g|
    requires Shaped(g, w) && Entered(g, w0, w, v, low) && Scanned(g, w0, v, found, low) && OnPath(g, w, path + [v])
    requires forall x :: x in w0.stack ==>
               x < |g| && x != v && w.nodes[x] == w0.nodes[x] && w0.nodes[x].index < w0.index && x in w.stack
    ensures LowIsReached(g, w, v) && LowIsLow(g, w, path + [v], |path|)
  {
    var path' := path + [v];
    assert path'[|path|] == v && w.stack[|w0.stack|] == v;
    if low < w0.index {
      var y :| y in g[v] && y in w0.stack && w0.nodes[y].index == low;
      ReachEdge(g, v, y);
    } else {
      ReachSelf(g, v);
    }
    forall x: nat, y | InSegment(g, w, path', |path|, x) && y in g[x] && y in w.stack
           && w.nodes[y].index < w.nodes[v].index
      ensures w.nodes[v].lowLink <= w.nodes[y].index
    {
      assert x == v && y != v;
    }
  }

  lemma {:induction false} EnterFramed(g: Graph, w0: Work, path: seq<nat>, pending: seq<seq<nat>>, v: nat,
                                       found: seq<nat>, low: nat)
    requires Shaped(g, w0) && OnPath(g, w0, path) && Stacked(g, w0) && Framed(g, path, pending)
    requires v < |g| && Scanned(g, w0, v, found, low)
    ensures Framed(g, path + [v], pending + [found])
  {
    var path', pending' := path + [v], pending + [found];
    forall i, y, m | 0 <= i < |path'| && y in pending'[i] && 0 <= m <= i
      ensures path'[m] != y
    {
      if i == |path| && m < |path| {
        assert path[m] in w0.stack && w0.nodes[path[m]].onStack;
      }
    }
  }

  lemma {:induction false} EnterPart0(g: Graph, w0: Work, w: Work, path: seq<nat>, pending: seq<seq<nat>>, v: nat,
                                      found: seq<nat>, low: nat)
    requires Inv(g, w0, path, pending) && v < |g| && !Visited(w0, v) && w0.before[v] && w0.index < SPECIAL
    requires Shaped(g, w) && Entered(g, w0, w, v, low) && Scanned(g, w0, v, found, low)
    ensures Holds(g, w, path + [v], pending + [found], 0)
  {
    assert Unfold(0);
    EnterStacked(g, w0, w, v, low);
    EnterPath(g, w0, w, path, v, low);
  }

  lemma {:induction false} EnterPart1(g: Graph, w0: Work, w: Work, path: seq<nat>, pending: seq<seq<nat>>, v: nat,
                                      found: seq<nat>, low: nat)
    requires Inv(g, w0, path, pending) && v < |g| && !Visited(w0, v) && w0.before[v] && w0.index < SPECIAL
    requires Shaped(g, w) && Entered(g, w0, w, v, low) && Scanned(g, w0, v, found, low)
    ensures Holds(g, w, path + [v], pending + [found], 1)
  {
    assert Unfold(0) && Unfold(1);
    assert v !in path;
    EnterFramed(g, w0, path, pending, v, found, low);
    EnterExplored(g, w0, w, path, pending, v, found, low);
  }

  lemma {:induction false} EnterPart2(g: Graph, w0: Work, w: Work, path: seq<nat>, pending: seq<seq<nat>>, v: nat,
                                      found: seq<nat>, low: nat)
    requires Inv(g, w0, path, pending) && v < |g| && !Visited(w0, v) && w0.before[v] && w0.index < SPECIAL
    requires Shaped(g, w) && Entered(g, w0, w, v, low) && Scanned(g, w0, v, found, low)
    requires path != [] ==> v in g[path[|path| - 1]]
    ensures Holds(g, w, path + [v], pending + [found], 2)
  {
    assert Unfold(0) && Unfold(2);
    EnterReachedAll(g, w0, path, v);
    EnterChained(g, w0, w, path, v, low);
  }

  lemma {:induction false} EnterPart3(g: Graph, w0: Work, w: Work, path: seq<nat>, pending: seq<seq<nat>>, v: nat,
                                      found: seq<nat>, low: nat)
    requires Inv(g, w0, path, pending) && v < |g| && !Visited(w0, v) && w0.before[v] && w0.index < SPECIAL
    requires Shaped(g, w) && Entered(g, w0, w, v, low) && Scanned(g, w0, v, found, low)
    ensures Holds(g, w, path + [v], pending + [found], 3)
  {
    assert Unfold(0) && Unfold(3);
    EnterPath(g, w0, w, path, v, low);
    EnterLows(g, w0, w, path, v, found, low);
  }

  lemma {:induction false} EnterPart45(g: Graph, w0: Work, w: Work, path: seq<nat>, pending: seq<seq<nat>>, v: nat,
                                       found: seq<nat>, low: nat)
    requires Inv(g, w0, path, pending) && v < |g| && !Visited(w0, v) && w0.before[v] && w0.index < SPECIAL
    requires Shaped(g, w) && Entered(g, w0, w, v, low) && Scanned(g, w0, v, found, low)
    ensures Holds(g, w, path + [v], pending + [found], 4) && Holds(g, w, path + [v], pending + [found], 5)
  {
    assert Unfold(4) && Unfold(5);
    assert VisitedSet(w) == VisitedSet(w0) + {v};
  }

  lemma {:induction false} EnterInv(g: Graph, w0: Work, w: Work, path: seq<nat>, pending: seq<seq<nat>>, v: nat,
                                    found: seq<nat>, low: nat)
    requires Inv(g, w0, path, pending) && v < |g| && !Visited(w0, v) && w0.before[v] && w0.index < SPECIAL
    requires Shaped(g, w) && Entered(g, w0, w, v, low) && Scanned(g, w0, v, found, low)
    requires path != [] ==> v in g[path[|path| - 1]]
    ensures Inv(g, w, path + [v], pending + [found])
  {
    EnterPart0(g, w0, w, path, pending, v, found, low);
    EnterPart1(g, w0, w, path, pending, v, found, low);
    EnterPart2(g, w0, w, path, pending, v, found, low);
    EnterPart3(g, w0, w, path, pending, v, found, low);
    EnterPart45(g, w0, w, path, pending, v, found, low);
  }

  // ----- the recursion stack ------------------------------------------------

  lemma {:induction false} FramesPush(path: seq<nat>, pending: seq<seq<nat>>, v: nat, found: seq<nat>)
    requires |path| == |pending|
    ensures Frames(path + [v], pending + [found]) ==
            Frames(path, pending) + [Frame(v, if path == [] then v else path[|path| - 1])] + FramesOf(found, v)
  {
    assert (path + [v])[..|path|] == path && (pending + [found])[..|path|] == pending;
  }

  /** The top frame is the last pending node of the last path node, or that node's own frame. */
  lemma {:induction false} FramesPop(path: seq<nat>, pending: seq<seq<nat>>, frames: seq<Frame>)
    requires |path| == |pending| && path != [] && frames == Frames(path, pending)
    ensures frames != []
    ensures var k := |path| - 1;
            if pending[k] == [] then
              frames == Frames(path[..k], pending[..k]) + [Frame(path[k], if k == 0 then path[k] else path[k - 1])]
            else
              var l := |pending[k]| - 1;
              frames == Frames(path, Dropped(pending, k)) + [Frame(pending[k][l], path[k])]
  {
    var k := |path| - 1;
    if pending[k] != [] {
      var l := |pending[k]| - 1;
      var pending' := Dropped(pending, k);
      assert pending'[..k] == pending[..k];
      assert FramesOf(pending[k], path[k]) == FramesOf(pending[k][..l], path[k]) + [Frame(pending[k][l], path[k])];
    }
  }

  function Dropped(pending: seq<seq<nat>>, i: nat): seq<seq<nat>>
    requires i < |pending| && pending[i] != []
  {
    pending[i := pending[i][..|pending[i]| - 1]]
  }

  lemma {:induction false} DropFramed(g: Graph, path: seq<nat>, pending: seq<seq<nat>>, i: nat)
    requires Framed(g, path, pending) && i < |path| && pending[i] != []
    ensures Framed(g, path, Dropped(pending, i))
  {
    forall m, y | 0 <= m < |path| && y in Dropped(pending, i)[m]
      ensures y in pending[m]
    {
    }
  }

  lemma {:induction false} DropExplored(g: Graph, w: Work, path: seq<nat>, pending: seq<seq<nat>>, i: nat, v: nat)
    requires Shaped(g, w) && |pending| == |path| && Explored(g, w, path, pending)
    requires i < |path| && pending[i] != [] && pending[i][|pending[i]| - 1] == v && v < |g| && Visited(w, v)
    ensures Explored(g, w, path, Dropped(pending, i))
  {
    forall m, y | 0 <= m < |path| && path[m] < |g| && y in g[path[m]]
      ensures y < |g| && (Visited(w, y) || y in Dropped(pending, i)[m])
    {
      if y in pending[m] && m == i {
        InPrefix(pending[i], y);
      }
    }
  }

  /** A pending node that has been visited can be dropped. */
  lemma {:induction false} DropInv(g: Graph, w: Work, path: seq<nat>, pending: seq<seq<nat>>, i: nat, v: nat)
    requires Inv(g, w, path, pending)
    requires i < |path| && pending[i] != [] && pending[i][|pending[i]| - 1] == v && v < |g| && Visited(w, v)
    ensures Inv(g, w, path, Dropped(pending, i))
  {
    DropPart1(g, w, path, pending, i, v);
    SamePart(g, w, path, pending, Dropped(pending, i), 0);
    SamePart(g, w, path, pending, Dropped(pending, i), 2);
    SamePart(g, w, path, pending, Dropped(pending, i), 3);
    SamePart(g, w, path, pending, Dropped(pending, i), 4);
    SamePart(g, w, path, pending, Dropped(pending, i), 5);
  }

  lemma {:induction false} DropPart1(g: Graph, w: Work, path: seq<nat>, pending: seq<seq<nat>>, i: nat, v: nat)
    requires Inv(g, w, path, pending)
    requires i < |path| && pending[i] != [] && pending[i][|pending[i]| - 1] == v && v < |g| && Visited(w, v)
    ensures Holds(g, w, path, Dropped(pending, i), 1)
  {
    assert Unfold(1);
    DropFramed(g, path, pending, i);
    DropExplored(g, w, path, pending, i, v);
  }

  /** The other parts do not speak of pending nodes. */
  lemma {:induction false} SamePart(g: Graph, w: Work, path: seq<nat>, pending: seq<seq<nat>>, pending': seq<seq<nat>>,
                                    part: nat)
    requires Shaped(g, w) && |pending| == |pending'| == |path| && (forall k :: 0 <= k < |path| ==> path[k] < |g|)
    requires part != 1 && Holds(g, w, path, pending, part)
    ensures Holds(g, w, path, pending', part)
  {
    assert Unfold(part);
  }

  // ----- ending a visit -----------------------------------------------------

  /** The end of the visit of the last path node, before a possible component is popped. */
  ghost predicate Left(g: Graph, w0: Work, w: Work, path: seq<nat>)
    requires Shaped(g, w0) && Shaped(g, w) && path != [] && (forall k :: 0 <= k < |path| ==> path[k] < |g|)
  {
    var k := |path| - 1;
    var c := path[k];
    && w.stack == w0.stack && w.component == w0.component && w.sizes == w0.sizes && w.index == w0.index
    && w.before == w0.before[c := true]
    && if k == 0 then w.nodes == w0.nodes
       else
         var u := path[k - 1];
         w.nodes == w0.nodes[u := w0.nodes[u].(lowLink := Min(w0.nodes[u].lowLink, w0.nodes[c].lowLink))]
  }

  function Min(a: nat, b: nat): nat {
    if a < b then a else b
  }

  lemma {:induction false} LeavePath(g: Graph, w0: Work, w: Work, path: seq<nat>)
    requires Shaped(g, w0) && Stacked(g, w0) && OnPath(g, w0, path) && path != []
    requires Shaped(g, w) && Left(g, w0, w, path)
    ensures forall v :: 0 <= v < |g| ==>
              w.nodes[v].index == w0.nodes[v].index && w.nodes[v].onStack == w0.nodes[v].onStack
    ensures Stacked(g, w) && OnPath(g, w, path[..|path| - 1])
  {
    var k := |path| - 1;
    var path' := path[..k];
    forall v | 0 <= v < |g|
      ensures w.nodes[v].index == w0.nodes[v].index && w.nodes[v].onStack == w0.nodes[v].onStack
      ensures Visited(w, v) == Visited(w0, v)
    {
    }
    forall v | 0 <= v < |g|
      ensures !w.before[v] <==> v in path'
    {
      if v in path && v != path[k] {
        var i :| 0 <= i < |path| && path[i] == v;
        assert path'[i] == v;
      }
    }
  }

  lemma {:induction false} LeaveExplored(g: Graph, w0: Work, w: Work, path: seq<nat>, pending: seq<seq<nat>>)
    requires Shaped(g, w0) && |pending| == |path| && path != [] && pending[|path| - 1] == []
    requires Explored(g, w0, path, pending) && Framed(g, path, pending)
    requires Shaped(g, w) && w.component == w0.component
             && (forall v :: 0 <= v < |g| ==> w.nodes[v].index == w0.nodes[v].index)
    ensures Explored(g, w, path[..|path| - 1], pending[..|path| - 1])
    ensures Framed(g, path[..|path| - 1], pending[..|path| - 1])
  {
    var k := |path| - 1;
    forall x, y | 0 <= x < |g| && Visited(w, x) && x !in path[..k] && y in g[x]
      ensures y < |g| && Visited(w, y)
    {
      assert Visited(w0, x);
      if x in path {
        InPrefix(path, x);
      }
      assert Visited(w0, y);
    }
    forall i, y | 0 <= i < k && path[i] < |g| && y in g[path[i]]
      ensures y < |g| && (Visited(w, y) || y in pending[i])
    {
      assert y < |g| && (Visited(w0, y) || y in pending[i]);
    }
  }

  /** A node whose low link is below its index reaches a lower path node. */
  lemma {:induction false} LowerAnchor(g: Graph, w: Work, path: seq<nat>) returns (below: nat)
    requires Shaped(g, w) && Stacked(g, w) && OnPath(g, w, path) && Chained(g, w, path) && path != []
    requires LowIsReached(g, w, path[|path| - 1]) && w.nodes[path[|path| - 1]].lowLink < w.nodes[path[|path| - 1]].index
    ensures below < |g| && below in path[..|path| - 1] && w.nodes[below].index < w.nodes[path[|path| - 1]].index
    ensures Reach(g, path[|path| - 1], below)
  {
    var c := path[|path| - 1];
    var low :| low in w.stack && low < |g| && w.nodes[low].index == w.nodes[c].lowLink && Reach(g, c, low);
    assert Anchored(g, w, path, low);
    below :| below in path && below < |g| && w.nodes[below].index <= w.nodes[low].index && Reach(g, low, below);
    ReachTrans(g, c, low, below);
    InPrefix(path, below);
  }

  /** Without a component to pop, what was anchored at the node that is left is anchored further
      down, through the node its low link stands for. */
  lemma {:induction false} LeaveChained(g: Graph, w0: Work, w: Work, path: seq<nat>, below: nat)
    requires Shaped(g, w0) && Chained(g, w0, path) && path != [] && path[|path| - 1] < |g|
    requires below < |g| && below in path[..|path| - 1] && w0.nodes[below].index < w0.nodes[path[|path| - 1]].index
    requires Reach(g, path[|path| - 1], below)
    requires Shaped(g, w) && w.stack == w0.stack && (forall v :: 0 <= v < |g| ==> w.nodes[v].index == w0.nodes[v].index)
    ensures Chained(g, w, path[..|path| - 1])
  {
    forall y | y in w.stack
      ensures Anchored(g, w, path[..|path| - 1], y)
    {
      assert Anchored(g, w0, path, y);
      Reanchored(g, w0, w, path, below, y);
    }
  }

  lemma {:induction false} Reanchored(g: Graph, w0: Work, w: Work, path: seq<nat>, below: nat, y: nat)
    requires Shaped(g, w0) && Shaped(g, w) && path != [] && path[|path| - 1] < |g| && Anchored(g, w0, path, y)
    requires forall v :: 0 <= v < |g| ==> w.nodes[v].index == w0.nodes[v].index
    requires below < |g| && below in path[..|path| - 1] && w0.nodes[below].index < w0.nodes[path[|path| - 1]].index
    requires Reach(g, path[|path| - 1], below)
    ensures Anchored(g, w, path[..|path| - 1], y)
  {
    var c := path[|path| - 1];
    var m :| m in path && m < |g| && w0.nodes[m].index <= w0.nodes[y].index && Reach(g, y, m);
    if m == c {
      ReachTrans(g, y, c, below);
    } else {
      InPrefix(path, m);
    }
  }

  lemma {:induction false} LastIsHighest(g: Graph, w: Work, path: seq<nat>, x: nat)
    requires Shaped(g, w) && OnPath(g, w, path) && x in path
    ensures x == path[|path| - 1] || w.nodes[x].index < w.nodes[path[|path| - 1]].index
  {
    var i :| 0 <= i < |path| && path[i] == x;
  }

  lemma {:induction false} InPrefix(path: seq<nat>, m: nat)
    requires m in path
    ensures m == path[|path| - 1] || m in path[..|path| - 1]
  {
    var i :| 0 <= i < |path| && path[i] == m;
    if i + 1 < |path| {
      assert path[..|path| - 1][i] == m;
    }
  }

  lemma {:induction false} LeaveLows(g: Graph, w0: Work, w: Work, path: seq<nat>)
    requires Shaped(g, w0) && OnPath(g, w0, path) && |path| > 1 && Lows(g, w0, path)
    requires Shaped(g, w) && Left(g, w0, w, path)
             && (forall v :: 0 <= v < |g| ==> w.nodes[v].index == w0.nodes[v].index)
    requires LowIsReached(g, w, path[|path| - 2]) && LowIsLow(g, w, path[..|path| - 1], |path| - 2)
    ensures Lows(g, w, path[..|path| - 1])
  {
    var path' := path[..|path| - 1];
    forall i | 0 <= i < |path'|
      ensures LowIsReached(g, w, path'[i]) && LowIsLow(g, w, path', i)
    {
      if i + 1 < |path'| {
        LeaveOldLow(g, w0, w, path, i);
      }
    }
  }

  lemma {:induction false} LeaveOldLow(g: Graph, w0: Work, w: Work, path: seq<nat>, i: nat)
    requires Shaped(g, w0) && OnPath(g, w0, path) && i + 2 < |path|
    requires LowIsReached(g, w0, path[i]) && LowIsLow(g, w0, path, i)
    requires Shaped(g, w) && Left(g, w0, w, path)
             && (forall v :: 0 <= v < |g| ==> w.nodes[v].index == w0.nodes[v].index)
    ensures LowIsReached(g, w, path[i]) && LowIsLow(g, w, path[..|path| - 1], i)
  {
    var path' := path[..|path| - 1];
    assert w.nodes[path[i]] == w0.nodes[path[i]];
    forall x: nat, y | InSegment(g, w, path', i, x) && y in g[x] && y in w.stack
           && w.nodes[y].index < w.nodes[path'[i]].index
      ensures w.nodes[path'[i]].lowLink <= w.nodes[y].index
    {
      assert InSegment(g, w0, path, i, x);
    }
  }

  /** The part of the stack of the node that is left becomes part of its parent's. */
  lemma {:induction false} MergedLow(g: Graph, w0: Work, w: Work, path: seq<nat>)
    requires Shaped(g, w0) && OnPath(g, w0, path) && |path| > 1
    requires LowIsLow(g, w0, path, |path| - 2) && LowIsLow(g, w0, path, |path| - 1)
    requires Shaped(g, w) && Left(g, w0, w, path)
             && (forall v :: 0 <= v < |g| ==> w.nodes[v].index == w0.nodes[v].index)
    ensures LowIsLow(g, w, path[..|path| - 1], |path| - 2)
  {
    var k := |path| - 1;
    var path', u, c := path[..k], path[k - 1], path[k];
    forall x: nat, y | InSegment(g, w, path', k - 1, x) && y in g[x] && y in w.stack
           && w.nodes[y].index < w.nodes[u].index
      ensures w.nodes[u].lowLink <= w.nodes[y].index
    {
      if w0.nodes[x].index < w0.nodes[c].index {
        assert InSegment(g, w0, path, k - 1, x);
      } else {
        assert InSegment(g, w0, path, k, x);
      }
    }
  }

  lemma {:induction false} MergedReached(g: Graph, w0: Work, w: Work, path: seq<nat>)
    requires Shaped(g, w0) && OnPath(g, w0, path) && |path| > 1
    requires LowIsReached(g, w0, path[|path| - 2]) && LowIsReached(g, w0, path[|path| - 1])
    requires Reach(g, path[|path| - 2], path[|path| - 1])
    requires Shaped(g, w) && Left(g, w0, w, path)
             && (forall v :: 0 <= v < |g| ==> w.nodes[v].index == w0.nodes[v].index)
    ensures LowIsReached(g, w, path[|path| - 2])
  {
    var u, c := path[|path| - 2], path[|path| - 1];
    if w0.nodes[c].lowLink < w0.nodes[u].lowLink {
      var y :| y in w0.stack && y < |g| && w0.nodes[y].index == w0.nodes[c].lowLink && Reach(g, c, y);
      ReachTrans(g, u, c, y);
    }
  }

  lemma {:induction false} LeavePart0(g: Graph, w0: Work, w: Work, path: seq<nat>, pending: seq<seq<nat>>)
    requires Inv(g, w0, path, pending) && path != [] && pending[|path| - 1] == []
    requires Shaped(g, w) && Left(g, w0, w, path)
    ensures Holds(g, w, path[..|path| - 1], pending[..|path| - 1], 0)
    ensures forall v :: 0 <= v < |g| ==> w.nodes[v].index == w0.nodes[v].index
  {
    assert Unfold(0);
    LeavePath(g, w0, w, path);
  }

  lemma {:induction false} LeavePart1(g: Graph, w0: Work, w: Work, path: seq<nat>, pending: seq<seq<nat>>)
    requires Inv(g, w0, path, pending) && path != [] && pending[|path| - 1] == []
    requires Shaped(g, w) && Left(g, w0, w, path)
    requires forall v :: 0 <= v < |g| ==> w.nodes[v].index == w0.nodes[v].index
    ensures Holds(g, w, path[..|path| - 1], pending[..|path| - 1], 1)
  {
    assert Unfold(1);
    LeaveExplored(g, w0, w, path, pending);
  }

  lemma {:induction false} LeavePart23(g: Graph, w0: Work, w: Work, path: seq<nat>, pending: seq<seq<nat>>)
    requires Inv(g, w0, path, pending) && path != [] && pending[|path| - 1] == []
    requires Shaped(g, w) && Left(g, w0, w, path)
    requires w0.nodes[path[|path| - 1]].lowLink < w0.nodes[path[|path| - 1]].index
    requires forall v :: 0 <= v < |g| ==> w.nodes[v].index == w0.nodes[v].index
    ensures Holds(g, w, path[..|path| - 1], pending[..|path| - 1], 2)
            && Holds(g, w, path[..|path| - 1], pending[..|path| - 1], 3)
  {
    assert Unfold(0) && Unfold(2) && Unfold(3);
    LeaveLinks(g, w0, w, path);
  }

  lemma {:induction false} LeavePart45(g: Graph, w0: Work, w: Work, path: seq<nat>, pending: seq<seq<nat>>)
    requires Inv(g, w0, path, pending) && path != [] && pending[|path| - 1] == []
    requires Shaped(g, w) && Left(g, w0, w, path)
    requires forall v :: 0 <= v < |g| ==> w.nodes[v].index == w0.nodes[v].index
    ensures Holds(g, w, path[..|path| - 1], pending[..|path| - 1], 4)
            && Holds(g, w, path[..|path| - 1], pending[..|path| - 1], 5)
  {
    assert Unfold(4) && Unfold(5);
    assert VisitedSet(w) == VisitedSet(w0);
  }

  lemma {:induction false} LeaveInv(g: Graph, w0: Work, w: Work, path: seq<nat>, pending: seq<seq<nat>>)
    requires Inv(g, w0, path, pending) && path != [] && pending[|path| - 1] == []
    requires Shaped(g, w) && Left(g, w0, w, path)
    requires w0.nodes[path[|path| - 1]].lowLink < w0.nodes[path[|path| - 1]].index
    ensures Inv(g, w, path[..|path| - 1], pending[..|path| - 1])
  {
    LeavePart0(g, w0, w, path, pending);
    LeavePart1(g, w0, w, path, pending);
    LeavePart23(g, w0, w, path, pending);
    LeavePart45(g, w0, w, path, pending);
  }

  lemma {:induction false} LeaveLinks(g: Graph, w0: Work, w: Work, path: seq<nat>)
    requires Shaped(g, w0) && Stacked(g, w0) && OnPath(g, w0, path) && Chained(g, w0, path) && Lows(g, w0, path)
             && path != []
    requires w0.nodes[path[|path| - 1]].lowLink < w0.nodes[path[|path| - 1]].index
    requires Shaped(g, w) && Left(g, w0, w, path)
             && (forall v :: 0 <= v < |g| ==> w.nodes[v].index == w0.nodes[v].index)
    ensures Chained(g, w, path[..|path| - 1]) && Lows(g, w, path[..|path| - 1])
  {
    var below := LowerAnchor(g, w0, path);
    LeaveChained(g, w0, w, path, below);
    LeaveAllLows(g, w0, w, path);
  }

  lemma {:induction false} LeaveAllLows(g: Graph, w0: Work, w: Work, path: seq<nat>)
    requires Shaped(g, w0) && Stacked(g, w0) && OnPath(g, w0, path) && Chained(g, w0, path) && Lows(g, w0, path)
             && |path| > 1
    requires Shaped(g, w) && Left(g, w0, w, path)
             && (forall v :: 0 <= v < |g| ==> w.nodes[v].index == w0.nodes[v].index)
    ensures Lows(g, w, path[..|path| - 1])
  {
    PathReachesLast(g, w0, path, path[|path| - 2]);
    MergedLow(g, w0, w, path);
    MergedReached(g, w0, w, path);
    LeaveLows(g, w0, w, path);
  }

  // ----- a component is complete --------------------------------------------

  /** The component of c, the stack from position j on, has been popped. */
  ghost predicate Popped(g: Graph, w0: Work, w: Work, path: seq<nat>, j: nat)
    requires Shaped(g, w0) && Shaped(g, w) && path != [] && (forall k :: 0 <= k < |path| ==> path[k] < |g|)
  {
    var c := path[|path| - 1];
    && j < |w0.stack| && w0.stack[j] == c
    && w.stack == w0.stack[..j] && w.index == w0.index
    && w.before == w0.before[c := true]
    && w.sizes == w0.sizes + [|w0.stack| - j]
    && (forall v :: 0 <= v < |g| ==>
          w.nodes[v].index == w0.nodes[v].index && w.nodes[v].lowLink == w0.nodes[v].lowLink)
    && (forall v :: 0 <= v < |g| ==>
          if v in w0.stack[j..] then w.component[v] == |w0.sizes| && !w.nodes[v].onStack
          else w.component[v] == w0.component[v] && w.nodes[v].onStack == w0.nodes[v].onStack)
  }

  /** The popped nodes are those whose index is not below that of c. */
  lemma {:induction false} PoppedNodes(g: Graph, w: Work, j: nat, x: nat)
    requires Shaped(g, w) && Stacked(g, w) && j < |w.stack| && x in w.stack && x < |g|
    ensures x in w.stack[j..] <==> w.nodes[w.stack[j]].index <= w.nodes[x].index
    ensures x in w.stack[..j] <==> w.nodes[x].index < w.nodes[w.stack[j]].index
  {
    var i :| 0 <= i < |w.stack| && w.stack[i] == x;
    if i < j {
      assert w.stack[..j][i] == x;
    } else {
      assert w.stack[j..][i - j] == x;
    }
    assert x in w.stack[j..] ==> exists i :: 0 <= i < |w.stack[j..]| && w.stack[j..][i] == x;
    assert x in w.stack[..j] ==> exists i :: 0 <= i < |w.stack[..j]| && w.stack[..j][i] == x;
  }

  /** No edge leaves the popped nodes and the earlier components. */
  lemma {:induction false} RootCloses(g: Graph, w: Work, path: seq<nat>, pending: seq<seq<nat>>, j: nat, x: nat, y: nat)
    requires Shaped(g, w) && Stacked(g, w) && OnPath(g, w, path) && path != [] && |pending| == |path|
             && pending[|path| - 1] == []
    requires Explored(g, w, path, pending) && LowIsLow(g, w, path, |path| - 1)
    requires j < |w.stack| && w.stack[j] == path[|path| - 1]
    requires w.nodes[path[|path| - 1]].lowLink == w.nodes[path[|path| - 1]].index
    requires x < |g| && x in w.stack[j..] && y in g[x]
    ensures y < |g| && (w.component[y] != SPECIAL || y in w.stack[j..])
  {
    var k := |path| - 1;
    assert x in w.stack;
    PoppedNodes(g, w, j, x);
    assert y < |g| && Visited(w, y) by {
      if x in path {
        LastIsHighest(g, w, path, x);
      }
    }
    if w.component[y] == SPECIAL {
      assert y in w.stack;
      assert InSegment(g, w, path, k, x);
      PoppedNodes(g, w, j, y);
    }
  }

  /** Popped nodes are connected with c, hence with each other. */
  lemma {:induction false} PoppedConnected(g: Graph, w: Work, path: seq<nat>, j: nat, x: nat)
    requires Shaped(g, w) && Stacked(g, w) && OnPath(g, w, path) && Chained(g, w, path) && path != []
    requires j < |w.stack| && w.stack[j] == path[|path| - 1] && x in w.stack[j..]
    ensures Connected(g, x, path[|path| - 1])
  {
    var c := path[|path| - 1];
    var i :| 0 <= i < |w.stack[j..]| && w.stack[j..][i] == x;
    assert w.stack[j + i] == x;
    if i == 0 {
      ReachSelf(g, c);
    }
    assert Anchored(g, w, path, x);
    var m :| m in path && m < |g| && w.nodes[m].index <= w.nodes[x].index && Reach(g, x, m);
    PathReachesLast(g, w, path, m);
    ReachTrans(g, x, m, c);
  }

  lemma {:induction false} FinishedStays(g: Graph, w: Work, path: seq<nat>, pending: seq<seq<nat>>, u: nat, v: nat)
    requires Shaped(g, w) && |pending| == |path| && Explored(g, w, path, pending)
    requires u < |g| && v < |g| && w.component[u] != SPECIAL && Reach(g, u, v)
    ensures w.component[v] != SPECIAL
  {
    var done := set x: nat | 0 <= x < |g| && w.component[x] != SPECIAL;
    var p :| IsWalk(Arcs(g), u, p, v);
    ClosedUnderReach(g, done, u, p, v);
  }

  lemma {:induction false} PopClasses(g: Graph, w0: Work, w: Work, path: seq<nat>, pending: seq<seq<nat>>, j: nat)
    requires Shaped(g, w0) && Stacked(g, w0) && OnPath(g, w0, path) && Chained(g, w0, path) && path != []
    requires |pending| == |path| && Explored(g, w0, path, pending) && Classes(g, w0)
    requires |w0.sizes| < SPECIAL
    requires Shaped(g, w) && Popped(g, w0, w, path, j)
    ensures forall u, v :: 0 <= u < |g| && 0 <= v < |g| && w.component[u] != SPECIAL && w.component[v] != SPECIAL ==>
              (w.component[u] == w.component[v] <==> Connected(g, u, v))
  {
    var c := path[|path| - 1];
    forall x | x in w0.stack[j..]
      ensures x < |g| && Connected(g, x, c) && w0.component[x] == SPECIAL
    {
      assert x in w0.stack;
      PoppedConnected(g, w0, path, j, x);
    }
    forall u: nat, v: nat | u < |g| && v < |g| && w.component[u] != SPECIAL && w.component[v] != SPECIAL
      ensures w.component[u] == w.component[v] <==> Connected(g, u, v)
    {
      var uNew, vNew := u in w0.stack[j..], v in w0.stack[j..];
      if uNew && vNew {
        ReachTrans(g, u, c, v);
        ReachTrans(g, v, c, u);
      } else if Connected(g, u, v) && uNew != vNew {
        if uNew {
          FinishedStays(g, w0, path, pending, v, u);
        } else {
          FinishedStays(g, w0, path, pending, u, v);
        }
      }
    }
  }

  lemma {:induction false} PopSizes(g: Graph, w0: Work, w: Work, path: seq<nat>, j: nat)
    requires Shaped(g, w0) && Stacked(g, w0) && path != [] && (forall k :: 0 <= k < |path| ==> path[k] < |g|)
    requires forall k :: 0 <= k < |w0.sizes| ==> w0.sizes[k] == |Members(w0.component, k)| > 0
    requires |w0.sizes| < SPECIAL
    requires Shaped(g, w) && Popped(g, w0, w, path, j)
    ensures forall k :: 0 <= k < |w.sizes| ==> w.sizes[k] == |Members(w.component, k)| > 0
  {
    StackSize(g, w0, j);
    forall x | x in w0.stack[j..]
      ensures x < |g| && w0.component[x] == SPECIAL
    {
      assert x in w0.stack;
    }
    forall k | 0 <= k < |w.sizes|
      ensures w.sizes[k] == |Members(w.component, k)| > 0
    {
      if k < |w0.sizes| {
        assert Members(w.component, k) == Members(w0.component, k);
      } else {
        assert Members(w.component, k) == Elements(w0.stack[j..]);
      }
    }
  }

  ghost function Elements(s: seq<nat>): set<nat> {
    set x | x in s
  }

  lemma {:induction false} DistinctSize(s: seq<nat>)
    requires forall a, b :: 0 <= a < b < |s| ==> s[a] != s[b]
    ensures |Elements(s)| == |s|
  {
    if s != [] {
      var k := |s| - 1;
      DistinctSize(s[..k]);
      forall x | x in s
        ensures x in s[..k] || x == s[k]
      {
        InPrefix(s, x);
      }
      assert Elements(s) == Elements(s[..k]) + {s[k]};
      assert s[k] !in Elements(s[..k]);
    }
  }

  lemma {:induction false} StackSize(g: Graph, w: Work, j: nat)
    requires Shaped(g, w) && Stacked(g, w) && j <= |w.stack|
    ensures |Elements(w.stack[j..])| == |w.stack| - j
  {
    var popped := w.stack[j..];
    forall a, b | 0 <= a < b < |popped|
      ensures popped[a] != popped[b]
    {
      assert w.nodes[w.stack[j + a]].index < w.nodes[w.stack[j + b]].index;
    }
    DistinctSize(popped);
  }

  lemma {:induction false} PopStacked(g: Graph, w0: Work, w: Work, path: seq<nat>, j: nat)
    requires Shaped(g, w0) && Stacked(g, w0) && path != [] && (forall k :: 0 <= k < |path| ==> path[k] < |g|)
    requires |w0.sizes| < SPECIAL
    requires Shaped(g, w) && Popped(g, w0, w, path, j)
    ensures Stacked(g, w)
  {
    forall v | 0 <= v < |g|
      ensures w.nodes[v].onStack <==> v in w.stack
      ensures w.nodes[v].onStack ==> w0.nodes[v].onStack
      ensures w.component[v] != SPECIAL <==> Visited(w, v) && !w.nodes[v].onStack
      ensures w.component[v] != SPECIAL ==> w.component[v] < |w.sizes|
    {
      assert v in w0.stack[j..] ==> v in w0.stack;
      assert v in w0.stack[..j] ==> v in w0.stack;
      if v in w0.stack {
        PoppedNodes(g, w0, j, v);
      }
    }
  }

  lemma {:induction false} PopPath(g: Graph, w0: Work, w: Work, path: seq<nat>, j: nat)
    requires Shaped(g, w0) && Stacked(g, w0) && OnPath(g, w0, path) && path != []
    requires Shaped(g, w) && Popped(g, w0, w, path, j)
    ensures OnPath(g, w, path[..|path| - 1])
  {
    var k := |path| - 1;
    var path', c := path[..k], path[k];
    forall i | 0 <= i < k
      ensures path'[i] in w.stack
    {
      PoppedNodes(g, w0, j, path[i]);
    }
    forall v | 0 <= v < |g|
      ensures !w.before[v] <==> v in path'
    {
      if v in path {
        InPrefix(path, v);
      }
    }
  }

  lemma {:induction false} PopChained(g: Graph, w0: Work, w: Work, path: seq<nat>, j: nat)
    requires Shaped(g, w0) && Stacked(g, w0) && (forall k :: 0 <= k < |path| ==> path[k] < |g|) && Chained(g, w0, path)
             && path != []
    requires Shaped(g, w) && Popped(g, w0, w, path, j)
    ensures Chained(g, w, path[..|path| - 1])
  {
    forall y | y in w.stack
      ensures Anchored(g, w, path[..|path| - 1], y)
    {
      assert y in w0.stack;
      PoppedNodes(g, w0, j, y);
      assert Anchored(g, w0, path, y);
      var m :| m in path && m < |g| && w0.nodes[m].index <= w0.nodes[y].index && Reach(g, y, m);
      InPrefix(path, m);
    }
  }

  lemma {:induction false} PopLows(g: Graph, w0: Work, w: Work, path: seq<nat>, j: nat)
    requires Shaped(g, w0) && Stacked(g, w0) && OnPath(g, w0, path) && path != [] && Lows(g, w0, path)
    requires Shaped(g, w) && Popped(g, w0, w, path, j)
    ensures Lows(g, w, path[..|path| - 1])
  {
    var path', c := path[..|path| - 1], path[|path| - 1];
    forall x | x in w0.stack[..j]
      ensures x < |g| && w0.nodes[x].index < w0.nodes[c].index
    {
      PoppedNodes(g, w0, j, x);
    }
    forall i | 0 <= i < |path'|
      ensures LowIsReached(g, w, path'[i]) && LowIsLow(g, w, path', i)
    {
      PopReached(g, w0, w, path, j, path[i]);
      PopLow(g, w0, w, path, j, i);
    }
  }

  lemma {:induction false} PopReached(g: Graph, w0: Work, w: Work, path: seq<nat>, j: nat, v: nat)
    requires Shaped(g, w0) && Stacked(g, w0) && path != [] && (forall k :: 0 <= k < |path| ==> path[k] < |g|)
    requires v < |g| && LowIsReached(g, w0, v) && w0.nodes[v].index < w0.nodes[path[|path| - 1]].index
    requires Shaped(g, w) && Popped(g, w0, w, path, j)
    ensures LowIsReached(g, w, v)
  {
    var y :| y in w0.stack && y < |g| && w0.nodes[y].index == w0.nodes[v].lowLink && Reach(g, v, y);
    PoppedNodes(g, w0, j, y);
  }

  lemma {:induction false} PopLow(g: Graph, w0: Work, w: Work, path: seq<nat>, j: nat, i: nat)
    requires Shaped(g, w0) && (forall k :: 0 <= k < |path| ==> path[k] < |g|) && i + 1 < |path|
             && LowIsLow(g, w0, path, i)
    requires Shaped(g, w) && Popped(g, w0, w, path, j)
    requires forall x :: x in w0.stack[..j] ==> w0.nodes[x].index < w0.nodes[path[|path| - 1]].index
    ensures LowIsLow(g, w, path[..|path| - 1], i)
  {
    var path' := path[..|path| - 1];
    forall x: nat, y | InSegment(g, w, path', i, x) && y in g[x] && y in w.stack
           && w.nodes[y].index < w.nodes[path'[i]].index
      ensures w.nodes[path'[i]].lowLink <= w.nodes[y].index
    {
      assert x in w0.stack && y in w0.stack;
      assert InSegment(g, w0, path, i, x);
    }
  }

  lemma {:induction false} PopExplored(g: Graph, w0: Work, w: Work, path: seq<nat>, pending: seq<seq<nat>>, j: nat)
    requires Shaped(g, w0) && Stacked(g, w0) && OnPath(g, w0, path) && path != [] && |pending| == |path|
             && pending[|path| - 1] == []
    requires Explored(g, w0, path, pending) && Framed(g, path, pending) && LowIsLow(g, w0, path, |path| - 1)
    requires w0.nodes[path[|path| - 1]].lowLink == w0.nodes[path[|path| - 1]].index
    requires |w0.sizes| < SPECIAL
    requires Shaped(g, w) && Popped(g, w0, w, path, j)
    ensures Explored(g, w, path[..|path| - 1], pending[..|path| - 1])
    ensures Framed(g, path[..|path| - 1], pending[..|path| - 1])
  {
    var k := |path| - 1;
    var between := w.(component := w0.component);
    LeaveExplored(g, w0, between, path, pending);
    forall x: nat, y | x < |g| && w.component[x] != SPECIAL && y in g[x]
      ensures y < |g| && w.component[y] != SPECIAL
    {
      if x in w0.stack[j..] {
        RootCloses(g, w0, path, pending, j, x, y);
      }
    }
    forall x: nat, y | x < |g| && Visited(w, x) && x !in path[..k] && y in g[x]
      ensures y < |g| && Visited(w, y)
    {
      assert Visited(between, x);
      assert Visited(between, y);
    }
    forall i, y | 0 <= i < k && path[i] < |g| && y in g[path[i]]
      ensures y < |g| && (Visited(w, y) || y in pending[i])
    {
      assert y < |g| && (Visited(between, y) || y in pending[..k][i]);
    }
  }

  lemma {:induction false} PopPart0(g: Graph, w0: Work, w: Work, path: seq<nat>, pending: seq<seq<nat>>, j: nat)
    requires Inv(g, w0, path, pending) && path != [] && pending[|path| - 1] == [] && |w0.sizes| < SPECIAL
    requires w0.nodes[path[|path| - 1]].lowLink == w0.nodes[path[|path| - 1]].index
    requires Shaped(g, w) && Popped(g, w0, w, path, j)
    ensures Holds(g, w, path[..|path| - 1], pending[..|path| - 1], 0)
  {
    assert Unfold(0);
    PopStacked(g, w0, w, path, j);
    PopPath(g, w0, w, path, j);
  }

  lemma {:induction false} PopPart1(g: Graph, w0: Work, w: Work, path: seq<nat>, pending: seq<seq<nat>>, j: nat)
    requires Inv(g, w0, path, pending) && path != [] && pending[|path| - 1] == [] && |w0.sizes| < SPECIAL
    requires w0.nodes[path[|path| - 1]].lowLink == w0.nodes[path[|path| - 1]].index
    requires Shaped(g, w) && Popped(g, w0, w, path, j)
    ensures Holds(g, w, path[..|path| - 1], pending[..|path| - 1], 1)
  {
    assert Unfold(0) && Unfold(1) && Unfold(3);
    PopExplored(g, w0, w, path, pending, j);
  }

  lemma {:induction false} PopPart2(g: Graph, w0: Work, w: Work, path: seq<nat>, pending: seq<seq<nat>>, j: nat)
    requires Inv(g, w0, path, pending) && path != [] && pending[|path| - 1] == [] && |w0.sizes| < SPECIAL
    requires w0.nodes[path[|path| - 1]].lowLink == w0.nodes[path[|path| - 1]].index
    requires Shaped(g, w) && Popped(g, w0, w, path, j)
    ensures Holds(g, w, path[..|path| - 1], pending[..|path| - 1], 2)
  {
    assert Unfold(0) && Unfold(2);
    PopChained(g, w0, w, path, j);
  }

  lemma {:induction false} PopPart3(g: Graph, w0: Work, w: Work, path: seq<nat>, pending: seq<seq<nat>>, j: nat)
    requires Inv(g, w0, path, pending) && path != [] && pending[|path| - 1] == [] && |w0.sizes| < SPECIAL
    requires w0.nodes[path[|path| - 1]].lowLink == w0.nodes[path[|path| - 1]].index
    requires Shaped(g, w) && Popped(g, w0, w, path, j)
    ensures Holds(g, w, path[..|path| - 1], pending[..|path| - 1], 3)
  {
    assert Unfold(0) && Unfold(3);
    PopLows(g, w0, w, path, j);
  }

  lemma {:induction false} PopPart45(g: Graph, w0: Work, w: Work, path: seq<nat>, pending: seq<seq<nat>>, j: nat)
    requires Inv(g, w0, path, pending) && path != [] && pending[|path| - 1] == [] && |w0.sizes| < SPECIAL
    requires w0.nodes[path[|path| - 1]].lowLink == w0.nodes[path[|path| - 1]].index
    requires Shaped(g, w) && Popped(g, w0, w, path, j)
    ensures Holds(g, w, path[..|path| - 1], pending[..|path| - 1], 4)
            && Holds(g, w, path[..|path| - 1], pending[..|path| - 1], 5)
  {
    assert Unfold(0) && Unfold(1) && Unfold(2) && Unfold(4) && Unfold(5);
    PopClasses(g, w0, w, path, pending, j);
    PopSizes(g, w0, w, path, j);
    assert VisitedSet(w) == VisitedSet(w0);
  }

  lemma {:induction false} PopInv(g: Graph, w0: Work, w: Work, path: seq<nat>, pending: seq<seq<nat>>, j: nat)
    requires Inv(g, w0, path, pending) && path != [] && pending[|path| - 1] == []
    requires w0.nodes[path[|path| - 1]].lowLink == w0.nodes[path[|path| - 1]].index
    requires Shaped(g, w) && Popped(g, w0, w, path, j)
    ensures Inv(g, w, path[..|path| - 1], pending[..|path| - 1])
  {
    RoomForComponent(g, w0, path, pending);
    PopPart0(g, w0, w, path, pending, j);
    PopPart1(g, w0, w, path, pending, j);
    PopPart2(g, w0, w, path, pending, j);
    PopPart3(g, w0, w, path, pending, j);
    PopPart45(g, w0, w, path, pending, j);
  }

  /** While the Tarjan stack is not empty there is a component id left. */
  lemma {:induction false} RoomForComponent(g: Graph, w: Work, path: seq<nat>, pending: seq<seq<nat>>)
    requires Inv(g, w, path, pending) && w.stack != []
    ensures |w.sizes| < SPECIAL
  {
    assert Unfold(5);
    VisitedBound(g, w);
  }

  lemma {:induction false} VisitedBound(g: Graph, w: Work)
    requires Shaped(g, w)
    ensures |VisitedSet(w)| <= |g|
    ensures (exists v :: 0 <= v < |g| && !Visited(w, v)) ==> |VisitedSet(w)| < |g|
  {
    UptoSize(|g|);
    var all := Upto(|g|);
    forall v | v in VisitedSet(w)
      ensures v in all
    {
      UptoMember(|g|, v);
    }
    SubsetSize(VisitedSet(w), all);
    if v :| 0 <= v < |g| && !Visited(w, v) {
      UptoMember(|g|, v);
      SubsetSize(VisitedSet(w) + {v}, all);
    }
  }

  // ----- the algorithm ------------------------------------------------------

  /** Before the recursion: number v, push it, and scan its edges. */
  method BeginVisit(g: Graph, w0: Work, frames: seq<Frame>, v: nat)
      returns (w: Work, recursion: seq<Frame>, ghost found: seq<nat>, ghost low: nat)
    requires Shaped(g, w0) && Stacked(g, w0) && v < |g| && !Visited(w0, v) && w0.index < SPECIAL
    ensures Shaped(g, w) && Entered(g, w0, w, v, low) && Scanned(g, w0, v, found, low)
    ensures recursion == frames + FramesOf(found, v)
  {
    var nodes := w0.nodes[v := TarjanNode(w0.index, w0.index, true)];
    recursion, found, low := frames, [], w0.index;
    for k := 0 to |g[v]|
      invariant nodes == w0.nodes[v := TarjanNode(w0.index, low, true)] && low <= w0.index
      invariant recursion == frames + FramesOf(found, v)
      invariant forall y :: y in found ==> y in g[v] && y < |g| && y != v && !Visited(w0, y)
      invariant forall i :: 0 <= i < k && g[v][i] != v && !Visited(w0, g[v][i]) ==> g[v][i] in found
      invariant forall i :: 0 <= i < k && w0.nodes[g[v][i]].onStack ==> low <= w0.nodes[g[v][i]].index
      invariant low < w0.index ==> exists y :: y in g[v] && y in w0.stack && w0.nodes[y].index == low
    {
      var target := g[v][k];
      if nodes[target].index == SPECIAL {
        recursion := recursion + [Frame(target, v)];
        assert FramesOf(found + [target], v) == FramesOf(found, v) + [Frame(target, v)];
        found := found + [target];
      } else if nodes[target].onStack && nodes[target].index < nodes[v].lowLink {
        nodes := nodes[v := nodes[v].(lowLink := nodes[target].index)];
        low := w0.nodes[target].index;
        assert target in g[v] && target in w0.stack;
      }
    }
    w := Work(w0.stack + [v], nodes, w0.before[v := false], w0.component, w0.sizes, w0.index + 1);
  }

  /** Pops the Tarjan stack down to v into a new component. */
  method PopComponent(g: Graph, w0: Work, v: nat, ghost j: nat) returns (w: Work)
    requires Shaped(g, w0) && j < |w0.stack| && w0.stack[j] == v
    requires forall a, b :: 0 <= a < b < |w0.stack| ==> w0.stack[a] != w0.stack[b]
    ensures Shaped(g, w) && w.stack == w0.stack[..j] && w.index == w0.index && w.before == w0.before
    ensures w.sizes == w0.sizes + [|w0.stack| - j]
    ensures forall x :: 0 <= x < |g| ==>
              w.nodes[x].index == w0.nodes[x].index && w.nodes[x].lowLink == w0.nodes[x].lowLink
    ensures forall x :: 0 <= x < |g| ==>
              if x in w0.stack[j..] then w.component[x] == |w0.sizes| && !w.nodes[x].onStack
              else w.component[x] == w0.component[x] && w.nodes[x].onStack == w0.nodes[x].onStack
  {
    var stack, nodes, component, size := w0.stack, w0.nodes, w0.component, 0;
    var more := true;
    while more
      invariant j <= |stack| <= |w0.stack| && stack == w0.stack[..|stack|]
      invariant more <==> |stack| > j
      invariant size == |w0.stack| - |stack|
      invariant |nodes| == |component| == |g|
      invariant forall x :: 0 <= x < |g| ==>
                  nodes[x].index == w0.nodes[x].index && nodes[x].lowLink == w0.nodes[x].lowLink
      invariant forall x :: 0 <= x < |g| ==>
                  if x in w0.stack[|stack|..] then component[x] == |w0.sizes| && !nodes[x].onStack
                  else component[x] == w0.component[x] && nodes[x].onStack == w0.nodes[x].onStack
      decreases |stack|
    {
      var top := stack[|stack| - 1];
      assert w0.stack[|stack| - 1..] == [top] + w0.stack[|stack|..];
      stack := stack[..|stack| - 1];
      nodes := nodes[top := nodes[top].(onStack := false)];
      component := component[top := |w0.sizes|];
      size := size + 1;
      more := v != top;
    }
    w := Work(stack, nodes, w0.before, component, w0.sizes + [size], w0.index);
  }

  /** What the end of a visit reads from the invariant. */
  lemma {:induction false} EndFacts(g: Graph, w: Work, path: seq<nat>, pending: seq<seq<nat>>)
    requires Inv(g, w, path, pending) && path != []
    ensures forall a, b :: 0 <= a < b < |w.stack| ==> w.stack[a] != w.stack[b]
    ensures path[|path| - 1] in w.stack
    ensures var v := w.nodes[path[|path| - 1]];
            && v.lowLink <= v.index
            && (|path| > 1 ==> w.nodes[path[|path| - 2]].lowLink < v.index && path[|path| - 2] != path[|path| - 1])
  {
    assert Unfold(0) && Unfold(3);
    assert LowIsReached(g, w, path[|path| - 1]);
    assert |path| > 1 ==> LowIsReached(g, w, path[|path| - 2]);
  }

  lemma {:induction false} SameVisited(w0: Work, w: Work)
    requires |w.nodes| == |w0.nodes| && forall v :: 0 <= v < |w.nodes| ==> w.nodes[v].index == w0.nodes[v].index
    ensures VisitedSet(w) == VisitedSet(w0)
  {
  }

  /** After the recursion: pass the low link to the parent and pop a complete component. */
  method EndVisit(g: Graph, w0: Work, v: nat, u: nat, ghost path: seq<nat>, ghost pending: seq<seq<nat>>)
      returns (w: Work)
    requires Inv(g, w0, path, pending) && path != [] && pending[|path| - 1] == []
    requires v == path[|path| - 1] && u == if |path| == 1 then v else path[|path| - 2]
    ensures Inv(g, w, path[..|path| - 1], pending[..|path| - 1]) && VisitedSet(w) == VisitedSet(w0)
  {
    EndFacts(g, w0, path, pending);
    var nodes := w0.nodes[u := w0.nodes[u].(lowLink := Min(w0.nodes[u].lowLink, w0.nodes[v].lowLink))];
    w := w0.(before := w0.before[v := true], nodes := nodes);
    if nodes[v].lowLink == nodes[v].index {
      assert nodes == w0.nodes;
      ghost var j :| 0 <= j < |w0.stack| && w0.stack[j] == v;
      w := PopComponent(g, w, v, j);
      PopInv(g, w0, w, path, pending, j);
    } else {
      LeaveInv(g, w0, w, path, pending);
    }
    SameVisited(w0, w);
  }

  /** The recursion stack is the frames of the path, or the root's frame before its visit. */
  ghost predicate Recursing(recursion: seq<Frame>, node: nat, path: seq<nat>, pending: seq<seq<nat>>, started: bool) {
    |path| == |pending| &&
    if started then recursion == Frames(path, pending) else path == [] && recursion == [Frame(node, node)]
  }

  lemma {:induction false} PoppedFrame(g: Graph, w: Work, recursion: seq<Frame>, node: nat, path: seq<nat>,
                                       pending: seq<seq<nat>>, started: bool)
    requires Inv(g, w, path, pending) && Recursing(recursion, node, path, pending, started) && recursion != []
             && node < |g|
    ensures var top := recursion[|recursion| - 1];
            && top.v < |g|
            && (path == [] ==> !started && top == Frame(node, node) && w.before[top.v])
            && (path != [] && pending[|path| - 1] == [] ==>
                  && top == Frame(path[|path| - 1], if |path| == 1 then path[0] else path[|path| - 2])
                     && !w.before[top.v]
                  && recursion[..|recursion| - 1] == Frames(path[..|path| - 1], pending[..|path| - 1]))
            && (path != [] && pending[|path| - 1] != [] ==>
                  && w.before[top.v] && top.parent == path[|path| - 1] && top.v in g[path[|path| - 1]]
                  && top.v == pending[|path| - 1][|pending[|path| - 1]| - 1]
                  && recursion[..|recursion| - 1] == Frames(path, Dropped(pending, |path| - 1)))
  {
    BeforeFlags(g, w, path, pending);
    if path != [] {
      FramesPop(path, pending, recursion);
      var last := pending[|path| - 1];
      assert last != [] ==> last[|last| - 1] in last;
    }
  }

  lemma {:induction false} BeforeFlags(g: Graph, w: Work, path: seq<nat>, pending: seq<seq<nat>>)
    requires Inv(g, w, path, pending)
    ensures path == [] ==> forall v :: 0 <= v < |g| ==> w.before[v]
    ensures path != [] ==> !w.before[path[|path| - 1]]
    ensures path != [] ==> forall y :: y in pending[|path| - 1] ==> y < |g| && y in g[path[|path| - 1]] && w.before[y]
  {
    assert Unfold(0) && Unfold(1);
    if path != [] {
      var k := |path| - 1;
      forall y | y in pending[k]
        ensures y < |g| && y in g[path[k]] && y !in path
      {
        assert forall m :: 0 <= m <= k ==> path[m] != y;
      }
    }
  }

  /** One turn of the loop: a frame is popped and its node skipped, begun or ended. */
  method HandleFrame(g: Graph, w0: Work, frames: seq<Frame>, node: nat, ghost path0: seq<nat>,
                     ghost pending0: seq<seq<nat>>, ghost started: bool)
      returns (w: Work, recursion: seq<Frame>, ghost path: seq<nat>, ghost pending: seq<seq<nat>>)
    requires Inv(g, w0, path0, pending0) && Recursing(frames, node, path0, pending0, started)
    requires frames != [] && node < |g| && (started <==> node in VisitedSet(w0))
    ensures Inv(g, w, path, pending) && Recursing(recursion, node, path, pending, true)
    ensures VisitedSet(w0) + {node} <= VisitedSet(w)
    ensures VisitedSet(w) == VisitedSet(w0) ==> |recursion| < |frames|
  {
    PoppedFrame(g, w0, frames, node, path0, pending0, started);
    var frame := frames[|frames| - 1];
    var v := frame.v;
    recursion := frames[..|frames| - 1];
    if w0.before[v] && w0.nodes[v].index != SPECIAL {
      w, path := w0, path0;
      DropInv(g, w, path, pending0, |path| - 1, v);
      pending := Dropped(pending0, |path| - 1);
    } else if w0.before[v] {
      VisitBound(g, w0, path0, pending0, v);
      ghost var found, low;
      w, recursion, found, low := BeginVisit(g, w0, recursion + [frame], v);
      path, pending := Entering(g, w0, w, path0, pending0, v, found, low);
      FramesPush(path0, if path0 == [] then pending0 else Dropped(pending0, |path0| - 1), v, found);
    } else {
      w := EndVisit(g, w0, v, frame.parent, path0, pending0);
      path, pending := path0[..|path0| - 1], pending0[..|path0| - 1];
    }
  }

  /** The search from one root. */
  method Explore(g: Graph, w0: Work, node: nat) returns (w: Work)
    requires Inv(g, w0, [], []) && node < |g| && !Visited(w0, node)
    ensures Inv(g, w, [], []) && VisitedSet(w0) + {node} <= VisitedSet(w)
  {
    w := w0;
    var recursion := [Frame(node, node)];
    ghost var path: seq<nat>, pending: seq<seq<nat>>, started := [], [], false;
    while recursion != []
      invariant Inv(g, w, path, pending) && Recursing(recursion, node, path, pending, started)
      invariant VisitedSet(w0) <= VisitedSet(w) && (started <==> node in VisitedSet(w)) && (recursion == [] ==> started)
      decreases |g| - |VisitedSet(w)|, |recursion|
    {
      ghost var before := w;
      w, recursion, path, pending := HandleFrame(g, w, recursion, node, path, pending, started);
      started := true;
      VisitedShrinks(g, before, w);
    }
    NoFrames(path, pending);
  }

  lemma {:induction false} NoFrames(path: seq<nat>, pending: seq<seq<nat>>)
    requires |path| == |pending| && Frames(path, pending) == []
    ensures path == []
  {
    if path != [] {
      FramesPop(path, pending, []);
    }
  }

  lemma {:induction false} VisitedShrinks(g: Graph, w0: Work, w: Work)
    requires Shaped(g, w0) && Shaped(g, w) && VisitedSet(w0) <= VisitedSet(w)
    ensures |VisitedSet(w0)| <= |VisitedSet(w)| <= |g|
    ensures VisitedSet(w0) != VisitedSet(w) ==> |VisitedSet(w0)| < |VisitedSet(w)|
  {
    VisitedBound(g, w);
    SubsetSize(VisitedSet(w0), VisitedSet(w));
    if VisitedSet(w0) != VisitedSet(w) {
      var x :| x in VisitedSet(w) && x !in VisitedSet(w0);
      SubsetSize(VisitedSet(w0) + {x}, VisitedSet(w));
    }
  }

  lemma {:induction false} VisitBound(g: Graph, w: Work, path: seq<nat>, pending: seq<seq<nat>>, v: nat)
    requires Inv(g, w, path, pending) && v < |g|
    ensures w.index == |VisitedSet(w)| <= |g| && Stacked(g, w)
    ensures v !in VisitedSet(w) ==> w.index < |g|
  {
    assert Unfold(0) && Unfold(5);
    VisitedBound(g, w);
  }

  /** The path and the pending nodes after a visit has begun. */
  lemma {:induction false} Entering(g: Graph, w0: Work, w: Work, path: seq<nat>, pending: seq<seq<nat>>, v: nat,
                                    found: seq<nat>, low: nat)
      returns (path': seq<nat>, pending': seq<seq<nat>>)
    requires Inv(g, w0, path, pending) && v < |g| && !Visited(w0, v) && w0.before[v] && w0.index < SPECIAL
    requires Shaped(g, w) && Entered(g, w0, w, v, low) && Scanned(g, w0, v, found, low)
    requires path != [] ==> v in g[path[|path| - 1]]
    requires path != [] ==> pending[|path| - 1] != [] && v == pending[|path| - 1][|pending[|path| - 1]| - 1]
    ensures Inv(g, w, path', pending') && path' == path + [v]
    ensures pending' == (if path == [] then pending else Dropped(pending, |path| - 1)) + [found]
    ensures VisitedSet(w) == VisitedSet(w0) + {v} && v !in VisitedSet(w0)
  {
    EnterInv(g, w0, w, path, pending, v, found, low);
    path', pending' := path + [v], pending + [found];
    if path != [] {
      var k := |path| - 1;
      assert pending'[k] == pending[k];
      DropInv(g, w, path', pending', k, v);
      pending' := Dropped(pending', k);
      assert pending' == Dropped(pending, k) + [found];
    }
    assert VisitedSet(w) == VisitedSet(w0) + {v};
  }

  // ----- the result -----------------------------------------------------------

  /** Component ids are the classes of mutual reachability and the sizes are exact. */
  ghost predicate Solved(g: Graph, component: seq<nat>, sizes: seq<nat>) {
    && |component| == |g|
    && (forall v :: 0 <= v < |g| ==> component[v] < |sizes|)
    && (forall u, v :: 0 <= u < |g| && 0 <= v < |g| ==> (component[u] == component[v] <==> Connected(g, u, v)))
    && (forall k :: 0 <= k < |sizes| ==> sizes[k] == |Members(component, k)| > 0)
  }

  function Sum(s: seq<nat>): nat {
    if s == [] then 0 else Sum(s[..|s| - 1]) + s[|s| - 1]
  }

  ghost function Below(component: seq<nat>, k: nat): set<nat> {
    set v | 0 <= v < |component| && component[v] < k
  }

  lemma {:induction false} SumBelow(component: seq<nat>, sizes: seq<nat>)
    requires forall k :: 0 <= k < |sizes| ==> sizes[k] == |Members(component, k)|
    ensures Sum(sizes) == |Below(component, |sizes|)|
  {
    if sizes == [] {
      assert Below(component, 0) == {};
    } else {
      var k := |sizes| - 1;
      SumBelow(component, sizes[..k]);
      assert Below(component, k + 1) == Below(component, k) + Members(component, k);
      assert Below(component, k) !! Members(component, k);
    }
  }

  /** Component sizes add up to the number of nodes. */
  lemma {:induction false} SizesSum(g: Graph, component: seq<nat>, sizes: seq<nat>)
    requires Solved(g, component, sizes)
    ensures Sum(sizes) == |g|
  {
    SumBelow(component, sizes);
    UptoSize(|g|);
    forall v
      ensures v in Below(component, |sizes|) <==> v in Upto(|g|)
    {
      if v >= 0 {
        UptoMember(|g|, v);
      }
    }
    assert Below(component, |sizes|) == Upto(|g|);
  }

  /** Between two searches the Tarjan stack is empty: every visited node has its component. */
  lemma {:induction false} NothingOpen(g: Graph, w: Work)
    requires Inv(g, w, [], [])
    ensures forall v :: 0 <= v < |g| ==> (w.component[v] != SPECIAL <==> Visited(w, v))
  {
    assert Unfold(0) && Unfold(2);
    forall y
      ensures y !in w.stack
    {
      assert y in w.stack ==> Anchored(g, w, [], y);
    }
  }

  /** When every node has been visited, the components are complete. */
  lemma {:induction false} AllSolved(g: Graph, w: Work)
    requires Inv(g, w, [], []) && forall v :: 0 <= v < |g| ==> v in VisitedSet(w)
    ensures Solved(g, w.component, w.sizes)
  {
    assert Unfold(0) && Unfold(4);
    NothingOpen(g, w);
    assert forall v :: 0 <= v < |g| ==> v in VisitedSet(w) && Visited(w, v);
  }

  ghost function Singletons(sizes: seq<nat>): set<nat> {
    set k | 0 <= k < |sizes| && sizes[k] == 1
  }

  class TarjanSCC {
    const graph: Graph
    var componentsIndex: seq<nat>
    var componentSizeVector: seq<nat>
    var sizeOneCounter: nat

    /** Nothing has been run yet. */
    ghost predicate Fresh()
      reads this
    {
      IsGraph(graph) && componentsIndex == seq(|graph|, i => SPECIAL) && componentSizeVector == []
    }

    constructor (g: Graph)
      requires IsGraph(g)
      ensures Fresh() && graph == g
    {
      graph := g;
      componentsIndex := seq(|g|, i => SPECIAL);
      componentSizeVector := [];
      sizeOneCounter := 0;
    }

    method Run()
      requires Fresh()
      modifies this
      ensures Solved(graph, componentsIndex, componentSizeVector)
      ensures Sum(componentSizeVector) == |graph|
      ensures sizeOneCounter == |Singletons(componentSizeVector)|
    {
      var n := |graph|;
      var w := Work([], seq(n, i => TarjanNode(SPECIAL, SPECIAL, false)), seq(n, i => true), componentsIndex,
                    componentSizeVector, 0);
      StartInv(graph, w);
      for node := 0 to n
        invariant Inv(graph, w, [], [])
        invariant forall v :: 0 <= v < node ==> v in VisitedSet(w)
      {
        NothingOpen(graph, w);
        if w.component[node] == SPECIAL {
          w := Explore(graph, w, node);
        }
      }
      AllSolved(graph, w);
      SizesSum(graph, w.component, w.sizes);
      componentsIndex, componentSizeVector := w.component, w.sizes;
      sizeOneCounter := CountOnes(w.sizes);
    }
  }

  lemma {:induction false} StartInv(g: Graph, w: Work)
    requires IsGraph(g)
    requires w == Work([], seq(|g|, i => TarjanNode(SPECIAL, SPECIAL, false)), seq(|g|, i => true),
                       seq(|g|, i => SPECIAL), [], 0)
    ensures Inv(g, w, [], [])
  {
    assert VisitedSet(w) == {};
  }

  method CountOnes(sizes: seq<nat>) returns (count: nat)
    ensures count == |Singletons(sizes)|
  {
    count := 0;
    assert Singletons(sizes[..0]) == {};
    for k := 0 to |sizes|
      invariant count == |Singletons(sizes[..k])|
    {
      assert Singletons(sizes[..k + 1]) == Singletons(sizes[..k]) + (if sizes[k] == 1 then {k} else {});
      if sizes[k] == 1 {
        count := count + 1;
      }
    }
    assert sizes[..|sizes|] == sizes;
  }
}
