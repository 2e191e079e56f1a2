/** The packed R-tree (data_structures/static_rtree.hpp): leaves filled in Hilbert order, levels packed
    bottom-up, the array reversed and renumbered so that the root comes first. */
module RTree {
  import opened Basics

  const BRANCHING_FACTOR: nat := 64
  const LEAF_NODE_SIZE: nat := 1024

  /** A road segment between two coordinates; `isTiny` says that its component is a small one. */
  datatype Segment = Segment(u: Coordinate, v: Coordinate, isTiny: bool, id: nat)

  // ----- rectangles (data_structures/rectangle.hpp) --------------------------------

  datatype Rectangle = Rectangle(minLon: int, maxLon: int, minLat: int, maxLat: int)

  const EMPTY := Rectangle(INT_MAX, INT_MIN, INT_MAX, INT_MIN)

  function Merge(a: Rectangle, b: Rectangle): Rectangle {
    Rectangle(Min(a.minLon, b.minLon), Max(a.maxLon, b.maxLon), Min(a.minLat, b.minLat), Max(a.maxLat, b.maxLat))
  }

  predicate Contains(r: Rectangle, c: Coordinate) {
    r.minLat <= c.lat <= r.maxLat && r.minLon <= c.lon <= r.maxLon
  }

  /** b lies inside a. */
  predicate Encloses(a: Rectangle, b: Rectangle) {
    a.minLon <= b.minLon && b.maxLon <= a.maxLon && a.minLat <= b.minLat && b.maxLat <= a.maxLat
  }

  predicate Holds(r: Rectangle, s: Segment) {
    Contains(r, s.u) && Contains(r, s.v)
  }

  // ----- the tree ----------------------------------------------------------------------

  /** A leaf node names its block on disk, an inner node its children in the array. */
  datatype TreeNode = TreeNode(rectangle: Rectangle, onDisk: bool, children: seq<nat>)

  const BLANK := TreeNode(EMPTY, false, [])

  type Leaves = seq<seq<Segment>>

  ghost predicate LeafOk(node: TreeNode, leaves: Leaves) {
    && |node.children| == 1 && node.children[0] < |leaves|
    && forall s :: s in leaves[node.children[0]] ==> Holds(node.rectangle, s)
  }

  /** A node whose children come before position `bound` of the array and lie inside it. */
  ghost predicate NodeOk(search: seq<TreeNode>, leaves: Leaves, node: TreeNode, bound: nat) {
    && bound <= |search|
    && if node.onDisk then LeafOk(node, leaves)
       else forall i :: 0 <= i < |node.children| ==>
         node.children[i] < bound && Encloses(node.rectangle, search[node.children[i]].rectangle)
  }

  ghost predicate Packed(search: seq<TreeNode>, leaves: Leaves) {
    forall i {:trigger NodeOk(search, leaves, search[i], i)} ::
             0 <= i < |search| ==> NodeOk(search, leaves, search[i], i)
  }

  /** The segments under node i, from left to right. */
  ghost function Under(search: seq<TreeNode>, leaves: Leaves, i: nat): seq<Segment>
    requires Packed(search, leaves) && i < |search|
    decreases i, 1, 0
  {
    assert NodeOk(search, leaves, search[i], i);
    if search[i].onDisk then leaves[search[i].children[0]] else UnderAll(search, leaves, search[i].children, i)
  }

  ghost function UnderAll(search: seq<TreeNode>, leaves: Leaves, ids: seq<nat>, bound: nat): seq<Segment>
    requires Packed(search, leaves) && bound <= |search| && forall i :: 0 <= i < |ids| ==> ids[i] < bound
    decreases bound, 0, |ids|
  {
    if ids == [] then []
    else
      var last := |ids| - 1;
      UnderAll(search, leaves, ids[..last], bound) + Under(search, leaves, ids[last])
  }

  /** The segments under a node that is not in the array yet. */
  ghost function UnderNode(search: seq<TreeNode>, leaves: Leaves, node: TreeNode): seq<Segment>
    requires Packed(search, leaves) && NodeOk(search, leaves, node, |search|)
  {
    if node.onDisk then leaves[node.children[0]] else UnderAll(search, leaves, node.children, |search|)
  }

  lemma {:induction false} BoundFree(search: seq<TreeNode>, leaves: Leaves, ids: seq<nat>, a: nat, b: nat)
    requires Packed(search, leaves) && a <= |search| && b <= |search|
    requires forall i :: 0 <= i < |ids| ==> ids[i] < a && ids[i] < b
    ensures UnderAll(search, leaves, ids, a) == UnderAll(search, leaves, ids, b)
    decreases |ids|
  {
    if ids != [] {
      BoundFree(search, leaves, ids[..|ids| - 1], a, b);
    }
  }

  /** Nodes added at the end change nothing for those before. */
  lemma {:induction false} PackedGrows(search: seq<TreeNode>, leaves: Leaves, node: TreeNode)
    requires Packed(search, leaves) && NodeOk(search, leaves, node, |search|)
    ensures Packed(search + [node], leaves)
  {
    var search' := search + [node];
    forall i | 0 <= i < |search'|
      ensures NodeOk(search', leaves, search'[i], i)
    {
      if i < |search| {
        assert NodeOk(search, leaves, search[i], i);
      }
    }
  }

  lemma {:induction false} UnderGrows(search: seq<TreeNode>, search': seq<TreeNode>, leaves: Leaves, i: nat)
    requires Packed(search, leaves) && Packed(search', leaves) && search <= search' && i < |search|
    ensures Under(search', leaves, i) == Under(search, leaves, i)
    decreases i, 1, 0
  {
    assert NodeOk(search, leaves, search[i], i);
    if !search[i].onDisk {
      UnderAllGrows(search, search', leaves, search[i].children, i);
    }
  }

  lemma {:induction false} UnderAllGrows(search: seq<TreeNode>, search': seq<TreeNode>, leaves: Leaves, ids: seq<nat>,
                                         bound: nat)
    requires Packed(search, leaves) && Packed(search', leaves) && search <= search' && bound <= |search|
    requires forall i :: 0 <= i < |ids| ==> ids[i] < bound
    ensures UnderAll(search', leaves, ids, bound) == UnderAll(search, leaves, ids, bound)
    decreases bound, 0, |ids|
  {
    if ids != [] {
      var last := |ids| - 1;
      UnderAllGrows(search, search', leaves, ids[..last], bound);
      UnderGrows(search, search', leaves, ids[last]);
    }
  }

  lemma {:induction false} NodeGrows(search: seq<TreeNode>, leaves: Leaves, more: TreeNode, node: TreeNode)
    requires Packed(search, leaves) && NodeOk(search, leaves, node, |search|) && NodeOk(search, leaves, more, |search|)
    ensures Packed(search + [more], leaves) && NodeOk(search + [more], leaves, node, |search| + 1)
    ensures UnderNode(search + [more], leaves, node) == UnderNode(search, leaves, node)
  {
    PackedGrows(search, leaves, more);
    if !node.onDisk {
      UnderAllGrows(search, search + [more], leaves, node.children, |search|);
      BoundFree(search + [more], leaves, node.children, |search|, |search| + 1);
    }
  }

  /** A node that has entered the array stands for the same segments. */
  lemma {:induction false} Entered(search: seq<TreeNode>, leaves: Leaves, node: TreeNode)
    requires Packed(search, leaves) && NodeOk(search, leaves, node, |search|)
    ensures Packed(search + [node], leaves)
            && Under(search + [node], leaves, |search|) == UnderNode(search, leaves, node)
  {
    PackedGrows(search, leaves, node);
    if !node.onDisk {
      UnderAllGrows(search, search + [node], leaves, node.children, |search|);
    }
  }

  // ----- levels --------------------------------------------------------------------------

  ghost predicate LevelOk(search: seq<TreeNode>, leaves: Leaves, level: seq<TreeNode>) {
    forall j {:trigger NodeOk(search, leaves, level[j], |search|)} ::
             0 <= j < |level| ==> NodeOk(search, leaves, level[j], |search|)
  }

  ghost function UnderLevel(search: seq<TreeNode>, leaves: Leaves, level: seq<TreeNode>): seq<Segment>
    requires Packed(search, leaves) && LevelOk(search, leaves, level)
  {
    if level == [] then []
    else
      assert NodeOk(search, leaves, level[0], |search|);
      UnderNode(search, leaves, level[0]) + UnderLevel(search, leaves, level[1..])
  }

  lemma {:induction false} LevelTail(search: seq<TreeNode>, leaves: Leaves, level: seq<TreeNode>)
    requires LevelOk(search, leaves, level) && level != []
    ensures LevelOk(search, leaves, level[1..]) && NodeOk(search, leaves, level[0], |search|)
  {
    forall j | 0 <= j < |level| - 1
      ensures NodeOk(search, leaves, level[1..][j], |search|)
    {
      assert NodeOk(search, leaves, level[j + 1], |search|);
    }
    assert NodeOk(search, leaves, level[0], |search|);
  }

  lemma {:induction false} LevelGrows(search: seq<TreeNode>, leaves: Leaves, more: TreeNode, level: seq<TreeNode>)
    requires Packed(search, leaves) && LevelOk(search, leaves, level) && NodeOk(search, leaves, more, |search|)
    ensures Packed(search + [more], leaves) && LevelOk(search + [more], leaves, level)
    ensures UnderLevel(search + [more], leaves, level) == UnderLevel(search, leaves, level)
    decreases |level|
  {
    PackedGrows(search, leaves, more);
    forall j | 0 <= j < |level|
      ensures NodeOk(search + [more], leaves, level[j], |search + [more]|)
    {
      assert NodeOk(search, leaves, level[j], |search|);
      NodeGrows(search, leaves, more, level[j]);
    }
    if level != [] {
      LevelTail(search, leaves, level);
      NodeGrows(search, leaves, more, level[0]);
      LevelGrows(search, leaves, more, level[1..]);
    }
  }

  lemma {:induction false} LevelAppend(search: seq<TreeNode>, leaves: Leaves, level: seq<TreeNode>, node: TreeNode)
    requires Packed(search, leaves) && LevelOk(search, leaves, level) && NodeOk(search, leaves, node, |search|)
    ensures LevelOk(search, leaves, level + [node])
    ensures UnderLevel(search, leaves, level + [node]) ==
              UnderLevel(search, leaves, level) + UnderNode(search, leaves, node)
    decreases |level|
  {
    var all := level + [node];
    forall j | 0 <= j < |all|
      ensures NodeOk(search, leaves, all[j], |search|)
    {
      assert j < |level| ==> NodeOk(search, leaves, level[j], |search|);
    }
    if level != [] {
      LevelTail(search, leaves, level);
      LevelAppend(search, leaves, level[1..], node);
      assert all[1..] == level[1..] + [node];
    } else {
      assert all[1..] == [];
    }
  }

  // ----- rectangles are no larger than they have to be ------------------------------------

  ghost predicate HoldsAll(q: Rectangle, list: seq<Segment>) {
    forall s :: s in list ==> Holds(q, s)
  }

  /** Every rectangle (over 32-bit coordinates) that holds the segments encloses r. */
  ghost predicate Least(r: Rectangle, list: seq<Segment>) {
    forall q {:trigger HoldsAll(q, list)} :: HoldsAll(q, list) && Encloses(q, EMPTY) ==> Encloses(q, r)
  }

  lemma {:induction false} LeastMerged(a: Rectangle, left: seq<Segment>, b: Rectangle, right: seq<Segment>)
    requires Least(a, left) && Least(b, right)
    ensures Least(Merge(a, b), left + right)
  {
    forall q | HoldsAll(q, left + right) && Encloses(q, EMPTY)
      ensures Encloses(q, Merge(a, b))
    {
      assert HoldsAll(q, left) && HoldsAll(q, right);
    }
  }

  ghost predicate Snug(search: seq<TreeNode>, leaves: Leaves)
    requires Packed(search, leaves)
  {
    forall i {:trigger Under(search, leaves, i)} ::
             0 <= i < |search| ==> Least(search[i].rectangle, Under(search, leaves, i))
  }

  ghost predicate SnugNode(search: seq<TreeNode>, leaves: Leaves, node: TreeNode)
    requires Packed(search, leaves)
  {
    NodeOk(search, leaves, node, |search|) && Least(node.rectangle, UnderNode(search, leaves, node))
  }

  ghost predicate SnugLevel(search: seq<TreeNode>, leaves: Leaves, level: seq<TreeNode>)
    requires Packed(search, leaves)
  {
    forall j {:trigger level[j]} :: 0 <= j < |level| ==> SnugNode(search, leaves, level[j])
  }

  lemma {:induction false} SnugGrows(search: seq<TreeNode>, leaves: Leaves, more: TreeNode)
    requires Packed(search, leaves) && Snug(search, leaves) && SnugNode(search, leaves, more)
    ensures Packed(search + [more], leaves) && Snug(search + [more], leaves)
  {
    Entered(search, leaves, more);
    forall i | 0 <= i < |search + [more]|
      ensures Least((search + [more])[i].rectangle, Under(search + [more], leaves, i))
    {
      if i < |search| {
        UnderGrows(search, search + [more], leaves, i);
      }
    }
  }

  lemma {:induction false} SnugLevelGrows(search: seq<TreeNode>, leaves: Leaves, more: TreeNode, level: seq<TreeNode>)
    requires Packed(search, leaves) && NodeOk(search, leaves, more, |search|) && SnugLevel(search, leaves, level)
    ensures Packed(search + [more], leaves) && SnugLevel(search + [more], leaves, level)
  {
    PackedGrows(search, leaves, more);
    forall j | 0 <= j < |level|
      ensures SnugNode(search + [more], leaves, level[j])
    {
      assert SnugNode(search, leaves, level[j]);
      NodeGrows(search, leaves, more, level[j]);
    }
  }

  /** Inner nodes have children, but not too many. */
  ghost predicate Fanned(nodes: seq<TreeNode>) {
    forall i {:trigger nodes[i]} :: 0 <= i < |nodes| ==>
      nodes[i].onDisk || 0 < |nodes[i].children| <= BRANCHING_FACTOR
  }

  // ----- packing -------------------------------------------------------------------------

  function Concat(leaves: Leaves): seq<Segment> {
    if leaves == [] then [] else Concat(leaves[..|leaves| - 1]) + leaves[|leaves| - 1]
  }

  /** InitializeMBRectangle: the bounding rectangle of the segments of a leaf. */
  method BoundSegments(objects: seq<Segment>) returns (r: Rectangle)
    ensures forall s :: s in objects ==> Holds(r, s)
    ensures Least(r, objects)
  {
    r := EMPTY;
    for i := 0 to |objects|
      invariant forall j :: 0 <= j < i ==> Holds(r, objects[j])
      invariant Least(r, objects)
    {
      var s := objects[i];
      assert s in objects;
      r := Rectangle(Min(r.minLon, Min(s.u.lon, s.v.lon)), Max(r.maxLon, Max(s.u.lon, s.v.lon)),
                     Min(r.minLat, Min(s.u.lat, s.v.lat)), Max(r.maxLat, Max(s.u.lat, s.v.lat)));
    }
  }

  method FillLeaf(elements: seq<Segment>, processed: nat) returns (objects: seq<Segment>)
    requires processed <= |elements|
    ensures |objects| == Min(LEAF_NODE_SIZE, |elements| - processed)
            && objects == elements[processed..processed + |objects|]
  {
    objects := [];
    for i := 0 to LEAF_NODE_SIZE
      invariant |objects| == Min(i, |elements| - processed) && objects == elements[processed..processed + |objects|]
    {
      if |elements| > processed + i {
        objects := objects + [elements[processed + i]];
      }
    }
  }

  /** All leaves but the last one are full. */
  ghost predicate Filled(leaves: Leaves) {
    forall j {:trigger leaves[j]} :: 0 <= j < |leaves| ==>
      0 < |leaves[j]| <= LEAF_NODE_SIZE && (j < |leaves| - 1 ==> |leaves[j]| == LEAF_NODE_SIZE)
  }

  /** The first `processed` elements are in leaves, each with its node. */
  ghost predicate Leafed(elements: seq<Segment>, processed: nat, leaves: Leaves, level: seq<TreeNode>) {
    && processed <= |elements| && Concat(leaves) == elements[..processed] && |level| == |leaves|
    && (processed > 0 ==> leaves != []) && Filled(leaves)
    && (processed < |elements| && leaves != [] ==> |leaves[|leaves| - 1]| == LEAF_NODE_SIZE)
    && forall j {:trigger level[j]} :: 0 <= j < |level| ==>
         && level[j].onDisk && level[j].children == [j] && LeafOk(level[j], leaves)
         && Least(level[j].rectangle, leaves[j])
  }

  lemma {:induction false} OneMoreLeaf(elements: seq<Segment>, processed: nat, leaves: Leaves, level: seq<TreeNode>,
                                       objects: seq<Segment>, r: Rectangle)
    requires Leafed(elements, processed, leaves, level) && processed < |elements|
    requires |objects| == Min(LEAF_NODE_SIZE, |elements| - processed)
             && objects == elements[processed..processed + |objects|]
    requires HoldsAll(r, objects) && Least(r, objects)
    ensures Leafed(elements, processed + |objects|, leaves + [objects], level + [TreeNode(r, true, [|level|])])
  {
    ConcatAppend(leaves, objects);
    assert elements[..processed] + objects == elements[..processed + |objects|];
    var leaves', level' := leaves + [objects], level + [TreeNode(r, true, [|level|])];
    forall j | 0 <= j < |level'|
      ensures LeafOk(level'[j], leaves') && Least(level'[j].rectangle, leaves'[j])
    {
      if j < |level| {
        assert level'[j] == level[j] && leaves'[j] == leaves[j] && LeafOk(level[j], leaves);
      }
    }
  }

  /** Fills leaves one after the other; each becomes a node of the lowest level. */
  method PackLeaves(elements: seq<Segment>) returns (leaves: Leaves, level: seq<TreeNode>)
    requires elements != []
    ensures Concat(leaves) == elements && |level| == |leaves| > 0
    ensures Filled(leaves)
    ensures forall j :: 0 <= j < |level| ==> level[j].onDisk && level[j].children == [j] && LeafOk(level[j], leaves)
    ensures forall j :: 0 <= j < |level| ==> Least(level[j].rectangle, leaves[j])
  {
    leaves, level := [], [];
    var processed := 0;
    while processed < |elements|
      invariant 0 <= processed && Leafed(elements, processed, leaves, level)
    {
      var objects := FillLeaf(elements, processed);
      var r := BoundSegments(objects);
      OneMoreLeaf(elements, processed, leaves, level, objects, r);
      level := level + [TreeNode(r, true, [|level|])];
      leaves := leaves + [objects];
      processed := processed + |objects|;
    }
    assert elements[..|elements|] == elements;
  }

  lemma {:induction false} ConcatAppend(leaves: Leaves, objects: seq<Segment>)
    ensures Concat(leaves + [objects]) == Concat(leaves) + objects
  {
    assert (leaves + [objects])[..|leaves|] == leaves;
  }

  lemma {:induction false} LeavesLevel(leaves: Leaves, level: seq<TreeNode>, n: nat)
    requires n <= |level| == |leaves|
    requires forall j :: 0 <= j < |level| ==> level[j].onDisk && level[j].children == [j] && LeafOk(level[j], leaves)
    ensures LevelOk([], leaves, level[..n]) && UnderLevel([], leaves, level[..n]) == Concat(leaves[..n])
  {
    if n > 0 {
      LeavesLevel(leaves, level, n - 1);
      assert level[..n] == level[..n - 1] + [level[n - 1]] && leaves[..n] == leaves[..n - 1] + [leaves[n - 1]];
      ConcatAppend(leaves[..n - 1], leaves[n - 1]);
      LevelAppend([], leaves, level[..n - 1], level[n - 1]);
    }
  }

  /** A parent without children. */
  lemma {:induction false} BlankIsSnug(search: seq<TreeNode>, leaves: Leaves)
    requires Packed(search, leaves)
    ensures SnugNode(search, leaves, BLANK) && UnderNode(search, leaves, BLANK) == []
  {
  }

  /** The state of packing one level: finished parents, the parent at hand, and the nodes still to go
      stand for the segments of the whole level, in order. */
  ghost predicate Packing(search: seq<TreeNode>, leaves: Leaves, next: seq<TreeNode>, parent: TreeNode,
                          level: seq<TreeNode>, all: seq<Segment>) {
    && Packed(search, leaves) && LevelOk(search, leaves, next) && LevelOk(search, leaves, level)
    && !parent.onDisk && NodeOk(search, leaves, parent, |search|)
    && UnderLevel(search, leaves, next) + UnderNode(search, leaves, parent) + UnderLevel(search, leaves, level) == all
    && Snug(search, leaves) && SnugNode(search, leaves, parent)
    && SnugLevel(search, leaves, next) && SnugLevel(search, leaves, level) && Fanned(search) && Fanned(level)
  }

  function Adopt(parent: TreeNode, child: TreeNode, id: nat): TreeNode {
    TreeNode(Merge(parent.rectangle, child.rectangle), false, parent.children + [id])
  }

  lemma {:induction false} AdoptNode(search: seq<TreeNode>, leaves: Leaves, parent: TreeNode, child: TreeNode)
    requires Packed(search, leaves) && NodeOk(search, leaves, child, |search|) && !parent.onDisk
             && NodeOk(search, leaves, parent, |search|)
    ensures var search', parent' := search + [child], Adopt(parent, child, |search|);
            && Packed(search', leaves) && NodeOk(search', leaves, parent', |search'|)
            && UnderNode(search', leaves, parent') ==
                 UnderNode(search, leaves, parent) + UnderNode(search, leaves, child)
  {
    var search', parent' := search + [child], Adopt(parent, child, |search|);
    NodeGrows(search, leaves, child, parent);
    Entered(search, leaves, child);
    assert parent'.children[..|parent.children|] == parent.children;
  }

  /** The first node to go becomes a child of the parent at hand. */
  lemma {:induction false} AdoptStep(search: seq<TreeNode>, leaves: Leaves, next: seq<TreeNode>, parent: TreeNode,
                                     level: seq<TreeNode>, p: nat, all: seq<Segment>)
    requires p < |level| && Packing(search, leaves, next, parent, level[p..], all)
    ensures Packing(search + [level[p]], leaves, next, Adopt(parent, level[p], |search|), level[p + 1..], all)
  {
    var rest, child := level[p + 1..], level[p];
    assert level[p..][0] == child && level[p..][1..] == rest;
    LevelTail(search, leaves, level[p..]);
    LevelGrows(search, leaves, child, next);
    LevelGrows(search, leaves, child, rest);
    SnugGrows(search, leaves, child);
    SnugLevelGrows(search, leaves, child, next);
    SnugLevelGrows(search, leaves, child, rest);
    LeastMerged(parent.rectangle, UnderNode(search, leaves, parent), child.rectangle,
                UnderNode(search, leaves, child));
    AdoptNode(search, leaves, parent, child);
    Regroup(UnderLevel(search, leaves, next), UnderNode(search, leaves, parent), UnderNode(search, leaves, child),
            UnderLevel(search, leaves, rest));
  }

  lemma {:induction false} Regroup(a: seq<Segment>, b: seq<Segment>, c: seq<Segment>, d: seq<Segment>)
    ensures a + b + (c + d) == a + (b + c) + d
  {
  }

  lemma {:induction false} FinishParent(search: seq<TreeNode>, leaves: Leaves, next: seq<TreeNode>, parent: TreeNode,
                                        level: seq<TreeNode>, all: seq<Segment>)
    requires Packing(search, leaves, next, parent, level, all)
    ensures Packing(search, leaves, next + [parent], BLANK, level, all)
  {
    LevelAppend(search, leaves, next, parent);
    SnugLevelAppend(search, leaves, next, parent);
    BlankIsSnug(search, leaves);
    Nothing(UnderLevel(search, leaves, next + [parent]), UnderLevel(search, leaves, level));
  }

  lemma {:induction false} SnugLevelAppend(search: seq<TreeNode>, leaves: Leaves, level: seq<TreeNode>,
                                           node: TreeNode)
    requires Packed(search, leaves) && SnugLevel(search, leaves, level) && SnugNode(search, leaves, node)
    ensures SnugLevel(search, leaves, level + [node])
  {
  }

  lemma {:induction false} Nothing(a: seq<Segment>, b: seq<Segment>)
    ensures a + [] + b == a + b
  {
  }

  /** Packs the next nodes of a level under one parent. */
  method PackParent(search0: seq<TreeNode>, leaves: Leaves, next: seq<TreeNode>, level: seq<TreeNode>, before: nat,
                    ghost all: seq<Segment>)
      returns (search: seq<TreeNode>, parent: TreeNode, processed: nat)
    requires before < |level| && Packing(search0, leaves, next, BLANK, level[before..], all)
    ensures processed == Min(before + BRANCHING_FACTOR, |level|) && |parent.children| == processed - before
    ensures Packing(search, leaves, next, parent, level[processed..], all)
  {
    search, parent, processed := search0, BLANK, before;
    for i := 0 to BRANCHING_FACTOR
      invariant processed == Min(before + i, |level|) && |parent.children| == processed - before
      invariant Packing(search, leaves, next, parent, level[processed..], all)
    {
      if processed < |level| {
        AdoptStep(search, leaves, next, parent, level, processed, all);
        parent := Adopt(parent, level[processed], |search|);
        search := search + [level[processed]];
        processed := processed + 1;
      }
    }
  }

  /** Inner nodes, all but the last one with as many children as there may be. */
  ghost predicate Parents(next: seq<TreeNode>) {
    forall j {:trigger next[j]} :: 0 <= j < |next| ==>
      && !next[j].onDisk && 0 < |next[j].children| <= BRANCHING_FACTOR
      && (j < |next| - 1 ==> |next[j].children| == BRANCHING_FACTOR)
  }

  /** The first nodes of the level are packed under the parents in `next`. */
  ghost predicate PackedSoFar(search: seq<TreeNode>, leaves: Leaves, next: seq<TreeNode>, level: seq<TreeNode>,
                              processed: nat, all: seq<Segment>) {
    && processed <= |level| && Packing(search, leaves, next, BLANK, level[processed..], all)
    && Parents(next) && processed <= |next| * BRANCHING_FACTOR
    && (processed < |level| ==> processed == |next| * BRANCHING_FACTOR)
    && (processed < |level| && next != [] ==> |next[|next| - 1].children| == BRANCHING_FACTOR)
    && (processed == |level| > 1 ==> 0 < |next| < |level|)
  }

  lemma {:induction false} OneMoreParent(search: seq<TreeNode>, leaves: Leaves, next: seq<TreeNode>, parent: TreeNode,
                                         level: seq<TreeNode>, before: nat, processed: nat, all: seq<Segment>)
    requires before < |level| && processed == Min(before + BRANCHING_FACTOR, |level|)
    requires Parents(next) && before == |next| * BRANCHING_FACTOR && |parent.children| == processed - before
    requires next != [] ==> |next[|next| - 1].children| == BRANCHING_FACTOR
    requires Packing(search, leaves, next, parent, level[processed..], all)
    ensures PackedSoFar(search, leaves, next + [parent], level, processed, all)
  {
    FinishParent(search, leaves, next, parent, level[processed..], all);
    ParentsAppend(next, parent);
    assert |next + [parent]| * BRANCHING_FACTOR == before + BRANCHING_FACTOR;
  }

  lemma {:induction false} ParentsAppend(next: seq<TreeNode>, parent: TreeNode)
    requires Parents(next) && (next != [] ==> |next[|next| - 1].children| == BRANCHING_FACTOR)
    requires !parent.onDisk && 0 < |parent.children| <= BRANCHING_FACTOR
    ensures Parents(next + [parent])
  {
  }

  /** Packs the nodes of one level under parents. */
  method PackLevel(search0: seq<TreeNode>, leaves: Leaves, level: seq<TreeNode>, ghost all: seq<Segment>)
      returns (search: seq<TreeNode>, next: seq<TreeNode>)
    requires Packed(search0, leaves) && LevelOk(search0, leaves, level) && UnderLevel(search0, leaves, level) == all
             && |level| > 1
    requires Snug(search0, leaves) && SnugLevel(search0, leaves, level) && Fanned(search0) && Fanned(level)
    ensures Packed(search, leaves) && LevelOk(search, leaves, next) && UnderLevel(search, leaves, next) == all
    ensures Snug(search, leaves) && SnugLevel(search, leaves, next) && Fanned(search) && Fanned(next)
    ensures 0 < |next| < |level| && Parents(next)
  {
    search, next := search0, [];
    var processed := 0;
    assert level[0..] == level;
    StartPacking(search, leaves, level, all);
    while processed < |level|
      invariant 0 <= processed && PackedSoFar(search, leaves, next, level, processed, all)
    {
      ghost var before := processed;
      var parent;
      search, parent, processed := PackParent(search, leaves, next, level, processed, all);
      OneMoreParent(search, leaves, next, parent, level, before, processed, all);
      next := next + [parent];
    }
    EndPacking(search, leaves, next, level[processed..], all);
  }

  lemma {:induction false} StartPacking(search: seq<TreeNode>, leaves: Leaves, level: seq<TreeNode>, all: seq<Segment>)
    requires Packed(search, leaves) && LevelOk(search, leaves, level) && UnderLevel(search, leaves, level) == all
    requires Snug(search, leaves) && SnugLevel(search, leaves, level) && Fanned(search) && Fanned(level)
    ensures Packing(search, leaves, [], BLANK, level, all)
  {
    BlankIsSnug(search, leaves);
    assert UnderLevel(search, leaves, []) == [];
    assert [] + [] + UnderLevel(search, leaves, level) == all;
  }

  lemma {:induction false} EndPacking(search: seq<TreeNode>, leaves: Leaves, next: seq<TreeNode>, level: seq<TreeNode>,
                                      all: seq<Segment>)
    requires Packing(search, leaves, next, BLANK, level, all) && level == []
    ensures UnderLevel(search, leaves, next) == all
  {
  }

  /** The nodes in bottom-up order, with the root last. */
  method PackTree(elements: seq<Segment>) returns (search: seq<TreeNode>, leaves: Leaves)
    requires elements != []
    ensures Packed(search, leaves) && search != [] && Under(search, leaves, |search| - 1) == elements
    ensures Concat(leaves) == elements && Filled(leaves) && Snug(search, leaves) && Fanned(search)
  {
    var level;
    leaves, level := PackLeaves(elements);
    search := [];
    LowestLevel(leaves, level);
    while |level| > 1
      invariant level != [] && Packed(search, leaves) && LevelOk(search, leaves, level)
                && UnderLevel(search, leaves, level) == elements
      invariant Snug(search, leaves) && SnugLevel(search, leaves, level) && Fanned(search) && Fanned(level)
      decreases |level|
    {
      search, level := PackLevel(search, leaves, level, elements);
    }
    EnterRoot(search, leaves, level);
    SnugGrows(search, leaves, level[0]);
    search := search + [level[0]];
  }

  lemma {:induction false} LowestLevel(leaves: Leaves, level: seq<TreeNode>)
    requires |level| == |leaves|
    requires forall j :: 0 <= j < |level| ==> level[j].onDisk && level[j].children == [j] && LeafOk(level[j], leaves)
    requires forall j :: 0 <= j < |level| ==> Least(level[j].rectangle, leaves[j])
    ensures LevelOk([], leaves, level) && UnderLevel([], leaves, level) == Concat(leaves)
    ensures SnugLevel([], leaves, level) && Fanned(level)
  {
    LeavesLevel(leaves, level, |level|);
    assert level[..|level|] == level && leaves[..|leaves|] == leaves;
  }

  lemma {:induction false} EnterRoot(search: seq<TreeNode>, leaves: Leaves, level: seq<TreeNode>)
    requires Packed(search, leaves) && LevelOk(search, leaves, level) && |level| == 1
    ensures Packed(search + [level[0]], leaves)
            && Under(search + [level[0]], leaves, |search|) == UnderLevel(search, leaves, level)
  {
    LevelTail(search, leaves, level);
    assert level[1..] == [];
    Entered(search, leaves, level[0]);
  }

  // ----- reversal and renumbering ------------------------------------------------------------

  function Renumbered(node: TreeNode, n: nat): TreeNode {
    if node.onDisk then node
    else node.(children := seq(|node.children|, i requires 0 <= i < |node.children| => NewId(node.children[i], n)))
  }

  function NewId(id: nat, n: nat): nat {
    if id < n then n - id - 1 else 0
  }

  ghost predicate Reversed(search: seq<TreeNode>, leaves: Leaves, tree: seq<TreeNode>)
    requires Packed(search, leaves)
  {
    |tree| == |search| && forall i {:trigger MirrorNode(search, leaves, tree, i)} ::
      0 <= i < |tree| ==> MirrorNode(search, leaves, tree, i)
  }

  ghost predicate MirrorNode(search: seq<TreeNode>, leaves: Leaves, tree: seq<TreeNode>, i: nat)
    requires Packed(search, leaves) && i < |tree| == |search|
  {
    tree[i] == Renumbered(search[|search| - 1 - i], |search|)
  }

  /** Children come after their parent and lie inside it. */
  ghost predicate Rooted(tree: seq<TreeNode>, leaves: Leaves) {
    forall i {:trigger RootedAt(tree, leaves, i)} :: 0 <= i < |tree| ==> RootedAt(tree, leaves, i)
  }

  ghost predicate RootedAt(tree: seq<TreeNode>, leaves: Leaves, i: nat)
    requires i < |tree|
  {
    if tree[i].onDisk then LeafOk(tree[i], leaves)
    else forall j :: 0 <= j < |tree[i].children| ==>
           i < tree[i].children[j] < |tree| && Encloses(tree[i].rectangle, tree[tree[i].children[j]].rectangle)
  }

  /** The segments under a node of the finished tree. */
  ghost function Below(tree: seq<TreeNode>, leaves: Leaves, i: nat): seq<Segment>
    requires Rooted(tree, leaves) && i < |tree|
    decreases |tree| - i, 1, 0
  {
    assert RootedAt(tree, leaves, i);
    if tree[i].onDisk then leaves[tree[i].children[0]] else BelowAll(tree, leaves, tree[i].children, i + 1)
  }

  ghost function BelowAll(tree: seq<TreeNode>, leaves: Leaves, ids: seq<nat>, from: nat): seq<Segment>
    requires Rooted(tree, leaves) && from <= |tree| && forall j :: 0 <= j < |ids| ==> from <= ids[j] < |tree|
    decreases |tree| - from + 1, 0, |ids|
  {
    if ids == [] then []
    else BelowAll(tree, leaves, ids[..|ids| - 1], from) + Below(tree, leaves, ids[|ids| - 1])
  }

  lemma {:induction false} ReversedRooted(search: seq<TreeNode>, leaves: Leaves, tree: seq<TreeNode>)
    requires Packed(search, leaves) && Reversed(search, leaves, tree)
    ensures Rooted(tree, leaves)
  {
    var n := |search|;
    forall i | 0 <= i < n
      ensures RootedAt(tree, leaves, i)
    {
      assert NodeOk(search, leaves, search[n - 1 - i], n - 1 - i) && MirrorNode(search, leaves, tree, i);
      if !tree[i].onDisk {
        forall j | 0 <= j < |tree[i].children|
          ensures i < tree[i].children[j] < n && Encloses(tree[i].rectangle, tree[tree[i].children[j]].rectangle)
        {
          var was := search[n - 1 - i].children[j];
          assert tree[i].children[j] == n - was - 1;
          assert MirrorNode(search, leaves, tree, n - was - 1);
        }
      }
    }
  }

  /** Reversal and renumbering keep what is under each node. */
  lemma {:induction false} SameBelow(search: seq<TreeNode>, leaves: Leaves, tree: seq<TreeNode>, i: nat)
    requires Packed(search, leaves) && Reversed(search, leaves, tree) && Rooted(tree, leaves) && i < |tree|
    ensures Below(tree, leaves, i) == Under(search, leaves, |search| - 1 - i)
    decreases |tree| - i, 1, 0
  {
    var n := |search|;
    assert RootedAt(tree, leaves, i) && NodeOk(search, leaves, search[n - 1 - i], n - 1 - i)
           && MirrorNode(search, leaves, tree, i);
    if !tree[i].onDisk {
      SameBelowAll(search, leaves, tree, tree[i].children, search[n - 1 - i].children, i + 1);
    }
  }

  lemma {:induction false} SameBelowAll(search: seq<TreeNode>, leaves: Leaves, tree: seq<TreeNode>, ids: seq<nat>,
                                        was: seq<nat>, from: nat)
    requires Packed(search, leaves) && Reversed(search, leaves, tree) && Rooted(tree, leaves) && from <= |tree|
             && |ids| == |was|
    requires forall j :: 0 <= j < |ids| ==>
               from <= ids[j] < |tree| && was[j] < |search| - from && ids[j] == |search| - 1 - was[j]
    ensures BelowAll(tree, leaves, ids, from) == UnderAll(search, leaves, was, |search| - from)
    decreases |tree| - from + 1, 0, |ids|
  {
    if ids != [] {
      var last := |ids| - 1;
      SameBelowAll(search, leaves, tree, ids[..last], was[..last], from);
      SameBelow(search, leaves, tree, ids[last]);
    }
  }

  /** Everything under a node lies inside its rectangle. */
  lemma {:induction false} NestedBelow(tree: seq<TreeNode>, leaves: Leaves, i: nat, s: Segment)
    requires Rooted(tree, leaves) && i < |tree| && s in Below(tree, leaves, i)
    ensures Holds(tree[i].rectangle, s)
    decreases |tree| - i, 1, 0
  {
    assert RootedAt(tree, leaves, i);
    if !tree[i].onDisk {
      NestedBelowAll(tree, leaves, tree[i].children, i + 1, tree[i].rectangle, s);
    }
  }

  lemma {:induction false} NestedBelowAll(tree: seq<TreeNode>, leaves: Leaves, ids: seq<nat>, from: nat, r: Rectangle,
                                          s: Segment)
    requires Rooted(tree, leaves) && from <= |tree| && forall j ::
               0 <= j < |ids| ==> from <= ids[j] < |tree| && Encloses(r, tree[ids[j]].rectangle)
    requires s in BelowAll(tree, leaves, ids, from)
    ensures Holds(r, s)
    decreases |tree| - from + 1, 0, |ids|
  {
    if ids != [] {
      var last := |ids| - 1;
      if s in Below(tree, leaves, ids[last]) {
        NestedBelow(tree, leaves, ids[last], s);
      } else {
        NestedBelowAll(tree, leaves, ids[..last], from, r, s);
      }
    }
  }

  /** The finished tree: the root comes first, and under it lies every element exactly once, in order. */
  method BuildTree(elements: seq<Segment>) returns (tree: seq<TreeNode>, leaves: Leaves)
    requires elements != []
    ensures Rooted(tree, leaves) && tree != [] && Below(tree, leaves, 0) == elements && Concat(leaves) == elements
    ensures forall i {:trigger Below(tree, leaves, i)} ::
              0 <= i < |tree| ==> Least(tree[i].rectangle, Below(tree, leaves, i))
    ensures Filled(leaves) && Fanned(tree)
  {
    var search;
    search, leaves := PackTree(elements);
    tree := [];
    var n := |search|;
    for i := 0 to n
      invariant |tree| == i && forall j {:trigger tree[j]} :: 0 <= j < i ==> tree[j] == Renumbered(search[n - 1 - j], n)
    {
      assert NodeOk(search, leaves, search[n - 1 - i], n - 1 - i);
      var node := search[n - 1 - i];
      if !node.onDisk {
        node := Renumber(node, n);
      }
      tree := tree + [node];
    }
    forall i | 0 <= i < |tree|
      ensures MirrorNode(search, leaves, tree, i)
    {
      assert tree[i] == Renumbered(search[n - 1 - i], n);
    }
    ReversedRooted(search, leaves, tree);
    SameBelow(search, leaves, tree, 0);
    forall i | 0 <= i < n
      ensures Least(tree[i].rectangle, Below(tree, leaves, i))
    {
      SameBelow(search, leaves, tree, i);
      assert MirrorNode(search, leaves, tree, i);
    }
  }

  method Renumber(node: TreeNode, n: nat) returns (r: TreeNode)
    requires !node.onDisk && forall i :: 0 <= i < |node.children| ==> node.children[i] < n
    ensures r == Renumbered(node, n)
  {
    var children := node.children;
    for j := 0 to |children|
      invariant |children| == |node.children|
      invariant forall i :: 0 <= i < j ==> children[i] == n - node.children[i] - 1
      invariant forall i :: j <= i < |children| ==> children[i] == node.children[i]
    {
      children := children[j := n - children[j] - 1];
    }
    r := node.(children := children);
    assert children == Renumbered(node, n).children;
  }
}
