/** The store of compressed geometries (data_structures/compressed_edge_container.cpp): buckets of
    nodes with weights, an index from edge ids to buckets, and a list of free buckets. */
module CompressedGeometry {

  datatype GeoNode = GeoNode(node: nat, weight: int)

  /** The abstract value: the geometry of each compressed edge. */
  type Geometry = map<nat, seq<GeoNode>>

  // ----- the representation, on values ------------------------------------------

  ghost predicate Live(index: map<nat, nat>, i: nat) {
    exists e :: e in index && index[e] == i
  }

  /** Two edges with the same bucket. */
  ghost predicate Shared(index: map<nat, nat>, e: nat, f: nat) {
    e in index && f in index && index[e] == index[f]
  }

  ghost predicate Distinct(s: seq<nat>) {
    forall a, b :: 0 <= a < b < |s| ==> s[a] != s[b]
  }

  /** Live and free bucket indices partition the store, and free buckets are empty. */
  ghost predicate Partitioned(index: map<nat, nat>, free: seq<nat>, buckets: seq<seq<GeoNode>>) {
    && (forall e :: e in index ==> index[e] < |buckets|)
    && (forall e, f {:trigger Shared(index, e, f)} :: Shared(index, e, f) ==> e == f)
    && Distinct(free)
    && (forall i :: i in free ==> i < |buckets| && buckets[i] == [])
    && (forall i {:trigger Live(index, i)} :: 0 <= i < |buckets| ==> (i in free <==> !Live(index, i)))
  }

  ghost function View(index: map<nat, nat>, buckets: seq<seq<GeoNode>>): (g: Geometry)
    requires forall e :: e in index ==> index[e] < |buckets|
    ensures g.Keys == index.Keys && forall e :: e in index ==> g[e] == buckets[index[e]]
  {
    map e | e in index :: buckets[index[e]]
  }

  function Opened(g: Geometry, e: nat, via: nat, weight: int): seq<GeoNode> {
    if e in g && g[e] != [] then g[e] else [GeoNode(via, weight)]
  }

  /** What CompressEdge makes of the geometries: edge 1 takes over that of edge 2. */
  function Compressed(g: Geometry, e1: nat, e2: nat, via: nat, target: nat, weight1: int, weight2: int): Geometry {
    (g - {e2})
      [e1 := Opened(g, e1, via, weight1) + (if e2 in g then g[e2] else [GeoNode(target, weight2)])]
  }

  /** By position: first the segments of edge 1 as they were, or the one to the via node if it had none, then those of
      edge 2, or the one to the target. Edge 2 is gone and nothing else changes. */
  ghost predicate TakesOver(g: Geometry, g': Geometry, e1: nat, e2: nat, via: nat, target: nat, weight1: int,
                            weight2: int) {
    && g'.Keys == (g.Keys - {e2}) + {e1} && (forall e :: e in g' && e != e1 ==> g'[e] == g[e])
    && var own := e1 in g && g[e1] != [];
       var n := if own then |g[e1]| else 1;
       && |g'[e1]| == n + (if e2 in g then |g[e2]| else 1)
       && (forall i {:trigger g'[e1][i]} :: 0 <= i < n ==> g'[e1][i] == if own then g[e1][i] else GeoNode(via, weight1))
       && (forall i {:trigger g'[e1][i]} :: n <= i < |g'[e1]| ==>
             g'[e1][i] == if e2 in g then g[e2][i - n] else GeoNode(target, weight2))
  }

  lemma {:induction false} CompressedTakesOver(g: Geometry, e1: nat, e2: nat, via: nat, target: nat, weight1: int,
                                               weight2: int)
    requires e1 != e2
    ensures TakesOver(g, Compressed(g, e1, e2, via, target, weight1, weight2), e1, e2, via, target, weight1, weight2)
  {
  }

  ghost function Extended(g: Geometry, e1: nat, e2: nat, target: nat, weight2: int): Geometry
    requires e1 in g
  {
    if e2 in g then g[e1 := g[e1] + g[e2]] - {e2} else g[e1 := g[e1] + [GeoNode(target, weight2)]]
  }

  lemma {:induction false} CompressedInSteps(g: Geometry, e1: nat, e2: nat, via: nat, target: nat, weight1: int,
                                             weight2: int)
    requires e1 != e2
    ensures Extended(g[e1 := Opened(g, e1, via, weight1)], e1, e2, target, weight2) ==
              Compressed(g, e1, e2, via, target, weight1, weight2)
  {
  }

  lemma {:induction false} DistinctPrefix(free: seq<nat>)
    requires Distinct(free) && free != []
    ensures Distinct(free[..|free| - 1])
    ensures forall j :: j in free[..|free| - 1] <==> j in free && j != free[|free| - 1]
  {
    var last := |free| - 1;
    forall j
      ensures j in free[..last] <==> j in free && j != free[last]
    {
      if j in free && j != free[last] {
        var a :| 0 <= a < |free| && free[a] == j;
        assert free[..last][a] == j;
      }
    }
  }

  lemma {:induction false} DistinctAppend(free: seq<nat>, i: nat)
    requires Distinct(free) && i !in free
    ensures Distinct(free + [i])
  {
    forall a, b | 0 <= a < b < |free + [i]|
      ensures (free + [i])[a] != (free + [i])[b]
    {
      assert (free + [i])[a] in free;
    }
  }

  lemma {:induction false} LiveAfterInsert(index: map<nat, nat>, e: nat, i: nat, j: nat)
    requires e !in index
    ensures Live(index[e := i], j) <==> Live(index, j) || j == i
  {
    assert index[e := i][e] == i;
    if Live(index, j) {
      var f :| f in index && index[f] == j;
      assert index[e := i][f] == j;
    }
  }

  lemma {:induction false} LiveAfterErase(index: map<nat, nat>, e: nat, j: nat)
    requires e in index && forall f, h {:trigger Shared(index, f, h)} :: Shared(index, f, h) ==> f == h
    ensures Live(index - {e}, j) <==> Live(index, j) && j != index[e]
  {
    var index' := index - {e};
    if Live(index, j) && j != index[e] {
      var f :| f in index && index[f] == j;
      assert f in index' && index'[f] == j;
    }
    if Live(index', j) {
      var f :| f in index' && index'[f] == j;
      assert f in index && index[f] == j;
      assert Shared(index, e, f) || index[e] != index[f];
    }
  }

  /** A free bucket becomes the bucket of a new edge. */
  lemma {:induction false} TakeFree(index: map<nat, nat>, free: seq<nat>, buckets: seq<seq<GeoNode>>, e: nat)
    requires Partitioned(index, free, buckets) && free != [] && e !in index
    ensures var i := free[|free| - 1];
            && i < |buckets| && buckets[i] == []
            && Partitioned(index[e := i], free[..|free| - 1], buckets)
            && View(index[e := i], buckets) == View(index, buckets)[e := []]
  {
    var i := free[|free| - 1];
    assert i in free && !Live(index, i);
    assert forall f :: f in index ==> index[f] != i;
    var index', free' := index[e := i], free[..|free| - 1];
    forall f, h | Shared(index', f, h)
      ensures f == h
    {
      assert f != e && h != e ==> Shared(index, f, h);
    }
    DistinctPrefix(free);
    forall j | 0 <= j < |buckets|
      ensures j in free' <==> !Live(index', j)
    {
      LiveAfterInsert(index, e, i, j);
      assert j in free <==> !Live(index, j);
    }
  }

  lemma {:induction false} Rewrite(index: map<nat, nat>, free: seq<nat>, buckets: seq<seq<GeoNode>>, e: nat,
                                   b: seq<GeoNode>)
    requires Partitioned(index, free, buckets) && e in index
    ensures Partitioned(index, free, buckets[index[e] := b])
    ensures View(index, buckets[index[e] := b]) == View(index, buckets)[e := b]
  {
    assert Live(index, index[e]);
    assert index[e] !in free;
    var r, q := View(index, buckets[index[e] := b]), View(index, buckets)[e := b];
    assert r.Keys == q.Keys;
    forall f | f in r
      ensures r[f] == q[f]
    {
      assert Shared(index, e, f) || index[e] != index[f];
    }
  }

  /** The bucket of an edge is emptied and returned to the free list. */
  lemma {:induction false} Release(index: map<nat, nat>, free: seq<nat>, buckets: seq<seq<GeoNode>>, e: nat)
    requires Partitioned(index, free, buckets) && e in index
    ensures var index' := index - {e};
            && Partitioned(index', free + [index[e]], buckets[index[e] := []])
            && View(index', buckets[index[e] := []]) == View(index, buckets) - {e}
  {
    var i := index[e];
    var index' := index - {e};
    assert Live(index, i);
    assert i !in free;
    DistinctAppend(free, i);
    forall f, h | Shared(index', f, h)
      ensures f == h
    {
      assert Shared(index, f, h);
    }
    forall j | 0 <= j < |buckets|
      ensures j in free + [i] <==> !Live(index', j)
    {
      LiveAfterErase(index, e, j);
      assert j in free <==> !Live(index, j);
    }
    ErasedView(index, buckets, e);
  }

  lemma {:induction false} ErasedView(index: map<nat, nat>, buckets: seq<seq<GeoNode>>, e: nat)
    requires e in index && forall f :: f in index ==> index[f] < |buckets|
    requires forall f, h {:trigger Shared(index, f, h)} :: Shared(index, f, h) ==> f == h
    ensures View(index - {e}, buckets[index[e] := []])
            == View(index, buckets) - {e}
  {
    var r := View(index - {e}, buckets[index[e] := []]);
    var q := View(index, buckets) - {e};
    assert r.Keys == q.Keys;
    forall f | f in r
      ensures r[f] == q[f]
    {
      assert Shared(index, e, f) || index[e] != index[f];
    }
  }

  lemma {:induction false} Grow(index: map<nat, nat>, free: seq<nat>, buckets: seq<seq<GeoNode>>)
    requires Partitioned(index, free, buckets)
    ensures Partitioned(index, free + [|buckets|], buckets + [[]])
    ensures View(index, buckets + [[]]) == View(index, buckets)
  {
    var n := |buckets|;
    DistinctAppend(free, n);
    forall j | 0 <= j < n + 1
      ensures j in free + [n] <==> !Live(index, j)
    {
      if j < n {
        assert j in free <==> !Live(index, j);
      }
    }
  }

  class CompressedEdgeContainer {
    var buckets: seq<seq<GeoNode>>
    var freeList: seq<nat>
    var freeListMaximum: nat
    var index: map<nat, nat>

    ghost predicate Valid()
      reads this
    {
      Partitioned(index, freeList, buckets) && freeListMaximum == |buckets|
    }

    ghost function Geometries(): Geometry
      requires Valid()
      reads this
    {
      View(index, buckets)
    }

    constructor ()
      ensures Valid() && Geometries() == map[]
    {
      buckets, freeList, freeListMaximum, index := [], [], 0, map[];
      new;
      IncreaseFreeList();
    }

    method IncreaseFreeList()
      requires Valid()
      modifies this`buckets, this`freeList, this`freeListMaximum
      ensures Valid() && Geometries() == old(Geometries()) && |buckets| == old(|buckets|) + 100
      ensures freeList != []
    {
      for i := 0 to 100
        invariant Valid() && Geometries() == old(Geometries()) && |buckets| == old(|buckets|) + i
                  && (i > 0 ==> freeList != [])
      {
        Grow(index, freeList, buckets);
        buckets := buckets + [[]];
        freeList := freeList + [freeListMaximum];
        freeListMaximum := freeListMaximum + 1;
      }
    }

    predicate HasEntryForID(e: nat)
      reads this
    {
      e in index
    }

    /** Gives an edge an empty bucket if it has none. */
    method TakeBucket(e: nat)
      requires Valid() && !HasEntryForID(e)
      modifies this
      ensures Valid() && Geometries() == old(Geometries())[e := []]
    {
      if |freeList| == 0 {
        IncreaseFreeList();
      }
      TakeFree(index, freeList, buckets, e);
      index := index[e := freeList[|freeList| - 1]];
      freeList := freeList[..|freeList| - 1];
    }

    method SetBucket(e: nat, b: seq<GeoNode>)
      requires Valid() && HasEntryForID(e)
      modifies this`buckets
      ensures Valid() && Geometries() == old(Geometries())[e := b]
    {
      Rewrite(index, freeList, buckets, e, b);
      buckets := buckets[index[e] := b];
    }

    method FreeBucket(e: nat)
      requires Valid() && HasEntryForID(e)
      modifies this
      ensures Valid() && Geometries() == old(Geometries()) - {e}
    {
      Release(index, freeList, buckets, e);
      var i := index[e];
      index := index - {e};
      buckets := buckets[i := []];
      freeList := freeList + [i];
    }

    function Bucket(e: nat): (b: seq<GeoNode>)
      requires Valid() && HasEntryForID(e)
      reads this
      ensures b == Geometries()[e]
    {
      buckets[index[e]]
    }

    /** Gives edge 1 a bucket that ends at the via node. */
    method OpenBucket(e: nat, via: nat, weight: int)
      requires Valid()
      modifies this
      ensures Valid() && Geometries() == old(Geometries())[e := Opened(old(Geometries()), e, via, weight)]
    {
      if !HasEntryForID(e) {
        TakeBucket(e);
      }
      if Bucket(e) == [] {
        SetBucket(e, [GeoNode(via, weight)]);
      }
    }

    method CompressEdge(e1: nat, e2: nat, via: nat, target: nat, weight1: int, weight2: int)
      requires Valid() && e1 != e2
      modifies this
      ensures Valid() && Geometries() == Compressed(old(Geometries()), e1, e2, via, target, weight1, weight2)
    {
      ghost var g := Geometries();
      OpenBucket(e1, via, weight1);
      CompressedInSteps(g, e1, e2, via, target, weight1, weight2);
      Extend(e1, e2, target, weight2);
    }

    /** Appends the geometry of edge 2 to that of edge 1. */
    method Extend(e1: nat, e2: nat, target: nat, weight2: int)
      requires Valid() && e1 != e2 && HasEntryForID(e1)
      modifies this
      ensures Valid() && Geometries() == Extended(old(Geometries()), e1, e2, target, weight2)
    {
      if HasEntryForID(e2) {
        SetBucket(e1, Bucket(e1) + Bucket(e2));
        FreeBucket(e2);
      } else {
        SetBucket(e1, Bucket(e1) + [GeoNode(target, weight2)]);
      }
    }

    function GetFirstEdgeTargetID(e: nat): (n: nat)
      requires Valid() && HasEntryForID(e) && |Bucket(e)| >= 2
      reads this
      ensures n == Geometries()[e][0].node
    {
      Bucket(e)[0].node
    }

    function GetLastEdgeSourceID(e: nat): (n: nat)
      requires Valid() && HasEntryForID(e) && |Bucket(e)| >= 2
      reads this
      ensures n == Geometries()[e][|Geometries()[e]| - 2].node
    {
      Bucket(e)[|Bucket(e)| - 2].node
    }
  }
}
