/** Turn restrictions (data_structures/restriction_map.hpp and .cpp) and what compression does to
    them: buckets of targets, one per pair of start and via node. */
module RestrictionMaps {
  import opened Basics
  import opened RoadNetwork

  /** A turn restriction as extracted; `isOnly` forces the turn instead of forbidding it. */
  datatype Restriction = Restriction(from: nat, via: nat, to: nat, isOnly: bool)

  datatype Target = Target(node: nat, isOnly: bool)

  /** The abstract value: the targets listed for each (start, via) pair. */
  type Rules = map<Key, seq<Target>>

  // ----- what the checks answer ----------------------------------------------

  predicate Blocks(t: Target, w: nat) {
    if t.isOnly then w != t.node else w == t.node
  }

  ghost predicate AnyBlocks(bucket: seq<Target>, w: nat) {
    exists i :: 0 <= i < |bucket| && Blocks(bucket[i], w)
  }

  ghost predicate Forbidden(rules: Rules, u: nat, v: nat, w: nat) {
    Key(u, v) in rules && AnyBlocks(rules[Key(u, v)], w)
  }

  /** The target of the first only-restriction in a bucket. */
  function FirstOnly(bucket: seq<Target>): (r: Option<nat>)
    ensures r.Some? ==> Target(r.value, true) in bucket
    ensures r.None? <==> forall t :: t in bucket ==> !t.isOnly
  {
    if bucket == [] then None
    else if bucket[0].isOnly then Some(bucket[0].node)
    else FirstOnly(bucket[1..])
  }

  function OnlyTurn(rules: Rules, u: nat, v: nat): Option<nat> {
    if Key(u, v) in rules then FirstOnly(rules[Key(u, v)]) else None
  }

  // ----- building the map ------------------------------------------------------

  /** One more restriction: the first only-restriction of a bucket drives out all others. */
  function Extended(bucket: seq<Target>, t: Target): seq<Target> {
    if bucket == [] then [t]
    else if bucket[0].isOnly then bucket
    else if t.isOnly then [t]
    else bucket + [t]
  }

  /** The targets that the list gives for one (start, via) pair. */
  function Own(list: seq<Restriction>, k: Key): seq<Target> {
    if list == [] then []
    else
      var last := list[|list| - 1];
      if Key(last.from, last.via) == k then Own(list[..|list| - 1], k) + [Target(last.to, last.isOnly)]
      else Own(list[..|list| - 1], k)
  }

  lemma {:induction false} OwnMember(list: seq<Restriction>, k: Key, t: Target)
    ensures t in Own(list, k) <==> Restriction(k.from, k.to, t.node, t.isOnly) in list
  {
    if list != [] {
      OwnMember(list[..|list| - 1], k, t);
      assert list == list[..|list| - 1] + [list[|list| - 1]];
    }
  }

  /** What a bucket should hold: all its targets, or only the first forced one. */
  function Settled(own: seq<Target>): seq<Target> {
    match FirstOnly(own)
    case Some(node) => [Target(node, true)]
    case None => own
  }

  lemma {:induction false} FirstOnlyAppend(own: seq<Target>, t: Target)
    ensures FirstOnly(own + [t]) ==
            if FirstOnly(own).Some? then FirstOnly(own) else if t.isOnly then Some(t.node) else None
  {
    if own == [] {
      assert own + [t] == [t] && [t][1..] == [];
    } else {
      assert (own + [t])[1..] == own[1..] + [t];
      FirstOnlyAppend(own[1..], t);
    }
  }

  lemma {:induction false} SettledAppend(own: seq<Target>, t: Target)
    ensures Settled(own + [t]) == Extended(Settled(own), t)
  {
    FirstOnlyAppend(own, t);
    if FirstOnly(own).None? {
      assert own != [] ==> own[0] in own;
    }
  }

  /** The rules of a list: only pairs that occur, each settled. */
  ghost predicate IsBuilt(list: seq<Restriction>, rules: Rules) {
    && (forall k :: k in rules <==> Own(list, k) != [])
    && (forall k :: k in rules ==> rules[k] == Settled(Own(list, k)))
  }

  /** A turn of the list is forbidden when a plain restriction names it and nothing is forced from
      that road, or when the first forced turn leads elsewhere. */
  lemma {:induction false} BuiltForbidden(list: seq<Restriction>, rules: Rules, u: nat, v: nat, w: nat)
    requires IsBuilt(list, rules)
    ensures Forbidden(rules, u, v, w) <==>
            match FirstOnly(Own(list, Key(u, v)))
            case Some(node) => w != node
            case None => Restriction(u, v, w, false) in list
  {
    var k := Key(u, v);
    var own := Own(list, k);
    if FirstOnly(own).Some? {
      assert own != [] && rules[k] == [Target(FirstOnly(own).value, true)];
      assert rules[k][0] == Target(FirstOnly(own).value, true);
    } else {
      OwnMember(list, k, Target(w, false));
      if Target(w, false) in own {
        var i :| 0 <= i < |own| && own[i] == Target(w, false);
        assert Blocks(rules[k][i], w);
      }
      if Forbidden(rules, u, v, w) {
        var i :| 0 <= i < |own| && Blocks(own[i], w);
        assert own[i] in own;
      }
    }
  }

  function Total(buckets: seq<seq<Target>>): nat {
    if buckets == [] then 0 else Total(buckets[..|buckets| - 1]) + |buckets[|buckets| - 1]|
  }

  lemma {:induction false} TotalUpdate(buckets: seq<seq<Target>>, i: nat, b: seq<Target>)
    requires i < |buckets|
    ensures Total(buckets[i := b]) == Total(buckets) - |buckets[i]| + |b|
    decreases |buckets|
  {
    var last := |buckets| - 1;
    if i == last {
      assert buckets[i := b][..last] == buckets[..last];
    } else {
      assert buckets[i := b][..last] == buckets[..last][i := b];
      TotalUpdate(buckets[..last], i, b);
    }
  }

  // ----- the fixups ------------------------------------------------------------

  /** FixupStartingTurnRestriction: the road v-w now starts at u. */
  function Restarted(rules: Rules, u: nat, v: nat, w: nat): Rules {
    if Key(v, w) !in rules then rules
    else
      var rest := map k | k in rules && k != Key(v, w) :: rules[k];
      if Key(u, w) in rest then rest else rest[Key(u, w) := rules[Key(v, w)]]
  }

  function Retarget(bucket: seq<Target>, v: nat, w: nat): (r: seq<Target>)
    ensures |r| == |bucket|
    ensures forall i :: 0 <= i < |r| ==> r[i] == if bucket[i].node == v then bucket[i].(node := w) else bucket[i]
  {
    seq(|bucket|, i requires 0 <= i < |bucket| => if bucket[i].node == v then bucket[i].(node := w) else bucket[i])
  }

  /** FixupArrivingTurnRestriction: at u, the way to v now leads to w, seen from any other road. */
  function Redirected(rules: Rules, u: nat, v: nat, w: nat, targets: seq<nat>): Rules {
    map k | k in rules ::
      if k.to == u && k.from in targets && k.from != v then Retarget(rules[k], v, w) else rules[k]
  }

  /** The state of the loop over predecessors, when those in `done` have been handled. */
  ghost predicate Redirecting(index: map<Key, nat>, was: seq<seq<Target>>, buckets: seq<seq<Target>>, u: nat, v: nat,
                              w: nat, done: seq<nat>) {
    && |buckets| == |was|
    && forall k :: k in index && index[k] < |was| ==>
         buckets[index[k]] == if k.to == u && k.from in done then Retarget(was[index[k]], v, w) else was[index[k]]
  }

  // ----- the representation, on values ------------------------------------------

  ghost predicate Indexed(index: map<Key, nat>, size: nat) {
    && (forall k :: k in index ==> index[k] < size)
    && (forall k, l {:trigger Shared(index, k, l)} :: Shared(index, k, l) ==> k == l)
  }

  /** Two pairs with the same bucket. */
  ghost predicate Shared(index: map<Key, nat>, k: Key, l: Key) {
    k in index && l in index && index[k] == index[l]
  }

  ghost function View(index: map<Key, nat>, buckets: seq<seq<Target>>): (r: Rules)
    requires Indexed(index, |buckets|)
    ensures r.Keys == index.Keys && forall k :: k in index ==> r[k] == buckets[index[k]]
  {
    map k | k in index :: buckets[index[k]]
  }

  lemma {:induction false} ViewNew(index: map<Key, nat>, buckets: seq<seq<Target>>, k: Key, b: seq<Target>)
    requires Indexed(index, |buckets|) && k !in index
    ensures Indexed(index[k := |buckets|], |buckets| + 1)
    ensures View(index[k := |buckets|], buckets + [b]) == View(index, buckets)[k := b]
  {
    var index' := index[k := |buckets|];
    forall l, l' | Shared(index', l, l')
      ensures l == l'
    {
      assert l != k && l' != k ==> Shared(index, l, l');
    }
  }

  lemma {:induction false} ViewUpdate(index: map<Key, nat>, buckets: seq<seq<Target>>, k: Key, b: seq<Target>)
    requires Indexed(index, |buckets|) && k in index
    ensures View(index, buckets[index[k] := b]) == View(index, buckets)[k := b]
  {
    var r, q := View(index, buckets[index[k] := b]), View(index, buckets)[k := b];
    assert r.Keys == q.Keys;
    forall l | l in r
      ensures r[l] == q[l]
    {
      assert Shared(index, k, l) || index[k] != index[l];
    }
  }

  lemma {:induction false} ViewRename(index: map<Key, nat>, index': map<Key, nat>, buckets: seq<seq<Target>>, u: nat,
                                      v: nat, w: nat)
    requires Indexed(index, |buckets|) && Key(v, w) in index
    requires var rest := map k | k in index && k != Key(v, w) :: index[k];
             index' == if Key(u, w) in rest then rest else rest[Key(u, w) := index[Key(v, w)]]
    ensures Indexed(index', |buckets|) && View(index', buckets) == Restarted(View(index, buckets), u, v, w)
  {
    forall l, l' | Shared(index', l, l')
      ensures l == l'
    {
      var k, k' := if l in index && l != Key(v, w) then l else Key(v, w), if l' in index
                   && l' != Key(v, w) then l' else Key(v, w);
      assert Shared(index, k, k');
    }
    var r, q := View(index', buckets), Restarted(View(index, buckets), u, v, w);
    assert r.Keys == q.Keys;
    forall l | l in r
      ensures r[l] == q[l]
    {
    }
  }

  lemma {:induction false} ViewRedirect(index: map<Key, nat>, was: seq<seq<Target>>, buckets: seq<seq<Target>>, u: nat,
                                        v: nat, w: nat, done: seq<nat>, targets: seq<nat>)
    requires Indexed(index, |was|) && Redirecting(index, was, buckets, u, v, w, done)
    requires forall x :: x in done <==> x in targets && x != v
    ensures View(index, buckets) == Redirected(View(index, was), u, v, w, targets)
  {
    var r, q := View(index, buckets), Redirected(View(index, was), u, v, w, targets);
    assert r.Keys == q.Keys;
    forall l | l in r
      ensures r[l] == q[l]
    {
    }
  }

  lemma {:induction false} BuiltStep(list: seq<Restriction>, rules: Rules, r: Restriction)
    requires IsBuilt(list, rules)
    ensures var k := Key(r.from, r.via);
            IsBuilt(list + [r], rules[k := Extended(if k in rules then rules[k] else [], Target(r.to, r.isOnly))])
  {
    var k, t, list' := Key(r.from, r.via), Target(r.to, r.isOnly), list + [r];
    assert list'[..|list|] == list;
    SettledAppend(Own(list, k), t);
    assert k !in rules ==> Own(list, k) == [] && Settled(Own(list, k)) == [];
    var rules' := rules[k := Extended(if k in rules then rules[k] else [], t)];
    forall l
      ensures l in rules' <==> Own(list', l) != []
      ensures l in rules' ==> rules'[l] == Settled(Own(list', l))
    {
      assert Own(list', l) == if l == k then Own(list, l) + [t] else Own(list, l);
    }
  }

  function ViasOf(list: seq<Restriction>): set<nat> {
    set r | r in list :: r.via
  }

  ghost predicate Stored(index: map<Key, nat>, buckets: seq<seq<Target>>, count: nat) {
    Indexed(index, |buckets|) && count == Total(buckets) && forall k :: k in index ==> buckets[index[k]] != []
  }

  /** One turn of the constructor's loop. */
  method Add(index0: map<Key, nat>, buckets0: seq<seq<Target>>, count0: nat, r: Restriction)
      returns (index: map<Key, nat>, buckets: seq<seq<Target>>, count: nat)
    requires Stored(index0, buckets0, count0)
    ensures Stored(index, buckets, count)
    ensures var k, rules := Key(r.from, r.via), View(index0, buckets0);
            View(index, buckets) == rules[k := Extended(if k in rules then rules[k] else [], Target(r.to, r.isOnly))]
  {
    index, buckets, count := index0, buckets0, count0;
    var k, t := Key(r.from, r.via), Target(r.to, r.isOnly);
    if k !in index {
      ViewNew(index, buckets, k, [t]);
      assert (buckets + [[t]])[..|buckets|] == buckets;
      index := index[k := |buckets|];
      buckets := buckets + [[t]];
    } else {
      var i := index[k];
      if buckets[i][0].isOnly {
        assert View(index, buckets)[k := buckets[i]] == View(index, buckets);
        return;
      }
      TotalAtLeast(buckets, i);
      var kept := if r.isOnly then [] else buckets[i];
      assert kept + [t] == Extended(buckets[i], t);
      count := count - (|buckets[i]| - |kept|);
      TotalUpdate(buckets, i, kept + [t]);
      ViewUpdate(index, buckets, k, kept + [t]);
      buckets := buckets[i := kept + [t]];
    }
    count := count + 1;
  }

  class RestrictionMap {
    var count: nat
    var buckets: seq<seq<Target>>
    var index: map<Key, nat>
    var starts: set<nat>
    var vias: set<nat>

    ghost predicate Valid()
      reads this
    {
      Indexed(index, |buckets|) && forall k :: k in index ==> k.from in starts && k.to in vias
    }

    ghost function RulesOf(): Rules
      requires Valid()
      reads this
    {
      View(index, buckets)
    }

    constructor (list: seq<Restriction>)
      ensures Valid() && IsBuilt(list, RulesOf()) && count == Total(buckets)
      ensures vias == ViasOf(list)
    {
      var c, b, i := 0, [], map[];
      for n := 0 to |list|
        invariant Stored(i, b, c) && IsBuilt(list[..n], View(i, b))
        invariant forall k :: k in i ==> Own(list[..n], k) != []
      {
        assert list[..n + 1] == list[..n] + [list[n]];
        BuiltStep(list[..n], View(i, b), list[n]);
        i, b, c := Add(i, b, c, list[n]);
      }
      assert list[..|list|] == list;
      count, buckets, index, starts, vias := c, b, i, (set r | r in list :: r.from), ViasOf(list);
      new;
      forall k | k in index
        ensures k.from in starts && k.to in vias
      {
        var t := Own(list, k)[0];
        OwnMember(list, k, t);
        assert Restriction(k.from, k.to, t.node, t.isOnly) in list;
      }
    }

    predicate IsViaNode(v: nat)
      reads this
    {
      v in vias
    }

    method CheckIfTurnIsRestricted(u: nat, v: nat, w: nat) returns (b: bool)
      requires Valid()
      ensures b <==> Forbidden(RulesOf(), u, v, w)
    {
      if u !in starts || Key(u, v) !in index {
        return false;
      }
      var bucket := buckets[index[Key(u, v)]];
      for i := 0 to |bucket|
        invariant forall j :: 0 <= j < i ==> !Blocks(bucket[j], w)
      {
        if w == bucket[i].node && !bucket[i].isOnly {
          assert Blocks(RulesOf()[Key(u, v)][i], w);
          return true;
        }
        if w != bucket[i].node && bucket[i].isOnly {
          assert Blocks(RulesOf()[Key(u, v)][i], w);
          return true;
        }
      }
      return false;
    }

    method CheckForEmanatingIsOnlyTurn(u: nat, v: nat) returns (r: Option<nat>)
      requires Valid()
      ensures r == OnlyTurn(RulesOf(), u, v)
    {
      if u !in starts {
        return None;
      }
      if Key(u, v) in index {
        var bucket := buckets[index[Key(u, v)]];
        for i := 0 to |bucket|
          invariant FirstOnly(bucket) == FirstOnly(bucket[i..])
        {
          if bucket[i].isOnly {
            return Some(bucket[i].node);
          }
          assert bucket[i..][1..] == bucket[i + 1..];
        }
      }
      return None;
    }

    method FixupStartingTurnRestriction(u: nat, v: nat, w: nat)
      requires Valid()
      modifies this`index, this`starts
      ensures Valid() && RulesOf() == Restarted(old(RulesOf()), u, v, w)
    {
      if v !in starts {
        return;
      }
      if Key(v, w) in index {
        var i := index[Key(v, w)];
        ghost var was := index;
        index := map k | k in index && k != Key(v, w) :: index[k];
        starts := starts + {u};
        if Key(u, w) !in index {
          index := index[Key(u, w) := i];
        }
        ViewRename(was, index, buckets, u, v, w);
      }
    }

    /** `targets` are the targets of the roads that the graph stores at u. */
    method FixupArrivingTurnRestriction(u: nat, v: nat, w: nat, targets: seq<nat>)
      requires Valid() && v != w
      modifies this`buckets
      ensures Valid() && RulesOf() == Redirected(old(RulesOf()), u, v, w, targets)
    {
      if !IsViaNode(u) {
        ViewRedirect(index, buckets, buckets, u, v, w, [], []);
        assert Redirected(RulesOf(), u, v, w, targets) == Redirected(RulesOf(), u, v, w, []);
        return;
      }
      var predecessors := Predecessors(targets, v);
      buckets := RedirectAll(index, buckets, u, v, w, predecessors);
      ViewRedirect(index, old(buckets), buckets, u, v, w, predecessors, targets);
    }
  }

  method Predecessors(targets: seq<nat>, v: nat) returns (predecessors: seq<nat>)
    ensures forall x :: x in predecessors <==> x in targets && x != v
  {
    predecessors := [];
    for i := 0 to |targets|
      invariant forall x :: x in predecessors <==> x in targets[..i] && x != v
    {
      assert targets[..i + 1] == targets[..i] + [targets[i]];
      if v != targets[i] {
        predecessors := predecessors + [targets[i]];
      }
    }
    assert targets[..|targets|] == targets;
  }

  method RedirectAll(index: map<Key, nat>, was: seq<seq<Target>>, u: nat, v: nat, w: nat, predecessors: seq<nat>)
      returns (buckets: seq<seq<Target>>)
    requires Indexed(index, |was|) && v != w
    ensures Redirecting(index, was, buckets, u, v, w, predecessors)
  {
    buckets := was;
    for i := 0 to |predecessors|
      invariant Redirecting(index, was, buckets, u, v, w, predecessors[..i])
    {
      var x := predecessors[i];
      ghost var before := buckets;
      if Key(x, u) in index {
        var bucket := RetargetAll(buckets[index[Key(x, u)]], v, w);
        buckets := buckets[index[Key(x, u)] := bucket];
      }
      RedirectStep(index, was, before, buckets, u, v, w, predecessors, i);
    }
    assert predecessors[..|predecessors|] == predecessors;
  }

  /** The inner loop of FixupArrivingTurnRestriction, over one bucket. */
  method RetargetAll(was: seq<Target>, v: nat, w: nat) returns (bucket: seq<Target>)
    ensures bucket == Retarget(was, v, w)
  {
    bucket := was;
    for j := 0 to |bucket|
      invariant |bucket| == |was|
      invariant forall m :: 0 <= m < j ==> bucket[m] == Retarget(was, v, w)[m]
      invariant forall m :: j <= m < |was| ==> bucket[m] == was[m]
    {
      if v == bucket[j].node {
        bucket := bucket[j := bucket[j].(node := w)];
      }
    }
  }

  lemma {:induction false} RetargetTwice(bucket: seq<Target>, v: nat, w: nat)
    requires v != w
    ensures Retarget(Retarget(bucket, v, w), v, w) == Retarget(bucket, v, w)
  {
  }

  lemma {:induction false} RedirectStep(index: map<Key, nat>, was: seq<seq<Target>>, before: seq<seq<Target>>,
                                        buckets: seq<seq<Target>>, u: nat, v: nat, w: nat, done: seq<nat>, i: nat)
    requires i < |done| && v != w && Redirecting(index, was, before, u, v, w, done[..i])
    requires Indexed(index, |was|)
    requires var k := Key(done[i], u);
             buckets == if k in index then before[index[k] := Retarget(before[index[k]], v, w)] else before
    ensures Redirecting(index, was, buckets, u, v, w, done[..i + 1])
  {
    assert done[..i + 1] == done[..i] + [done[i]];
    if Key(done[i], u) in index {
      RetargetTwice(was[index[Key(done[i], u)]], v, w);
    }
    forall k | k in index
      ensures buckets[index[k]] ==
              if k.to == u && k.from in done[..i + 1] then Retarget(was[index[k]], v, w) else was[index[k]]
    {
      assert k == Key(k.from, k.to);
      assert Key(done[i], u) in index ==> Shared(index, Key(done[i], u), k) || index[Key(done[i], u)] != index[k];
    }
  }

  lemma {:induction false} TotalAtLeast(buckets: seq<seq<Target>>, i: nat)
    requires i < |buckets|
    ensures Total(buckets) >= |buckets[i]|
    decreases |buckets|
  {
    if i < |buckets| - 1 {
      TotalAtLeast(buckets[..|buckets| - 1], i);
    }
  }
}
