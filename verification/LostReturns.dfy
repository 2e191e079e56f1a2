/** What the restrictions that compression loses mean for the turns of the edge-based graph. A restriction that
    leads back to where it comes from keeps naming a removed node, unless the guard of its step is met; whether that
    changes a turn depends on the original network alone. */
module LostReturns {
  import opened Basics
  import opened RoadNetwork
  import opened RoadGeometry
  import opened FullCompression
  import opened DynamicGraphs
  import opened RestrictionMaps
  import opened TurnFilter
  import RC = RestrictionCarry
  import CG = CompressedGeometry
  import GC = GraphCompressor
  import RS = RoadStorage

  // ----- lost buckets ----------------------------------------------------------------------------

  /** Targets stand for the original ones, but for the way back to `from`, which names a removed node. */
  ghost predicate LostTarget(net: Links, chains: Chains, removed: set<nat>, via: nat, from: nat, t: Target, t0: Target)
    requires chains.Keys == net.Keys
  {
    if t0.node == from then t.isOnly == t0.isOnly && t.node in removed else RC.Stands(net, chains, via, t, t0)
  }

  ghost predicate LostTargets(net: Links, chains: Chains, removed: set<nat>, via: nat, from: nat, bucket: seq<Target>,
                              bucket0: seq<Target>)
    requires chains.Keys == net.Keys
  {
    && |bucket| == |bucket0|
    && forall i :: 0 <= i < |bucket| ==> LostTarget(net, chains, removed, via, from, bucket[i], bucket0[i])
  }

  ghost predicate LeadsBack(bucket0: seq<Target>, from: nat) {
    exists i :: 0 <= i < |bucket0| && bucket0[i].node == from
  }

  ghost predicate LostBucket(net: Links, chains: Chains, removed: set<nat>, via: nat, from: nat, bucket: seq<Target>,
                             bucket0: seq<Target>)
    requires chains.Keys == net.Keys
  {
    LeadsBack(bucket0, from) && LostTargets(net, chains, removed, via, from, bucket, bucket0)
  }

  /** The bucket of road k has lost its ways back. */
  ghost predicate IsLost(st: GC.State, rules0: Rules, k: Key) {
    && st.chains.Keys == st.net.Keys && Flip(k) in st.net && k in st.rules
    && var o := RC.Origin(st.net, st.chains, k);
       o in rules0 && LostBucket(st.net, st.chains, st.removed, k.to, o.from, st.rules[k], rules0[o])
  }

  /** The bucket of road k is the original one, renamed. */
  ghost predicate IsKept(st: GC.State, rules0: Rules, k: Key) {
    st.chains.Keys == st.net.Keys && Flip(k) in st.net && RC.CarriedAt(st.net, st.chains, rules0, st.rules, k)
  }

  /** Every bucket is kept, or has lost its ways back. */
  ghost predicate KeptOrLost(st: GC.State, rules0: Rules) {
    forall k {:trigger IsKept(st, rules0, k)} {:trigger IsLost(st, rules0, k)} :: k in st.net ==>
      IsKept(st, rules0, k) || IsLost(st, rules0, k)
  }

  /** A kept bucket names no removed node, so it has lost nothing. */
  lemma {:induction false} KeptIsNotLost(net0: Links, s: Signals, st: GC.State, rules0: Rules, k: Key)
    requires Compressed(net0, s, st.removed, st.net, st.chains) && IsKept(st, rules0, k)
    ensures !IsLost(st, rules0, k)
  {
    var o := RC.Origin(st.net, st.chains, k);
    if k in st.rules && LeadsBack(rules0[o], o.from) {
      var i :| 0 <= i < |rules0[o]| && rules0[o][i].node == o.from;
      var t := st.rules[k][i];
      assert RC.Stands(st.net, st.chains, k.to, t, rules0[o][i]);
      var l := Key(k.to, t.node);
      assert GoodLink(net0, s, st.removed, l, st.chains[l], st.net[l]);
      assert !LostTarget(st.net, st.chains, st.removed, k.to, o.from, t, rules0[o][i]);
    }
  }

  // ----- one step ------------------------------------------------------------------------------------

  /** A step that merges the roads at v. */
  ghost predicate Merges(st: GC.State, s: Signals, v: nat, step: GC.Step, vias: set<nat>) {
    && st.chains.Keys == st.net.Keys == st.slots.Keys && GC.Placed(st, vias) && v !in vias && v !in st.removed
    && step.Merge? && Contractible(st.net, step.u, v, step.w)
    && RC.TargetsAt(Contracted(st.net, s, step.u, v, step.w), step.u, step.targetsU)
    && RC.TargetsAt(Contracted(st.net, s, step.u, v, step.w), step.w, step.targetsW)
  }

  /** The bucket of k after the step, and where it was before. */
  lemma {:induction false} StepBucketOf(st: GC.State, s: Signals, v: nat, step: GC.Step, vias: set<nat>, k: Key)
    requires Merges(st, s, v, step, vias) && k in GC.NextState(st, s, v, step).net
    ensures var st', l := GC.NextState(st, s, v, step), RC.Source(k, step.u, v, step.w);
            && st'.chains.Keys == st'.net.Keys && Flip(k) in st'.net && l in st.net && Flip(l) in st.net && l.to == k.to
            && (k in st'.rules <==> l in st.rules)
            && (k in st'.rules ==> st'.rules[k] == RC.StepBucket(st.rules[l], k, step.u, v, step.w))
            && RC.Origin(st'.net, st'.chains, k) == RC.Origin(st.net, st.chains, l)
  {
    var u, w := step.u, step.w;
    SameKeys(st.net, st.chains, s, u, v, w);
    ContractedSimple(st.net, s, u, v, w);
    RC.FixedUpAt(st.net, s, st.rules, u, v, w, step.targetsU, step.targetsW, k);
    assert Flip(k) in Contracted(st.net, s, u, v, w);
    FirstAfter(st.net, st.chains, u, v, w, Flip(k));
    assert Flip(RC.Source(k, u, v, w)) == Before(Flip(k), u, v, w);
  }

  /** A kept bucket stays kept under the guard. */
  lemma {:induction false} StepKept(st: GC.State, s: Signals, rules0: Rules, v: nat, step: GC.Step, vias: set<nat>,
                                    k: Key)
    requires Merges(st, s, v, step, vias) && k in GC.NextState(st, s, v, step).net
    requires IsKept(st, rules0, RC.Source(k, step.u, v, step.w))
    requires k == Key(step.w, step.u) ==> RC.ReturnFree(st.rules, v, step.u)
    ensures IsKept(GC.NextState(st, s, v, step), rules0, k)
  {
    StepBucketOf(st, s, v, step, vias, k);
    var l := RC.Source(k, step.u, v, step.w);
    if l in st.rules {
      RC.StepBuckets(st.net, st.chains, s, rules0, st.rules, step.u, v, step.w, k,
                     rules0[RC.Origin(st.net, st.chains, l)]);
    }
  }

  /** Without it, the bucket renamed from (v, u) to (w, u) loses its ways back. */
  lemma {:induction false} StepLoses(st: GC.State, s: Signals, rules0: Rules, v: nat, step: GC.Step, vias: set<nat>)
    requires Merges(st, s, v, step, vias) && DistinctFirsts(st.net, st.chains)
    requires IsKept(st, rules0, Key(v, step.u)) && !RC.ReturnFree(st.rules, v, step.u)
    ensures IsLost(GC.NextState(st, s, v, step), rules0, Key(step.w, step.u))
  {
    var st', u, w := GC.NextState(st, s, v, step), step.u, step.w;
    var k, l := Key(w, u), Key(v, u);
    StepBucketOf(st, s, v, step, vias, k);
    var o := RC.Origin(st.net, st.chains, l);
    var bucket, bucket0 := st.rules[l], rules0[o];
    forall i | 0 <= i < |bucket|
      ensures LostTarget(st'.net, st'.chains, st'.removed, u, o.from, bucket[i], bucket0[i])
    {
      assert RC.Stands(st.net, st.chains, u, bucket[i], bucket0[i]);
      if bucket0[i].node == o.from {
        assert Key(u, bucket[i].node) == Key(u, v);
      } else {
        RC.StepStands(st.net, st.chains, s, u, v, w, u, bucket[i], bucket0[i], bucket[i]);
      }
    }
    var t :| t in bucket && t.node == v;
    var i :| 0 <= i < |bucket| && bucket[i] == t;
    assert RC.Stands(st.net, st.chains, u, bucket[i], bucket0[i]);
    assert bucket0[i].node == o.from;
  }

  /** A lost bucket stays lost. */
  lemma {:induction false} StepLost(st: GC.State, s: Signals, rules0: Rules, v: nat, step: GC.Step, vias: set<nat>,
                                    k: Key)
    requires Merges(st, s, v, step, vias) && k in GC.NextState(st, s, v, step).net
    requires IsLost(st, rules0, RC.Source(k, step.u, v, step.w))
    ensures IsLost(GC.NextState(st, s, v, step), rules0, k)
  {
    var st', u, w := GC.NextState(st, s, v, step), step.u, step.w;
    StepBucketOf(st, s, v, step, vias, k);
    var l := RC.Source(k, u, v, w);
    var o := RC.Origin(st.net, st.chains, l);
    var bucket, bucket', bucket0 := st.rules[l], st'.rules[k], rules0[o];
    forall i | 0 <= i < |bucket|
      ensures LostTarget(st'.net, st'.chains, st'.removed, k.to, o.from, bucket'[i], bucket0[i])
    {
      assert LostTarget(st.net, st.chains, st.removed, k.to, o.from, bucket[i], bucket0[i]);
      if bucket0[i].node != o.from {
        assert bucket[i].node == v ==> Flip(Key(k.to, v)) in st.net;
        RC.StepStands(st.net, st.chains, s, u, v, w, k.to, bucket[i], bucket0[i], bucket'[i]);
      }
    }
  }

  /** What a step does to the bucket of k. */
  lemma {:induction false} StepBucketState(net0: Links, s: Signals, rules0: Rules, st: GC.State, v: nat, step: GC.Step,
                                           vias: set<nat>, k: Key)
    requires Merges(st, s, v, step, vias) && Compressed(net0, s, st.removed, st.net, st.chains)
    requires KeptOrLost(st, rules0) && k in GC.NextState(st, s, v, step).net
    ensures var st', l := GC.NextState(st, s, v, step), RC.Source(k, step.u, v, step.w);
            var loses := k == Key(step.w, step.u) && !RC.ReturnFree(st.rules, v, step.u) && IsKept(st, rules0, l);
            && (IsKept(st', rules0, k) || IsLost(st', rules0, k))
            && (IsLost(st', rules0, k) <==> IsLost(st, rules0, l) || loses)
  {
    var st', l := GC.NextState(st, s, v, step), RC.Source(k, step.u, v, step.w);
    StepBucketOf(st, s, v, step, vias, k);
    StepCompressed(net0, s, st.removed, st.net, st.chains, step.u, v, step.w);
    assert IsKept(st, rules0, l) || IsLost(st, rules0, l);
    if IsLost(st, rules0, l) {
      StepLost(st, s, rules0, v, step, vias, k);
    } else if k == Key(step.w, step.u) && !RC.ReturnFree(st.rules, v, step.u) {
      StepLoses(st, s, rules0, v, step, vias);
    } else {
      StepKept(st, s, rules0, v, step, vias, k);
      KeptIsNotLost(net0, s, st', rules0, k);
    }
  }

  // ----- which losses matter ---------------------------------------------------------------------------

  /** The restrictions of the road `from` - via decide about the way back: it is the forced turn, or nothing is
      forced and it is forbidden. */
  ghost predicate DecidesBack(bucket0: seq<Target>, from: nat) {
    match FirstOnly(bucket0)
    case Some(only) => only == from
    case None => LeadsBack(bucket0, from)
  }

  /** Turning round at the end of road o is possible but for the restrictions, and these decide about it. */
  ghost predicate Matters(net0: Links, barriers: set<nat>, rules0: Rules, o: Key) {
    && o in rules0 && DecidesBack(rules0[o], o.from)
    && Usable(net0, o.from, o.to) && Usable(net0, o.to, o.from)
    && PassesBarrier(net0, barriers, TurnOf(o.from, o.to, o.from))
  }

  /** A lost bucket that matters. */
  ghost predicate HurtsAt(net0: Links, barriers: set<nat>, rules0: Rules, st: GC.State, k: Key) {
    k in st.net && IsLost(st, rules0, k) && Matters(net0, barriers, rules0, RC.Origin(st.net, st.chains, k))
  }

  ghost predicate Hurt(net0: Links, barriers: set<nat>, rules0: Rules, st: GC.State) {
    exists k :: HurtsAt(net0, barriers, rules0, st, k)
  }

  /** The step does not meet the guard, and it matters. */
  ghost predicate Harmful(net0: Links, barriers: set<nat>, rules0: Rules, st: GC.State, step: GC.Step, v: nat) {
    && !GC.Met(st, step, v) && st.chains.Keys == st.net.Keys && Key(step.u, v) in st.net
    && Matters(net0, barriers, rules0, RC.Origin(st.net, st.chains, Key(v, step.u)))
  }

  /** If a bucket is already lost, its step meets the guard. */
  lemma {:induction false} LostIsReturnFree(net0: Links, s: Signals, rules0: Rules, st: GC.State, v: nat, u: nat)
    requires Compressed(net0, s, st.removed, st.net, st.chains) && v !in st.removed
    requires Key(v, u) in st.net && IsLost(st, rules0, Key(v, u))
    ensures RC.ReturnFree(st.rules, v, u)
  {
    var k := Key(v, u);
    var o := RC.Origin(st.net, st.chains, k);
    forall t | t in st.rules[k]
      ensures t.node != v
    {
      var i :| 0 <= i < |st.rules[k]| && st.rules[k][i] == t;
      assert LostTarget(st.net, st.chains, st.removed, u, o.from, t, rules0[o][i]);
    }
  }

  /** A step hurts if and only if it is harmful, or the state was hurt before. */
  lemma {:induction false} StepHurts(net0: Links, s: Signals, barriers: set<nat>, rules0: Rules, st: GC.State, v: nat,
                                     step: GC.Step, vias: set<nat>)
    requires Merges(st, s, v, step, vias) && Compressed(net0, s, st.removed, st.net, st.chains)
             && KeptOrLost(st, rules0)
    ensures KeptOrLost(GC.NextState(st, s, v, step), rules0)
    ensures Hurt(net0, barriers, rules0, GC.NextState(st, s, v, step)) <==>
              Hurt(net0, barriers, rules0, st) || Harmful(net0, barriers, rules0, st, step, v)
  {
    var st', u, w := GC.NextState(st, s, v, step), step.u, step.w;
    forall k | k in st'.net
      ensures IsKept(st', rules0, k) || IsLost(st', rules0, k)
    {
      StepBucketState(net0, s, rules0, st, v, step, vias, k);
    }
    if Hurt(net0, barriers, rules0, st') {
      var k :| HurtsAt(net0, barriers, rules0, st', k);
      HurtBefore(net0, s, barriers, rules0, st, v, step, vias, k);
    }
    if Hurt(net0, barriers, rules0, st) {
      var l :| HurtsAt(net0, barriers, rules0, st, l);
      var k := if l == Key(v, w) then Key(u, w) else if l == Key(v, u) then Key(w, u) else l;
      HurtAfter(net0, s, barriers, rules0, st, v, step, vias, l, k);
    } else if Harmful(net0, barriers, rules0, st, step, v) {
      assert Flip(Key(u, v)) == Key(v, u);
      assert Key(v, u) in st.net;
      if IsLost(st, rules0, Key(v, u)) {
        LostIsReturnFree(net0, s, rules0, st, v, u);
      }
      HurtAfter(net0, s, barriers, rules0, st, v, step, vias, Key(v, u), Key(w, u));
    }
  }

  lemma {:induction false} HurtBefore(net0: Links, s: Signals, barriers: set<nat>, rules0: Rules, st: GC.State, v: nat,
                                      step: GC.Step, vias: set<nat>, k: Key)
    requires Merges(st, s, v, step, vias) && Compressed(net0, s, st.removed, st.net, st.chains)
             && KeptOrLost(st, rules0)
    requires HurtsAt(net0, barriers, rules0, GC.NextState(st, s, v, step), k)
    ensures Hurt(net0, barriers, rules0, st) || Harmful(net0, barriers, rules0, st, step, v)
  {
    var l := RC.Source(k, step.u, v, step.w);
    StepBucketState(net0, s, rules0, st, v, step, vias, k);
    StepBucketOf(st, s, v, step, vias, k);
    if IsLost(st, rules0, l) {
      assert HurtsAt(net0, barriers, rules0, st, l);
    }
  }

  lemma {:induction false} HurtAfter(net0: Links, s: Signals, barriers: set<nat>, rules0: Rules, st: GC.State, v: nat,
                                     step: GC.Step, vias: set<nat>, l: Key, k: Key)
    requires Merges(st, s, v, step, vias) && Compressed(net0, s, st.removed, st.net, st.chains)
             && KeptOrLost(st, rules0)
    requires k == if l == Key(v, step.w) then Key(step.u, step.w)
                  else if l == Key(v, step.u) then Key(step.w, step.u) else l
    requires l in st.net && l in st.rules && Flip(l) in st.net
    requires Matters(net0, barriers, rules0, RC.Origin(st.net, st.chains, l))
    requires IsLost(st, rules0, l) || (l == Key(v, step.u) && IsKept(st, rules0, l) && !GC.Met(st, step, v))
    ensures Hurt(net0, barriers, rules0, GC.NextState(st, s, v, step))
  {
    assert l.from == v ==> l.to == step.u || l.to == step.w;
    assert RC.Source(k, step.u, v, step.w) == l;
    assert k in GC.NextState(st, s, v, step).net;
    StepBucketState(net0, s, rules0, st, v, step, vias, k);
    StepBucketOf(st, s, v, step, vias, k);
    assert HurtsAt(net0, barriers, rules0, GC.NextState(st, s, v, step), k);
  }

  // ----- whole runs ----------------------------------------------------------------------------------------

  ghost predicate AllHarmless(net0: Links, barriers: set<nat>, rules0: Rules, trace: seq<GC.State>,
                              steps: seq<GC.Step>, n: nat)
    requires n <= |trace| && n <= |steps|
  {
    forall v {:trigger Harmful(net0, barriers, rules0, trace[v], steps[v], v)} :: 0 <= v < n ==>
      !Harmful(net0, barriers, rules0, trace[v], steps[v], v)
  }

  /** What is known about the restrictions after the first n nodes. */
  ghost predicate Tracked(net0: Links, s: Signals, rules0: Rules, st: GC.State, n: nat, vias: set<nat>) {
    && Compressed(net0, s, st.removed, st.net, st.chains) && GC.Placed(st, vias)
    && (forall x :: x in st.removed ==> x < n) && KeptOrLost(st, rules0)
  }

  lemma {:induction false} StartTracked(net0: Links, s: Signals, barriers: set<nat>, rules0: Rules, st: GC.State,
                                        vias: set<nat>)
    requires GC.CarriedSoFar(net0, s, rules0, st, 0, vias, true)
    ensures Tracked(net0, s, rules0, st, 0, vias) && !Hurt(net0, barriers, rules0, st)
  {
    forall k | k in st.net
      ensures IsKept(st, rules0, k) && !IsLost(st, rules0, k)
    {
      assert Flip(k) in st.net && RC.CarriedAt(st.net, st.chains, rules0, st.rules, k);
      KeptIsNotLost(net0, s, st, rules0, k);
    }
  }

  lemma {:induction false} StepTracked(net0: Links, s: Signals, barriers: set<nat>, rules0: Rules, st: GC.State,
                                       step: GC.Step, st': GC.State, n: nat, vias: set<nat>)
    requires Tracked(net0, s, rules0, st, n, vias) && st.chains.Keys == st.net.Keys == st.slots.Keys
    requires GC.Turn(st, step, st', s, barriers, vias, n)
    ensures Tracked(net0, s, rules0, st', n + 1, vias)
    ensures Hurt(net0, barriers, rules0, st') <==>
              Hurt(net0, barriers, rules0, st) || Harmful(net0, barriers, rules0, st, step, n)
  {
    if step.Merge? {
      StepCompressed(net0, s, st.removed, st.net, st.chains, step.u, n, step.w);
      GC.StepPlaced(st, s, vias, n, step);
      StepHurts(net0, s, barriers, rules0, st, n, step, vias);
    }
  }

  lemma {:induction false} HarmlessStep(net0: Links, barriers: set<nat>, rules0: Rules, trace: seq<GC.State>,
                                        steps: seq<GC.Step>, n: nat)
    requires n < |trace| && n < |steps|
    ensures AllHarmless(net0, barriers, rules0, trace, steps, n + 1) <==>
              && AllHarmless(net0, barriers, rules0, trace, steps, n)
              && !Harmful(net0, barriers, rules0, trace[n], steps[n], n)
  {
  }

  /** A run leaves the network unhurt if and only if none of its steps was harmful. */
  lemma {:induction false} RunHurts(net0: Links, s: Signals, barriers: set<nat>, rules0: Rules, trace: seq<GC.State>,
                                    steps: seq<GC.Step>, n: nat, i: nat, vias: set<nat>)
    requires GC.Ran(trace, steps, n, s, barriers, vias) && i <= n
    requires GC.CarriedSoFar(net0, s, rules0, trace[0], 0, vias, true)
    ensures Tracked(net0, s, rules0, trace[i], i, vias)
    ensures Hurt(net0, barriers, rules0, trace[i]) <==> !AllHarmless(net0, barriers, rules0, trace, steps, i)
  {
    if i == 0 {
      StartTracked(net0, s, barriers, rules0, trace[0], vias);
    } else {
      var v := i - 1;
      RunHurts(net0, s, barriers, rules0, trace, steps, n, v, vias);
      assert GC.Turn(trace[v], steps[v], trace[v + 1], s, barriers, vias, v);
      StepTracked(net0, s, barriers, rules0, trace[v], steps[v], trace[v + 1], v, vias);
      HarmlessStep(net0, barriers, rules0, trace, steps, v);
    }
  }

  // ----- the answers of a lost bucket ---------------------------------------------------------------------------

  lemma {:induction false} LostFirstOnly(net: Links, chains: Chains, removed: set<nat>, via: nat, from: nat,
                                         bucket: seq<Target>, bucket0: seq<Target>)
    requires chains.Keys == net.Keys && LostTargets(net, chains, removed, via, from, bucket, bucket0)
    ensures FirstOnly(bucket).None? <==> FirstOnly(bucket0).None?
    ensures FirstOnly(bucket).Some? ==>
              if FirstOnly(bucket0).value == from then FirstOnly(bucket).value in removed
              else
                && Key(via, FirstOnly(bucket).value) in net
                && First(chains, Key(via, FirstOnly(bucket).value)) == FirstOnly(bucket0).value
  {
    if bucket != [] {
      assert LostTarget(net, chains, removed, via, from, bucket[0], bucket0[0]);
      if !bucket[0].isOnly {
        LostFirstOnly(net, chains, removed, via, from, bucket[1..], bucket0[1..]);
      }
    }
  }

  /** Where nothing is forced, a lost bucket forbids what it forbade, but for the way back. */
  lemma {:induction false} LostBlocks(net: Links, chains: Chains, removed: set<nat>, via: nat, from: nat,
                                      bucket: seq<Target>, bucket0: seq<Target>, y: nat)
    requires chains.Keys == net.Keys && DistinctFirsts(net, chains) && y !in removed && Key(via, y) in net
    requires LostTargets(net, chains, removed, via, from, bucket, bucket0) && FirstOnly(bucket0).None?
    ensures AnyBlocks(bucket, y) <==>
              First(chains, Key(via, y)) != from && AnyBlocks(bucket0, First(chains, Key(via, y)))
  {
    var y0 := First(chains, Key(via, y));
    LostFirstOnly(net, chains, removed, via, from, bucket, bucket0);
    forall i | 0 <= i < |bucket|
      ensures Blocks(bucket[i], y) <==> y0 != from && Blocks(bucket0[i], y0)
    {
      assert LostTarget(net, chains, removed, via, from, bucket[i], bucket0[i]);
      assert bucket[i] in bucket && bucket0[i] in bucket0;
      if bucket0[i].node != from {
        RC.BlocksAgree(net, chains, via, bucket[i], bucket0[i], y);
      }
    }
    if i :| 0 <= i < |bucket0| && Blocks(bucket0[i], y0) {
      assert Blocks(bucket[i], y) <==> y0 != from;
    }
  }

  /** From a road whose bucket is lost, exactly the answer for the way back is wrong, if the restrictions decide
      about it. */
  lemma {:induction false} LostAnswers(net0: Links, s: Signals, st: GC.State, rules0: Rules, t: TurnOf)
    requires Compressed(net0, s, st.removed, st.net, st.chains) && IsLost(st, rules0, Key(t.u, t.v))
    requires Key(t.u, t.v) in st.net && Key(t.v, t.u) in st.net && Key(t.v, t.w) in st.net
    ensures var o := RC.Origin(st.net, st.chains, Key(t.u, t.v));
            (PassesRules(st.rules, t) <==> PassesRules(rules0, OriginalTurn(st.chains, t))) <==>
              !(t.u == t.w && DecidesBack(rules0[o], o.from))
  {
    var k, l := Key(t.u, t.v), Key(t.v, t.w);
    var o := RC.Origin(st.net, st.chains, k);
    var bucket, bucket0 := st.rules[k], rules0[o];
    assert GoodLink(net0, s, st.removed, l, st.chains[l], st.net[l]);
    assert t.u == t.w <==> First(st.chains, l) == o.from;
    LostFirstOnly(st.net, st.chains, st.removed, t.v, o.from, bucket, bucket0);
    if FirstOnly(bucket0).None? {
      LostBlocks(st.net, st.chains, st.removed, t.v, o.from, bucket, bucket0, t.w);
      BlocksBack(bucket0, o.from);
    } else if FirstOnly(bucket0).value != o.from {
      var only := FirstOnly(bucket).value;
      assert t.w == only <==> First(st.chains, l) == FirstOnly(bucket0).value;
    }
  }

  lemma {:induction false} BlocksBack(bucket0: seq<Target>, from: nat)
    requires FirstOnly(bucket0).None? && LeadsBack(bucket0, from)
    ensures AnyBlocks(bucket0, from)
  {
    var i :| 0 <= i < |bucket0| && bucket0[i].node == from;
    assert bucket0[i] in bucket0 && Blocks(bucket0[i], from);
  }

  // ----- the turns -----------------------------------------------------------------------------------------------

  /** A turn gets the wrong answer exactly if it leads back over a lost bucket that matters. */
  lemma {:induction false} AnswerIff(net0: Links, s: Signals, rules0: Rules, st: GC.State, g: CG.Geometry,
                                     barriers: set<nat>, t: TurnOf)
    requires GC.Faithful(net0, s, st, g) && KeptOrLost(st, rules0)
    requires Key(t.u, t.v) in st.net && Key(t.v, t.w) in st.net
    ensures SameAnswer(net0, barriers, rules0, st, t) <==>
              !(t.u == t.w && HurtsAt(net0, barriers, rules0, st, Key(t.u, t.v)))
  {
    var k := Key(t.u, t.v);
    SamePassage(net0, s, st.removed, st.net, st.chains, barriers, t);
    assert IsKept(st, rules0, k) || IsLost(st, rules0, k);
    if IsLost(st, rules0, k) {
      LostAnswers(net0, s, st, rules0, t);
    } else {
      SameGenerated(net0, s, rules0, st, g, barriers, t);
    }
  }

  lemma {:induction false} AnswersIff(net0: Links, s: Signals, rules0: Rules, st: GC.State, g: CG.Geometry,
                                      barriers: set<nat>)
    requires GC.Faithful(net0, s, st, g) && KeptOrLost(st, rules0)
    ensures SameAnswers(net0, barriers, rules0, st) <==> !Hurt(net0, barriers, rules0, st)
  {
    forall t: TurnOf | Key(t.u, t.v) in st.net && Key(t.v, t.w) in st.net
      ensures SameAnswer(net0, barriers, rules0, st, t) <==>
                !(t.u == t.w && HurtsAt(net0, barriers, rules0, st, Key(t.u, t.v)))
    {
      AnswerIff(net0, s, rules0, st, g, barriers, t);
    }
    if Hurt(net0, barriers, rules0, st) {
      var k :| HurtsAt(net0, barriers, rules0, st, k);
      assert Flip(k) in st.net && k == Key(k.from, k.to);
      assert !SameAnswer(net0, barriers, rules0, st, TurnOf(k.from, k.to, k.from));
    }
  }

  /** The list of turns is right only if every answer is. */
  lemma {:induction false} TurnsAnswer(net0: Links, s: Signals, rules0: Rules, st: GC.State, g: CG.Geometry,
                                       barriers: set<nat>, turns: seq<TurnOf>, t: TurnOf)
    requires GC.Faithful(net0, s, st, g) && SameTurns(net0, barriers, rules0, st, turns)
    requires forall t :: t in turns <==> Generated(st.net, barriers, st.rules, t)
    requires Key(t.u, t.v) in st.net && Key(t.v, t.w) in st.net
    ensures SameAnswer(net0, barriers, rules0, st, t)
  {
    var k := Key(t.u, t.v);
    assert Flip(k) in st.net && GoodLink(net0, s, st.removed, k, st.chains[k], st.net[k]);
    var t0 := OriginalTurnOf(st, t);
    if Generated(net0, barriers, rules0, t0) {
      assert StandsIn(st, turns, t0);
      var t' :| t' in turns && OriginalTurnOf(st, t') == t0;
      assert Flip(Key(t'.u, t'.v)) in st.net;
      DistinctOriginals(net0, s, st, g, t, t');
    }
  }

  /** The turns generated after compression are the original ones at surviving nodes, one for one, if and only if
      no step of the run was harmful. */
  lemma {:induction false} TurnsIff(net0: Links, s: Signals, barriers: set<nat>, rules0: Rules, trace: seq<GC.State>,
                                    steps: seq<GC.Step>, n: nat, vias: set<nat>, g: CG.Geometry, turns: seq<TurnOf>)
    requires GC.Ran(trace, steps, n, s, barriers, vias) && GC.Faithful(net0, s, trace[n], g)
    requires GC.CarriedSoFar(net0, s, rules0, trace[0], 0, vias, true)
    requires forall t :: t in turns <==> Generated(trace[n].net, barriers, trace[n].rules, t)
    ensures SameTurns(net0, barriers, rules0, trace[n], turns) <==>
              AllHarmless(net0, barriers, rules0, trace, steps, n)
  {
    var st := trace[n];
    RunHurts(net0, s, barriers, rules0, trace, steps, n, n, vias);
    AnswersIff(net0, s, rules0, st, g, barriers);
    if SameAnswers(net0, barriers, rules0, st) {
      FilteredTurns(net0, s, rules0, st, g, barriers, turns);
    }
    if SameTurns(net0, barriers, rules0, st, turns) {
      forall t: TurnOf | Key(t.u, t.v) in st.net && Key(t.v, t.w) in st.net
        ensures SameAnswer(net0, barriers, rules0, st, t)
      {
        TurnsAnswer(net0, s, rules0, st, g, barriers, turns, t);
      }
    }
  }

  /** Compress the network, then generate its turns: nothing is lost or gained at a surviving node, if and only if
      no step was harmful. */
  method CompressAndGenerate(graph: DynamicGraph<Road>, restrictions: RestrictionMap,
                             container: CG.CompressedEdgeContainer, barriers: set<nat>, s: Signals,
                             ghost net0: Links, ghost slots0: Slots)
      returns (turns: seq<TurnOf>, ghost st: GC.State, ghost trace: seq<GC.State>, ghost steps: seq<GC.Step>)
    requires graph.Valid() && restrictions.Valid() && container.Valid() && s.penalty >= 0
    requires GC.Represents(graph.nodeArray, graph.edgeList, net0, slots0)
    requires GC.Original(net0, restrictions.RulesOf()) && container.Geometries() == map[]
    modifies graph, restrictions, container
    ensures graph.numberOfNodes == old(graph.numberOfNodes)
    ensures GC.Ran(trace, steps, graph.numberOfNodes, s, barriers, old(restrictions.vias))
    ensures trace[graph.numberOfNodes] == st && trace[0] == GC.StartState(net0, slots0, old(restrictions.RulesOf()))
    ensures forall t :: t in turns <==> Generated(st.net, barriers, st.rules, t)
    ensures Complies(st.net, barriers, st.rules, turns) && Once(turns)
    ensures SameTurns(net0, barriers, old(restrictions.RulesOf()), st, turns) <==>
              AllHarmless(net0, barriers, old(restrictions.RulesOf()), trace, steps, graph.numberOfNodes)
    ensures GC.AllMet(trace, steps, graph.numberOfNodes) ==>
              SameTurns(net0, barriers, old(restrictions.RulesOf()), st, turns)
    ensures RC.NoReturns(old(restrictions.RulesOf())) ==>
              SameTurns(net0, barriers, old(restrictions.RulesOf()), st, turns)
    ensures st.removed !! barriers && st.removed !! old(restrictions.vias)
  {
    ghost var rules0, vias := restrictions.RulesOf(), restrictions.vias;
    GC.StartCarriedState(net0, s, slots0, rules0, vias);
    st, trace, steps := GC.Compress(graph, restrictions, container, barriers, s, net0, slots0);
    turns := GenerateTurns(graph, restrictions, barriers, st.net, st.slots);
    TurnsIff(net0, s, barriers, rules0, trace, steps, graph.numberOfNodes, vias, container.Geometries(), turns);
    if GC.AllMet(trace, steps, graph.numberOfNodes) {
      MetIsHarmless(net0, barriers, rules0, trace, steps, graph.numberOfNodes);
    }
  }

  lemma {:induction false} MetIsHarmless(net0: Links, barriers: set<nat>, rules0: Rules, trace: seq<GC.State>,
                                         steps: seq<GC.Step>, n: nat)
    requires n <= |trace| && n <= |steps| && GC.AllMet(trace, steps, n)
    ensures AllHarmless(net0, barriers, rules0, trace, steps, n)
  {
    forall v | 0 <= v < n
      ensures !Harmful(net0, barriers, rules0, trace[v], steps[v], v)
    {
      assert GC.Met(trace[v], steps[v], v);
    }
  }

  // ----- it happens -------------------------------------------------------------------------------------------------

  function Plain(): Road {
    Road(1, false, 0, 0)
  }

  /** The roads 0 - 1 - 2, all alike. */
  ghost predicate InARow(net: Links) {
    && (forall k {:trigger k in net} :: k in net <==> Joined(k))
    && (forall k :: k in net ==> net[k] == Plain())
  }

  predicate Joined(k: Key) {
    (k.from == 1 && (k.to == 0 || k.to == 2)) || (k.to == 1 && (k.from == 0 || k.from == 2))
  }

  /** Turning round at 2 is forbidden. */
  ghost predicate NoTurningRound(rules: Rules) {
    && (forall k {:trigger k in rules} :: k in rules <==> k == Key(1, 2))
    && rules[Key(1, 2)] == [Target(1, false)]
  }

  lemma {:induction false} OneRule(list: seq<Restriction>, rules: Rules)
    requires list == [Restriction(1, 2, 1, false)] && IsBuilt(list, rules)
    ensures NoTurningRound(rules) && ViasOf(list) == {2}
  {
    assert list[..0] == [];
    forall k
      ensures Own(list, k) == if k == Key(1, 2) then [Target(1, false)] else []
    {
      assert Own(list[..0], k) == [];
    }
  }

  lemma {:induction false} RowFacts(net: Links, rules: Rules)
    requires InARow(net) && NoTurningRound(rules)
    ensures GC.Original(net, rules) && Matters(net, {}, rules, Key(1, 2))
    ensures !Generated(net, {}, rules, TurnOf(1, 2, 1))
  {
    var bucket := rules[Key(1, 2)];
    assert bucket[0].node == 1 && LeadsBack(bucket, 1) && Blocks(bucket[0], 1);
    assert !SeveralRoads(net, 2);
  }

  lemma {:induction false} MiddleIsEligible(net: Links)
    requires InARow(net)
    ensures Mergeable(net, 2, 1, 0) && GC.Eligible(net, {}, {2}, 1)
  {
    assert Contractible(net, 2, 1, 0);
    EligibleBy(net, {}, {2}, 2, 1, 0);
  }

  lemma {:induction false} EligibleBy(net: Links, barriers: set<nat>, vias: set<nat>, u: nat, v: nat, w: nat)
    requires Mergeable(net, u, v, w) && v !in barriers && v !in vias
    ensures GC.Eligible(net, barriers, vias, v)
  {
  }

  /** Of the two neighbours of node 1 the source makes the one of its first slot w. */
  lemma {:induction false} FirstSlotIsW(net: Links, slots: Slots, u: nat, w: nat)
    requires InARow(net) && slots.Keys == net.Keys && RS.InOrder(slots)
    requires Mergeable(net, u, 1, w) && GC.Oriented(net, slots, 1, u, w)
    ensures u == 2 && w == 0
  {
    assert slots[Key(1, 0)] < slots[Key(1, 2)];
    assert Joined(Key(1, u)) && Joined(Key(1, w));
  }

  lemma {:induction false} LosesHere(net: Links, slots: Slots, rules: Rules, step: GC.Step)
    requires InARow(net) && NoTurningRound(rules) && step.Merge? && step.u == 2
    ensures Harmful(net, {}, rules, GC.StartState(net, slots, rules), step, 1)
  {
    var st := GC.StartState(net, slots, rules);
    RowFacts(net, rules);
    assert RC.Origin(st.net, st.chains, Key(1, 2)) == Key(1, 2);
    assert rules[Key(1, 2)][0] in rules[Key(1, 2)];
  }

  /** Node 1 is removed by merging its roads over u = 2. */
  lemma {:induction false} SecondStep(net: Links, slots: Slots, rules: Rules, st: GC.State, step: GC.Step,
                                      st': GC.State)
    requires InARow(net) && NoTurningRound(rules) && slots.Keys == net.Keys && RS.InOrder(slots)
    requires st == GC.StartState(net, slots, rules) && GC.Turn(st, step, st', Signals({}, 0), {}, {2}, 1)
    ensures step.Merge? && step.u == 2 && step.w == 0 && Contractible(net, 2, 1, 0)
    ensures st' == GC.NextState(st, Signals({}, 0), 1, step)
    ensures Harmful(net, {}, rules, st, step, 1)
  {
    MiddleIsEligible(net);
    FirstSlotIsW(net, slots, step.u, step.w);
    LosesHere(net, slots, rules, step);
  }

  /** Node 0 has one road, node 2 is the via node of the restriction: both stay. */
  lemma {:induction false} OtherSteps(st: GC.State, step: GC.Step, st': GC.State, v: nat)
    requires st.chains.Keys == st.net.Keys == st.slots.Keys && ((v == 0 && InARow(st.net)) || v == 2)
    requires GC.Turn(st, step, st', Signals({}, 0), {}, {2}, v)
    ensures st' == st
  {
    assert !GC.Eligible(st.net, {}, {2}, v);
  }

  /** After that, nothing forbids the turn any more. */
  lemma {:induction false} NowAllowed(net: Links, slots: Slots, rules: Rules, step: GC.Step)
    requires InARow(net) && NoTurningRound(rules) && slots.Keys == net.Keys && Contractible(net, 2, 1, 0)
    requires step.Merge? && step.u == 2 && step.w == 0
    requires RC.TargetsAt(Contracted(net, Signals({}, 0), 2, 1, 0), 2, step.targetsU)
    requires RC.TargetsAt(Contracted(net, Signals({}, 0), 2, 1, 0), 0, step.targetsW)
    ensures var st' := GC.NextState(GC.StartState(net, slots, rules), Signals({}, 0), 1, step);
            Generated(st'.net, {}, st'.rules, TurnOf(0, 2, 0))
            && OriginalTurnOf(st', TurnOf(0, 2, 0)) == TurnOf(1, 2, 1)
  {
    var st := GC.StartState(net, slots, rules);
    var st' := GC.NextState(st, Signals({}, 0), 1, step);
    RC.FixedUpAt(net, Signals({}, 0), rules, 2, 1, 0, step.targetsU, step.targetsW, Key(0, 2));
    assert st'.rules[Key(0, 2)] == rules[Key(1, 2)];
    assert !SeveralRoads(st'.net, 2);
    assert st'.chains[Key(2, 0)] == [] + [1] + [];
  }

  /** The same roads as a sorted list. */
  function RowList(): seq<RS.RoadEdge> {
    [InputEdge(0, 1, Plain()), InputEdge(1, 0, Plain()), InputEdge(1, 2, Plain()), InputEdge(2, 1, Plain())]
  }

  lemma {:induction false} RowIsListed(list: seq<RS.RoadEdge>, net: Links)
    requires list == RowList() && InARow(net)
    ensures RS.Sorted(list) && RS.Describes(list, net)
  {
    assert list[0] in list && list[1] in list && list[2] in list && list[3] in list;
  }

  ghost function Row(): (net: Links)
    ensures InARow(net)
  {
    map[Key(0, 1) := Plain(), Key(1, 0) := Plain(), Key(1, 2) := Plain(), Key(2, 1) := Plain()]
  }

  /** The run that loses the restriction. */
  lemma {:induction false} RowRun(net: Links, slots: Slots, rules: Rules, trace: seq<GC.State>, steps: seq<GC.Step>)
    requires InARow(net) && NoTurningRound(rules) && slots.Keys == net.Keys && RS.InOrder(slots)
    requires GC.Ran(trace, steps, 3, Signals({}, 0), {}, {2}) && trace[0] == GC.StartState(net, slots, rules)
    ensures !AllHarmless(net, {}, rules, trace, steps, 3)
    ensures Generated(trace[3].net, {}, trace[3].rules, TurnOf(0, 2, 0))
    ensures OriginalTurnOf(trace[3], TurnOf(0, 2, 0)) == TurnOf(1, 2, 1)
  {
    TurnOfRun(trace, steps, 3, {2}, 0);
    OtherSteps(trace[0], steps[0], trace[1], 0);
    TurnOfRun(trace, steps, 3, {2}, 1);
    SecondStep(net, slots, rules, trace[1], steps[1], trace[2]);
    TurnOfRun(trace, steps, 3, {2}, 2);
    OtherSteps(trace[2], steps[2], trace[3], 2);
    NowAllowed(net, slots, rules, steps[1]);
  }

  lemma {:induction false} TurnOfRun(trace: seq<GC.State>, steps: seq<GC.Step>, n: nat, vias: set<nat>, v: nat)
    requires GC.Ran(trace, steps, n, Signals({}, 0), {}, vias) && v < n
    ensures trace[v].chains.Keys == trace[v].net.Keys == trace[v].slots.Keys
    ensures GC.Turn(trace[v], steps[v], trace[v + 1], Signals({}, 0), {}, vias, v)
  {
  }

  /** From the stored roads 0 - 1 - 2 through compression to the turns: turning round at 2 was forbidden, and is
      generated. */
  method ReturnLostHere() returns (turns: seq<TurnOf>, ghost net: Links, ghost rules: Rules, ghost st: GC.State)
    ensures InARow(net) && NoTurningRound(rules) && !Generated(net, {}, rules, TurnOf(1, 2, 1))
    ensures TurnOf(0, 2, 0) in turns && OriginalTurnOf(st, TurnOf(0, 2, 0)) == TurnOf(1, 2, 1)
    ensures !SameTurns(net, {}, rules, st, turns)
  {
    net := Row();
    RowIsListed(RowList(), net);
    var graph;
    ghost var slots, trace, steps;
    graph, slots := RS.StoreRoads(3, RowList(), net);
    var restrictions := new RestrictionMap([Restriction(1, 2, 1, false)]);
    rules := restrictions.RulesOf();
    OneRule([Restriction(1, 2, 1, false)], rules);
    RowFacts(net, rules);
    var container := new CG.CompressedEdgeContainer();
    turns, st, trace, steps := CompressAndGenerate(graph, restrictions, container, {}, Signals({}, 0), net, slots);
    RowRun(net, slots, rules, trace, steps);
  }
}
