/** Turn restrictions survive compression: at every node the current rules are the original ones,
    with each neighbour renamed to where its road now leads. */
module RestrictionCarry {
  import opened RoadNetwork
  import opened RestrictionMaps

  /** The original start of the road that now reaches k.to from k.from. */
  ghost function Origin(net: Links, chains: Chains, k: Key): Key
    requires chains.Keys == net.Keys && Flip(k) in net
  {
    Key(First(chains, Flip(k)), k.to)
  }

  /** The current target t at `via` stands for the original target t0. */
  ghost predicate Stands(net: Links, chains: Chains, via: nat, t: Target, t0: Target)
    requires chains.Keys == net.Keys
  {
    t.isOnly == t0.isOnly && Key(via, t.node) in net && First(chains, Key(via, t.node)) == t0.node
  }

  ghost predicate SameBucket(net: Links, chains: Chains, via: nat, bucket: seq<Target>, bucket0: seq<Target>)
    requires chains.Keys == net.Keys
  {
    |bucket| == |bucket0| && forall i :: 0 <= i < |bucket| ==> Stands(net, chains, via, bucket[i], bucket0[i])
  }

  ghost predicate CarriedAt(net: Links, chains: Chains, rules0: Rules, rules: Rules, k: Key)
    requires chains.Keys == net.Keys && Flip(k) in net
  {
    var o := Origin(net, chains, k);
    (k in rules <==> o in rules0) && (k in rules && o in rules0 ==> SameBucket(net, chains, k.to, rules[k], rules0[o]))
  }

  ghost predicate Carried(net: Links, chains: Chains, rules0: Rules, rules: Rules)
    requires chains.Keys == net.Keys && Simple(net)
  {
    && (forall k :: k in rules ==> k in net)
    && (forall k {:trigger CarriedAt(net, chains, rules0, rules, k)} :: k in net ==>
          Flip(k) in net && CarriedAt(net, chains, rules0, rules, k))
  }

  /** Both legs of every restriction are roads. */
  ghost predicate OnRoads(net0: Links, rules0: Rules) {
    forall k :: k in rules0 ==> k in net0 && forall t :: t in rules0[k] ==> Key(k.to, t.node) in net0
  }

  /** No restriction leads back to where it comes from. */
  ghost predicate NoReturns(rules0: Rules) {
    forall k :: k in rules0 ==> forall t :: t in rules0[k] ==> t.node != k.from
  }

  lemma {:induction false} StartCarried(net0: Links, rules0: Rules)
    requires Simple(net0) && OnRoads(net0, rules0)
    ensures Carried(net0, map k | k in net0 :: [], rules0, rules0)
  {
    var chains: Chains := map k | k in net0 :: [];
    forall k | k in net0
      ensures Flip(k) in net0 && CarriedAt(net0, chains, rules0, rules0, k)
    {
      assert Flip(k) in net0;
      assert Origin(net0, chains, k) == k;
    }
  }

  // ----- the answers agree -------------------------------------------------------

  lemma {:induction false} BlocksAgree(net: Links, chains: Chains, via: nat, t: Target, t0: Target, y: nat)
    requires chains.Keys == net.Keys && DistinctFirsts(net, chains) && Stands(net, chains, via, t, t0)
             && Key(via, y) in net
    ensures Blocks(t, y) <==> Blocks(t0, First(chains, Key(via, y)))
  {
    assert First(chains, Key(via, t.node)) == First(chains, Key(via, y)) ==> Key(via, t.node) == Key(via, y);
  }

  /** A turn over compressed roads is forbidden exactly when the original turn at that node is. */
  lemma {:induction false} SameTurns(net: Links, chains: Chains, rules0: Rules, rules: Rules, x: nat, via: nat, y: nat)
    requires chains.Keys == net.Keys && DistinctFirsts(net, chains)
    requires Key(x, via) in net && Key(via, x) in net && Key(via, y) in net
    requires CarriedAt(net, chains, rules0, rules, Key(x, via))
    ensures Forbidden(rules, x, via, y) <==>
            Forbidden(rules0, First(chains, Key(via, x)), via, First(chains, Key(via, y)))
  {
    var k := Key(x, via);
    var o := Origin(net, chains, k);
    assert o == Key(First(chains, Key(via, x)), via);
    if k in rules {
      forall i | 0 <= i < |rules[k]|
        ensures Blocks(rules[k][i], y) <==> Blocks(rules0[o][i], First(chains, Key(via, y)))
      {
        BlocksAgree(net, chains, via, rules[k][i], rules0[o][i], y);
      }
      if i :| 0 <= i < |rules0[o]| && Blocks(rules0[o][i], First(chains, Key(via, y))) {
        assert Blocks(rules[k][i], y);
      }
    }
  }

  lemma {:induction false} SameFirstOnly(net: Links, chains: Chains, via: nat, bucket: seq<Target>,
                                         bucket0: seq<Target>)
    requires chains.Keys == net.Keys && SameBucket(net, chains, via, bucket, bucket0)
    ensures FirstOnly(bucket).None? <==> FirstOnly(bucket0).None?
    ensures FirstOnly(bucket).Some? ==>
              Key(via, FirstOnly(bucket).value) in net
              && First(chains, Key(via, FirstOnly(bucket).value)) == FirstOnly(bucket0).value
  {
    if bucket != [] {
      assert Stands(net, chains, via, bucket[0], bucket0[0]);
      if !bucket[0].isOnly {
        SameFirstOnly(net, chains, via, bucket[1..], bucket0[1..]);
      }
    }
  }

  /** The forced turn from a compressed road is the one forced from the original road. */
  lemma {:induction false} SameOnlyTurn(net: Links, chains: Chains, rules0: Rules, rules: Rules, x: nat, via: nat)
    requires chains.Keys == net.Keys && Key(x, via) in net && Key(via, x) in net
    requires CarriedAt(net, chains, rules0, rules, Key(x, via))
    ensures var r, r0 := OnlyTurn(rules, x, via), OnlyTurn(rules0, First(chains, Key(via, x)), via);
            && (r.None? <==> r0.None?)
            && (r.Some? ==> Key(via, r.value) in net && First(chains, Key(via, r.value)) == r0.value)
  {
    var k := Key(x, via);
    if k in rules {
      SameFirstOnly(net, chains, via, rules[k], rules0[Origin(net, chains, k)]);
    }
  }

  // ----- one compression step ------------------------------------------------------

  /** The fixups of one step, in the order of the source. The target lists are those of u and w
      in the graph after the step. */
  function FixedUp(rules: Rules, u: nat, v: nat, w: nat, targetsU: seq<nat>, targetsW: seq<nat>): Rules {
    var started := Restarted(rules, u, v, w);
    var arrived := Redirected(started, u, v, w, targetsU);
    var restarted := Restarted(arrived, w, v, u);
    Redirected(restarted, w, v, u, targetsW)
  }

  ghost predicate TargetsAt(net: Links, u: nat, targets: seq<nat>) {
    forall x :: x in targets <==> Key(u, x) in net
  }

  /** The key under which the bucket of k was stored before the step. */
  ghost function Source(k: Key, u: nat, v: nat, w: nat): Key {
    if k == Key(u, w) then Key(v, w) else if k == Key(w, u) then Key(v, u) else k
  }

  /** What a step does to a bucket: at u and w, targets v become the far end, except that the bucket
      renamed from (v, u) to (w, u) is left alone. */
  ghost function StepBucket(bucket: seq<Target>, k: Key, u: nat, v: nat, w: nat): seq<Target> {
    if k.to == u && k.from != w then Retarget(bucket, v, w)
    else if k.to == w then Retarget(bucket, v, u)
    else bucket
  }

  lemma {:induction false} RestartedAt(rules: Rules, u: nat, v: nat, w: nat, k: Key)
    requires Key(u, w) !in rules && u != v
    ensures k in Restarted(rules, u, v, w) <==>
              if k == Key(u, w) then Key(v, w) in rules else k in rules && k != Key(v, w)
    ensures k in Restarted(rules, u, v, w) ==>
              Restarted(rules, u, v, w)[k] == rules[if k == Key(u, w) then Key(v, w) else k]
  {
  }

  /** The rules of a network in which v has just been compressed, key by key. */
  lemma {:induction false} FixedUpAt(net: Links, s: Signals, rules: Rules, u: nat, v: nat, w: nat, targetsU: seq<nat>,
                                     targetsW: seq<nat>, k: Key)
    requires Contractible(net, u, v, w) && (forall k :: k in rules ==> k in net && k.to != v)
    requires TargetsAt(Contracted(net, s, u, v, w), u, targetsU) && TargetsAt(Contracted(net, s, u, v, w), w, targetsW)
    ensures var rules' := FixedUp(rules, u, v, w, targetsU, targetsW);
            && (k in rules' <==> k in Contracted(net, s, u, v, w) && Source(k, u, v, w) in rules)
            && (k in rules' ==> rules'[k] == StepBucket(rules[Source(k, u, v, w)], k, u, v, w))
  {
    assert Flip(Key(v, u)) == Key(u, v) && Flip(Key(v, w)) == Key(w, v);
    var started := Restarted(rules, u, v, w);
    var arrived := Redirected(started, u, v, w, targetsU);
    var restarted := Restarted(arrived, w, v, u);
    RestartedAt(rules, u, v, w, k);
    RestartedAt(rules, u, v, w, Key(w, u));
    RestartedAt(rules, u, v, w, Key(v, u));
    RestartedAt(arrived, w, v, u, k);
    assert k in net ==> Flip(k) in net;
    assert k in Contracted(net, s, u, v, w) <==>
             k == Key(u, w) || k == Key(w, u) || (k in net && k.from != v && k.to != v);
    ContractedSimple(net, s, u, v, w);
    assert k in Contracted(net, s, u, v, w) ==> Flip(k) in Contracted(net, s, u, v, w);
    assert k in Contracted(net, s, u, v, w) && k.to == u ==> k.from in targetsU;
    assert k in Contracted(net, s, u, v, w) && k.to == w ==> k.from in targetsW;
  }

  /** Current targets keep standing for their original. */
  lemma {:induction false} StepStands(net: Links, chains: Chains, s: Signals, u: nat, v: nat, w: nat, via: nat,
                                      t: Target, t0: Target, t': Target)
    requires Contractible(net, u, v, w) && chains.Keys == net.Keys && via != v && Stands(net, chains, via, t, t0)
    requires t' == if t.node == v then t.(node := if via == u then w else u) else t
    ensures ContractedChains(chains, u, v, w).Keys == Contracted(net, s, u, v, w).Keys
    ensures Stands(Contracted(net, s, u, v, w), ContractedChains(chains, u, v, w), via, t', t0)
  {
    SameKeys(net, chains, s, u, v, w);
    var k' := Key(via, t'.node);
    assert Flip(Key(via, t.node)) in net;
    assert k' in ContractedChains(chains, u, v, w);
    FirstAfter(net, chains, u, v, w, k');
    assert Before(k', u, v, w) == Key(via, t.node);
  }

  /** No restriction leads from v over u back to v. */
  ghost predicate ReturnFree(rules: Rules, v: nat, u: nat) {
    Key(v, u) in rules ==> forall t :: t in rules[Key(v, u)] ==> t.node != v
  }

  /** After the step, each bucket still stands for its original one, provided that no restriction
      leads from v over u back to v. */
  lemma {:induction false} StepBuckets(net: Links, chains: Chains, s: Signals, rules0: Rules, rules: Rules, u: nat,
                                       v: nat, w: nat, k: Key, bucket0: seq<Target>)
    requires Contractible(net, u, v, w) && chains.Keys == net.Keys
    requires k in Contracted(net, s, u, v, w) && Source(k, u, v, w) in rules
    requires SameBucket(net, chains, k.to, rules[Source(k, u, v, w)], bucket0)
    requires k == Key(w, u) ==> forall t :: t in rules[Key(v, u)] ==> t.node != v
    ensures ContractedChains(chains, u, v, w).Keys == Contracted(net, s, u, v, w).Keys
    ensures SameBucket(Contracted(net, s, u, v, w), ContractedChains(chains, u, v, w), k.to,
                       StepBucket(rules[Source(k, u, v, w)], k, u, v, w), bucket0)
  {
    SameKeys(net, chains, s, u, v, w);
    var bucket := rules[Source(k, u, v, w)];
    var bucket' := StepBucket(bucket, k, u, v, w);
    forall i | 0 <= i < |bucket|
      ensures Stands(Contracted(net, s, u, v, w), ContractedChains(chains, u, v, w), k.to, bucket'[i], bucket0[i])
    {
      assert bucket[i] in bucket && Stands(net, chains, k.to, bucket[i], bucket0[i]);
      assert bucket[i].node == v ==> Flip(Key(k.to, v)) in net;
      StepStands(net, chains, s, u, v, w, k.to, bucket[i], bucket0[i], bucket'[i]);
    }
  }

  /** Compressing v, which is no via node, carries the restrictions along. */
  lemma {:induction false} StepCarried(net: Links, chains: Chains, s: Signals, rules0: Rules, rules: Rules, u: nat,
                                       v: nat, w: nat, targetsU: seq<nat>, targetsW: seq<nat>)
    requires Contractible(net, u, v, w) && chains.Keys == net.Keys && Carried(net, chains, rules0, rules)
    requires forall k :: k in rules ==> k.to != v
    requires TargetsAt(Contracted(net, s, u, v, w), u, targetsU) && TargetsAt(Contracted(net, s, u, v, w), w, targetsW)
    requires ReturnFree(rules, v, u)
    ensures ContractedChains(chains, u, v, w).Keys == Contracted(net, s, u, v, w).Keys
            && Simple(Contracted(net, s, u, v, w))
    ensures Carried(Contracted(net, s, u, v, w), ContractedChains(chains, u, v, w), rules0,
                    FixedUp(rules, u, v, w, targetsU, targetsW))
  {
    var net', chains', rules' := Contracted(net, s, u, v, w), ContractedChains(chains, u, v, w), FixedUp(rules, u, v, w,
          targetsU, targetsW);
    ContractedSimple(net, s, u, v, w);
    SameKeys(net, chains, s, u, v, w);
    forall k | k in rules'
      ensures k in net'
    {
      FixedUpAt(net, s, rules, u, v, w, targetsU, targetsW, k);
    }
    forall k | k in net'
      ensures Flip(k) in net' && CarriedAt(net', chains', rules0, rules', k)
    {
      assert Flip(k) in net';
      FixedUpAt(net, s, rules, u, v, w, targetsU, targetsW, k);
      var l := Source(k, u, v, w);
      assert l in net && CarriedAt(net, chains, rules0, rules, l);
      FirstAfter(net, chains, u, v, w, Flip(k));
      assert Flip(l) == Before(Flip(k), u, v, w);
      assert Origin(net', chains', k) == Origin(net, chains, l);
      if l in rules {
        StepBuckets(net, chains, s, rules0, rules, u, v, w, k, rules0[Origin(net, chains, l)]);
      }
    }
  }

  /** Restrictions that do not lead back never get a target that does. */
  lemma {:induction false} NoReturnAt(net: Links, chains: Chains, rules0: Rules, rules: Rules, k: Key)
    requires chains.Keys == net.Keys && Simple(net) && Carried(net, chains, rules0, rules) && NoReturns(rules0)
             && k in rules
    ensures forall t :: t in rules[k] ==> t.node != k.from
  {
    assert Flip(k) in net && CarriedAt(net, chains, rules0, rules, k);
    var o := Origin(net, chains, k);
    forall t | t in rules[k]
      ensures t.node != k.from
    {
      var i :| 0 <= i < |rules[k]| && rules[k][i] == t;
      assert Stands(net, chains, k.to, t, rules0[o][i]) && rules0[o][i] in rules0[o];
      assert Flip(k) == Key(k.to, k.from);
    }
  }

  /** A bucket as the constructor leaves it: plain restrictions, or one forced turn. */
  ghost predicate Uniform(bucket: seq<Target>) {
    |bucket| == 1 || forall t :: t in bucket ==> !t.isOnly
  }

  lemma {:induction false} SettledUniform(own: seq<Target>)
    ensures Uniform(Settled(own))
  {
  }

  /** The order of the fixups matters: a restriction from v over u back to v is not renamed, and
      the answer for the turn from w over u back to w changes. */
  lemma {:induction false} ReturnIsLost(net: Links, chains: Chains, s: Signals, rules0: Rules, rules: Rules, u: nat,
                                        v: nat, w: nat, targetsU: seq<nat>, targetsW: seq<nat>, only: bool)
    requires Contractible(net, u, v, w) && chains.Keys == net.Keys && DistinctFirsts(net, chains)
             && Carried(net, chains, rules0, rules)
    requires forall k :: k in rules ==> k.to != v
    requires TargetsAt(Contracted(net, s, u, v, w), u, targetsU) && TargetsAt(Contracted(net, s, u, v, w), w, targetsW)
    requires Key(v, u) in rules && Uniform(rules[Key(v, u)]) && Target(v, only) in rules[Key(v, u)]
    ensures var first := First(chains, Key(u, v));
            Forbidden(FixedUp(rules, u, v, w, targetsU, targetsW), w, u, w) <==> !Forbidden(rules0, first, u, first)
  {
    var rules' := FixedUp(rules, u, v, w, targetsU, targetsW);
    var bucket := rules[Key(v, u)];
    FixedUpAt(net, s, rules, u, v, w, targetsU, targetsW, Key(w, u));
    assert CarriedAt(net, chains, rules0, rules, Key(v, u));
    SameTurns(net, chains, rules0, rules, v, u, v);
    forall i | 0 <= i < |bucket|
      ensures bucket[i].node != w
    {
      assert Stands(net, chains, u, bucket[i], rules0[Origin(net, chains, Key(v, u))][i]);
    }
    ReturnAnswers(bucket, v, w, only);
  }

  lemma {:induction false} ReturnAnswers(bucket: seq<Target>, v: nat, w: nat, only: bool)
    requires Uniform(bucket) && Target(v, only) in bucket && forall i :: 0 <= i < |bucket| ==> bucket[i].node != w
    ensures AnyBlocks(bucket, w) == only && AnyBlocks(bucket, v) == !only
  {
    var j :| 0 <= j < |bucket| && bucket[j] == Target(v, only);
    assert forall i :: 0 <= i < |bucket| ==> bucket[i] in bucket;
    assert Blocks(bucket[j], w) <==> only;
    assert Blocks(bucket[j], v) <==> !only;
  }
}
